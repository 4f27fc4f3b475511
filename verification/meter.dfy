/**
  The session object of the IM12xx power meter codec: it builds the one
  request the meter understands once, hands it out on demand, and turns the
  meter's answer into a `PowerState`.
 */
module Meter {
  import opened Bytes
  import opened Results
  import opened Modbus
  import opened Errors
  import opened Measurements

  /** The meter's slave address. */
  const MODBUS_ADDR: byte := 1
  /** First holding register of the measurement block. */
  const REG_ADDR: u16 := 0x48
  /** Registers requested. The meter answers each with four bytes, one
      big-endian 32-bit measurement per register. */
  const REG_COUNT: u16 := 8
  /** Capacity of the buffer the request is encoded into. */
  const BUFFER_SIZE: nat := 256

  /** Bytes before the register block in a response: address, function,
      byte count. */
  const HEADER_LEN: nat := 3
  /** Bytes after the register block: the CRC. */
  const CRC_LEN: nat := 2
  /** The only response length the codec accepts. */
  const RESPONSE_LEN: nat := HEADER_LEN + PAYLOAD_LEN + CRC_LEN

  /** The encoded request and the Modbus client state kept to check the
      matching response. */
  datatype Im12xx = Im12xx(reqBytes: seq<byte>, req: ModbusRequest)
  {
    /** What construction establishes and nothing afterwards changes: the
        stored frame is the "Read Holding Registers" request for the fixed
        register block, and the client state expects its answer. */
    predicate Valid()
    {
      && IsGetHoldingsFrame(reqBytes, MODBUS_ADDR, REG_ADDR, REG_COUNT)
      && req == ModbusRequest(MODBUS_ADDR, Rtu, GET_HOLDINGS, REG_ADDR, REG_COUNT)
    }
  }

  /** Builds a session whose request is encoded into a buffer of `capacity`
      bytes; a failure of the Modbus layer is passed on as `ModbusErr`. */
  function NewIn(capacity: nat): (r: Result<Im12xx, Error>)
    ensures r.Ok? <==> capacity >= GET_HOLDINGS_FRAME_LEN
    ensures r.Ok? ==> r.value.Valid()
    ensures r.Err? ==> r.error == ModbusErr(OutOfBounds)
  {
    match GenerateGetHoldings(NewRequest(MODBUS_ADDR, Rtu), REG_ADDR, REG_COUNT, capacity)
    case Err(e) => Err(ModbusErr(e))
    case Ok((req, frame)) => Ok(Im12xx(frame, req))
  }

  /** Builds the session in the 256-byte buffer. Frame generation cannot
      fail there, and the request is the literal eight bytes the meter
      expects. */
  function New(): (r: Result<Im12xx, Error>)
    ensures r.Ok? && r.value.Valid()
    ensures r.value.reqBytes == [1, 3, 0, 72, 0, 8, 196, 26]
  {
    var r := NewIn(BUFFER_SIZE);
    RequestIsLiteral(r.value);
    r
  }

  /** The request to send. Every valid session yields the same eight bytes:
      slave 1, function 3, start register 0x0048, quantity 8, CRC 0x1AC4 low
      byte first. */
  function Request(s: Im12xx): (r: seq<byte>)
    requires s.Valid()
    ensures r == [1, 3, 0, 72, 0, 8, 196, 26]
    ensures ParseGetHoldings(r) == Some((MODBUS_ADDR, REG_ADDR, REG_COUNT))
  {
    RequestIsLiteral(s);
    s.reqBytes
  }

  /** Decodes a response. The length is checked before the Modbus layer is
      consulted; a frame the layer refuses yields its error and no record;
      otherwise the register block between header and CRC is decoded. */
  function Response(s: Im12xx, data: seq<byte>, parseOk: ParseOk): (r: Result<PowerState, Error>)
    ensures |data| != RESPONSE_LEN ==> r == Err(ResponseParseErr)
    ensures |data| == RESPONSE_LEN && parseOk(s.req, data).Fail? ==>
              r == Err(ModbusErr(parseOk(s.req, data).error))
    ensures r.Ok? <==> |data| == RESPONSE_LEN && parseOk(s.req, data).Pass?
    ensures r.Ok? ==> r == From(data[HEADER_LEN..HEADER_LEN + PAYLOAD_LEN])
  {
    var len := |data|;
    if len != RESPONSE_LEN then Err(ResponseParseErr)
    else
      match parseOk(s.req, data)
      case Fail(e) => Err(ModbusErr(e))
      case Pass =>
        From(data[HEADER_LEN..len - CRC_LEN])
  }

  // ---- Properties ----

  /** The CRC of the request header for the fixed register block. */
  lemma RequestCrc()
    ensures CrcBytes([1, 3, 0, 72, 0, 8]) == [196, 26]
  {
    var header: seq<byte> := [1, 3, 0, 72, 0, 8];
    assert CrcUpdate(0xFFFF, 1) == 0x807E;
    assert CrcUpdate(0x807E, 3) == 0x2140;
    assert CrcUpdate(0x2140, 0) == 0xF020;
    assert CrcUpdate(0xF020, 72) == 0xEEF1;
    assert CrcUpdate(0xEEF1, 0) == 0x842F;
    assert CrcUpdate(0x842F, 8) == 0x1AC4;
    assert header[1..][1..][1..][1..][1..][1..] == [];
    assert Crc16(header) == 0x1AC4;
  }

  /** A valid session's stored frame is the literal request. */
  lemma RequestIsLiteral(s: Im12xx)
    requires s.Valid()
    ensures s.reqBytes == [1, 3, 0, 72, 0, 8, 196, 26]
  {
    var f := s.reqBytes;
    U16ToBeInverse(f[2..4]);
    U16ToBeInverse(f[4..6]);
    assert f[..6] == [1, 3, 0, 72, 0, 8];
    RequestCrc();
    assert f == f[..6] + f[6..];
  }

  /** Measurement `i` of an accepted response is the big-endian word at
      bytes `3 + 4i .. 6 + 4i` of the frame, scaled by its field's power of
      ten. */
  lemma ResponseFieldBytes(s: Im12xx, data: seq<byte>, parseOk: ParseOk, i: nat)
    requires Response(s, data, parseOk).Ok? && i < FIELD_COUNT
    ensures Response(s, data, parseOk).value.At(i)
            == Scaled(BeU32(data[HEADER_LEN + 4 * i..HEADER_LEN + 4 * i + 4]), SCALE_EXPONENTS.At(i))
  {
    assert |data| == 37;
    var payload := data[3..35];
    var r := Response(s, data, parseOk);
    assert r == From(payload);
    FromField(payload, i);
    SubSlice(data, 3, 35, 4 * i, 4 * i + 4);
  }

  /** Which response check is supplied makes no difference to a buffer of
      the wrong length: the length is checked first. */
  lemma LengthCheckedFirst(s: Im12xx, data: seq<byte>, p1: ParseOk, p2: ParseOk)
    requires |data| != RESPONSE_LEN
    ensures Response(s, data, p1) == Response(s, data, p2) == Err(ResponseParseErr)
  {
  }

  /** Only the register block is decoded: two accepted responses that agree
      on bytes 3 .. 34 decode to the same record, whatever their header and
      CRC bytes. */
  lemma ResponseReadsOnlyPayload(s: Im12xx, d1: seq<byte>, d2: seq<byte>, parseOk: ParseOk)
    requires |d1| == RESPONSE_LEN && |d2| == RESPONSE_LEN
    requires parseOk(s.req, d1).Pass? && parseOk(s.req, d2).Pass?
    requires d1[HEADER_LEN..HEADER_LEN + PAYLOAD_LEN] == d2[HEADER_LEN..HEADER_LEN + PAYLOAD_LEN]
    ensures Response(s, d1, parseOk) == Response(s, d2, parseOk)
    ensures Response(s, d1, parseOk).Ok?
  {
    assert d1[HEADER_LEN..RESPONSE_LEN - CRC_LEN] == d2[HEADER_LEN..RESPONSE_LEN - CRC_LEN];
  }

  /** The error `NoRequest` is declared but no operation produces it. */
  lemma NoRequestNeverProduced(s: Im12xx, data: seq<byte>, parseOk: ParseOk, capacity: nat)
    ensures NewIn(capacity) != Err(NoRequest)
    ensures Response(s, data, parseOk) != Err(NoRequest)
  {
  }

  /** With the length-consistent RTU check, a valid session decodes exactly the
      37-byte frames from slave 1, function 3, with byte count 32 and a valid
      CRC. */
  lemma ResponseUnderRtuCheck(s: Im12xx, data: seq<byte>)
    requires s.Valid()
    ensures Response(s, data, RtuParseOk).Ok? <==>
              && |data| == RESPONSE_LEN
              && data[0] == MODBUS_ADDR
              && data[1] == GET_HOLDINGS
              && data[2] as int == PAYLOAD_LEN
              && CrcValid(data)
  {
  }

  /** A corollary of `LengthCheckedFirst` for the device's byte count. The
      register block the codec decodes (`PAYLOAD_LEN`, 32 bytes) is four
      bytes per requested register, twice the two bytes per register of
      section 6.3 of the MODBUS Application Protocol Specification: a
      length-consistent response carrying that section's byte count for
      quantity 8 (16 bytes, a 21-byte frame) is never decoded. */
  lemma ByteCountPerRegister(s: Im12xx, data: seq<byte>, parseOk: ParseOk)
    requires |data| >= HEADER_LEN && data[2] as int == 2 * REG_COUNT as int
    requires |data| == data[2] as int + HEADER_LEN + CRC_LEN
    ensures Response(s, data, parseOk) == Err(ResponseParseErr)
  {
  }
}
