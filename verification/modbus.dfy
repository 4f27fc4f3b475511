/**
  The part of the Modbus RTU client library that the meter codec relies on:
  the client-side request state, the "Read Holding Registers" request frame,
  the RTU CRC-16 and the response check. The library's own validation of a
  response is not visible to this model, so the codec receives it as a
  function-valued parameter of type `ParseOk`; `RtuParseOk` is one admissible
  instance, a length-consistent RTU check. It departs from section 6.3 of the
  MODBUS Application Protocol Specification in one point: the byte count is
  checked against the frame length, not against twice the requested quantity.
 */
module Modbus {
  import opened Bytes
  import opened Results

  /** Failure reasons reported by the Modbus layer. The codec never inspects
      them; it only carries them to its caller. */
  datatype ErrorKind =
    | OutOfBounds             // the output buffer cannot hold the frame
    | FrameBroken             // a response that does not match the request
    | FrameCrcError           // a response whose CRC does not match its bytes
    | DeviceException(code: byte)  // the device answered with an exception

  datatype Proto = Rtu

  /** Client-side state: the slave addressed and, once a request has been
      generated, the function, start register and quantity it asked for. */
  datatype ModbusRequest = ModbusRequest(unitId: byte, proto: Proto, func: byte, reg: u16, count: u16)

  /** Function code "Read Holding Registers" (section 6.3 of the MODBUS
      Application Protocol Specification V1.1b3). */
  const GET_HOLDINGS: byte := 0x03

  /** The length of a "Read Holding Registers" request in RTU framing:
      address, function, two-byte start address, two-byte quantity, CRC. */
  const GET_HOLDINGS_FRAME_LEN: nat := 8

  function NewRequest(unitId: byte, proto: Proto): ModbusRequest {
    ModbusRequest(unitId, proto, 0, 0, 0)
  }

  // ---- CRC-16 of section 2.5.1.2 / 6.2.2 of MODBUS over Serial Line V1.02 ----

  /** One bit of the shift register: shift right, and xor the reflected
      polynomial 0xA001 in when the bit shifted out was a one. */
  function CrcShift(crc: bv16): bv16 {
    if crc & 1 == 1 then (crc >> 1) ^ 0xA001 else crc >> 1
  }

  /** Folds one byte into the CRC register: xor it into the low byte, then
      eight shifts. */
  function CrcUpdate(crc: bv16, b: byte): bv16 {
    var c := crc ^ (b as bv16);
    CrcShift(CrcShift(CrcShift(CrcShift(CrcShift(CrcShift(CrcShift(CrcShift(c))))))))
  }

  function CrcFrom(crc: bv16, data: seq<byte>): bv16
    decreases |data|
  {
    if |data| == 0 then crc else CrcFrom(CrcUpdate(crc, data[0]), data[1..])
  }

  /** The CRC register can be run over a frame piece by piece. */
  lemma {:induction false} CrcFromAppend(crc: bv16, a: seq<byte>, b: seq<byte>)
    ensures CrcFrom(crc, a + b) == CrcFrom(CrcFrom(crc, a), b)
    decreases |a|
  {
    if |a| == 0 {
      assert a + b == b;
    } else {
      assert (a + b)[0] == a[0];
      assert (a + b)[1..] == a[1..] + b;
      CrcFromAppend(CrcUpdate(crc, a[0]), a[1..], b);
    }
  }

  /** CRC-16/MODBUS: register preset to 0xFFFF, every byte folded in order. */
  function Crc16(data: seq<byte>): bv16 {
    CrcFrom(0xFFFF, data)
  }

  /** The two CRC bytes appended to an RTU frame, low-order byte first. */
  function CrcBytes(data: seq<byte>): (b: seq<byte>)
    ensures |b| == 2
  {
    var crc := Crc16(data) as int;
    [(crc % 0x100) as byte, (crc / 0x100) as byte]
  }

  /** True when the last two bytes of `frame` are the CRC of the rest. */
  predicate CrcValid(frame: seq<byte>)
  {
    |frame| >= 2 && frame[|frame| - 2..] == CrcBytes(frame[..|frame| - 2])
  }

  // ---- Read Holding Registers request ----

  /** The shape of a "Read Holding Registers" request in RTU framing for
      slave `unitId`, start register `reg` and quantity `count`. */
  predicate IsGetHoldingsFrame(frame: seq<byte>, unitId: byte, reg: u16, count: u16)
  {
    && |frame| == GET_HOLDINGS_FRAME_LEN
    && frame[0] == unitId
    && frame[1] == GET_HOLDINGS
    && BeU16(frame[2..4]) == reg
    && BeU16(frame[4..6]) == count
    && CrcValid(frame)
  }

  /** Encodes a "Read Holding Registers" request into a buffer that can hold
      `capacity` bytes, and records in the returned state what a matching
      response must look like. */
  function GenerateGetHoldings(req: ModbusRequest, reg: u16, count: u16, capacity: nat)
    : (r: Result<(ModbusRequest, seq<byte>), ErrorKind>)
    ensures r.Ok? <==> capacity >= GET_HOLDINGS_FRAME_LEN
    ensures r.Err? ==> r.error == OutOfBounds
    ensures r.Ok? ==> IsGetHoldingsFrame(r.value.1, req.unitId, reg, count)
    ensures r.Ok? ==> r.value.0 == ModbusRequest(req.unitId, req.proto, GET_HOLDINGS, reg, count)
  {
    var header := [req.unitId, GET_HOLDINGS] + U16ToBe(reg) + U16ToBe(count);
    var frame := header + CrcBytes(header);
    if |frame| > capacity then Err(OutOfBounds)
    else
      BeU16Inverse(reg);
      BeU16Inverse(count);
      assert frame[2..4] == U16ToBe(reg) && frame[4..6] == U16ToBe(count);
      assert frame[..6] == header;
      Ok((ModbusRequest(req.unitId, req.proto, GET_HOLDINGS, reg, count), frame))
  }

  /** The receiving side of a request: recovers slave, start register and
      quantity from an RTU "Read Holding Registers" frame, or `None` when the
      bytes are not one. */
  function ParseGetHoldings(frame: seq<byte>): (r: Option<(byte, u16, u16)>)
    ensures r.Some? ==> IsGetHoldingsFrame(frame, r.value.0, r.value.1, r.value.2)
    ensures forall unitId, reg, count ::
              IsGetHoldingsFrame(frame, unitId, reg, count) ==> r == Some((unitId, reg, count))
  {
    if |frame| == GET_HOLDINGS_FRAME_LEN && frame[1] == GET_HOLDINGS && CrcValid(frame)
    then Some((frame[0], BeU16(frame[2..4]), BeU16(frame[4..6])))
    else None
  }

  /** Generating a request and parsing it back yields the parameters it was
      generated from. */
  lemma GetHoldingsRoundTrip(req: ModbusRequest, reg: u16, count: u16, capacity: nat)
    requires capacity >= GET_HOLDINGS_FRAME_LEN
    ensures ParseGetHoldings(GenerateGetHoldings(req, reg, count, capacity).value.1)
            == Some((req.unitId, reg, count))
  {
  }

  /** The encoding is canonical: every well-formed request frame is exactly
      the one the generator produces for the parameters it carries. */
  lemma GetHoldingsCanonical(frame: seq<byte>, req: ModbusRequest, capacity: nat)
    requires capacity >= GET_HOLDINGS_FRAME_LEN
    requires ParseGetHoldings(frame).Some?
    requires req.unitId == ParseGetHoldings(frame).value.0
    ensures GenerateGetHoldings(req, ParseGetHoldings(frame).value.1, ParseGetHoldings(frame).value.2, capacity).value.1
            == frame
  {
    U16ToBeInverse(frame[2..4]);
    U16ToBeInverse(frame[4..6]);
    var header := frame[..6];
    assert header == [frame[0], frame[1]] + frame[2..4] + frame[4..6];
    assert frame == header + frame[6..];
  }

  // ---- Response check ----

  /** How the codec consults the Modbus layer about a response: given the
      request state and the received bytes, it passes or names what is wrong. */
  type ParseOk = (ModbusRequest, seq<byte>) -> Outcome<ErrorKind>

  /** The fields a register-read response must carry to answer `req`: its
      slave address and function code, a byte count that agrees with the
      frame's length, and a valid CRC. */
  predicate AnswersRead(req: ModbusRequest, frame: seq<byte>)
  {
    && |frame| >= 5
    && |frame| == frame[2] as int + 5
    && frame[0] == req.unitId
    && frame[1] == req.func
    && CrcValid(frame)
  }

  /** A length-consistent RTU response check: a frame too short to
      hold address, function, one byte and CRC is broken; a bad CRC is
      reported as such; the exception form of the function code (high bit
      set, section 7 of the application protocol) carries the device's
      exception code; anything else that does not answer the request is
      broken. The byte count is checked against the frame length only, not
      against twice the requested quantity (see `Meter.ByteCountPerRegister`). */
  function RtuParseOk(req: ModbusRequest, frame: seq<byte>): (r: Outcome<ErrorKind>)
    ensures r.Pass? <==> AnswersRead(req, frame)
    ensures |frame| >= 5 && !CrcValid(frame) ==> r == Fail(FrameCrcError)
  {
    if |frame| < 5 then Fail(FrameBroken)
    else if !CrcValid(frame) then Fail(FrameCrcError)
    else if frame[0] != req.unitId then Fail(FrameBroken)
    else if frame[1] as int == req.func as int + 0x80 then Fail(DeviceException(frame[2]))
    else if frame[1] != req.func then Fail(FrameBroken)
    else if |frame| != frame[2] as int + 5 then Fail(FrameBroken)
    else Pass
  }
}
