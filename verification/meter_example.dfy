/**
  The worked example from the codec's unit test: the literal request, the
  unit test's 37-byte response, and what it decodes to.
 */
module MeterExample {
  import opened Bytes
  import opened Results
  import opened Modbus
  import opened Measurements
  import opened Meter

  /** Address 1, function 3, byte count 32. */
  const HEADER: seq<byte> := [0x01, 0x03, 0x20]

  /** The register block, one big-endian word per measurement: power factor
      999, temperature 2900, frequency 5000, every other field zero. */
  const WORD0: seq<byte> := [0x00, 0x00, 0x00, 0x00]
  const WORD1: seq<byte> := [0x00, 0x00, 0x00, 0x00]
  const WORD2: seq<byte> := [0x00, 0x00, 0x00, 0x00]
  const WORD3: seq<byte> := [0x00, 0x00, 0x00, 0x00]
  const WORD4: seq<byte> := [0x00, 0x00, 0x03, 0xE7]
  const WORD5: seq<byte> := [0x00, 0x00, 0x00, 0x00]
  const WORD6: seq<byte> := [0x00, 0x00, 0x0B, 0x54]
  const WORD7: seq<byte> := [0x00, 0x00, 0x13, 0x88]
  const PAYLOAD: seq<byte> := WORD0 + WORD1 + WORD2 + WORD3 + WORD4 + WORD5 + WORD6 + WORD7

  /** The CRC of header and register block, low-order byte first. */
  const CRC: seq<byte> := [0xD9, 0xBE]

  const RESPONSE: seq<byte> := HEADER + PAYLOAD + CRC

  /** The CRC register over a literal three-byte piece of a frame, given its
      value after each byte. */
  lemma CrcOfThree(crc: bv16, data: seq<byte>, c1: bv16, c2: bv16, c3: bv16)
    requires |data| == 3
    requires CrcUpdate(crc, data[0]) == c1 && CrcUpdate(c1, data[1]) == c2
    requires CrcUpdate(c2, data[2]) == c3
    ensures CrcFrom(crc, data) == c3
  {
    assert CrcFrom(crc, data) == CrcFrom(c1, data[1..]);
    assert CrcFrom(c1, data[1..]) == CrcFrom(c2, data[2..]);
    assert CrcFrom(c2, data[2..]) == CrcFrom(c3, data[3..]);
  }

  /** The CRC register over a literal four-byte piece of a frame, given its
      value after each byte. */
  lemma CrcOfFour(crc: bv16, data: seq<byte>, c1: bv16, c2: bv16, c3: bv16, c4: bv16)
    requires |data| == 4
    requires CrcUpdate(crc, data[0]) == c1 && CrcUpdate(c1, data[1]) == c2
    requires CrcUpdate(c2, data[2]) == c3 && CrcUpdate(c3, data[3]) == c4
    ensures CrcFrom(crc, data) == c4
  {
    CrcOfThree(c1, data[1..], c2, c3, c4);
  }

  /** The CRC register over the register block, started from its value
      after the header, one word at a time. */
  lemma PayloadCrc()
    ensures CrcFrom(0x2821, PAYLOAD) == 0xBED9
  {
    CrcOfFour(0x2821, WORD0, 0x18E8, 0x4E18, 0x0A4E, 0x348A);
    CrcOfFour(0x348A, WORD1, 0xA7B5, 0xB766, 0x2A37, 0xD66B);
    CrcFromAppend(0x2821, WORD0, WORD1);
    CrcOfFour(0xD66B, WORD2, 0xEF97, 0xAEAE, 0xBC2F, 0xDCFD);
    CrcFromAppend(0x2821, WORD0 + WORD1, WORD2);
    CrcOfFour(0xDCFD, WORD3, 0x811D, 0x0941, 0x30C9, 0x56F0);
    CrcFromAppend(0x2821, WORD0 + WORD1 + WORD2, WORD3);
    CrcOfFour(0x56F0, WORD4, 0x4456, 0x3EC4, 0x927F, 0xAA93);
    CrcFromAppend(0x2821, WORD0 + WORD1 + WORD2 + WORD3, WORD4);
    CrcOfFour(0xAA93, WORD5, 0x6DEA, 0x8FEC, 0x8D8E, 0x640D);
    CrcFromAppend(0x2821, WORD0 + WORD1 + WORD2 + WORD3 + WORD4, WORD5);
    CrcOfFour(0x640D, WORD6, 0xC5A5, 0x7B05, 0xC4FA, 0xBC45);
    CrcFromAppend(0x2821, WORD0 + WORD1 + WORD2 + WORD3 + WORD4 + WORD5, WORD6);
    CrcOfFour(0xBC45, WORD7, 0xF37D, 0x2133, 0xD820, 0xBED9);
    CrcFromAppend(0x2821, WORD0 + WORD1 + WORD2 + WORD3 + WORD4 + WORD5 + WORD6, WORD7);
  }

  /** The trailing two bytes of the example are the CRC of the 35 before. */
  lemma ResponseCrcValid()
    ensures CrcValid(RESPONSE)
  {
    CrcOfThree(0xFFFF, HEADER, 0x807E, 0x2140, 0x2821);
    PayloadCrc();
    CrcFromAppend(0xFFFF, HEADER, PAYLOAD);
    assert RESPONSE[..35] == HEADER + PAYLOAD;
    assert Crc16(RESPONSE[..35]) == 0xBED9;
  }

  /** The register block of the example decodes to power factor 999/1000,
      temperature 29, frequency 50, and zero elsewhere. */
  lemma PayloadDecodes()
    ensures From(PAYLOAD) == Ok(Readings(0.0, 0.0, 0.0, 0.0, 999.0 / 1000.0, 0.0, 29.0, 50.0))
  {
    FromFieldLayout(PAYLOAD);
    assert PAYLOAD[0..4] == WORD0;
    assert PAYLOAD[4..8] == WORD1;
    assert PAYLOAD[8..12] == WORD2;
    assert PAYLOAD[12..16] == WORD3;
    assert PAYLOAD[16..20] == WORD4;
    assert PAYLOAD[20..24] == WORD5;
    assert PAYLOAD[24..28] == WORD6;
    assert PAYLOAD[28..32] == WORD7;
  }

  /** Whatever response check is supplied, if it accepts the example frame
      the session decodes it to the record above. */
  lemma ExampleDecodes(parseOk: ParseOk)
    requires parseOk(New().value.req, RESPONSE).Pass?
    ensures Response(New().value, RESPONSE, parseOk)
            == Ok(Readings(0.0, 0.0, 0.0, 0.0, 999.0 / 1000.0, 0.0, 29.0, 50.0))
  {
    assert RESPONSE[3..35] == PAYLOAD;
    PayloadDecodes();
  }

  /** The example end to end with the length-consistent RTU check. */
  lemma ExampleAccepted()
    ensures Response(New().value, RESPONSE, RtuParseOk)
            == Ok(Readings(0.0, 0.0, 0.0, 0.0, 999.0 / 1000.0, 0.0, 29.0, 50.0))
  {
    ResponseCrcValid();
    ExampleDecodes(RtuParseOk);
  }
}
