/**
  The meter's eight measurements and their two byte encodings: the wire
  encoding of the register block (big-endian fixed-point integers scaled by
  a power of ten per field) and the storage encoding (each field's 32-bit
  pattern, big-endian, unscaled).
 */
module Measurements {
  import opened Bytes
  import opened Results
  import opened Errors

  /** The number of measurements: eight big-endian 32-bit fields. */
  const FIELD_COUNT: nat := 8

  /** The bytes of the register block: four per measurement. */
  const PAYLOAD_LEN: nat := 4 * FIELD_COUNT

  /** One value per measurement, in the order the device lays them out. */
  datatype Readings<T> = Readings(
    voltage: T,
    current: T,
    activePower: T,
    activeEnergy: T,
    powerFactor: T,
    co2Emissions: T,
    temperature: T,
    frequency: T)
  {
    /** The measurement at position `i` of the register block. */
    function At(i: nat): T
      requires i < FIELD_COUNT
    {
      match i
      case 0 => voltage
      case 1 => current
      case 2 => activePower
      case 3 => activeEnergy
      case 4 => powerFactor
      case 5 => co2Emissions
      case 6 => temperature
      case _ => frequency
    }

    function ToSeq(): (s: seq<T>)
      ensures |s| == FIELD_COUNT
      ensures forall i :: 0 <= i < FIELD_COUNT ==> s[i] == At(i)
    {
      [voltage, current, activePower, activeEnergy, powerFactor, co2Emissions, temperature, frequency]
    }

    static function FromSeq(s: seq<T>): (r: Readings<T>)
      requires |s| == FIELD_COUNT
      ensures forall i :: 0 <= i < FIELD_COUNT ==> r.At(i) == s[i]
    {
      Readings(s[0], s[1], s[2], s[3], s[4], s[5], s[6], s[7])
    }
  }

  /** Physical values decoded from the wire, as exact rationals. */
  type PowerState = Readings<real>

  /** The 32-bit patterns of a record's fields, as kept in storage. */
  type PowerBits = Readings<u32>

  /** Register value `raw` stands for `raw / 10^k` of the field's unit,
      with `k` given here per field. */
  const SCALE_EXPONENTS: Readings<nat> := Readings(4, 4, 4, 4, 3, 4, 2, 2)

  function Pow10(k: nat): (p: real)
    ensures p >= 1.0
  {
    if k == 0 then 1.0 else 10.0 * Pow10(k - 1)
  }

  /** The physical value of register content `raw` at scale `10^-k`. */
  function Scaled(raw: u32, k: nat): real {
    raw as real / Pow10(k)
  }

  /** Scales every raw register value by its field's power of ten. */
  function Scale(raw: Readings<u32>): (r: PowerState)
    ensures forall i :: 0 <= i < FIELD_COUNT ==> r.At(i) == Scaled(raw.At(i), SCALE_EXPONENTS.At(i))
  {
    var e := SCALE_EXPONENTS;
    Readings(
      Scaled(raw.voltage, e.voltage),
      Scaled(raw.current, e.current),
      Scaled(raw.activePower, e.activePower),
      Scaled(raw.activeEnergy, e.activeEnergy),
      Scaled(raw.powerFactor, e.powerFactor),
      Scaled(raw.co2Emissions, e.co2Emissions),
      Scaled(raw.temperature, e.temperature),
      Scaled(raw.frequency, e.frequency))
  }

  /** Reads the 32-byte register block as eight big-endian unsigned words and
      scales each by its field's power of ten. Any other length is refused. */
  function From(buf: seq<byte>): (r: Result<PowerState, Error>)
    ensures r.Err? <==> |buf| != PAYLOAD_LEN
    ensures r.Err? ==> r.error == ResponseParseErr
    ensures r.Ok? ==> forall i :: 0 <= i < FIELD_COUNT ==>
              r.value.At(i) == Scaled(BeU32(buf[4 * i..4 * i + 4]), SCALE_EXPONENTS.At(i))
  {
    if |buf| != PAYLOAD_LEN then Err(ResponseParseErr)
    else
      Ok(Scale(Readings.FromSeq(Unpack(buf))))
  }

  /** The storage encoding: field `i`'s bit pattern, most significant byte
      first, at bytes `4i .. 4i+3`. */
  function ToBeBytes(s: PowerBits): (bytes: seq<byte>)
    ensures |bytes| == PAYLOAD_LEN
    ensures forall i :: 0 <= i < FIELD_COUNT ==> bytes[4 * i..4 * i + 4] == U32ToBe(s.At(i))
  {
    Pack(s.ToSeq())
  }

  /** Reads a storage record back: field `i` is the big-endian word at bytes
      `4i .. 4i+3`, unscaled. */
  function FromBeBytes(bytes: seq<byte>): (s: PowerBits)
    requires |bytes| == PAYLOAD_LEN
    ensures forall i :: 0 <= i < FIELD_COUNT ==> s.At(i) == BeU32(bytes[4 * i..4 * i + 4])
  {
    Readings.FromSeq(Unpack(bytes))
  }

  // ---- Properties ----

  /** The three scales in use, as decimal fractions. */
  lemma ScaledByPowerOfTen(w: u32)
    ensures Scaled(w, 2) == w as real / 100.0
    ensures Scaled(w, 3) == w as real / 1000.0
    ensures Scaled(w, 4) == w as real / 10000.0
  {
    assert Pow10(2) == 100.0 && Pow10(3) == 1000.0 && Pow10(4) == 10000.0;
  }

  /** The field order and per-field scale of the register block: voltage,
      current, active power, active energy and CO2 emissions in units of
      1/10000, power factor in 1/1000, temperature and frequency in 1/100. */
  lemma FromFieldLayout(buf: seq<byte>)
    requires |buf| == PAYLOAD_LEN
    ensures From(buf).Ok?
    ensures var s := From(buf).value;
            && s.voltage == BeU32(buf[0..4]) as real / 10000.0
            && s.current == BeU32(buf[4..8]) as real / 10000.0
            && s.activePower == BeU32(buf[8..12]) as real / 10000.0
            && s.activeEnergy == BeU32(buf[12..16]) as real / 10000.0
            && s.powerFactor == BeU32(buf[16..20]) as real / 1000.0
            && s.co2Emissions == BeU32(buf[20..24]) as real / 10000.0
            && s.temperature == BeU32(buf[24..28]) as real / 100.0
            && s.frequency == BeU32(buf[28..32]) as real / 100.0
  {
    var s := From(buf).value;
    assert s.voltage == BeU32(buf[0..4]) as real / 10000.0 by {
      FromField(buf, 0);
      ScaledByPowerOfTen(BeU32(buf[0..4]));
    }
    assert s.current == BeU32(buf[4..8]) as real / 10000.0 by {
      FromField(buf, 1);
      ScaledByPowerOfTen(BeU32(buf[4..8]));
    }
    assert s.activePower == BeU32(buf[8..12]) as real / 10000.0 by {
      FromField(buf, 2);
      ScaledByPowerOfTen(BeU32(buf[8..12]));
    }
    assert s.activeEnergy == BeU32(buf[12..16]) as real / 10000.0 by {
      FromField(buf, 3);
      ScaledByPowerOfTen(BeU32(buf[12..16]));
    }
    assert s.powerFactor == BeU32(buf[16..20]) as real / 1000.0 by {
      FromField(buf, 4);
      ScaledByPowerOfTen(BeU32(buf[16..20]));
    }
    assert s.co2Emissions == BeU32(buf[20..24]) as real / 10000.0 by {
      FromField(buf, 5);
      ScaledByPowerOfTen(BeU32(buf[20..24]));
    }
    assert s.temperature == BeU32(buf[24..28]) as real / 100.0 by {
      FromField(buf, 6);
      ScaledByPowerOfTen(BeU32(buf[24..28]));
    }
    assert s.frequency == BeU32(buf[28..32]) as real / 100.0 by {
      FromField(buf, 7);
      ScaledByPowerOfTen(BeU32(buf[28..32]));
    }
  }

  /** Storing a record and reading it back reproduces every bit pattern. */
  lemma StorageRoundTrip(s: PowerBits)
    ensures FromBeBytes(ToBeBytes(s)) == s
  {
    UnpackPack(s.ToSeq());
  }

  /** Every 32-byte storage image is the encoding of exactly one record. */
  lemma StorageBytesRoundTrip(bytes: seq<byte>)
    requires |bytes| == PAYLOAD_LEN
    ensures ToBeBytes(FromBeBytes(bytes)) == bytes
  {
    var ws := Unpack(bytes);
    assert Readings.FromSeq(ws).ToSeq() == ws;
    PackUnpack(bytes);
  }

  /** Scaling by a power of ten is strictly increasing in the raw value. */
  lemma ScaledMonotone(a: u32, b: u32, k: nat)
    ensures a <= b <==> Scaled(a, k) <= Scaled(b, k)
    ensures a < b <==> Scaled(a, k) < Scaled(b, k)
    ensures Scaled(a, k) >= 0.0
  {
    var p := Pow10(k);
    assert Scaled(a, k) * p == a as real;
    assert Scaled(b, k) * p == b as real;
  }

  /** Measurement `i` of a decoded register block, as a stand-alone fact. */
  lemma FromField(buf: seq<byte>, i: nat)
    requires |buf| == PAYLOAD_LEN && i < FIELD_COUNT
    ensures From(buf).Ok?
    ensures From(buf).value.At(i) == Scaled(BeU32(buf[4 * i..4 * i + 4]), SCALE_EXPONENTS.At(i))
  {
  }

  /** A decoded measurement depends on its own four bytes and no others. */
  lemma FromFieldLocal(b1: seq<byte>, b2: seq<byte>, i: nat)
    requires |b1| == PAYLOAD_LEN && |b2| == PAYLOAD_LEN && i < FIELD_COUNT
    requires b1[4 * i..4 * i + 4] == b2[4 * i..4 * i + 4]
    ensures From(b1).value.At(i) == From(b2).value.At(i)
  {
    FromField(b1, i);
    FromField(b2, i);
  }

  /** A decoded measurement is ordered as its raw register value is, and is
      never negative. */
  lemma FromFieldMonotone(b1: seq<byte>, b2: seq<byte>, i: nat)
    requires |b1| == PAYLOAD_LEN && |b2| == PAYLOAD_LEN && i < FIELD_COUNT
    ensures BeU32(b1[4 * i..4 * i + 4]) <= BeU32(b2[4 * i..4 * i + 4])
            <==> From(b1).value.At(i) <= From(b2).value.At(i)
    ensures From(b1).value.At(i) >= 0.0
  {
    var k := SCALE_EXPONENTS.At(i);
    var w1, w2 := BeU32(b1[4 * i..4 * i + 4]), BeU32(b2[4 * i..4 * i + 4]);
    assert From(b1).value.At(i) == Scaled(w1, k) by {
      FromField(b1, i);
    }
    assert From(b2).value.At(i) == Scaled(w2, k) by {
      FromField(b2, i);
    }
    assert w1 <= w2 <==> Scaled(w1, k) <= Scaled(w2, k) by {
      ScaledMonotone(w1, w2, k);
    }
    assert Scaled(w1, k) >= 0.0 by {
      ScaledMonotone(w1, w2, k);
    }
  }
}
