/**
  Fixed-width unsigned integers and their big-endian byte encodings.
  Machine integers are modelled as ranges of the mathematical integers, so
  every truncation is written out as `/` and `%` on non-negative values.
 */
module Bytes {

  newtype byte = b: int | 0 <= b < 0x100
  newtype u16 = w: int | 0 <= w < 0x1_0000
  newtype u32 = w: int | 0 <= w < 0x1_0000_0000

  /** The two bytes of `w`, most significant first (Rust's `u16::to_be_bytes`). */
  function U16ToBe(w: u16): (b: seq<byte>)
    ensures |b| == 2
  {
    [(w / 0x100) as byte, (w % 0x100) as byte]
  }

  /** The `u16` whose big-endian bytes are `b` (Rust's `u16::from_be_bytes`). */
  function BeU16(b: seq<byte>): u16
    requires |b| == 2
  {
    (b[0] as int * 0x100 + b[1] as int) as u16
  }

  /** The four bytes of `w`, most significant first (Rust's `u32::to_be_bytes`). */
  function U32ToBe(w: u32): (b: seq<byte>)
    ensures |b| == 4
  {
    var q1 := w / 0x100;
    var q2 := q1 / 0x100;
    [(q2 / 0x100) as byte, (q2 % 0x100) as byte, (q1 % 0x100) as byte, (w % 0x100) as byte]
  }

  /** The `u32` whose big-endian bytes are `b` (Rust's `u32::from_be_bytes`). */
  function BeU32(b: seq<byte>): u32
    requires |b| == 4
  {
    (b[0] as int * 0x100_0000 + b[1] as int * 0x1_0000 + b[2] as int * 0x100 + b[3] as int) as u32
  }

  lemma BeU16Inverse(w: u16)
    ensures BeU16(U16ToBe(w)) == w
  {
  }

  lemma U16ToBeInverse(b: seq<byte>)
    requires |b| == 2
    ensures U16ToBe(BeU16(b)) == b
  {
  }

  lemma BeU32Inverse(w: u32)
    ensures BeU32(U32ToBe(w)) == w
  {
    var q1 := w / 0x100;
    var q2 := q1 / 0x100;
    assert w as int == q1 as int * 0x100 + (w % 0x100) as int;
    assert q1 as int == q2 as int * 0x100 + (q1 % 0x100) as int;
    assert q2 as int == (q2 / 0x100) as int * 0x100 + (q2 % 0x100) as int;
  }

  lemma U32ToBeInverse(b: seq<byte>)
    requires |b| == 4
    ensures U32ToBe(BeU32(b)) == b
  {
    var w := BeU32(b);
    var q2 := b[0] as int * 0x100 + b[1] as int;
    var q1 := q2 * 0x100 + b[2] as int;
    assert w as int == q1 * 0x100 + b[3] as int;
    SplitLowByte(q1, b[3] as int);
    SplitLowByte(q2, b[2] as int);
    SplitLowByte(b[0] as int, b[1] as int);
  }

  /** Dividing `q * 256 + r` by 256 recovers `q` and `r` when `r` is a byte. */
  lemma SplitLowByte(q: int, r: int)
    requires 0 <= q && 0 <= r < 0x100
    ensures (q * 0x100 + r) / 0x100 == q
    ensures (q * 0x100 + r) % 0x100 == r
  {
  }

  /** A slice of a slice is a slice of the original. */
  lemma SubSlice<T>(s: seq<T>, lo: nat, hi: nat, i: nat, j: nat)
    requires lo <= hi <= |s| && i <= j <= hi - lo
    ensures s[lo..hi][i..j] == s[lo + i..lo + j]
  {
    forall k | 0 <= k < j - i
      ensures s[lo..hi][i..j][k] == s[lo + i..lo + j][k]
    {
    }
  }

  /** Big-endian words laid end to end: word `i` occupies bytes `4i .. 4i+3`. */
  function Pack(ws: seq<u32>): (bs: seq<byte>)
    ensures |bs| == 4 * |ws|
    ensures forall i :: 0 <= i < |ws| ==> bs[4 * i..4 * i + 4] == U32ToBe(ws[i])
  {
    if |ws| == 0 then []
    else
      var rest := Pack(ws[1..]);
      var bs := U32ToBe(ws[0]) + rest;
      assert forall i :: 1 <= i < |ws| ==> bs[4 * i..4 * i + 4] == rest[4 * (i - 1)..4 * (i - 1) + 4];
      bs
  }

  /** Consecutive four-byte groups read as big-endian words. */
  function Unpack(bs: seq<byte>): (ws: seq<u32>)
    requires |bs| % 4 == 0
    ensures |ws| == |bs| / 4
    ensures forall i :: 0 <= i < |ws| ==> ws[i] == BeU32(bs[4 * i..4 * i + 4])
  {
    if |bs| == 0 then []
    else
      var ws := [BeU32(bs[..4])] + Unpack(bs[4..]);
      assert forall i :: 1 <= i < |ws| ==> bs[4 * i..4 * i + 4] == bs[4..][4 * (i - 1)..4 * (i - 1) + 4];
      ws
  }

  lemma UnpackPack(ws: seq<u32>)
    ensures Unpack(Pack(ws)) == ws
  {
    var bs := Pack(ws);
    forall i | 0 <= i < |ws|
      ensures Unpack(bs)[i] == ws[i]
    {
      BeU32Inverse(ws[i]);
    }
  }

  lemma {:induction false} PackUnpack(bs: seq<byte>)
    requires |bs| % 4 == 0
    ensures Pack(Unpack(bs)) == bs
    decreases |bs|
  {
    if |bs| > 0 {
      var ws := Unpack(bs);
      assert ws[1..] == Unpack(bs[4..]);
      PackUnpack(bs[4..]);
      U32ToBeInverse(bs[..4]);
      assert Pack(ws) == U32ToBe(BeU32(bs[..4])) + Pack(Unpack(bs[4..]));
      assert bs == bs[..4] + bs[4..];
    }
  }
}
