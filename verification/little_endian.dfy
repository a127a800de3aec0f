/**
  Little-endian integers stored in byte strings: the unsigned reading,
  the two's-complement reading, and the encoders that invert both.
 */
module LittleEndian {

  /** One octet. */
  type byte = x: int | 0 <= x < 256

  /** 256 to the power n: the number of distinct n-byte strings. */
  function Pow256(n: nat): (r: nat)
    ensures r >= 1
  {
    if n == 0 then 1 else 256 * Pow256(n - 1)
  }

  /** The unsigned integer a byte string denotes, least significant byte first. */
  function Unsigned(bs: seq<byte>): (v: nat)
  {
    if |bs| == 0 then 0 else bs[0] + 256 * Unsigned(bs[1..])
  }

  /** Half of Pow256(n): the magnitude of the most negative n-byte signed value. */
  function HalfRange(n: nat): (h: int)
    requires n >= 1
  {
    128 * Pow256(n - 1)
  }

  /** The two's-complement reading: the unsigned value less 256^n when the top bit is set. */
  function Signed(bs: seq<byte>): (v: int)
    requires |bs| >= 1
  {
    Unsigned(bs) - (if bs[|bs| - 1] >= 128 then Pow256(|bs|) else 0)
  }

  /** The n-byte little-endian encoding of an unsigned value that fits in n bytes. */
  function EncodeUnsigned(n: nat, v: nat): (bs: seq<byte>)
    requires v < Pow256(n)
    ensures |bs| == n
    ensures Unsigned(bs) == v
  {
    if n == 0 then [] else [v % 256] + EncodeUnsigned(n - 1, v / 256)
  }

  /** The n-byte two's-complement encoding of a value in the signed n-byte range. */
  function EncodeSigned(n: nat, v: int): (bs: seq<byte>)
    requires n >= 1 && -HalfRange(n) <= v < HalfRange(n)
    ensures |bs| == n
    ensures Signed(bs) == v
  {
    var u := if v < 0 then v + Pow256(n) else v;
    var bs := EncodeUnsigned(n, u);
    TopByteSign(bs);
    bs
  }

  /** Every n-byte string reads as an unsigned value below 256^n. */
  lemma {:induction false} UnsignedBound(bs: seq<byte>)
    ensures Unsigned(bs) < Pow256(|bs|)
  {
    if |bs| > 0 {
      UnsignedBound(bs[1..]);
    }
  }

  /** Peeling off the most significant byte. */
  lemma {:induction false} UnsignedSplitLast(bs: seq<byte>)
    requires |bs| >= 1
    ensures Unsigned(bs) == Unsigned(bs[..|bs| - 1]) + Pow256(|bs| - 1) * bs[|bs| - 1]
  {
    var n := |bs|;
    if n > 1 {
      var init := bs[..n - 1];
      var t := bs[1..];
      var top := bs[n - 1];
      UnsignedSplitLast(t);
      assert t[..n - 2] == init[1..];
      assert t[n - 2] == top;
      var x := Unsigned(init[1..]);
      var p := Pow256(n - 2);
      assert Unsigned(t) == x + p * top;
      assert Unsigned(init) == bs[0] + 256 * x;
      assert 256 * (x + p * top) == 256 * x + (256 * p) * top;
    }
  }

  /** The top byte is at least 128 exactly when the unsigned value is at least half of 256^n. */
  lemma TopByteSign(bs: seq<byte>)
    requires |bs| >= 1
    ensures bs[|bs| - 1] >= 128 <==> Unsigned(bs) >= HalfRange(|bs|)
  {
    var n := |bs|;
    var p := Pow256(n - 1);
    var top := bs[n - 1];
    var low := Unsigned(bs[..n - 1]);
    UnsignedSplitLast(bs);
    UnsignedBound(bs[..n - 1]);
    assert |bs[..n - 1]| == n - 1;
    assert Unsigned(bs) == low + p * top;
    assert 0 <= low < p;
    if top >= 128 {
      MulMonotone(p, 128, top);
    } else {
      MulMonotone(p, top, 127);
    }
  }

  lemma MulMonotone(p: nat, a: nat, b: nat)
    requires a <= b
    ensures p * a <= p * b
  {
  }

  /** The two's-complement reading stays within the signed n-byte range. */
  lemma SignedRange(bs: seq<byte>)
    requires |bs| >= 1
    ensures -HalfRange(|bs|) <= Signed(bs) < HalfRange(|bs|)
  {
    UnsignedBound(bs);
    TopByteSign(bs);
  }

  /** Encoding the unsigned reading of a byte string gives the string back. */
  lemma {:induction false} UnsignedEncodeInverse(bs: seq<byte>)
    ensures Unsigned(bs) < Pow256(|bs|)
    ensures EncodeUnsigned(|bs|, Unsigned(bs)) == bs
  {
    UnsignedBound(bs);
    if |bs| > 0 {
      UnsignedEncodeInverse(bs[1..]);
      var v := Unsigned(bs);
      assert v % 256 == bs[0];
      assert v / 256 == Unsigned(bs[1..]);
    }
  }

  /** Encoding the two's-complement reading of a byte string gives the string back. */
  lemma SignedEncodeInverse(bs: seq<byte>)
    requires |bs| >= 1
    ensures -HalfRange(|bs|) <= Signed(bs) < HalfRange(|bs|)
    ensures EncodeSigned(|bs|, Signed(bs)) == bs
  {
    SignedRange(bs);
    UnsignedEncodeInverse(bs);
  }
}
