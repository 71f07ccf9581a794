/** Little-endian integer arithmetic over octets: what numpy reads for the
    dtypes `<u2`, `<i2`, `<u4`, `<i4` and `|u1`, and the splitting of a
    contiguous region into equally sized records behind every array read. */
module Bytes {

  /** One octet of the file. */
  type byte = x: int | 0 <= x < 256

  function Pow256(n: nat): (p: nat)
    ensures p > 0
  {
    if n == 0 then 1 else 256 * Pow256(n - 1)
  }

  /** Half of `Pow256(n)`: the first unsigned value whose two's-complement
      reading is negative. */
  function SignBoundary(n: nat): (h: nat)
    requires n > 0
    ensures 2 * h == Pow256(n)
  {
    128 * Pow256(n - 1)
  }

  /** Unsigned little-endian value of `s`: the first byte is the least significant. */
  function LittleEndian(s: seq<byte>): (v: nat)
    ensures v < Pow256(|s|)
  {
    if |s| == 0 then 0 else s[0] + 256 * LittleEndian(s[1..])
  }

  /** The `n` octets that store `v` least significant first. */
  function EncodeLittleEndian(v: nat, n: nat): (s: seq<byte>)
    requires v < Pow256(n)
    ensures |s| == n
  {
    if n == 0 then [] else [v % 256] + EncodeLittleEndian(v / 256, n - 1)
  }

  lemma {:induction false} DecodeEncode(v: nat, n: nat)
    requires v < Pow256(n)
    ensures LittleEndian(EncodeLittleEndian(v, n)) == v
  {
    if n > 0 {
      var s := EncodeLittleEndian(v, n);
      assert s[1..] == EncodeLittleEndian(v / 256, n - 1);
      DecodeEncode(v / 256, n - 1);
    }
  }

  lemma {:induction false} EncodeDecode(s: seq<byte>)
    ensures EncodeLittleEndian(LittleEndian(s), |s|) == s
  {
    if |s| > 0 {
      var v := LittleEndian(s);
      assert v % 256 == s[0] && v / 256 == LittleEndian(s[1..]);
      EncodeDecode(s[1..]);
    }
  }

  /** Two's-complement reading of an `n`-octet unsigned value: the one value
      in the signed range that is congruent to `u` modulo 256^n. */
  function ToSigned(u: nat, n: nat): (v: int)
    requires 0 < n && u < Pow256(n)
    ensures -(SignBoundary(n) as int) <= v < SignBoundary(n)
    ensures v == u || v == u - Pow256(n)
  {
    if u < SignBoundary(n) then u else u - Pow256(n)
  }

  /** Two's-complement storage of a signed value in `n` octets. */
  function FromSigned(v: int, n: nat): (u: nat)
    requires 0 < n && -(SignBoundary(n) as int) <= v < SignBoundary(n)
    ensures u < Pow256(n)
    ensures ToSigned(u, n) == v
  {
    if v >= 0 then v else v + Pow256(n)
  }

  lemma {:induction false} SignedRoundTrip(u: nat, n: nat)
    requires 0 < n && u < Pow256(n)
    ensures FromSigned(ToSigned(u, n), n) == u
  {
  }

  /** `<u2` at octet `at`: the low octet first. */
  function U16At(s: seq<byte>, at: nat): (v: nat)
    requires at + 2 <= |s|
    ensures v < 0x1_0000
  {
    s[at] as nat + 0x100 * s[at + 1] as nat
  }

  /** `<i2` at octet `at`: the two's-complement reading of the `<u2` there. */
  function I16At(s: seq<byte>, at: nat): (v: int)
    requires at + 2 <= |s|
    ensures -0x8000 <= v < 0x8000
    ensures v == U16At(s, at) || v == U16At(s, at) - 0x1_0000
  {
    ToSigned(U16At(s, at), 2)
  }

  /** `<u4` at octet `at`: the least significant octet first. */
  function U32At(s: seq<byte>, at: nat): (v: nat)
    requires at + 4 <= |s|
    ensures v < 0x1_0000_0000
  {
    s[at] as nat + 0x100 * s[at + 1] as nat + 0x1_0000 * s[at + 2] as nat + 0x100_0000 * s[at + 3] as nat
  }

  /** `<i4` at octet `at`: the two's-complement reading of the `<u4` there. */
  function I32At(s: seq<byte>, at: nat): (v: int)
    requires at + 4 <= |s|
    ensures -0x8000_0000 <= v < 0x8000_0000
    ensures v == U32At(s, at) || v == U32At(s, at) - 0x1_0000_0000
  {
    ToSigned(U32At(s, at), 4)
  }

  /** The positional readers agree with the little-endian value of the octets they cover. */
  lemma U16AtIsLittleEndian(s: seq<byte>, at: nat)
    requires at + 2 <= |s|
    ensures U16At(s, at) == LittleEndian(s[at .. at + 2])
  {
    var w := s[at .. at + 2];
    assert w[1..][1..] == [];
  }

  lemma U32AtIsLittleEndian(s: seq<byte>, at: nat)
    requires at + 4 <= |s|
    ensures U32At(s, at) == LittleEndian(s[at .. at + 4])
  {
    var w := s[at .. at + 4];
    assert LittleEndian(w[3..]) == w[3] as int by {
      assert w[3..][1..] == [];
    }
    assert LittleEndian(w[2..]) == w[2] as int + 0x100 * LittleEndian(w[3..]) by {
      assert w[2..][1..] == w[3..];
    }
    assert LittleEndian(w[1..]) == w[1] as int + 0x100 * LittleEndian(w[2..]) by {
      assert w[1..][1..] == w[2..];
    }
  }

  function EncodeU16(v: nat): (s: seq<byte>)
    requires v < 0x1_0000
    ensures |s| == 2 && U16At(s, 0) == v
  {
    var s := EncodeLittleEndian(v, 2);
    DecodeEncode(v, 2);
    U16AtIsLittleEndian(s, 0);
    assert s[0 .. 2] == s;
    s
  }

  function EncodeI16(v: int): (s: seq<byte>)
    requires -0x8000 <= v < 0x8000
    ensures |s| == 2 && I16At(s, 0) == v
  {
    EncodeU16(FromSigned(v, 2))
  }

  function EncodeU32(v: nat): (s: seq<byte>)
    requires v < 0x1_0000_0000
    ensures |s| == 4 && U32At(s, 0) == v
  {
    var s := EncodeLittleEndian(v, 4);
    DecodeEncode(v, 4);
    U32AtIsLittleEndian(s, 0);
    assert s[0 .. 4] == s;
    s
  }

  function EncodeI32(v: int): (s: seq<byte>)
    requires -0x8000_0000 <= v < 0x8000_0000
    ensures |s| == 4 && I32At(s, 0) == v
  {
    EncodeU32(FromSigned(v, 4))
  }

  /** Signed decoding is injective on 2- and 4-octet fields: a field is
      determined by the value read from it. */
  lemma I16FieldRoundTrip(s: seq<byte>, at: nat)
    requires at + 2 <= |s|
    ensures EncodeI16(I16At(s, at)) == s[at .. at + 2]
  {
    SignedRoundTrip(U16At(s, at), 2);
    U16AtIsLittleEndian(s, at);
    EncodeDecode(s[at .. at + 2]);
  }

  lemma I32FieldRoundTrip(s: seq<byte>, at: nat)
    requires at + 4 <= |s|
    ensures EncodeI32(I32At(s, at)) == s[at .. at + 4]
  {
    SignedRoundTrip(U32At(s, at), 4);
    U32AtIsLittleEndian(s, at);
    EncodeDecode(s[at .. at + 4]);
  }

  /** A `<u2`, `<i2`, `<u4` or `<i4` field read inside a run of octets
      `part` stored at `at` equals the same field read from `part` alone. */
  lemma ReadWithin(s: seq<byte>, at: nat, part: seq<byte>, o: nat)
    requires at + |part| <= |s| && s[at .. at + |part|] == part
    ensures o + 2 <= |part| ==> U16At(s, at + o) == U16At(part, o) && I16At(s, at + o) == I16At(part, o)
    ensures o + 4 <= |part| ==> U32At(s, at + o) == U32At(part, o) && I32At(s, at + o) == I32At(part, o)
  {
    if o + 2 <= |part| {
      assert s[at + o] == part[o] && s[at + o + 1] == part[o + 1];
    }
    if o + 4 <= |part| {
      assert s[at + o + 2] == part[o + 2] && s[at + o + 3] == part[o + 3];
    }
  }

  /** Two adjacent slices make up the slice that spans both. */
  lemma SliceJoin(s: seq<byte>, a: nat, b: nat, c: nat)
    requires a <= b <= c <= |s|
    ensures s[a .. b] + s[b .. c] == s[a .. c]
  {
  }
}
