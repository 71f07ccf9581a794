/** IEEE 754 binary32 values, as numpy's `<f4` dtype reads them and as
    Python compares them once `tolist()` has widened them to `float`.
    Every finite binary32 value is a rational number, so it is kept exactly. */
module Float32 {
  import opened Bytes

  /** A decoded binary32 value: a finite number, an infinity, or not-a-number.
      Both zeros decode to `Finite(0.0)`; NaN payloads are not distinguished. */
  datatype F32 = Finite(value: real) | Infinity(negative: bool) | NaN

  function Pow2(n: nat): (p: nat)
    ensures p > 0
  {
    if n == 0 then 1 else 2 * Pow2(n - 1)
  }

  /** 2 raised to an integer power, as a real. */
  function Scale(e: int): (p: real)
    ensures p > 0.0
  {
    if e >= 0 then Pow2(e) as real else 1.0 / Pow2(-e) as real
  }

  /** Bit 31 of the little-endian word at `at`. */
  function SignBit(s: seq<byte>, at: nat): bool
    requires at + 4 <= |s|
  {
    s[at + 3] >= 0x80
  }

  /** Bit 7 of an octet. */
  function HighBit(b: byte): nat
  {
    if b >= 0x80 then 1 else 0
  }

  /** Bits 0..6 of an octet. */
  function LowBits(b: byte): nat
  {
    if b >= 0x80 then b - 0x80 else b
  }

  /** Bits 23..30 of the little-endian word at `at`: the biased exponent. */
  function BiasedExponent(s: seq<byte>, at: nat): (e: nat)
    requires at + 4 <= |s|
    ensures e < 0x100
  {
    LowBits(s[at + 3]) * 2 + HighBit(s[at + 2])
  }

  /** Bits 0..22 of the little-endian word at `at`: the fraction. */
  function Fraction(s: seq<byte>, at: nat): (f: nat)
    requires at + 4 <= |s|
    ensures f < 0x80_0000
  {
    LowBits(s[at + 2]) * 0x1_0000 + s[at + 1] as int * 0x100 + s[at] as int
  }

  /** The three fields are exactly the bits of the 32-bit word. */
  lemma FieldsOfWord(s: seq<byte>, at: nat)
    requires at + 4 <= |s|
    ensures U32At(s, at) == (if SignBit(s, at) then 0x8000_0000 else 0) + BiasedExponent(s, at) * 0x80_0000 + Fraction(s, at)
  {
  }

  /** The value of the binary32 word stored least significant octet first at `at`. */
  function F32At(s: seq<byte>, at: nat): F32
    requires at + 4 <= |s|
  {
    var e := BiasedExponent(s, at);
    if e == 0xff then
      (if Fraction(s, at) == 0 then Infinity(SignBit(s, at)) else NaN)
    else
      var m := Magnitude(e, Fraction(s, at));
      Finite(if SignBit(s, at) then -m else m)
  }

  /** A word's value depends on nothing but its four octets. */
  lemma F32AtLocal(s: seq<byte>, s': seq<byte>, at: nat)
    requires at + 4 <= |s| && at + 4 <= |s'|
    requires s[at] == s'[at] && s[at + 1] == s'[at + 1] && s[at + 2] == s'[at + 2] && s[at + 3] == s'[at + 3]
    ensures F32At(s, at) == F32At(s', at)
  {
  }

  /** The absolute value of a finite word: the significand, with the implicit
      leading bit for normal numbers, scaled by 2^(exponent - 150); subnormal
      numbers (biased exponent 0) use exponent 1. */
  function Magnitude(e: nat, fraction: nat): real
    requires e < 0xff && fraction < 0x80_0000
  {
    var significand := if e == 0 then fraction else 0x80_0000 + fraction;
    var exponent: int := if e == 0 then 1 else e;
    significand as real * Scale(exponent - 150)
  }

  /** The largest finite binary32 value, (2^24 - 1) * 2^104. */
  const MaxFinite: real := 340282346638528859811704183484516925440.0

  function Negate(x: F32): F32
  {
    match x
    case Finite(v) => Finite(-v)
    case Infinity(n) => Infinity(!n)
    case NaN => NaN
  }

  /** Flipping bit 31 negates the value and changes nothing else. */
  lemma FlipSignBit(s: seq<byte>, at: nat)
    requires at + 4 <= |s|
    ensures F32At(s[at + 3 := (s[at + 3] as int + 0x80) % 0x100], at) == Negate(F32At(s, at))
  {
    var t := s[at + 3 := (s[at + 3] as int + 0x80) % 0x100];
    assert LowBits(t[at + 3]) == LowBits(s[at + 3]);
    assert BiasedExponent(t, at) == BiasedExponent(s, at);
    assert Fraction(t, at) == Fraction(s, at);
    assert SignBit(t, at) == !SignBit(s, at);
  }

  lemma {:induction false} Pow2Monotone(a: nat, b: nat)
    requires a <= b
    ensures Pow2(a) <= Pow2(b)
    decreases b
  {
    if a < b {
      Pow2Monotone(a, b - 1);
    }
  }

  lemma ScaleMonotone(a: int, b: int)
    requires a <= b
    ensures Scale(a) <= Scale(b)
  {
    if 0 <= a {
      Pow2Monotone(a, b);
    } else if 0 <= b {
      assert Scale(a) <= 1.0;
    } else {
      Pow2Monotone(-b, -a);
      ReciprocalMonotone(Pow2(-b) as real, Pow2(-a) as real);
    }
  }

  lemma ReciprocalMonotone(x: real, y: real)
    requires 0.0 < x <= y
    ensures 1.0 / y <= 1.0 / x
  {
    assert (1.0 / y) * y == 1.0 && (1.0 / x) * x == 1.0;
    assert (1.0 / y) * x <= (1.0 / y) * y;
  }

  lemma ProductMonotone(a: real, b: real, c: real, d: real)
    requires 0.0 <= a <= c && 0.0 <= b <= d
    ensures 0.0 <= a * b <= c * d
  {
    assert a * b <= c * b;
    assert c * b <= c * d;
  }

  lemma Pow2Of104()
    ensures Pow2(104) == 20282409603651670423947251286016
  {
    assert Pow2(8) == 256;
    assert Pow2(16) == 256 * Pow2(8) by { Pow2Add(8, 8); }
    assert Pow2(32) == Pow2(16) * Pow2(16) by { Pow2Add(16, 16); }
    assert Pow2(64) == Pow2(32) * Pow2(32) by { Pow2Add(32, 32); }
    assert Pow2(96) == Pow2(64) * Pow2(32) by { Pow2Add(64, 32); }
    assert Pow2(104) == Pow2(96) * Pow2(8) by { Pow2Add(96, 8); }
  }

  lemma {:induction false} Pow2Add(a: nat, b: nat)
    ensures Pow2(a + b) == Pow2(a) * Pow2(b)
    decreases b
  {
    if b > 0 {
      Pow2Add(a, b - 1);
    }
  }

  /** The magnitude of a finite value: its significand scaled by its exponent. */
  lemma MagnitudeBound(e: nat, fraction: nat)
    requires e < 0xff && fraction < 0x80_0000
    ensures 0.0 <= Magnitude(e, fraction) <= MaxFinite
  {
    var exponent: int := if e == 0 then 1 else e;
    var significand := if e == 0 then fraction else 0x80_0000 + fraction;
    ScaledBound(significand, exponent - 150);
  }

  lemma ScaledBound(significand: nat, x: int)
    requires significand <= 0xff_ffff && x <= 104
    ensures 0.0 <= significand as real * Scale(x) <= MaxFinite
  {
    ScaleAtMostTop(x);
    ProductMonotone(significand as real, Scale(x), 0xff_ffff as real, TwoTo104);
  }

  /** 2^104, the scale of the largest binary exponent. */
  const TwoTo104: real := 20282409603651670423947251286016.0

  lemma ScaleAtMostTop(x: int)
    requires x <= 104
    ensures Scale(x) <= TwoTo104
  {
    var top := 104;
    ScaleMonotone(x, top);
    Pow2Of104();
  }

  /** Every finite binary32 value lies within [-MaxFinite, MaxFinite], and the
      word 0x7f7fffff is the one that reaches the top: the value a saturated
      detector channel leaves behind. */
  lemma FiniteBound(s: seq<byte>, at: nat)
    requires at + 4 <= |s|
    ensures F32At(s, at).Finite? ==> -MaxFinite <= F32At(s, at).value <= MaxFinite
    ensures F32At([0xff, 0xff, 0x7f, 0x7f], 0) == Finite(MaxFinite)
  {
    if BiasedExponent(s, at) != 0xff {
      MagnitudeBound(BiasedExponent(s, at), Fraction(s, at));
    }
    var top: seq<byte> := [0xff, 0xff, 0x7f, 0x7f];
    assert BiasedExponent(top, 0) == 254 && Fraction(top, 0) == 0x7f_ffff && !SignBit(top, 0);
    Pow2Of104();
  }
}
