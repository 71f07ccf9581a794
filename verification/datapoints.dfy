/** The detector full-scale range and the saturation rule applied to every
    datapoint: a value above `10 ** data_range` is an artefact of a saturated
    channel and becomes not-a-number; anything else is kept as it is. */
module DataPoints {
  import opened Bytes
  import opened Float32

  function Pow10(n: nat): (p: nat)
    ensures p > 0
  {
    if n == 0 then 1 else 10 * Pow10(n - 1)
  }

  /** `10 ** data_range` for the signed exponent stored in the data block. */
  function FullScaleRange(exponent: int): (fsr: real)
    ensures fsr > 0.0
    ensures exponent == 0 ==> fsr == 1.0
    ensures exponent >= 0 ==> fsr >= 1.0
    ensures exponent < 0 ==> fsr < 1.0
  {
    if exponent >= 0 then Pow10(exponent) as real else 1.0 / Pow10(-exponent) as real
  }

  /** Python's `d <= fsr` for a decoded value: false for not-a-number, true
      for negative infinity, false for positive infinity. */
  predicate AtMost(d: F32, fsr: real)
  {
    match d
    case Finite(v) => v <= fsr
    case Infinity(negative) => negative
    case NaN => false
  }

  /** `[d if d <= fsr else float("NaN") for d in data_values]`. */
  function Saturate(raw: seq<F32>, fsr: real): (r: seq<F32>)
    ensures |r| == |raw|
    ensures forall i :: 0 <= i < |raw| && raw[i].Finite? && raw[i].value <= fsr ==> r[i] == raw[i]
    ensures forall i :: 0 <= i < |raw| && raw[i].Finite? && raw[i].value > fsr ==> r[i] == NaN
    ensures forall i :: 0 <= i < |raw| && !raw[i].Finite? ==> r[i] == (if raw[i] == Infinity(true) then raw[i] else NaN)
    ensures forall i :: 0 <= i < |r| ==> r[i] == NaN || AtMost(r[i], fsr)
  {
    seq(|raw|, i requires 0 <= i < |raw| => if AtMost(raw[i], fsr) then raw[i] else NaN)
  }

  /** Applying the rule twice is applying it once. */
  lemma SaturateIdempotent(raw: seq<F32>, fsr: real)
    ensures Saturate(Saturate(raw, fsr), fsr) == Saturate(raw, fsr)
  {
  }

  /** Raising the exponent by one multiplies the range by ten, for negative
      exponents as well: with `FullScaleRange(0) == 1.0` this pins the range
      to `10 ** exponent`. */
  lemma FullScaleRangeStep(exponent: int)
    ensures FullScaleRange(exponent + 1) == 10.0 * FullScaleRange(exponent)
  {
  }

  /** With data_range 2 the range is 100: the stored word 0x42c80000 (100.0)
      is kept, and a word just above 100, 0x42c8000d (13107213 / 131072),
      is replaced. */
  lemma SaturateBoundaryExample()
    ensures FullScaleRange(2) == 100.0
    ensures F32At([0x00, 0x00, 0xc8, 0x42], 0) == Finite(100.0)
    ensures F32At([0x0d, 0x00, 0xc8, 0x42], 0) == Finite(13107213.0 / 131072.0)
    ensures Saturate([F32At([0x00, 0x00, 0xc8, 0x42], 0), F32At([0x0d, 0x00, 0xc8, 0x42], 0)], FullScaleRange(2))
         == [Finite(100.0), NaN]
  {
    var kept: seq<byte> := [0x00, 0x00, 0xc8, 0x42];
    var above: seq<byte> := [0x0d, 0x00, 0xc8, 0x42];
    assert BiasedExponent(kept, 0) == 133 && Fraction(kept, 0) == 0x48_0000;
    assert BiasedExponent(above, 0) == 133 && Fraction(above, 0) == 0x48_000d;
    assert Pow2(17) == 131072 by { Pow2Add(8, 9); }
    assert Scale(-17) == 1.0 / 131072.0;
  }

  lemma {:induction false} Pow10Monotone(a: nat, b: nat)
    requires a <= b
    ensures Pow10(a) <= Pow10(b)
    decreases b
  {
    if a < b {
      Pow10Monotone(a, b - 1);
    }
  }

  lemma {:induction false} Pow10Add(a: nat, b: nat)
    ensures Pow10(a + b) == Pow10(a) * Pow10(b)
    decreases b
  {
    if b > 0 {
      Pow10Add(a, b - 1);
    }
  }

  lemma Pow10Of38()
    ensures Pow10(38) == 100000000000000000000000000000000000000
  {
    assert Pow10(2) == 100;
    assert Pow10(4) == 10000 by { Pow10Add(2, 2); }
    assert Pow10(8) == 100000000 by { Pow10Add(4, 4); }
    assert Pow10(16) == 10000000000000000 by { Pow10Add(8, 8); }
    assert Pow10(32) == 100000000000000000000000000000000 by { Pow10Add(16, 16); }
    assert Pow10(38) == Pow10(32) * Pow10(4) * Pow10(2) by { Pow10Add(32, 6); Pow10Add(4, 2); }
  }

  /** For every range up to 10^38 the largest binary32 value (the word a
      saturated channel holds) exceeds the range and is replaced. */
  lemma MaxFiniteSaturates(exponent: int)
    requires exponent <= 38
    ensures Saturate([F32At([0xff, 0xff, 0x7f, 0x7f], 0)], FullScaleRange(exponent)) == [NaN]
  {
    FiniteBound([0, 0, 0, 0], 0);
    if exponent >= 0 {
      var top := 38;
      Pow10Monotone(exponent, top);
      Pow10Of38();
    }
  }
}
