/**
  decode and the second encoder of runtime/hitsimple_f128.cpp, which go through a
  113-bit binary float. That float is modelled by its exact value: a significand
  of at most 113 bits times a power of two. floor, ldexp, frexp and the subtraction
  of an integer part are exact on it.
 */
module QuadCodec {
  import opened Powers
  import opened Binary128

  datatype Quad =
    | NaN(negative: bool)
    | Infinite(negative: bool)
    | Finite(negative: bool, significand: nat, exponent: int)

  /** A finite value the backend can hold without rounding. */
  ghost predicate Fits(f: Format, q: Quad) {
    q.Finite? ==> q.significand < 2 * f.Hidden()
  }

  function Decode(f: Format, bits: nat): (q: Quad)
    requires f.Valid() && bits < 2 * f.SignMask()
  {
    var negative := bits >= f.SignMask();
    var magnitude := if negative then bits - f.SignMask() else bits;
    var exponent, fraction := magnitude / f.Hidden(), magnitude % f.Hidden();
    if exponent == 2 * f.bias + 1 then
      if fraction == 0 then Infinite(negative) else NaN(negative)
    else if exponent == 0 then Finite(negative, fraction, 0 - f.Scale())
    else Finite(negative, f.Hidden() + fraction, exponent - f.bias - f.fractionBits)
  }

  /** roundToNearestEven of m * 2^x: floor, then the remainder against one half. */
  function RoundScaled(m: nat, x: int): (r: nat) {
    if x >= 0 then m * Pow2(x)
    else
      var unit := Pow2(-x);
      var lower, remainder := m / unit, m % unit;
      if 2 * remainder > unit || (2 * remainder == unit && lower % 2 == 1) then lower + 1 else lower
  }

  function EncodeFiniteMagnitude(f: Format, m: nat, x: int): (r: int)
    requires f.Valid() && m < 2 * f.Hidden()
  {
    if m == 0 then 0 else
    var unbiased := Msb(m) + x;
    if unbiased > f.bias then f.Infinity()
    else if unbiased < 1 - f.bias then
      var fraction := RoundScaled(m, x + f.Scale());
      if fraction <= 0 then 0
      else if fraction >= f.Hidden() then f.Hidden()
      else fraction
    else
      MsbBelow(m, f.fractionBits);
      var significand := m * Pow2(f.fractionBits - Msb(m));
      if significand == 2 * f.Hidden() then
        if unbiased + 1 > f.bias then f.Infinity()
        else (unbiased + 1 + f.bias) * f.Hidden() + (significand / 2 - f.Hidden())
      else (unbiased + f.bias) * f.Hidden() + (significand - f.Hidden())
  }

  function Encode(f: Format, q: Quad): (r: int)
    requires f.Valid() && Fits(f, q)
  {
    var sign := if q.negative then f.SignMask() else 0;
    match q
    case NaN(_) => sign + f.Infinity() + f.Hidden() / 2
    case Infinite(_) => sign + f.Infinity()
    case Finite(_, m, x) => sign + EncodeFiniteMagnitude(f, m, x)
  }

  /** m * 2^x as the quotient Numerator / Denominator. */
  function Numerator(m: nat, x: int): nat {
    if x >= 0 then m * Pow2(x) else m
  }

  function Denominator(x: int): (d: nat)
    ensures d > 0
  {
    if x >= 0 then 1 else Pow2(-x)
  }

  // ---------------------------------------------------------- bit lengths

  lemma MsbBelow(m: nat, k: nat)
    requires m > 0 && m < 2 * Pow2(k)
    ensures Msb(m) <= k
  {
    assert Pow2(k + 1) == 2 * Pow2(k);
    if Msb(m) > k {
      Pow2Mono(k + 1, Msb(m));
    }
  }

  lemma {:induction false} MsbShift(m: nat, k: nat)
    requires m > 0
    ensures m * Pow2(k) > 0 && Msb(m * Pow2(k)) == Msb(m) + k
    decreases k
  {
    if k == 0 {
      assert Pow2(0) == 1;
    } else {
      MsbShift(m, k - 1);
      var y := m * Pow2(k - 1);
      assert m * Pow2(k) == 2 * y by {
        DoubledPower(m, k - 1);
      }
      assert (2 * y) / 2 == y;
    }
  }

  lemma ExponentOfQuad(m: nat, x: int)
    requires m > 0
    ensures Numerator(m, x) > 0
    ensures RationalBinaryExponent(Numerator(m, x), Denominator(x)) == Msb(m) + x
  {
    hide Pow, Pow2, Msb, RationalBinaryExponent;
    if x >= 0 {
      ExponentOfWhole(m, x);
    } else {
      ExponentOfShare(m, -x);
    }
  }

  lemma ExponentOfWhole(m: nat, k: nat)
    requires m > 0
    ensures m * Pow2(k) > 0 && RationalBinaryExponent(m * Pow2(k), 1) == Msb(m) + k
  {
    hide Pow, Pow2, Msb;
    MsbShift(m, k);
    MsbOfOne();
    Pow2Add(Msb(m), k);
    MulMono(Pow2(Msb(m)), m, Pow2(k));
  }

  lemma ExponentOfShare(m: nat, k: nat)
    requires m > 0
    ensures RationalBinaryExponent(m, Pow2(k)) == Msb(m) - k
  {
    hide Pow, Pow2, Msb;
    var a := Msb(m);
    MsbOfPower(k);
    if a >= k {
      Pow2Add(k, a - k);
    } else {
      Pow2Add(a, k - a);
      MulMono(Pow2(a), m, Pow2(k - a));
    }
  }

  lemma MsbOfOne()
    ensures Msb(1) == 0
  {
  }

  lemma MsbOfPower(k: nat)
    ensures Msb(Pow2(k)) == k
  {
    hide Pow, Pow2, Msb;
    MsbShift(1, k);
    MsbOfOne();
    assert 1 * Pow2(k) == Pow2(k);
  }

  // ------------------------------------------------ the two encoders agree

  lemma RoundScaledIsRoundDiv(m: nat, x: int, k: nat)
    requires x < 0
    ensures RoundDiv(m * Pow2(k), Pow2(-x)) == RoundScaled(m, x + k)
  {
    hide Pow;
    if x + k >= 0 {
      Pow2Add(x + k, -x);
      MulAssoc(m, Pow2(x + k), Pow2(-x));
      ExactRoundDiv(m * Pow2(x + k), Pow2(-x));
    } else {
      Pow2Add(-(x + k), k);
      RoundDivScale(m, Pow2(-(x + k)), Pow2(k));
    }
  }

  lemma ExactRoundDiv(a: nat, d: nat)
    requires d > 0
    ensures RoundDiv(a * d, d) == a
  {
    DivModUnique(a * d, d, a, 0);
  }

  /** The normal path assembles the pattern of a full 113-bit significand. */
  lemma NormalQuad(f: Format, m: nat, x: int)
    requires f.Valid() && 0 < m < 2 * f.Hidden()
    requires 1 - f.bias <= Msb(m) + x <= f.bias
    ensures Msb(m) <= f.fractionBits
    ensures var s := m * Pow2(f.fractionBits - Msb(m));
      && f.Hidden() <= s < 2 * f.Hidden()
      && EncodeFiniteMagnitude(f, m, x) == Pattern(f, Msb(m) + x + f.bias - 1, s)
  {
    hide Pow, Pow2, Msb, RoundScaled;
    MsbBelow(m, f.fractionBits);
    var a, h := Msb(m), f.Hidden();
    FullSignificand(m, f.fractionBits);
    var p: nat := a + x + f.bias - 1;
    NextMultiple(p, h);
  }

  /** Shifted up to the hidden bit, a significand lies in [2^k, 2^(k+1)). */
  lemma FullSignificand(m: nat, k: nat)
    requires m > 0 && Msb(m) <= k
    ensures Pow2(k) <= m * Pow2(k - Msb(m)) < 2 * Pow2(k)
  {
    hide Pow, Pow2, Msb;
    var a := Msb(m);
    Pow2Add(a, k - a);
    DoubledPower(1, a);
    ScaleRange(Pow2(a), m, Pow2(k - a));
  }

  lemma NextMultiple(p: nat, h: nat)
    ensures (p + 1) * h == p * h + h
  {
  }

  lemma NormalQuadValue(f: Format, m: nat, x: int)
    requires f.Valid() && 0 < m < 2 * f.Hidden()
    requires 1 - f.bias <= Msb(m) + x <= f.bias
    ensures 0 <= EncodeFiniteMagnitude(f, m, x) <= f.Infinity()
    ensures Numerator(m, x) * Pow2(f.Scale()) == Mag(f, EncodeFiniteMagnitude(f, m, x)) * Denominator(x)
  {
    hide Pow, Msb, Mag, EncodeFiniteMagnitude;
    NormalQuad(f, m, x);
    var a, k := Msb(m), f.Scale();
    var p: nat, up: nat := a + x + f.bias - 1, f.fractionBits - a;
    var s := m * Pow2(up);
    MagOfPattern(f, p, s);
    PatternBelowInfinity(f, p, s);
    Pow2Add(up, p);
    MulAssoc(m, Pow2(up), Pow2(p));
    assert s * Pow2(p) == m * Pow2(up + p);
    ScaledQuotient(m, x, up + p, k);
  }

  /** encode and encodeRational agree on every value of at most 113 significant bits. */
  lemma EncodersAgree(f: Format, negative: bool, m: nat, x: int)
    requires f.Valid() && m < 2 * f.Hidden()
    ensures Encode(f, Finite(negative, m, x)) ==
            EncodeRational(f, Numerator(m, x), Denominator(x), negative)
  {
    hide Pow, Msb, Mag, RoundDiv;
    var n, d := Numerator(m, x), Denominator(x);
    if m > 0 {
      ExponentOfQuad(m, x);
      var e := Msb(m) + x;
      if e > f.bias {
      } else if e < 1 - f.bias {
        SubnormalCase(f, n, d);
        RoundScaledIsRoundDiv(m, x, f.Scale());
      } else {
        NormalQuadValue(f, m, x);
        var b := EncodeFiniteMagnitude(f, m, x);
        EncodeRespectsQuotient(f, n, d, Mag(f, b), Pow2(f.Scale()));
        EncodeInvertsMag(f, b);
      }
    } else {
      assert 0 * (if x >= 0 then Pow2(x) else 1) == 0;
    }
  }

  // --------------------------------------------------------- round trips

  /** decode gives exactly the pattern's magnitude. */
  lemma DecodeValue(f: Format, bits: nat)
    requires f.Valid() && bits < 2 * f.SignMask() && Decode(f, bits).Finite?
    ensures var q, m := Decode(f, bits), bits % f.SignMask();
      && Fits(f, q)
      && q.negative == (bits >= f.SignMask())
      && m < f.Infinity()
      && Numerator(q.significand, q.exponent) * Pow2(f.Scale()) == Mag(f, m) * Denominator(q.exponent)
  {
    hide Pow, Mag;
    var q := Decode(f, bits);
    var m := if q.negative then bits - f.SignMask() else bits;
    DivModUnique(bits, f.SignMask(), if q.negative then 1 else 0, m);
    FiniteBelowInfinity(f, m);
    var p, s := SplitPattern(f, m);
    SplitIsDecode(f, m, p, s);
    ScaledQuotient(q.significand, q.exponent, p, f.Scale());
  }

  lemma FiniteBelowInfinity(f: Format, m: nat)
    requires f.Valid() && m < f.SignMask() && m / f.Hidden() != 2 * f.bias + 1
    ensures m < f.Infinity()
  {
    hide Pow;
    var h, e := f.Hidden(), m / f.Hidden();
    assert m == e * h + m % h;
    MulStrict(e, 2 * f.bias + 2, h);
    assert e <= 2 * f.bias;
    MulMono(e + 1, 2 * f.bias + 1, h);
    assert (e + 1) * h == e * h + h;
  }

  lemma SplitIsDecode(f: Format, m: nat, p: nat, s: nat)
    requires f.Valid() && m == Pattern(f, p, s)
    requires s < 2 * f.Hidden() && (p == 0 || s >= f.Hidden())
    ensures var e := m / f.Hidden();
      && s == (if e == 0 then m % f.Hidden() else f.Hidden() + m % f.Hidden())
      && p == (if e == 0 then 0 else e - 1)
  {
    hide Pow;
    var h := f.Hidden();
    if s < h {
      DivModUnique(m, h, p, s);
    } else {
      assert p * h + s == (p + 1) * h + (s - h);
      DivModUnique(m, h, p + 1, s - h);
    }
  }

  lemma ScaledQuotient(s: nat, x: int, p: nat, k: nat)
    requires x == p - k
    ensures Numerator(s, x) * Pow2(k) == s * Pow2(p) * Denominator(x)
  {
    hide Pow;
    if x >= 0 {
      Pow2Add(x, k);
      MulAssoc(s, Pow2(x), Pow2(k));
    } else {
      Pow2Add(p, -x);
      MulAssoc(s, Pow2(p), Pow2(-x));
    }
  }

  /** encode inverts decode on every finite pattern and on both infinities. */
  lemma EncodeInvertsDecode(f: Format, bits: nat)
    requires f.Valid() && bits < 2 * f.SignMask()
    ensures Fits(f, Decode(f, bits))
    ensures !Decode(f, bits).NaN? ==> Encode(f, Decode(f, bits)) == bits
  {
    hide Pow, Mag, EncodeFiniteMagnitude, EncodeMagnitude;
    var q := Decode(f, bits);
    match q
    case Finite(negative, s, x) =>
      DecodeValue(f, bits);
      var m := bits % f.SignMask();
      DivModUnique(bits, f.SignMask(), if negative then 1 else 0,
                   if negative then bits - f.SignMask() else bits);
      EncodersAgree(f, negative, s, x);
      EncodeRespectsQuotient(f, Numerator(s, x), Denominator(x), Mag(f, m), Pow2(f.Scale()));
      EncodeInvertsMag(f, m);
    case Infinite(negative) =>
      var m := if negative then bits - f.SignMask() else bits;
      assert m == (2 * f.bias + 1) * f.Hidden() + 0;
    case NaN(_) =>
  }

  /** encodeRational on decode's exact value also gives the pattern back. */
  lemma RationalInvertsDecode(f: Format, bits: nat)
    requires f.Valid() && bits < 2 * f.SignMask() && Decode(f, bits).Finite?
    ensures var q := Decode(f, bits);
      EncodeRational(f, Numerator(q.significand, q.exponent), Denominator(q.exponent), q.negative) == bits
  {
    EncodeInvertsDecode(f, bits);
    var q := Decode(f, bits);
    EncodersAgree(f, q.negative, q.significand, q.exponent);
  }
}
