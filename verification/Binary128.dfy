/**
  The software binary128 encoder of runtime/hitsimple_f128.cpp.

  A format is described by its fraction width and exponent bias, so that every
  other constant of the source (2^112, 0x7fff, 16382, 16494, ...) is a
  function of the two. BINARY128 gives the source's values; the theorems hold for
  every valid format. Magnitudes are counted in units of the smallest positive
  subnormal (2^-16494 for binary128), which makes every finite value an integer.
  A bit pattern is a natural number; `|` of disjoint fields is written `+`.
 */
module Binary128 {
  import opened Powers

  datatype Format = Format(fractionBits: nat, bias: nat) {
    predicate Valid() {
      fractionBits >= 1 && bias >= 1
    }

    /** 2^112: the hidden bit, and the distance between exponent codes. */
    function Hidden(): (r: nat)
      ensures r > 0
    {
      Pow2(fractionBits)
    }

    /** kExponentMask: exponent code 0x7fff, fraction zero. */
    function Infinity(): nat {
      (2 * bias + 1) * Hidden()
    }

    /** kSignMask. */
    function SignMask(): nat {
      (2 * bias + 2) * Hidden()
    }

    /** 16494: the smallest subnormal is 2^-Scale. */
    function Scale(): nat
      requires Valid()
    {
      bias - 1 + fractionBits
    }
  }

  const BINARY128 := Format(112, 16383)

  // ------------------------------------------------------------- the code

  /** floor(log2(n / d)), from the two most significant bits (rationalBinaryExponent). */
  function RationalBinaryExponent(n: nat, d: nat): (e: int)
    requires n > 0 && d > 0
  {
    var e := Msb(n) - Msb(d);
    if e >= 0 then
      if n < d * Pow2(e) then e - 1 else e
    else if n * Pow2(-e) < d then e - 1 else e
  }

  /** encodeRational without its sign bit. */
  function EncodeMagnitude(f: Format, n: nat, d: nat): (r: int)
    requires f.Valid() && d > 0
  {
    if n == 0 then 0 else
    var exponent := RationalBinaryExponent(n, d);
    if exponent > f.bias then f.Infinity()
    else if exponent < 1 - f.bias then
      var fraction := RoundDiv(n * Pow2(f.Scale()), d);
      if fraction == 0 then 0
      else if fraction >= f.Hidden() then f.Hidden()
      else fraction
    else
      var shift := f.fractionBits - exponent;
      var significand :=
        if shift >= 0 then RoundDiv(n * Pow2(shift), d)
        else assert d * Pow2(-shift) > 0; RoundDiv(n, d * Pow2(-shift));
      if significand >= 2 * f.Hidden() then
        if exponent + 1 > f.bias then f.Infinity()
        else (exponent + 1 + f.bias) * f.Hidden() + (significand / 2 - f.Hidden())
      else (exponent + f.bias) * f.Hidden() + (significand - f.Hidden())
  }

  function EncodeRational(f: Format, n: nat, d: nat, negative: bool): (r: int)
    requires f.Valid() && d > 0
  {
    (if negative then f.SignMask() else 0) + EncodeMagnitude(f, n, d)
  }

  // -------------------------------------------------- what a pattern means

  /**
    The magnitude of a pattern without sign, in units of the smallest subnormal.
    The infinity pattern gets the value the next binade would start with, which is
    how IEEE 754 section 7.4 decides overflow under round-to-nearest.
   */
  function Mag(f: Format, bits: nat): (m: nat)
  {
    var exponent, fraction := bits / f.Hidden(), bits % f.Hidden();
    if exponent == 0 then fraction else (f.Hidden() + fraction) * Pow2(exponent - 1)
  }

  /** Distance of pattern c from n / d, in units of the subnormal step over d. */
  function Dist(f: Format, n: nat, d: nat, c: nat): (r: nat)
    requires f.Valid()
  {
    Gap(n * Pow2(f.Scale()), Mag(f, c) * d)
  }

  function Gap(a: nat, b: nat): nat {
    if a >= b then a - b else b - a
  }

  /** roundTiesToEven (IEEE 754 section 4.3.1) over all magnitudes up to infinity. */
  ghost predicate IsNearest(f: Format, n: nat, d: nat, r: int)
    requires f.Valid()
  {
    && 0 <= r <= f.Infinity()
    && forall c: nat {:trigger Dist(f, n, d, c)} | c <= f.Infinity() ::
         && Dist(f, n, d, r) <= Dist(f, n, d, c)
         && (c != r && Dist(f, n, d, r) == Dist(f, n, d, c) ==> r % 2 == 0)
  }

  // ------------------------------------------------ patterns and magnitudes

  /** The pattern of significand s at binade p; s may be the carry value 2^113. */
  function Pattern(f: Format, p: nat, s: nat): (r: nat) {
    p * f.Hidden() + s
  }

  lemma MagOfPattern(f: Format, p: nat, s: nat)
    requires s <= 2 * f.Hidden() && (p == 0 || s >= f.Hidden())
    ensures Mag(f, Pattern(f, p, s)) == s * Pow2(p)
  {
    var h := f.Hidden();
    if s < h {
      DivModUnique(Pattern(f, p, s), h, 0, s);
      assert Pow2(0) == 1;
    } else if s < 2 * h {
      assert p * h + s == (p + 1) * h + (s - h);
      DivModUnique(Pattern(f, p, s), h, p + 1, s - h);
    } else {
      assert p * h + s == (p + 2) * h + 0;
      DivModUnique(Pattern(f, p, s), h, p + 2, 0);
      assert Pow2(p + 1) == 2 * Pow2(p);
      assert h * (2 * Pow2(p)) == (2 * h) * Pow2(p);
    }
  }

  /** Every pattern is a significand below the carry value at some binade. */
  lemma SplitPattern(f: Format, b: nat) returns (p: nat, s: nat)
    ensures s < 2 * f.Hidden() && (p == 0 || s >= f.Hidden())
    ensures b == Pattern(f, p, s) && Mag(f, b) == s * Pow2(p)
  {
    var h := f.Hidden();
    var e, r := b / h, b % h;
    assert b == e * h + r;
    if e == 0 {
      p, s := 0, r;
    } else {
      p, s := e - 1, h + r;
      assert e * h + r == (e - 1) * h + (h + r);
    }
    MagOfPattern(f, p, s);
  }

  lemma MagSucc(f: Format, p: nat, s: nat)
    requires s < 2 * f.Hidden() && (p == 0 || s >= f.Hidden())
    ensures Mag(f, Pattern(f, p, s) + 1) == Mag(f, Pattern(f, p, s)) + Pow2(p)
  {
    hide Mag, Pow;
    MagOfPattern(f, p, s);
    MagOfPattern(f, p, s + 1);
    assert Pattern(f, p, s) + 1 == Pattern(f, p, s + 1);
    assert (s + 1) * Pow2(p) == s * Pow2(p) + Pow2(p);
  }

  lemma {:induction false} MagMono(f: Format, b: nat, c: nat)
    requires b < c
    ensures Mag(f, b) < Mag(f, c)
    decreases c
  {
    hide Mag, Pow;
    var p, s := SplitPattern(f, c - 1);
    MagSucc(f, p, s);
    if b < c - 1 {
      MagMono(f, b, c - 1);
    }
  }

  lemma MagInfinity(f: Format)
    requires f.Valid()
    ensures Mag(f, f.Infinity()) == Pow2(f.bias + 1 + f.Scale())
  {
    hide Pow, Mag;
    MagOfPattern(f, 2 * f.bias, f.Hidden());
    assert Pattern(f, 2 * f.bias, f.Hidden()) == f.Infinity();
    Pow2Add(f.fractionBits, 2 * f.bias);
    assert f.bias + 1 + f.Scale() == f.fractionBits + 2 * f.bias;
  }

  // ------------------------------------------------ rounding by midpoints

  /** r's rounding interval is bounded by the midpoints to its two neighbours. */
  ghost predicate InInterval(f: Format, v: nat, d: nat, r: int)
  {
    && 0 <= r <= f.Infinity()
    && (r > 0 ==>
          && (Mag(f, r - 1) + Mag(f, r)) * d <= 2 * v
          && ((Mag(f, r - 1) + Mag(f, r)) * d == 2 * v ==> r % 2 == 0))
    && (r < f.Infinity() ==>
          && 2 * v <= (Mag(f, r) + Mag(f, r + 1)) * d
          && (2 * v == (Mag(f, r) + Mag(f, r + 1)) * d ==> r % 2 == 0))
  }

  lemma IntervalIsNearest(f: Format, n: nat, d: nat, r: int)
    requires f.Valid() && d > 0
    requires InInterval(f, n * Pow2(f.Scale()), d, r)
    ensures IsNearest(f, n, d, r)
  {
    hide Pow, Mag;
    forall c: nat {:trigger Dist(f, n, d, c)} | c <= f.Infinity()
      ensures Dist(f, n, d, r) <= Dist(f, n, d, c)
      ensures c != r && Dist(f, n, d, r) == Dist(f, n, d, c) ==> r % 2 == 0
    {
      if c > r {
        AboveIsFarther(f, n * Pow2(f.Scale()), d, r, c);
      } else if c < r {
        BelowIsFarther(f, n * Pow2(f.Scale()), d, r, c);
      }
    }
  }

  lemma AboveIsFarther(f: Format, v: nat, d: nat, r: nat, c: nat)
    requires d > 0 && InInterval(f, v, d, r) && r < c <= f.Infinity()
    ensures Gap(v, Mag(f, r) * d) <= Gap(v, Mag(f, c) * d)
    ensures Gap(v, Mag(f, r) * d) == Gap(v, Mag(f, c) * d) ==> r % 2 == 0
  {
    hide Mag;
    var x, y, z := Mag(f, r), Mag(f, r + 1), Mag(f, c);
    MagMono(f, r, r + 1);
    if r + 1 < c { MagMono(f, r + 1, c); }
    assert (x + y) * d == x * d + y * d;
    MulStrict(x, y, d);
    MulStrict(y, z, d);
  }

  lemma BelowIsFarther(f: Format, v: nat, d: nat, r: nat, c: nat)
    requires d > 0 && InInterval(f, v, d, r) && c < r
    ensures Gap(v, Mag(f, r) * d) <= Gap(v, Mag(f, c) * d)
    ensures Gap(v, Mag(f, r) * d) == Gap(v, Mag(f, c) * d) ==> r % 2 == 0
  {
    hide Mag;
    var x, y, z := Mag(f, r), Mag(f, r - 1), Mag(f, c);
    MagMono(f, r - 1, r);
    if c < r - 1 { MagMono(f, c, r - 1); }
    assert (y + x) * d == x * d + y * d;
    MulStrict(y, x, d);
    MulStrict(z, y, d);
  }

  /** The midpoint conditions for the pattern that rounding at binade p produces. */
  lemma RoundedInInterval(f: Format, v: nat, d: nat, p: nat, s: nat)
    requires f.Valid() && d > 0 && d * Pow2(p) > 0
    requires IsRoundDiv(v, d * Pow2(p), s)
    requires s <= 2 * f.Hidden()
    requires p == 0 || (s >= f.Hidden() && f.Hidden() * Pow2(p) * d <= v)
    requires Pattern(f, p, s) <= f.Infinity()
    ensures InInterval(f, v, d, Pattern(f, p, s))
  {
    hide Pow, Mag;
    var r := Pattern(f, p, s);
    PatternParity(f, p, s);
    MidpointProducts(s, Pow2(p), d);
    if r > 0 {
      LowerMidpoint(f, v, d, p, s);
    }
    if r < f.Infinity() {
      MagOfPattern(f, p, s);
      UpperMidpoint(f, p, s);
      MulStrict(s * Pow2(p) + s * Pow2(p) + Pow2(p), Mag(f, r) + Mag(f, r + 1), d);
    }
  }

  lemma MidpointProducts(s: nat, u: nat, d: nat)
    ensures (s * u - u + s * u) * d == (2 * s - 1) * (d * u)
    ensures (s * u + s * u + u) * d == (2 * s + 1) * (d * u)
  {
    assert s * u - u + s * u == (2 * s - 1) * u;
    assert s * u + s * u + u == (2 * s + 1) * u;
    MulAssoc(2 * s - 1, u, d);
    MulAssoc(2 * s + 1, u, d);
  }

  lemma LowerMidpoint(f: Format, v: nat, d: nat, p: nat, s: nat)
    requires f.Valid() && d > 0
    requires IsRoundDiv(v, d * Pow2(p), s) && s <= 2 * f.Hidden()
    requires p == 0 || (s >= f.Hidden() && f.Hidden() * Pow2(p) * d <= v)
    requires Pattern(f, p, s) > 0
    ensures var r := Pattern(f, p, s);
      && (Mag(f, r - 1) + Mag(f, r)) * d <= 2 * v
      && ((Mag(f, r - 1) + Mag(f, r)) * d == 2 * v ==> s % 2 == 0)
  {
    hide Pow, Mag;
    var r, h, u := Pattern(f, p, s), f.Hidden(), Pow2(p);
    MagOfPattern(f, p, s);
    if p == 0 || s > h {
      assert s > 0;
      MagSucc(f, p, s - 1);
      assert Pattern(f, p, s - 1) + 1 == r;
      assert Mag(f, r - 1) + Mag(f, r) == s * u - u + s * u;
      MidpointProducts(s, u, d);
    } else {
      MagMono(f, r - 1, r);
      var top := h * u;
      assert Mag(f, r) == top;
      MulStrict(Mag(f, r - 1) + top, 2 * top, d);
      MulAssoc(2, top, d);
    }
  }

  lemma UpperMidpoint(f: Format, p: nat, s: nat)
    requires s <= 2 * f.Hidden() && (p == 0 || s >= f.Hidden())
    ensures Mag(f, Pattern(f, p, s) + 1) >= Mag(f, Pattern(f, p, s)) + Pow2(p)
  {
    hide Mag;
    if s < 2 * f.Hidden() {
      MagSucc(f, p, s);
    } else {
      assert Pattern(f, p, s) == Pattern(f, p + 1, f.Hidden());
      MagSucc(f, p + 1, f.Hidden());
      assert Pow2(p + 1) == 2 * Pow2(p);
    }
  }

  lemma PatternParity(f: Format, p: nat, s: nat)
    requires f.Valid()
    ensures Pattern(f, p, s) % 2 == s % 2
  {
    var half := Pow2(f.fractionBits - 1);
    assert f.Hidden() == 2 * half;
    assert p * (2 * half) == 2 * (p * half);
  }

  // -------------------------------------------- the encoder rounds correctly

  lemma ExponentBounds(n: nat, d: nat)
    requires n > 0 && d > 0
    ensures var e := RationalBinaryExponent(n, d);
      if e >= 0 then d * Pow2(e) <= n < 2 * (d * Pow2(e))
      else d <= n * Pow2(-e) < 2 * d
  {
    if Msb(n) >= Msb(d) {
      ExponentAbove(n, d);
    } else {
      ExponentBelow(n, d);
    }
  }

  lemma ExponentAbove(n: nat, d: nat)
    requires n > 0 && d > 0 && Msb(n) >= Msb(d)
    ensures var e := RationalBinaryExponent(n, d);
      if e >= 0 then d * Pow2(e) <= n < 2 * (d * Pow2(e))
      else d <= n * Pow2(-e) < 2 * d
  {
    hide Pow, Msb;
    var k: nat := Msb(n) - Msb(d);
    AboveRange(n, d, k);
    var e := RationalBinaryExponent(n, d);
    if n >= d * Pow2(k) {
      assert e == k;
    } else if k > 0 {
      assert e == k - 1;
      DoubledPower(d, k - 1);
    } else {
      assert e == -1;
      Pow2Small();
    }
  }

  lemma AboveRange(n: nat, d: nat, k: nat)
    requires n > 0 && d > 0 && Msb(d) + k == Msb(n)
    ensures n < 2 * (d * Pow2(k)) && d * Pow2(k) < 2 * n
  {
    var a, b := Msb(n), Msb(d);
    assert Pow2(a + 1) == 2 * Pow2(a) && Pow2(b + 1) == 2 * Pow2(b);
    Pow2Add(b, k);
    QuotientOfPowers(n, d, Pow2(a), Pow2(b), Pow2(k));
  }

  lemma ExponentBelow(n: nat, d: nat)
    requires n > 0 && d > 0 && Msb(n) < Msb(d)
    ensures var e := RationalBinaryExponent(n, d);
      e < 0 && d <= n * Pow2(-e) < 2 * d
  {
    hide Pow, Msb;
    var k: nat := Msb(d) - Msb(n);
    BelowRange(n, d, k);
    DoubledPower(n, k);
    var e := RationalBinaryExponent(n, d);
    if n * Pow2(k) < d {
      assert -e == k + 1;
    } else {
      assert -e == k;
    }
  }

  lemma BelowRange(n: nat, d: nat, k: nat)
    requires n > 0 && d > 0 && Msb(n) + k == Msb(d)
    ensures d < 2 * (n * Pow2(k)) && n * Pow2(k) < 2 * d
  {
    var a, b := Msb(n), Msb(d);
    assert Pow2(a + 1) == 2 * Pow2(a) && Pow2(b + 1) == 2 * Pow2(b);
    Pow2Add(a, k);
    QuotientOfPowers(d, n, Pow2(b), Pow2(a), Pow2(k));
  }

  lemma DoubledPower(n: nat, k: nat)
    ensures n * Pow2(k + 1) == 2 * (n * Pow2(k))
  {
    assert Pow2(k + 1) == 2 * Pow2(k);
    MulAssoc(n, Pow2(k), 2);
  }

  lemma QuotientOfPowers(n: nat, d: nat, pa: nat, pb: nat, u: nat)
    requires pa <= n < 2 * pa && pb <= d < 2 * pb && pa == pb * u && u > 0
    ensures n < 2 * (d * u) && d * u < 2 * n
  {
    ScaleRange(pb, d, u);
  }

  /** The same bounds after scaling the quotient to subnormal units. */
  lemma ScaledBounds(f: Format, n: nat, d: nat, e: int)
    requires f.Valid() && n > 0 && d > 0 && e == RationalBinaryExponent(n, d)
    requires e + f.Scale() >= 0
    ensures d * Pow2(e + f.Scale()) <= n * Pow2(f.Scale()) < 2 * (d * Pow2(e + f.Scale()))
  {
    hide Pow, RationalBinaryExponent;
    ExponentBounds(n, d);
    var k := f.Scale();
    if e >= 0 {
      Pow2Add(e, k);
      ScaleRange(d * Pow2(e), n, Pow2(k));
      MulAssoc(d, Pow2(e), Pow2(k));
    } else {
      Pow2Add(-e, e + k);
      ScaleRange(d, n * Pow2(-e), Pow2(e + k));
      MulAssoc(n, Pow2(-e), Pow2(e + k));
    }
  }

  /** The significand computed with the source's shift is the rounding at binade p. */
  lemma SignificandIsScaled(f: Format, n: nat, d: nat, e: int)
    requires f.Valid() && n > 0 && d > 0 && e >= 1 - f.bias
    ensures d * Pow2(e + f.bias - 1) > 0
    ensures var shift := f.fractionBits - e;
      RoundDiv(n * Pow2(f.Scale()), d * Pow2(e + f.bias - 1)) ==
      if shift >= 0 then RoundDiv(n * Pow2(shift), d)
      else (assert d * Pow2(-shift) > 0; RoundDiv(n, d * Pow2(-shift)))
  {
    hide Pow, RoundDiv;
    var p: nat, k := e + f.bias - 1, f.Scale();
    var shift := f.fractionBits - e;
    assert d * Pow2(p) > 0;
    if shift >= 0 {
      Pow2Add(shift, p);
      assert k == shift + p;
      RoundDivScale(n * Pow2(shift), d, Pow2(p));
      MulAssoc(n, Pow2(shift), Pow2(p));
    } else {
      Pow2Add(-shift, k);
      assert p == -shift + k;
      assert d * Pow2(-shift) > 0;
      RoundDivScale(n, d * Pow2(-shift), Pow2(k));
      MulAssoc(d, Pow2(-shift), Pow2(k));
    }
  }

  lemma OverflowCase(f: Format, n: nat, d: nat)
    requires f.Valid() && n > 0 && d > 0 && RationalBinaryExponent(n, d) > f.bias
    ensures InInterval(f, n * Pow2(f.Scale()), d, f.Infinity())
  {
    hide Pow, RationalBinaryExponent, Mag;
    var e, top := RationalBinaryExponent(n, d), f.Infinity();
    ScaledBounds(f, n, d, e);
    MagInfinity(f);
    Pow2Mono(f.bias + 1 + f.Scale(), e + f.Scale());
    assert top > 0;
    MagMono(f, top - 1, top);
    PastTop(Mag(f, top - 1), Mag(f, top), Pow2(e + f.Scale()), d, n * Pow2(f.Scale()));
  }

  lemma PastTop(x: nat, top: nat, u: nat, d: nat, v: nat)
    requires x < top <= u && d > 0 && d * u <= v
    ensures (x + top) * d < 2 * v
  {
    MulStrict(x + top, 2 * top, d);
    MulStrict(top, u, d);
    MulAssoc(2, top, d);
  }

  /** A quotient below the smallest normal is at most 2^112 subnormal units. */
  lemma SubnormalRange(f: Format, n: nat, d: nat)
    requires f.Valid() && n > 0 && d > 0 && RationalBinaryExponent(n, d) < 1 - f.bias
    ensures n * Pow2(f.Scale()) <= f.Hidden() * d
  {
    hide Pow, RationalBinaryExponent;
    var e, k := RationalBinaryExponent(n, d), f.Scale();
    var v, top := n * Pow2(k), d * Pow2(f.fractionBits);
    if e + k >= 0 {
      var w := d * Pow2(e + k);
      assert v < 2 * w by { ScaledBounds(f, n, d, e); }
      assert 2 * w <= top by { PowerBelow(d, e + k, f.fractionBits); }
    } else {
      var w := n * Pow2(-e);
      assert w < 2 * d by { ExponentBounds(n, d); }
      assert 2 * v <= w by { PowerBelow(n, k, -e); }
      assert d <= top by { MulMono(1, Pow2(f.fractionBits), d); }
    }
  }

  lemma PowerBelow(d: nat, x: nat, y: nat)
    requires x < y
    ensures 2 * (d * Pow2(x)) <= d * Pow2(y)
  {
    hide Pow;
    DoubledPower(d, x);
    Pow2Mono(x + 1, y);
    MulMono(Pow2(x + 1), Pow2(y), d);
  }

  lemma SubnormalCase(f: Format, n: nat, d: nat)
    requires f.Valid() && n > 0 && d > 0 && RationalBinaryExponent(n, d) < 1 - f.bias
    ensures EncodeMagnitude(f, n, d) == RoundDiv(n * Pow2(f.Scale()), d) <= f.Hidden()
    ensures InInterval(f, n * Pow2(f.Scale()), d, EncodeMagnitude(f, n, d))
  {
    hide Pow, RationalBinaryExponent, RoundDiv, InInterval;
    var v, h := n * Pow2(f.Scale()), f.Hidden();
    var s := RoundDiv(v, d);
    SubnormalRange(f, n, d);
    assert s <= h by { RoundDivBounds(v, d, 0, h); }
    SubnormalRounding(f, v, d, s);
  }

  lemma SubnormalRounding(f: Format, v: nat, d: nat, s: nat)
    requires f.Valid() && d > 0 && s == RoundDiv(v, d) && s <= f.Hidden()
    ensures InInterval(f, v, d, s)
  {
    RoundDivCorrect(v, d);
    assert Pow2(0) == 1;
    assert Pattern(f, 0, s) == s;
    PatternBelowInfinity(f, 0, s);
    RoundedInInterval(f, v, d, 0, s);
  }

  /** In the normal range the rounded significand lies between 2^112 and 2^113. */
  lemma NormalRange(f: Format, n: nat, d: nat, p: nat)
    requires f.Valid() && n > 0 && d > 0
    requires p == RationalBinaryExponent(n, d) + f.bias - 1
    ensures f.Hidden() * (d * Pow2(p)) <= n * Pow2(f.Scale()) <= 2 * f.Hidden() * (d * Pow2(p))
  {
    hide Pow, RationalBinaryExponent;
    ScaledBounds(f, n, d, RationalBinaryExponent(n, d));
    Pow2Add(f.fractionBits, p);
    MulAssoc(d, f.Hidden(), Pow2(p));
    MulAssoc(f.Hidden(), d, Pow2(p));
    MulAssoc(2, f.Hidden(), d * Pow2(p));
  }

  lemma NormalCase(f: Format, n: nat, d: nat)
    requires f.Valid() && n > 0 && d > 0
    requires 1 - f.bias <= RationalBinaryExponent(n, d) <= f.bias
    ensures var p := RationalBinaryExponent(n, d) + f.bias - 1;
      && d * Pow2(p) > 0
      && EncodeMagnitude(f, n, d) == Pattern(f, p, RoundDiv(n * Pow2(f.Scale()), d * Pow2(p)))
    ensures InInterval(f, n * Pow2(f.Scale()), d, EncodeMagnitude(f, n, d))
  {
    hide Pow, RationalBinaryExponent, RoundDiv, InInterval, EncodeMagnitude;
    var p: nat := RationalBinaryExponent(n, d) + f.bias - 1;
    var v, m := n * Pow2(f.Scale()), d * Pow2(p);
    assert f.Hidden() <= RoundDiv(v, m) <= 2 * f.Hidden() && InInterval(f, v, d, Pattern(f, p, RoundDiv(v, m))) by {
      NormalRange(f, n, d, p);
      NormalSignificand(f, d, p, v, m);
    }
    SignificandIsScaled(f, n, d, p + 1 - f.bias);
    AssemblePattern(f, n, d, RoundDiv(v, m));
  }

  lemma NormalSignificand(f: Format, d: nat, p: nat, v: nat, m: nat)
    requires f.Valid() && d > 0 && p <= 2 * f.bias - 1 && m == d * Pow2(p) && m > 0
    requires f.Hidden() * m <= v <= 2 * f.Hidden() * m
    ensures f.Hidden() <= RoundDiv(v, m) <= 2 * f.Hidden()
    ensures InInterval(f, v, d, Pattern(f, p, RoundDiv(v, m)))
  {
    hide Pow, RoundDiv, InInterval, IsRoundDiv, Pattern;
    var h, s := f.Hidden(), RoundDiv(v, m);
    RoundDivBounds(v, m, h, 2 * h);
    RoundDivCorrect(v, m);
    PatternBelowInfinity(f, p, s);
    MulAssoc(h, Pow2(p), d);
    RoundedInInterval(f, v, d, p, s);
  }

  /** Exponent bits plus fraction, with or without the carry, is Pattern(p, s). */
  lemma AssemblePattern(f: Format, n: nat, d: nat, s: nat)
    requires f.Valid() && n > 0 && d > 0
    requires 1 - f.bias <= RationalBinaryExponent(n, d) <= f.bias
    requires f.Hidden() <= s <= 2 * f.Hidden()
    requires var shift := f.fractionBits - RationalBinaryExponent(n, d);
      s == if shift >= 0 then RoundDiv(n * Pow2(shift), d)
           else (assert d * Pow2(-shift) > 0; RoundDiv(n, d * Pow2(-shift)))
    ensures EncodeMagnitude(f, n, d) == Pattern(f, RationalBinaryExponent(n, d) + f.bias - 1, s)
  {
    hide Pow, RoundDiv, RationalBinaryExponent;
    var e, h := RationalBinaryExponent(n, d), f.Hidden();
    var p: nat := e + f.bias - 1;
    assert (p + 1) * h == p * h + h;
    assert (p + 2) * h == p * h + 2 * h;
    if e == f.bias {
      assert 2 * f.bias + 1 == p + 2;
    }
  }

  lemma PatternBelowInfinity(f: Format, p: nat, s: nat)
    requires f.Valid() && p <= 2 * f.bias - 1 && s <= 2 * f.Hidden()
    ensures Pattern(f, p, s) <= f.Infinity()
  {
    MulMono(p, 2 * f.bias - 1, f.Hidden());
    assert (2 * f.bias - 1) * f.Hidden() + 2 * f.Hidden() == f.Infinity();
  }

  lemma EncodeInInterval(f: Format, n: nat, d: nat)
    requires f.Valid() && d > 0
    ensures InInterval(f, n * Pow2(f.Scale()), d, EncodeMagnitude(f, n, d))
  {
    if n == 0 {
      assert 0 * Pow2(f.Scale()) == 0;
      MagOfPattern(f, 0, 0);
      MagMono(f, 0, 1);
      MulStrict(0, Mag(f, 0) + Mag(f, 1), d);
      assert f.Infinity() > 0;
    } else if RationalBinaryExponent(n, d) > f.bias {
      OverflowCase(f, n, d);
    } else if RationalBinaryExponent(n, d) < 1 - f.bias {
      SubnormalCase(f, n, d);
    } else {
      NormalCase(f, n, d);
    }
  }

  /** For every quotient, encodeRational returns the nearest magnitude, ties to even. */
  lemma EncodeIsNearest(f: Format, n: nat, d: nat)
    requires f.Valid() && d > 0
    ensures IsNearest(f, n, d, EncodeMagnitude(f, n, d))
  {
    hide Pow, Mag, EncodeMagnitude, IsNearest, InInterval;
    EncodeInInterval(f, n, d);
    IntervalIsNearest(f, n, d, EncodeMagnitude(f, n, d));
  }

  // ---------------------------------------- monotonicity and its consequences

  /** Rounding is determined by the specification and never inverts an order. */
  lemma NearestMonotone(f: Format, n1: nat, d1: nat, r1: int, n2: nat, d2: nat, r2: int)
    requires f.Valid() && d1 > 0 && d2 > 0 && n1 * d2 <= n2 * d1
    requires IsNearest(f, n1, d1, r1) && IsNearest(f, n2, d2, r2)
    ensures r1 <= r2
  {
    hide Pow, Mag;
    if r2 < r1 {
      var k := Pow2(f.Scale());
      var v1, v2, hi, lo := n1 * k, n2 * k, Mag(f, r1), Mag(f, r2);
      MagMono(f, r2, r1);
      assert Dist(f, n1, d1, r1) <= Dist(f, n1, d1, r2);
      assert Dist(f, n2, d2, r2) <= Dist(f, n2, d2, r1);
      CloserMeansPastMidpoint(v1, d1, lo, hi);
      CloserMeansPastMidpoint(v2, d2, lo, hi);
      assert v1 * d2 <= v2 * d1 by {
        MulMono(n1 * d2, n2 * d1, k);
        MulAssoc(n1, d2, k);
        MulAssoc(n2, d1, k);
      }
      MidpointsCoincide(lo + hi, v1, d1, v2, d2);
      TieIsAdjacent(f, n1, d1, r2, r1);
    }
  }

  /** Two patterns at equal distance, one of them nearest, are neighbours. */
  lemma TieIsAdjacent(f: Format, n: nat, d: nat, lo: nat, hi: nat)
    requires f.Valid() && d > 0 && lo < hi && IsNearest(f, n, d, hi)
    requires 2 * (n * Pow2(f.Scale())) == (Mag(f, lo) + Mag(f, hi)) * d
    ensures hi == lo + 1
  {
    hide Pow, Mag;
    if lo + 1 < hi {
      assert Dist(f, n, d, hi) <= Dist(f, n, d, lo + 1);
      MagMono(f, lo, lo + 1);
      MagMono(f, lo + 1, hi);
      BetweenIsCloser(n * Pow2(f.Scale()), d, Mag(f, lo), Mag(f, lo + 1), Mag(f, hi));
    }
  }

  lemma CloserMeansPastMidpoint(v: nat, d: nat, lo: nat, hi: nat)
    requires d > 0 && lo < hi
    ensures (Gap(v, hi * d) <= Gap(v, lo * d)) <==> (lo + hi) * d <= 2 * v
    ensures (Gap(v, lo * d) <= Gap(v, hi * d)) <==> 2 * v <= (lo + hi) * d
  {
    MulStrict(lo, hi, d);
    assert (lo + hi) * d == lo * d + hi * d;
  }

  lemma MidpointsCoincide(mid: nat, v1: nat, d1: nat, v2: nat, d2: nat)
    requires d1 > 0 && d2 > 0
    requires mid * d1 <= 2 * v1 && 2 * v2 <= mid * d2 && v1 * d2 <= v2 * d1
    ensures 2 * v1 == mid * d1 && 2 * v2 == mid * d2
  {
    MulStrict(mid * d1, 2 * v1, d2);
    MulStrict(2 * v2, mid * d2, d1);
    MulAssoc(mid, d1, d2);
    MulAssoc(mid, d2, d1);
    MulAssoc(2, v1, d2);
    MulAssoc(2, v2, d1);
  }

  lemma BetweenIsCloser(v: nat, d: nat, lo: nat, x: nat, hi: nat)
    requires d > 0 && lo < x < hi && 2 * v == (lo + hi) * d
    ensures Gap(v, x * d) < Gap(v, hi * d)
  {
    MulStrict(lo, x, d);
    MulStrict(x, hi, d);
    assert (lo + hi) * d == lo * d + hi * d;
  }

  /** A larger non-negative rational never gets a smaller bit pattern. */
  lemma EncodeMonotone(f: Format, n1: nat, d1: nat, n2: nat, d2: nat)
    requires f.Valid() && d1 > 0 && d2 > 0 && n1 * d2 <= n2 * d1
    ensures EncodeMagnitude(f, n1, d1) <= EncodeMagnitude(f, n2, d2)
  {
    hide Pow, Mag, EncodeMagnitude, IsNearest;
    EncodeIsNearest(f, n1, d1);
    EncodeIsNearest(f, n2, d2);
    NearestMonotone(f, n1, d1, EncodeMagnitude(f, n1, d1), n2, d2, EncodeMagnitude(f, n2, d2));
  }

  /** The nearest pattern is unique, so the specification determines the encoder. */
  lemma NearestUnique(f: Format, n: nat, d: nat, r: int)
    requires f.Valid() && d > 0 && IsNearest(f, n, d, r)
    ensures r == EncodeMagnitude(f, n, d)
  {
    hide Pow, Mag, EncodeMagnitude, IsNearest;
    EncodeIsNearest(f, n, d);
    NearestMonotone(f, n, d, r, n, d, EncodeMagnitude(f, n, d));
    NearestMonotone(f, n, d, EncodeMagnitude(f, n, d), n, d, r);
  }

  /** Encoding the exact value of a pattern gives the pattern back. */
  lemma EncodeInvertsMag(f: Format, b: nat)
    requires f.Valid() && b <= f.Infinity()
    ensures EncodeMagnitude(f, Mag(f, b), Pow2(f.Scale())) == b
  {
    hide Pow, Mag, EncodeMagnitude;
    var n, d := Mag(f, b), Pow2(f.Scale());
    var r := EncodeMagnitude(f, n, d);
    EncodeIsNearest(f, n, d);
    assert Dist(f, n, d, b) == 0;
    assert Dist(f, n, d, r) == 0;
    MulStrict(Mag(f, b), Mag(f, r), d);
    if b < r { MagMono(f, b, r); }
    if r < b { MagMono(f, r, b); }
  }

  /** Equal quotients encode equally, whatever pair denotes them. */
  lemma EncodeRespectsQuotient(f: Format, n1: nat, d1: nat, n2: nat, d2: nat)
    requires f.Valid() && d1 > 0 && d2 > 0 && n1 * d2 == n2 * d1
    ensures EncodeMagnitude(f, n1, d1) == EncodeMagnitude(f, n2, d2)
  {
    EncodeMonotone(f, n1, d1, n2, d2);
    EncodeMonotone(f, n2, d2, n1, d1);
  }
}
