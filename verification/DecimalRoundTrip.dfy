/**
  36 significant decimal digits identify a binary128 value: any text within half a
  unit of the 36th digit of a finite nonzero value parses back to the same bits.
 */
module DecimalRoundTrip {
  import opened Basics
  import opened Powers
  import opened Binary128
  import opened DecimalText
  import opened DecimalParser
  import opened DecimalExactness

  /** The precision hs_f128_format prints with. */
  const DIGITS: nat := 36

  /** 10^35 exceeds the number of significands by enough to separate neighbours. */
  ghost predicate EnoughDigits(f: Format) {
    f.Valid() && 16 * f.Hidden() <= Pow(10, DIGITS - 1)
  }

  lemma Binary128HasEnoughDigits()
    ensures EnoughDigits(BINARY128)
  {
    hide Pow;
    TwoTo112();
    TenTo35();
  }

  lemma TwoTo8()
    ensures Pow2(8) == 256
  {
    assert Pow2(4) == 16;
    Pow2Add(4, 4);
  }

  lemma TwoTo112()
    ensures Pow2(112) == 0x1_0000_0000_0000_0000_0000_0000_0000
  {
    hide Pow;
    TwoTo8();
    Pow2Add(8, 8);
    Pow2Add(16, 16);
    Pow2Add(32, 16);
    Pow2Add(48, 8);
    Pow2Add(56, 56);
  }

  lemma TenTo5()
    ensures Pow(10, 5) == 100_000
  {
    assert Pow(10, 3) == 1000;
  }

  lemma TenTo35()
    ensures Pow(10, 35) == 100_000_000_000_000_000_000_000_000_000_000_000
  {
    hide Pow;
    TenTo5();
    PowAdd(10, 5, 5);
    PowAdd(10, 10, 10);
    PowAdd(10, 20, 10);
    PowAdd(10, 30, 5);
  }

  /** The distance from a pattern down to its neighbour is at least half its own step. */
  lemma GapBelow(f: Format, b: nat, p: nat, s: nat)
    requires 0 < b == Pattern(f, p, s) && s < 2 * f.Hidden() && (p == 0 || s >= f.Hidden())
    ensures 2 * (Mag(f, b) - Mag(f, b - 1)) >= Pow2(p)
  {
    hide Pow, Mag;
    var h := f.Hidden();
    if p == 0 || s > h {
      MagSucc(f, p, s - 1);
      assert Pattern(f, p, s - 1) + 1 == b;
    } else {
      assert p * h == (p - 1) * h + h;
      assert Pattern(f, p - 1, 2 * h - 1) + 1 == b;
      MagSucc(f, p - 1, 2 * h - 1);
      DoubledPower(1, p - 1);
    }
  }

  /** An error below a sixteenth of the local step stays in the rounding interval. */
  lemma SmallErrorInInterval(f: Format, v: nat, d: nat, b: nat, p: nat, s: nat)
    requires d > 0 && 0 < b < f.Infinity()
    requires b == Pattern(f, p, s) && s < 2 * f.Hidden() && (p == 0 || s >= f.Hidden())
    requires 16 * Gap(v, Mag(f, b) * d) < Pow2(p) * d
    ensures InInterval(f, v, d, b)
  {
    hide Pow, Mag;
    var m, u := Mag(f, b), Pow2(p);
    GapBelow(f, b, p, s);
    MagSucc(f, p, s);
    var below, above := Mag(f, b - 1), Mag(f, b + 1);
    var gap := m - below;
    assert (below + m) * d == 2 * (m * d) - gap * d;
    assert (m + above) * d == 2 * (m * d) + u * d;
    assert u * d <= 2 * (gap * d) by {
      MulStrict(u, 2 * gap, d);
      MulAssoc(2, gap, d);
    }
  }

  /** A quotient within v * 10^-35 / 2 of a value v encodes to it. */
  lemma CloseQuotient(f: Format, n: nat, d: nat, b: nat)
    requires EnoughDigits(f) && d > 0 && 0 < b < f.Infinity()
    requires 2 * Pow(10, DIGITS - 1) * Dist(f, n, d, b) <= Mag(f, b) * d
    ensures EncodeMagnitude(f, n, d) == b
  {
    hide Pow, Mag, EncodeMagnitude;
    var p, s := SplitPattern(f, b);
    StepBound(Pow(10, DIGITS - 1), f.Hidden(), Dist(f, n, d, b), s, Pow2(p), d);
    SmallErrorInInterval(f, n * Pow2(f.Scale()), d, b, p, s);
    IntervalIsNearest(f, n, d, b);
    NearestUnique(f, n, d, b);
  }

  lemma StepBound(ten: nat, h: nat, err: nat, s: nat, u: nat, d: nat)
    requires 16 * h <= ten && h > 0 && s < 2 * h && u > 0 && d > 0
    requires 2 * ten * err <= s * u * d
    ensures 16 * err < u * d
  {
    var x := u * d;
    MulAssoc(s, u, d);
    assert s * x < 2 * h * x by { MulStrict(s, 2 * h, x); }
    assert 2 * h * (16 * err) <= 2 * ten * err by {
      MulMono(16 * h, ten, 2 * err);
      MulAssoc(16 * h, 2, err);
      MulAssoc(ten, 2, err);
      assert 2 * h * (16 * err) == 16 * h * (2 * err);
    }
    MulStrict(16 * err, x, 2 * h);
  }

  // ---------------------------------------------- the 36th significant digit

  /** 10^(k-1) is at most the value of pattern b. */
  ghost predicate LeadingDigitAt(f: Format, b: nat, k: int)
    requires f.Valid()
  {
    DecimalNumerator(1, k - 1) * Pow2(f.Scale()) <= Mag(f, b) * DecimalDenominator(k - 1)
  }

  /** n / d differs from b's value by at most half of 10^(k-36). */
  ghost predicate WithinHalfDigit(f: Format, n: nat, d: nat, b: nat, k: int)
    requires f.Valid()
  {
    2 * Dist(f, n, d, b) * DecimalDenominator(k - DIGITS) <=
    DecimalNumerator(1, k - DIGITS) * d * Pow2(f.Scale())
  }

  lemma TenPowers(k: int)
    ensures DecimalNumerator(1, k - 1) * DecimalDenominator(k - DIGITS) ==
            Pow(10, DIGITS - 1) * DecimalNumerator(1, k - DIGITS) * DecimalDenominator(k - 1)
  {
    hide Pow;
    if k >= DIGITS {
      PowAdd(10, DIGITS - 1, k - DIGITS);
    } else if k >= 1 {
      PowAdd(10, k - 1, DIGITS - k);
    } else {
      PowAdd(10, DIGITS - 1, 1 - k);
    }
  }

  lemma HalfDigitIsClose(f: Format, n: nat, d: nat, b: nat, k: int)
    requires f.Valid() && d > 0 && LeadingDigitAt(f, b, k) && WithinHalfDigit(f, n, d, b, k)
    ensures 2 * Pow(10, DIGITS - 1) * Dist(f, n, d, b) <= Mag(f, b) * d
  {
    hide Pow, Mag, Dist, DecimalNumerator, DecimalDenominator;
    TenPowers(k);
    ChainBounds(Pow(10, DIGITS - 1), Dist(f, n, d, b), Mag(f, b), d, Pow2(f.Scale()),
                DecimalNumerator(1, k - 1), DecimalDenominator(k - 1),
                DecimalNumerator(1, k - DIGITS), DecimalDenominator(k - DIGITS));
  }

  lemma ChainBounds(ten: nat, err: nat, m: nat, d: nat, scale: nat, tn: nat, td: nat, un: nat, ud: nat)
    requires td > 0 && ud > 0
    requires tn * ud == ten * un * td
    requires tn * scale <= m * td
    requires 2 * err * ud <= un * d * scale
    ensures 2 * ten * err <= m * d
  {
    var left, right, ds := 2 * ten * err, m * d, d * scale;
    assert left * ud <= ten * un * ds by {
      MulMono(2 * err * ud, un * d * scale, ten);
      Shuffle(2 * err, ud, ten);
      Shuffle(un, ds, ten);
      MulAssoc(un, d, scale);
    }
    assert left * ud * td <= tn * ud * ds by {
      MulMono(left * ud, ten * un * ds, td);
      MulAssoc(ten * un, ds, td);
    }
    assert tn * ud * ds <= right * ud * td by {
      MulMono(tn * scale, m * td, ud * d);
      MulAssoc(tn, scale, ud * d);
      MulAssoc(tn, ud, ds);
      Shuffle(scale, ud, d);
      MulAssoc(m, td, ud * d);
      MulAssoc(right, ud, td);
      MulAssoc(m, d, ud * td);
      Shuffle(td, ud, d);
    }
    MulAssoc(left, ud, td);
    MulAssoc(right, ud, td);
    assert ud * td > 0;
    MulStrict(left, right, ud * td);
  }

  lemma Shuffle(a: nat, b: nat, c: nat)
    ensures a * b * c == c * a * b == (c * a) * b == a * (b * c) == b * (c * a) == c * (b * a)
  {
  }

  /**
    Decimal round trip: a literal within half a unit of the 36th significant digit
    of a finite nonzero value parses to exactly that value's bits.
   */
  lemma DecimalRoundTrip(f: Format, b: nat, l: Literal, k: int)
    requires DecimalRange(f) && EnoughDigits(f) && 0 < b < f.Infinity()
    requires l.WellFormed() && Trusted(l) && LeadingDigitAt(f, b, k)
    requires var x := l.DecimalExponent();
      WithinHalfDigit(f, DecimalNumerator(DigitsValue(l.Digits()), x), DecimalDenominator(x), b, k)
    ensures ParsedBits(f, Render(l)) == Some((if l.Negative() then f.SignMask() else 0) + b)
  {
    hide Pow, Mag, EncodeMagnitude, ParsedBits, DigitsValue;
    var x := l.DecimalExponent();
    var n, d := DecimalNumerator(DigitsValue(l.Digits()), x), DecimalDenominator(x);
    HalfDigitIsClose(f, n, d, b, k);
    CloseQuotient(f, n, d, b);
    ParseIsCorrectRounding(f, l);
  }

  /** The source's own format and its 36 digits. */
  lemma Binary128RoundTrip(b: nat, l: Literal, k: int)
    requires 0 < b < BINARY128.Infinity() && l.WellFormed() && |Render(l)| <= 93999
    requires LeadingDigitAt(BINARY128, b, k)
    requires var x := l.DecimalExponent();
      WithinHalfDigit(BINARY128, DecimalNumerator(DigitsValue(l.Digits()), x), DecimalDenominator(x), b, k)
    ensures ParsedBits(BINARY128, Render(l)) == Some((if l.Negative() then BINARY128.SignMask() else 0) + b)
  {
    hide ParsedBits, Render, DecimalRange, Trusted, LeadingDigitAt, WithinHalfDigit, EnoughDigits, DigitsValue;
    Binary128InRange();
    Binary128HasEnoughDigits();
    ShortTextIsTrusted(l);
    DecimalRoundTrip(BINARY128, b, l, k);
  }
}
