/**
  When parseDecimalBits of runtime/hitsimple_f128.cpp rounds correctly: for every text, the
  exact condition under which its shortcuts and its saturating and narrowed counters agree
  with the exact decimal value, and the texts that always satisfy it.
 */
module DecimalExactness {
  import opened Basics
  import opened Powers
  import opened Binary128
  import opened DecimalText
  import opened DecimalParser

  // ------------------------------------------------ the shortcuts are exact

  /** The cut-offs are wide enough for the format; 16383 + 112 + 2 is below 18000. */
  ghost predicate DecimalRange(f: Format) {
    f.Valid() && f.bias + f.fractionBits + 2 <= 18000
  }

  lemma Binary128InRange()
    ensures DecimalRange(BINARY128)
  {
  }

  lemma EncodeBounded(f: Format, n: nat, d: nat)
    requires f.Valid() && d > 0
    ensures 0 <= EncodeMagnitude(f, n, d) <= f.Infinity()
  {
    hide EncodeMagnitude;
    EncodeInInterval(f, n, d);
  }

  /** A quotient of at least 2^(bias+1) overflows to infinity. */
  lemma HugeIsInfinity(f: Format, n: nat, d: nat)
    requires f.Valid() && d > 0 && Pow2(f.bias + 1) * d <= n
    ensures EncodeMagnitude(f, n, d) == f.Infinity()
  {
    hide Pow, EncodeMagnitude, Mag;
    var top, k := f.Infinity(), f.Scale();
    Pow2Add(f.bias + 1, k);
    MagInfinity(f);
    EncodeRespectsQuotient(f, Pow2(f.bias + 1), 1, Mag(f, top), Pow2(k));
    EncodeInvertsMag(f, top);
    EncodeMonotone(f, Pow2(f.bias + 1), 1, n, d);
    EncodeBounded(f, n, d);
  }

  /** A quotient of at most a quarter of the smallest subnormal rounds to zero. */
  lemma TinyIsZero(f: Format, n: nat, d: nat)
    requires f.Valid() && d > 0 && n * Pow2(f.Scale() + 2) <= d
    ensures EncodeMagnitude(f, n, d) == 0
  {
    hide Pow, EncodeMagnitude, Mag;
    var k := f.Scale();
    DoubledPower(n, k);
    DoubledPower(n, k + 1);
    MagOfPattern(f, 0, 0);
    MagOfPattern(f, 0, 1);
    assert Pattern(f, 0, 0) == 0 && Pattern(f, 0, 1) == 1;
    Pow2Small();
    assert Mag(f, 0) == 0 && Mag(f, 1) == 1;
    assert InInterval(f, n * Pow2(k), d, 0);
    IntervalIsNearest(f, n, d, 0);
    NearestUnique(f, n, d, 0);
  }

  lemma LargeDecimal(f: Format, v: nat, len: nat, x: int)
    requires DecimalRange(f) && len > 0 && Pow(10, len - 1) <= v && len + x > 6000
    ensures RoundDecimal(f, v, x) == f.Infinity()
  {
    hide Pow, EncodeMagnitude;
    var n, d := DecimalNumerator(v, x), DecimalDenominator(x);
    assert Pow(10, 6000) * d <= n by {
      if x >= 0 {
        PowAdd(10, len - 1, x);
        MulMono(Pow(10, len - 1), v, Pow(10, x));
        PowMono(10, 6000, len - 1 + x);
      } else {
        PowAdd(10, 6000, -x);
        PowMono(10, 6000 - x, len - 1);
      }
    }
    TenBeatsEight(6000);
    Pow2Mono(f.bias + 1, 3 * 6000);
    MulMono(Pow2(f.bias + 1), Pow(10, 6000), d);
    HugeIsInfinity(f, n, d);
  }

  lemma SmallDecimal(f: Format, v: nat, len: nat, x: int)
    requires DecimalRange(f) && v < Pow(10, len) && len + x < -6000
    ensures RoundDecimal(f, v, x) == 0
  {
    hide Pow, EncodeMagnitude;
    var k := f.Scale() + 2;
    assert v * Pow2(k) <= Pow(10, -x) by {
      TenBeatsEight(6000);
      Pow2Mono(k, 3 * 6000);
      MulMono(Pow2(k), Pow(10, 6000), v);
      MulMono(v, Pow(10, len), Pow(10, 6000));
      PowAdd(10, len, 6000);
      PowMono(10, len + 6000, -x);
    }
    TinyIsZero(f, v, Pow(10, -x));
  }

  function Stripped(digits: string): string {
    digits[LeadingZeroCount(digits)..]
  }

  /** Between the cut-offs with an exponent of at most -2^32, which takes some four billion digits. */
  predicate Narrows(digits: string, x: int) {
    Stripped(digits) != [] && -6000 <= |Stripped(digits)| + x <= 6000 && x <= 0 - U32
  }

  /** The shortcuts give the correctly rounded magnitude, except that a narrowed exponent gives infinity. */
  lemma CutIsExact(f: Format, digits: string, x: int)
    requires DecimalRange(f) && AllDigits(digits)
    ensures CutMagnitude(f, digits, x) == if Narrows(digits, x) then f.Infinity() else RoundDecimal(f, DigitsValue(digits), x)
  {
    hide Pow, EncodeMagnitude, RoundNarrowed, RoundDecimal, DigitsValue;
    var k, stripped := LeadingZeroCount(digits), Stripped(digits);
    LeadingZeros(digits, k);
    if stripped == [] {
      NoDigitsValue();
      ZeroRounds(f, x);
    } else {
      DigitsAtLeast(stripped);
      DigitsBelow(stripped);
      if |stripped| + x > 6000 {
        LargeDecimal(f, DigitsValue(stripped), |stripped|, x);
      } else if |stripped| + x < -6000 {
        SmallDecimal(f, DigitsValue(stripped), |stripped|, x);
      } else {
        NarrowingIsExact(f, DigitsValue(stripped), |stripped|, x);
      }
    }
  }

  lemma NoDigitsValue()
    ensures DigitsValue([]) == 0
  {
  }

  /** Narrowing changes nothing above -2^32; below, the lost power of ten overflows. */
  lemma NarrowingIsExact(f: Format, v: nat, len: nat, x: int)
    requires DecimalRange(f) && len > 0 && Pow(10, len - 1) <= v && -6000 <= len + x <= 6000
    ensures RoundNarrowed(f, v, x) == if x <= 0 - U32 then f.Infinity() else RoundDecimal(f, v, x)
  {
    hide Pow, EncodeMagnitude;
    if x <= 0 - U32 {
      var m := (-x) % U32;
      assert -x == U32 * ((-x) / U32) + m && (-x) / U32 >= 1;
      LargeDecimal(f, v, len, 0 - m);
      ZerothPower(v);
    }
  }

  lemma ZerothPower(v: nat)
    ensures v * Pow(10, 0) == v
  {
  }

  lemma ZeroRounds(f: Format, x: int)
    requires f.Valid()
    ensures RoundDecimal(f, 0, x) == 0
  {
    assert DecimalNumerator(0, x) == 0;
  }

  // ------------------------------------------------ overflow and underflow

  /** At or above the midpoint between the largest finite value and the next power of two. */
  predicate Overflows(f: Format, n: nat, d: nat)
    requires f.Valid()
  {
    (4 * f.Hidden() - 1) * Pow2(2 * f.bias - 1) * d <= 2 * (n * Pow2(f.Scale()))
  }

  /** At most half the least subnormal. */
  predicate Underflows(f: Format, n: nat, d: nat)
    requires f.Valid()
  {
    2 * (n * Pow2(f.Scale())) <= d
  }

  lemma TopMagnitudes(f: Format)
    requires f.Valid()
    ensures f.Infinity() > 0 && f.Infinity() % 2 == 0
    ensures Mag(f, f.Infinity() - 1) + Mag(f, f.Infinity()) == (4 * f.Hidden() - 1) * Pow2(2 * f.bias - 1)
  {
    hide Pow, Pow2, Mag;
    var h: nat, p: nat := f.Hidden(), 2 * f.bias - 1;
    TopPattern(p, h);
    assert Pattern(f, p, 2 * h) == f.Infinity() && Pattern(f, p, 2 * h - 1) == f.Infinity() - 1;
    MagOfPattern(f, p, 2 * h);
    MagOfPattern(f, p, 2 * h - 1);
    PatternParity(f, p, 2 * h);
    assert (2 * h - 1) * Pow2(p) + (2 * h) * Pow2(p) == (4 * h - 1) * Pow2(p);
  }

  lemma TopPattern(p: nat, h: nat)
    ensures p * h + 2 * h == (p + 2) * h
  {
  }

  /** The encoder gives infinity exactly on overflow. */
  lemma OverflowExactly(f: Format, n: nat, d: nat)
    requires f.Valid() && d > 0
    ensures EncodeMagnitude(f, n, d) == f.Infinity() <==> Overflows(f, n, d)
  {
    hide Pow, Pow2, Mag, EncodeMagnitude, IsNearest;
    TopMagnitudes(f);
    EncodeInInterval(f, n, d);
    if Overflows(f, n, d) {
      IntervalIsNearest(f, n, d, f.Infinity());
      NearestUnique(f, n, d, f.Infinity());
    }
  }

  /** The encoder gives zero exactly on underflow. */
  lemma UnderflowExactly(f: Format, n: nat, d: nat)
    requires f.Valid() && d > 0
    ensures EncodeMagnitude(f, n, d) == 0 <==> Underflows(f, n, d)
  {
    hide Pow, Pow2, Mag, EncodeMagnitude, IsNearest;
    LeastMagnitudes(f);
    EncodeInInterval(f, n, d);
    TopMagnitudes(f);
    if Underflows(f, n, d) {
      IntervalIsNearest(f, n, d, 0);
      NearestUnique(f, n, d, 0);
    }
  }

  lemma LeastMagnitudes(f: Format)
    requires f.Valid()
    ensures Mag(f, 0) == 0 && Mag(f, 1) == 1
  {
    hide Pow, Mag;
    MagOfPattern(f, 0, 0);
    MagOfPattern(f, 0, 1);
    assert Pattern(f, 0, 0) == 0 && Pattern(f, 0, 1) == 1;
    Pow2Small();
  }

  predicate DecimalOverflows(f: Format, v: nat, x: int)
    requires f.Valid()
  {
    Overflows(f, DecimalNumerator(v, x), DecimalDenominator(x))
  }

  predicate DecimalUnderflows(f: Format, v: nat, x: int)
    requires f.Valid()
  {
    Underflows(f, DecimalNumerator(v, x), DecimalDenominator(x))
  }

  lemma DecimalEnds(f: Format, v: nat, x: int)
    requires f.Valid()
    ensures RoundDecimal(f, v, x) == f.Infinity() <==> DecimalOverflows(f, v, x)
    ensures RoundDecimal(f, v, x) == 0 <==> DecimalUnderflows(f, v, x)
    ensures 0 <= RoundDecimal(f, v, x) <= f.Infinity()
  {
    hide EncodeMagnitude, Overflows, Underflows, DecimalNumerator;
    var n, d := DecimalNumerator(v, x), DecimalDenominator(x);
    OverflowExactly(f, n, d);
    UnderflowExactly(f, n, d);
    EncodeBounded(f, n, d);
  }

  // --------------------------------------------- the saturating exponent

  lemma {:induction false} SaturationBounds(ds: string)
    ensures Saturated(ds) <= DigitsValue(ds) && Saturated(ds) < 1000000
    ensures Saturated(ds) != DigitsValue(ds) ==> Saturated(ds) >= 100000 && DigitsValue(ds) >= 10 * Saturated(ds)
  {
    if ds != [] {
      SaturationBounds(ds[..|ds| - 1]);
    }
  }

  /** A larger exponent never rounds lower. */
  lemma RoundDecimalMonotone(f: Format, v: nat, x: int, y: int)
    requires f.Valid() && x <= y
    ensures RoundDecimal(f, v, x) <= RoundDecimal(f, v, y)
  {
    hide EncodeMagnitude;
    CrossScaled(v, x, y);
    EncodeMonotone(f, DecimalNumerator(v, x), DecimalDenominator(x), DecimalNumerator(v, y), DecimalDenominator(y));
  }

  lemma CrossScaled(v: nat, x: int, y: int)
    requires x <= y
    ensures DecimalNumerator(v, x) * DecimalDenominator(y) <= DecimalNumerator(v, y) * DecimalDenominator(x)
  {
    hide Pow;
    if x >= 0 {
      PowMono(10, x, y);
      MulMono(Pow(10, x), Pow(10, y), v);
    } else if y >= 0 {
      MulMono(1, Pow(10, y), v);
      MulMono(1, Pow(10, -x), v * Pow(10, y));
    } else {
      PowMono(10, -y, -x);
      MulMono(Pow(10, -y), Pow(10, -x), v);
    }
  }

  /** Exponents more than 12000 apart round a positive integer alike only at the two ends. */
  lemma FarApart(f: Format, digits: string, lo: int, hi: int)
    requires DecimalRange(f) && AllDigits(digits) && DigitsValue(digits) > 0 && hi > lo + 12000
    ensures var v := DigitsValue(digits);
      RoundDecimal(f, v, lo) == RoundDecimal(f, v, hi) <==> DecimalOverflows(f, v, lo) || DecimalUnderflows(f, v, hi)
  {
    hide RoundDecimal, DecimalOverflows, DecimalUnderflows, DigitsValue, Pow;
    var v, k, stripped := DigitsValue(digits), LeadingZeroCount(digits), Stripped(digits);
    LeadingZeros(digits, k);
    NoDigitsValue();
    DigitsAtLeast(stripped);
    DigitsBelow(stripped);
    DecimalEnds(f, v, lo);
    DecimalEnds(f, v, hi);
    RoundDecimalMonotone(f, v, lo, hi);
    if |stripped| + lo < -6000 {
      SmallDecimal(f, v, |stripped|, lo);
    } else {
      LargeDecimal(f, v, |stripped|, hi);
    }
    InfinityIsPositive(f);
  }

  lemma InfinityIsPositive(f: Format)
    requires f.Valid()
    ensures f.Infinity() > 0
  {
    hide Pow, Pow2;
    MulMono(1, 2 * f.bias + 1, f.Hidden());
  }

  // ------------------------------------------------------------- theorems

  /** The bits a literal should get: its exact value, correctly rounded, with its sign. */
  function CorrectBits(f: Format, l: Literal): int
    requires f.Valid()
  {
    EncodeRational(f, DecimalNumerator(DigitsValue(l.Digits()), l.DecimalExponent()),
                   DecimalDenominator(l.DecimalExponent()), l.Negative())
  }

  /** The exponent the parser works with, which may have stopped counting. */
  function CountedExponent(l: Literal): int {
    SaturatedExponent(l.exponent) - |l.fraction|
  }

  function Lesser(a: int, b: int): int {
    if a <= b then a else b
  }

  function Greater(a: int, b: int): int {
    if a <= b then b else a
  }

  /**
    When the parser's two integer shortcuts do no harm: the digits are zero; or, with the
    exponent narrowed, the value overflows anyway; or, otherwise, the counter has not
    saturated, or the smaller of the counted and the written exponent already overflows,
    or the larger still underflows.
   */
  predicate Harmless(f: Format, l: Literal)
    requires f.Valid()
  {
    var v, counted, written := DigitsValue(l.Digits()), CountedExponent(l), l.DecimalExponent();
    || v == 0
    || if Narrows(l.Digits(), counted) then DecimalOverflows(f, v, written)
       else counted == written || DecimalOverflows(f, v, Lesser(counted, written)) || DecimalUnderflows(f, v, Greater(counted, written))
  }

  /** A numeric text parses to the correct rounding of its exact value exactly when that is so. */
  lemma ParsesCorrectlyExactly(f: Format, l: Literal)
    requires DecimalRange(f) && l.WellFormed()
    ensures ParsedBits(f, Render(l)) == Some(CorrectBits(f, l)) <==> Harmless(f, l)
  {
    hide EncodeMagnitude, DigitRun, ReadMantissa, ReadExponent, Saturated, CutMagnitude, Lowered, DigitsValue, Pow, Pow2,
      DecimalOverflows, DecimalUnderflows, Narrows;
    var v, counted, written := DigitsValue(l.Digits()), CountedExponent(l), l.DecimalExponent();
    ReadOfRender(l);
    NumbersAreNotWords(Render(l));
    CutIsExact(f, l.Digits(), counted);
    DecimalEnds(f, v, written);
    if v == 0 {
      ZeroRounds(f, counted);
      ZeroRounds(f, written);
      ZeroIsNotNarrowed(l.Digits(), counted);
    } else if counted != written {
      CounterFallsBehind(l);
      FarApart(f, l.Digits(), Lesser(counted, written), Greater(counted, written));
    }
  }

  lemma ZeroIsNotNarrowed(digits: string, x: int)
    requires AllDigits(digits) && DigitsValue(digits) == 0
    ensures !Narrows(digits, x)
  {
    hide Pow;
    LeadingZeros(digits, LeadingZeroCount(digits));
    if Stripped(digits) != [] {
      DigitsAtLeast(Stripped(digits));
    }
  }

  /** Once saturated, the counter is far behind the written exponent. */
  lemma CounterFallsBehind(l: Literal)
    requires l.WellFormed() && CountedExponent(l) != l.DecimalExponent()
    ensures Greater(CountedExponent(l), l.DecimalExponent()) >= Lesser(CountedExponent(l), l.DecimalExponent()) + 900000
    ensures l.exponent.Exponent? && !(-1000000 < l.ExponentValue() < 1000000)
    ensures if l.exponent.sign.Minus? then CountedExponent(l) <= -100000 - |l.fraction| else CountedExponent(l) >= 100000 - |l.fraction|
  {
    hide Saturated, DigitsValue;
    if l.exponent.Exponent? {
      SaturationBounds(l.exponent.digits);
    }
  }

  /** Texts of fewer than four billion digits whose exponent fits the counter or cannot be reached by the digits. */
  ghost predicate Trusted(l: Literal) {
    || |l.Digits()| <= 93999
    || (-1000000 < l.ExponentValue() < 1000000 && |l.Digits()| <= U32 - 6001)
  }

  lemma TrustedIsHarmless(f: Format, l: Literal)
    requires DecimalRange(f) && l.WellFormed() && Trusted(l)
    ensures Harmless(f, l)
  {
    hide DigitsValue, Saturated, Pow, Pow2, DecimalOverflows, DecimalUnderflows, RoundDecimal;
    var v, counted, written := DigitsValue(l.Digits()), CountedExponent(l), l.DecimalExponent();
    if v > 0 && counted != written {
      CounterFallsBehind(l);
      var stripped := Stripped(l.Digits());
      LeadingZeros(l.Digits(), LeadingZeroCount(l.Digits()));
      NoDigitsValue();
      DigitsAtLeast(stripped);
      DigitsBelow(stripped);
      if l.exponent.sign.Minus? {
        SmallDecimal(f, v, |stripped|, Greater(counted, written));
        DecimalEnds(f, v, Greater(counted, written));
      } else {
        LargeDecimal(f, v, |stripped|, Lesser(counted, written));
        DecimalEnds(f, v, Lesser(counted, written));
      }
    }
  }

  /** Every trusted numeric text parses to the correct rounding of its exact value. */
  lemma ParseIsCorrectRounding(f: Format, l: Literal)
    requires DecimalRange(f) && l.WellFormed() && Trusted(l)
    ensures ParsedBits(f, Render(l)) == Some(CorrectBits(f, l))
  {
    hide ParsedBits, CorrectBits, Harmless, Trusted, Render;
    ParsesCorrectlyExactly(f, l);
    TrustedIsHarmless(f, l);
  }

  /** Texts of at most 93,999 characters are all trusted. */
  lemma ShortTextIsTrusted(l: Literal)
    requires l.WellFormed() && |Render(l)| <= 93999
    ensures Trusted(l)
  {
    assert |RenderMantissa(l.whole, l.point, l.fraction)| >= |l.Digits()|;
  }

  /**
    Beyond that length the counter does change the answer: 0.00...01e1000000 with
    a million fractional digits denotes one, and parses to zero.
   */
  lemma LongTextMisrounds(f: Format)
    requires DecimalRange(f)
    ensures var l := Literal(Unsigned, "", true, seq(999999, _ => '0') + "1", Exponent(false, Unsigned, "1000000"));
      l.WellFormed() && ParsedBits(f, Render(l)) == Some(0) && CorrectBits(f, l) > 0
  {
    hide EncodeMagnitude, DigitRun, ReadMantissa, ReadExponent, Lowered, LeadingZeroCount;
    var e := "1000000";
    var zeros := seq(999999, _ => '0');
    var l := Literal(Unsigned, "", true, zeros + "1", Exponent(false, Unsigned, e));
    assert Saturated(e) == 100000 && DigitsValue(e) == 1000000 by { MillionDigits(); }
    ReadOfRender(l);
    NumbersAreNotWords(Render(l));
    assert l.Digits() == zeros + "1";
    assert CutMagnitude(f, l.Digits(), 100000 - 1000000) == 0 by {
      assert LeadingZeroCount(l.Digits()) == 999999 by {
        assert l.Digits()[999999] == '1';
      }
    }
    assert CorrectBits(f, l) > 0 by {
      LeadingZeros(l.Digits(), 999999);
      assert l.Digits()[999999..] == "1" && DigitsValue("1") == 1;
      assert Pow(10, 0) == 1;
      OneIsPositive(f);
    }
  }

  lemma MillionDigits()
    ensures Saturated("1000000") == 100000 && DigitsValue("1000000") == 1000000
  {
    assert "1000000"[..6] == "100000" && "100000"[..5] == "10000" && "10000"[..4] == "1000"
        && "1000"[..3] == "100" && "100"[..2] == "10" && "10"[..1] == "1" && "1"[..0] == "";
    assert Saturated("1") == DigitsValue("1") == 1;
    assert Saturated("10") == DigitsValue("10") == 10;
    assert Saturated("100") == DigitsValue("100") == 100;
    assert Saturated("1000") == DigitsValue("1000") == 1000;
    assert Saturated("10000") == DigitsValue("10000") == 10000;
    assert Saturated("100000") == DigitsValue("100000") == 100000;
  }

  lemma OneIsPositive(f: Format)
    requires f.Valid()
    ensures EncodeMagnitude(f, 1, 1) > 0
  {
    hide Pow, EncodeMagnitude, Mag;
    MagOfPattern(f, 0, 1);
    assert Pattern(f, 0, 1) == 1;
    Pow2Small();
    MulMono(1, 2 * f.bias + 1, f.Hidden());
    EncodeInvertsMag(f, 1);
    EncodeMonotone(f, 1, Pow2(f.Scale()), 1, 1);
  }

  lemma NumbersAreNotWords(text: string)
    requires ReadLiteral(text).Some?
    ensures Lowered(AfterSign(text)) !in {"inf", "infinity", "nan"}
  {
    var t := AfterSign(text);
    if t != [] {
      assert IsDigit(t[0]) || t[0] == '.' by {
        if !IsDigit(t[0]) { assert DigitRun(t) == 0; }
      }
      assert Lowered(t)[0] == t[0];
    } else {
      assert DigitRun(t) == 0;
    }
  }

  /** A text is accepted exactly when it is one of the words or a rendered literal. */
  lemma AcceptedTexts(f: Format, text: string)
    requires f.Valid()
    ensures ParsedBits(f, text).Some? <==>
      Lowered(AfterSign(text)) in {"inf", "infinity", "nan"} || exists l: Literal :: l.WellFormed() && Render(l) == text
  {
    hide CutMagnitude, DigitRun, ReadMantissa, ReadExponent, Lowered;
    if ReadLiteral(text).Some? {
      RenderOfRead(text);
    }
    if l: Literal :| l.WellFormed() && Render(l) == text {
      ReadOfRender(l);
    }
  }

  /** The source's own format: correct rounding of every text of ordinary length. */
  lemma Binary128ParsesCorrectly(l: Literal)
    requires l.WellFormed() && |Render(l)| <= 93999
    ensures ParsedBits(BINARY128, Render(l)) == Some(CorrectBits(BINARY128, l))
  {
    hide ParsedBits, CorrectBits, Render, DecimalRange, Trusted;
    Binary128InRange();
    ShortTextIsTrusted(l);
    ParseIsCorrectRounding(BINARY128, l);
  }
}
