/**
  parseDecimalBits and powerOfTen of runtime/hitsimple_f128.cpp: the loops and what they
  compute, with the leading-zero strip, the saturating exponent counter, the cut-offs at
  decimal magnitude 6000 and the narrowing of the exponent to 32 bits.
 */
module DecimalParser {
  import opened Basics
  import opened Powers
  import opened Binary128
  import opened DecimalText

  /** v * 10^x as a quotient of naturals. */
  function DecimalNumerator(v: nat, x: int): nat {
    if x >= 0 then v * Pow(10, x) else v
  }

  function DecimalDenominator(x: int): (d: nat)
    ensures d > 0
  {
    if x >= 0 then 1 else Pow(10, -x)
  }

  /** The correctly rounded magnitude of v * 10^x. */
  function RoundDecimal(f: Format, v: nat, x: int): int
    requires f.Valid()
  {
    EncodeMagnitude(f, DecimalNumerator(v, x), DecimalDenominator(x))
  }

  /** The exponent counter, which stops accumulating once it has reached 100000. */
  function Saturated(ds: string): (v: nat) {
    if ds == [] then 0
    else
      var p := Saturated(ds[..|ds| - 1]);
      if p < 100000 then 10 * p + DigitValue(ds[|ds| - 1]) else p
  }

  function SaturatedExponent(e: Exponent): int {
    match e
    case NoExponent => 0
    case Exponent(_, s, ds) => if s.Minus? then 0 - Saturated(ds) else Saturated(ds)
  }

  function LeadingZeroCount(s: string): (k: nat)
    ensures k <= |s| && (forall i | 0 <= i < k :: s[i] == '0') && (k < |s| ==> s[k] != '0')
  {
    if s != [] && s[0] == '0' then 1 + LeadingZeroCount(s[1..]) else 0
  }

  const U32: nat := 0x1_0000_0000

  /** v * 10^x with the power's exponent narrowed to unsigned, as powerOfTen receives it. */
  function RoundNarrowed(f: Format, v: nat, x: int): int
    requires f.Valid()
  {
    if x >= 0 then EncodeMagnitude(f, v * Pow(10, x % U32), 1) else EncodeMagnitude(f, v, Pow(10, (-x) % U32))
  }

  /** The result for a digit string scaled by 10^x, with the source's shortcuts. */
  function CutMagnitude(f: Format, digits: string, x: int): int
    requires f.Valid()
  {
    var k := LeadingZeroCount(digits);
    if k == |digits| then 0
    else
      var stripped := digits[k..];
      var magnitude := |stripped| + x;
      if magnitude > 6000 then f.Infinity()
      else if magnitude < -6000 then 0
      else RoundNarrowed(f, DigitsValue(stripped), x)
  }

  function Lower(c: char): char {
    if 'A' <= c <= 'Z' then (c as int - 'A' as int + 'a' as int) as char else c
  }

  function Lowered(s: string): (r: string)
    ensures |r| == |s| && forall i | 0 <= i < |s| :: r[i] == Lower(s[i])
  {
    seq(|s|, i requires 0 <= i < |s| => Lower(s[i]))
  }

  /** parseDecimalBits as a function of the text. */
  function ParsedBits(f: Format, text: string): Option<int>
    requires f.Valid()
  {
    var sign := if ReadSign(text).Minus? then f.SignMask() else 0;
    var word := Lowered(AfterSign(text));
    if word == "inf" || word == "infinity" then Some(sign + f.Infinity())
    else if word == "nan" then Some(sign + f.Infinity() + f.Hidden() / 2)
    else
      match ReadLiteral(text)
      case None => None
      case Some(l) =>
        Some(sign + CutMagnitude(f, l.Digits(), SaturatedExponent(l.exponent) - |l.fraction|))
  }

  // ------------------------------------------------------------- the loops

  /** Square and multiply. */
  method PowerOfTen(exponent: nat) returns (result: nat)
    ensures result == Pow(10, exponent)
  {
    result := 1;
    var base: nat, e: nat := 10, exponent;
    assert Pow(10, 1) == 10;
    while e != 0
      invariant result * Pow(base, e) == Pow(10, exponent)
    {
      ghost var r0, b0, e0 := result, base, e;
      if e % 2 != 0 {
        result := result * base;
      }
      e := e / 2;
      if e != 0 {
        base := base * base;
      }
      SquareStep(r0, b0, e0);
      if e == 0 { assert Pow(b0 * b0, 0) == Pow(b0, 0) == 1; }
    }
  }

  lemma SquareStep(r: nat, b: nat, e: nat)
    requires e > 0
    ensures r * Pow(b, e) == (if e % 2 != 0 then r * b else r) * Pow(b * b, e / 2)
  {
    var h := e / 2;
    assert Pow(b, 2) == b * b by { assert Pow(b, 1) == b; }
    PowPow(b, 2, h);
    if e % 2 != 0 {
      assert e == 2 * h + 1;
      MulAssoc(r, b, Pow(b, 2 * h));
    } else {
      assert e == 2 * h;
    }
  }

  method Significand(digits: string) returns (v: nat)
    ensures v == DigitsValue(digits)
  {
    v := 0;
    for i := 0 to |digits|
      invariant v == DigitsValue(digits[..i])
    {
      assert digits[..i + 1][..i] == digits[..i];
      v := v * 10 + DigitValue(digits[i]);
    }
    assert digits[..|digits|] == digits;
  }

  method LowerText(text: string) returns (lower: string)
    ensures lower == Lowered(text)
  {
    lower := [];
    for i := 0 to |text|
      invariant |lower| == i && forall j | 0 <= j < i :: lower[j] == Lower(text[j])
    {
      lower := lower + [Lower(text[i])];
    }
  }

  /** The digit loop: digits, at most one point, and where it stopped. */
  method ScanMantissa(t: string) returns (digits: string, fractionalDigits: nat, index: nat)
    ensures index <= |t|
    ensures var (whole, point, fraction, rest) := ReadMantissa(t);
      digits == whole + fraction && fractionalDigits == |fraction| && t[index..] == rest
  {
    hide DigitRun, ReadMantissa;
    digits, fractionalDigits, index := [], 0, 0;
    var sawPoint := false;
    ghost var whole, fraction := "", "";
    while index < |t|
      invariant index <= |t|
      invariant AllDigits(whole) && AllDigits(fraction) && (!sawPoint ==> fraction == [])
      invariant digits == whole + fraction && fractionalDigits == |fraction|
      invariant t[..index] == RenderMantissa(whole, sawPoint, fraction)
    {
      var ch := t[index];
      assert t[..index + 1] == t[..index] + [ch];
      if IsDigit(ch) {
        digits := digits + [ch];
        if sawPoint {
          fractionalDigits := fractionalDigits + 1;
          fraction := fraction + [ch];
        } else {
          whole := whole + [ch];
        }
      } else if ch == '.' && !sawPoint {
        sawPoint := true;
      } else {
        break;
      }
      index := index + 1;
    }
    assert t == t[..index] + t[index..];
    ReadRenderedMantissa(whole, sawPoint, fraction, t[index..]);
  }

  /** The exponent digit loop with its saturating counter. */
  method CountExponent(ds: string) returns (value: int, index: nat)
    ensures index == DigitRun(ds) && value == Saturated(ds[..index])
  {
    hide DigitRun;
    value, index := 0, 0;
    while index < |ds| && IsDigit(ds[index])
      invariant index <= |ds|
      invariant AllDigits(ds[..index]) && value == Saturated(ds[..index])
    {
      assert ds[..index + 1][..index] == ds[..index];
      if value < 100000 {
        value := value * 10 + DigitValue(ds[index]);
      }
      index := index + 1;
    }
    assert ds == ds[..index] + ds[index..];
    DigitRunOfPrefix(ds[..index], ds[index..]);
  }

  /** The optional exponent: None when it is malformed or text follows it. */
  method ScanExponent(s: string) returns (r: Option<int>)
    ensures r == match ReadExponent(s) { case None => None case Some(e) => Some(SaturatedExponent(e)) }
  {
    hide DigitRun, Saturated;
    if |s| == 0 {
      return Some(0);
    }
    if s[0] != 'e' && s[0] != 'E' {
      return None;
    }
    var rest, negative := s[1..], false;
    if |rest| > 0 && (rest[0] == '+' || rest[0] == '-') {
      negative := rest[0] == '-';
      rest := rest[1..];
    }
    assert AfterSign(s[1..]) == rest && negative == ReadSign(s[1..]).Minus?;
    var value, index := CountExponent(rest);
    if index == 0 {
      return None;
    }
    if negative {
      value := -value;
    }
    if index != |rest| {
      return None;
    }
    assert rest[..index] == rest;
    return Some(value);
  }

  /** The digit string to bits, cut-offs included. */
  method ScaleDigits(f: Format, digits: string, x: int) returns (r: int)
    requires f.Valid()
    ensures r == CutMagnitude(f, digits, x)
  {
    hide Pow, EncodeMagnitude, DigitsValue;
    var first := LeadingZeroCount(digits);
    if first == |digits| {
      return 0;
    }
    var stripped := digits[first..];
    var magnitude := |stripped| + x;
    if magnitude > 6000 {
      return f.Infinity();
    }
    if magnitude < -6000 {
      return 0;
    }
    var numerator := Significand(stripped);
    var denominator: nat := 1;
    if x >= 0 {
      var power := PowerOfTen(x % U32);
      numerator := numerator * power;
    } else {
      denominator := PowerOfTen((-x) % U32);
    }
    r := EncodeMagnitude(f, numerator, denominator);
  }

  method ParseDecimalBits(f: Format, text: string) returns (r: Option<int>)
    requires f.Valid()
    ensures r == ParsedBits(f, text)
  {
    hide DigitRun, ReadExponent, ReadMantissa, CutMagnitude, Lowered;
    if |text| == 0 {
      EmptyIsRejected(f, text);
      return None;
    }
    var negative, t := false, text;
    if text[0] == '+' || text[0] == '-' {
      negative := text[0] == '-';
      t := text[1..];
    }
    var sign := if negative then f.SignMask() else 0;
    if |t| == 0 {
      EmptyIsRejected(f, text);
      return None;
    }
    var lower := LowerText(t);
    if lower == "inf" || lower == "infinity" {
      return Some(sign + f.Infinity());
    }
    if lower == "nan" {
      return Some(sign + f.Infinity() + f.Hidden() / 2);
    }
    var digits, fractionalDigits, index := ScanMantissa(t);
    if |digits| == 0 {
      return None;
    }
    var exponent := ScanExponent(t[index..]);
    if exponent.None? {
      return None;
    }
    var magnitude := ScaleDigits(f, digits, exponent.value - fractionalDigits);
    r := Some(sign + magnitude);
  }

  lemma EmptyIsRejected(f: Format, text: string)
    requires f.Valid() && AfterSign(text) == []
    ensures ParsedBits(f, text) == None
  {
    assert Lowered([]) == [];
    assert DigitRun([]) == 0;
  }
}
