/**
  Decimal numeric text: the grammar parseDecimalBits accepts, what a literal
  denotes, and the two lemmas that make the grammar and its reader inverse.
 */
module DecimalText {
  import opened Basics
  import opened Powers

  datatype Sign = Unsigned | Plus | Minus

  datatype Exponent = NoExponent | Exponent(upper: bool, sign: Sign, digits: string)

  datatype Literal = Literal(sign: Sign, whole: string, point: bool, fraction: string, exponent: Exponent) {
    ghost predicate WellFormed() {
      && AllDigits(whole) && AllDigits(fraction)
      && |whole| + |fraction| > 0
      && (!point ==> fraction == [])
      && (exponent.Exponent? ==> AllDigits(exponent.digits) && |exponent.digits| > 0)
    }

    function Negative(): bool {
      sign.Minus?
    }

    function ExponentValue(): int {
      match exponent
      case NoExponent => 0
      case Exponent(_, s, ds) => if s.Minus? then 0 - DigitsValue(ds) else DigitsValue(ds)
    }

    /** The power of ten that scales the digits read as one integer. */
    function DecimalExponent(): int {
      ExponentValue() - |fraction|
    }

    function Digits(): string {
      whole + fraction
    }
  }

  predicate IsDigit(c: char) {
    '0' <= c <= '9'
  }

  predicate AllDigits(s: string) {
    forall i | 0 <= i < |s| :: IsDigit(s[i])
  }

  function DigitValue(c: char): nat {
    if IsDigit(c) then c as int - '0' as int else 0
  }

  function DigitsValue(s: string): (v: nat) {
    if s == [] then 0 else 10 * DigitsValue(s[..|s| - 1]) + DigitValue(s[|s| - 1])
  }

  // ------------------------------------------------------------- rendering

  function RenderSign(s: Sign): string {
    match s
    case Unsigned => ""
    case Plus => "+"
    case Minus => "-"
  }

  function RenderExponent(e: Exponent): string {
    match e
    case NoExponent => ""
    case Exponent(upper, s, ds) => [if upper then 'E' else 'e'] + RenderSign(s) + ds
  }

  function RenderMantissa(whole: string, point: bool, fraction: string): string {
    if point then whole + ['.'] + fraction else whole
  }

  function Render(l: Literal): string {
    RenderSign(l.sign) + (RenderMantissa(l.whole, l.point, l.fraction) + RenderExponent(l.exponent))
  }

  // --------------------------------------------------------------- reading

  /** Length of the longest digit prefix. */
  function DigitRun(s: string): (n: nat)
    ensures n <= |s| && AllDigits(s[..n]) && (n < |s| ==> !IsDigit(s[n]))
  {
    if s != [] && IsDigit(s[0]) then 1 + DigitRun(s[1..]) else 0
  }

  function ReadSign(s: string): (r: Sign) {
    if s != [] && s[0] == '-' then Minus else if s != [] && s[0] == '+' then Plus else Unsigned
  }

  function AfterSign(s: string): string {
    if ReadSign(s).Unsigned? then s else s[1..]
  }

  function ReadExponent(s: string): Option<Exponent> {
    if s == [] then Some(NoExponent)
    else if s[0] != 'e' && s[0] != 'E' then None
    else
      var ds := AfterSign(s[1..]);
      if |ds| > 0 && DigitRun(ds) == |ds| then Some(Exponent(s[0] == 'E', ReadSign(s[1..]), ds)) else None
  }

  /** The digits before the point, whether there is a point, the digits after it, the rest. */
  function ReadMantissa(t: string): (r: (string, bool, string, string)) {
    var n := DigitRun(t);
    if n < |t| && t[n] == '.' then
      var tail := t[n + 1..];
      var m := DigitRun(tail);
      (t[..n], true, tail[..m], tail[m..])
    else (t[..n], false, [], t[n..])
  }

  function ReadLiteral(text: string): Option<Literal> {
    var (whole, point, fraction, rest) := ReadMantissa(AfterSign(text));
    var exponent := ReadExponent(rest);
    if |whole| + |fraction| == 0 || exponent.None? then None
    else Some(Literal(ReadSign(text), whole, point, fraction, exponent.value))
  }

  lemma {:induction false} DigitRunOfPrefix(ds: string, rest: string)
    requires AllDigits(ds) && (rest == [] || !IsDigit(rest[0]))
    ensures DigitRun(ds + rest) == |ds|
  {
    if ds == [] {
      assert ds + rest == rest;
    } else {
      assert (ds + rest)[1..] == ds[1..] + rest;
      DigitRunOfPrefix(ds[1..], rest);
    }
  }

  lemma ReadRenderedExponent(e: Exponent)
    requires e.Exponent? ==> AllDigits(e.digits) && |e.digits| > 0
    ensures ReadExponent(RenderExponent(e)) == Some(e)
  {
    hide DigitRun;
    if e.Exponent? {
      var s := RenderExponent(e);
      assert s[1..] == RenderSign(e.sign) + e.digits;
      ReadRenderedSign(e.sign, e.digits);
      assert e.digits + [] == e.digits;
      DigitRunOfPrefix(e.digits, []);
    }
  }

  lemma ReadRenderedSign(s: Sign, rest: string)
    requires rest == [] || (rest[0] != '+' && rest[0] != '-')
    ensures ReadSign(RenderSign(s) + rest) == s
    ensures AfterSign(RenderSign(s) + rest) == rest
  {
    if s.Unsigned? { assert RenderSign(s) + rest == rest; }
  }

  lemma ReadRenderedMantissa(whole: string, point: bool, fraction: string, rest: string)
    requires AllDigits(whole) && AllDigits(fraction) && (!point ==> fraction == [])
    requires rest == [] || (!IsDigit(rest[0]) && (point || rest[0] != '.'))
    ensures ReadMantissa(RenderMantissa(whole, point, fraction) + rest) == (whole, point, fraction, rest)
  {
    hide DigitRun;
    var t := RenderMantissa(whole, point, fraction) + rest;
    if point {
      var tail := fraction + rest;
      assert t == whole + (['.'] + tail);
      DigitRunOfPrefix(whole, ['.'] + tail);
      assert t[|whole| + 1..] == tail && t[..|whole|] == whole;
      DigitRunOfPrefix(fraction, rest);
      assert tail[..|fraction|] == fraction && tail[|fraction|..] == rest;
    } else {
      DigitRunOfPrefix(whole, rest);
      assert t[..|whole|] == whole && t[|whole|..] == rest;
    }
  }

  /** Reading a rendered literal gives the literal back. */
  lemma ReadOfRender(l: Literal)
    requires l.WellFormed()
    ensures ReadLiteral(Render(l)) == Some(l)
  {
    hide DigitRun, ReadExponent, ReadMantissa, ReadSign, AfterSign, RenderSign;
    var exp := RenderExponent(l.exponent);
    var t := RenderMantissa(l.whole, l.point, l.fraction) + exp;
    assert t[0] != '+' && t[0] != '-' by {
      if l.whole != [] { assert t[0] == l.whole[0]; }
    }
    ReadRenderedSign(l.sign, t);
    ReadRenderedMantissa(l.whole, l.point, l.fraction, exp);
    ReadRenderedExponent(l.exponent);
  }

  lemma RenderReadSign(text: string)
    ensures RenderSign(ReadSign(text)) + AfterSign(text) == text
  {
  }

  lemma RenderReadMantissa(t: string)
    ensures var (whole, point, fraction, rest) := ReadMantissa(t);
      && AllDigits(whole) && AllDigits(fraction) && (!point ==> fraction == [])
      && RenderMantissa(whole, point, fraction) + rest == t
  {
    hide DigitRun;
    var n := DigitRun(t);
    if n < |t| && t[n] == '.' {
      var tail := t[n + 1..];
      var m := DigitRun(tail);
      assert tail == tail[..m] + tail[m..];
      assert t == t[..n] + ['.'] + tail;
      assert (t[..n] + ['.'] + tail[..m]) + tail[m..] == t[..n] + ['.'] + (tail[..m] + tail[m..]);
    }
  }

  lemma RenderReadExponent(s: string)
    requires ReadExponent(s).Some?
    ensures var e := ReadExponent(s).value;
      && RenderExponent(e) == s
      && (e.Exponent? ==> AllDigits(e.digits) && |e.digits| > 0)
  {
    hide DigitRun, ReadSign, AfterSign, RenderSign;
    if s != [] {
      var ds := AfterSign(s[1..]);
      assert ds[..|ds|] == ds;
      RenderReadSign(s[1..]);
      assert [s[0]] + (RenderSign(ReadSign(s[1..])) + ds) == s;
    }
  }

  /** Whatever is read is well formed and renders to the text that was read. */
  lemma RenderOfRead(text: string)
    requires ReadLiteral(text).Some?
    ensures ReadLiteral(text).value.WellFormed() && Render(ReadLiteral(text).value) == text
  {
    hide DigitRun, ReadExponent, ReadMantissa, ReadSign, AfterSign, RenderSign, RenderExponent, RenderMantissa;
    RenderReadSign(text);
    RenderReadMantissa(AfterSign(text));
    RenderReadExponent(ReadMantissa(AfterSign(text)).3);
  }

  // ---------------------------------------------------------- digit values

  lemma {:induction false} DigitsBelow(s: string)
    ensures DigitsValue(s) < Pow(10, |s|)
  {
    if s != [] {
      DigitsBelow(s[..|s| - 1]);
    }
  }

  lemma {:induction false} DigitsAtLeast(s: string)
    requires s != [] && IsDigit(s[0]) && s[0] != '0'
    ensures DigitsValue(s) >= Pow(10, |s| - 1)
    decreases |s|
  {
    if |s| == 1 {
      assert s[..0] == [];
    } else {
      DigitsAtLeast(s[..|s| - 1]);
    }
  }

  lemma {:induction false} LeadingZeros(s: string, k: nat)
    requires k <= |s| && forall i | 0 <= i < k :: s[i] == '0'
    ensures DigitsValue(s) == DigitsValue(s[k..])
    decreases |s|
  {
    if |s| == k {
      AllZeros(s);
      assert s[k..] == [];
    } else {
      var init, tail := s[..|s| - 1], s[k..];
      LeadingZeros(init, k);
      assert tail[..|tail| - 1] == init[k..] && tail[|tail| - 1] == s[|s| - 1];
    }
  }

  lemma {:induction false} AllZeros(s: string)
    requires forall i | 0 <= i < |s| :: s[i] == '0'
    ensures DigitsValue(s) == 0
    decreases |s|
  {
    if s != [] {
      AllZeros(s[..|s| - 1]);
    }
  }
}
