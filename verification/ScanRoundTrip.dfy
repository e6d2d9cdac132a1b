/**
  Inverses of the scanner's two readers: every 64-bit value is read back from its numeral,
  in each base, and every list of items from the format that spells it.
 */
module ScanRoundTrip {
  import opened Basics
  import opened Powers
  import opened ScanFormat
  import opened ScanSpec

  // ---------------------------------------------------------------- numerals

  function DigitByte(d: nat): (b: byte)
    requires d < 16
    ensures DigitValue(b) == d && !IsSpace(b) && b != 43 && b != 45 && b != 120 && b != 88
  {
    if d < 10 then (48 + d) as byte else (87 + d) as byte
  }

  function ShowNumber(value: nat, base: nat): (r: seq<byte>)
    requires 2 <= base <= 16
    ensures |r| > 0
    ensures forall i | 0 <= i < |r| :: DigitOf(base)(r[i]) && !IsSpace(r[i]) && r[i] != 43 && r[i] != 45 && r[i] != 120 && r[i] != 88
  {
    if value < base then [DigitByte(value)]
    else QuotientSmaller(value, base); ShowNumber(value / base, base) + [DigitByte(value % base)]
  }

  lemma QuotientSmaller(value: nat, base: nat)
    requires value >= base >= 2
    ensures value / base < value
  {
    var q, r := value / base, value % base;
    assert value == q * base + r;
    MulMono(2, base, q);
  }

  lemma NumeralAppend(digits: seq<byte>, d: nat, base: nat)
    requires d < 16
    ensures Numeral(digits + [DigitByte(d)], base) == Numeral(digits, base) * base + d
  {
    assert (digits + [DigitByte(d)])[..|digits|] == digits;
  }

  /** The quotient's numeral and then the remainder's digit. */
  lemma ShowSplits(value: nat, base: nat) returns (q: nat, d: nat)
    requires 2 <= base <= 16 && value >= base
    ensures q < value && d < base && value == q * base + d
    ensures ShowNumber(value, base) == ShowNumber(q, base) + [DigitByte(d)]
  {
    hide DigitByte;
    q, d := value / base, value % base;
    QuotientSmaller(value, base);
  }

  lemma {:induction false} NumeralOfShow(value: nat, base: nat)
    requires 2 <= base <= 16
    ensures Numeral(ShowNumber(value, base), base) == value
    decreases value
  {
    if value < base {
      assert [] + [DigitByte(value)] == ShowNumber(value, base);
      NumeralAppend([], value, base);
    } else {
      hide Numeral, ShowNumber, DigitByte;
      var q, d := ShowSplits(value, base);
      NumeralOfShow(q, base);
      NumeralAppend(ShowNumber(q, base), d, base);
    }
  }

  const PLUS: byte := 43
  const MINUS: byte := 45

  /** A sign, and in base 16 a prefix, that a numeral may carry. */
  predicate MayPrecede(sign: seq<byte>, prefix: seq<byte>, base: nat) {
    && (sign == [] || sign == [PLUS] || sign == [MINUS])
    && (prefix == [] || (base == 16 && (prefix == [48, 120] || prefix == [48, 88])))
  }

  /** The text stands in the data after white space, and white space or the end follows. */
  predicate StandsAt(data: seq<byte>, at: nat, end: nat, text: seq<byte>)
    requires at <= |data|
  {
    SkipTo(data, at) <= end <= |data| && data[SkipTo(data, at)..end] == text && (end == |data| || IsSpace(data[end]))
  }

  lemma TwoParts(data: seq<byte>, from: nat, end: nat, a: seq<byte>, b: seq<byte>)
    requires from <= end <= |data| && data[from..end] == a + b
    ensures from + |a| <= end && data[from..from + |a|] == a && data[from + |a|..end] == b
    ensures a != [] ==> data[from] == a[0]
    ensures |a| > 1 ==> data[from + 1] == a[1]
  {
    var all := data[from..end];
    assert data[from..from + |a|] == all[..|a|] && data[from + |a|..end] == all[|a|..];
    assert a != [] ==> data[from..from + |a|][0] == data[from];
    assert |a| > 1 ==> data[from..from + |a|][1] == data[from + 1];
  }

  lemma StartOfDigits(data: seq<byte>, at: nat, end: nat, sign: seq<byte>, prefix: seq<byte>, value: nat, base: nat)
    requires 2 <= base <= 16 && at <= |data| && MayPrecede(sign, prefix, base) && StandsAt(data, at, end, sign + prefix + ShowNumber(value, base))
    ensures var p := SkipTo(data, at); var start := p + |sign| + |prefix|;
      && p < |data| && DigitsStart(data, p, base) == start < end && data[start..end] == ShowNumber(value, base)
      && (data[p] == MINUS <==> sign == [MINUS])
  {
    hide SkipTo, ShowNumber, DigitsStart, MayPrecede;
    var text := ShowNumber(value, base);
    assert sign + prefix + text == sign + (prefix + text);
    ThreeParts(data, SkipTo(data, at), end, sign, prefix, text);
    DigitsBehind(data, SkipTo(data, at), sign, prefix, text, base);
  }

  lemma ThreeParts(data: seq<byte>, p: nat, end: nat, sign: seq<byte>, prefix: seq<byte>, text: seq<byte>)
    requires p <= end <= |data| && data[p..end] == sign + (prefix + text) && text != []
    ensures p + |sign| + |prefix| < end && data[p + |sign| + |prefix|..end] == text
    ensures sign != [] ==> data[p] == sign[0]
    ensures prefix != [] ==> data[p + |sign|] == prefix[0] && (|prefix| > 1 ==> data[p + |sign| + 1] == prefix[1])
    ensures data[p + |sign| + |prefix|] == text[0] && (|text| > 1 ==> data[p + |sign| + |prefix| + 1] == text[1])
    ensures end == p + |sign| + |prefix| + |text|
  {
    TwoParts(data, p, end, sign, prefix + text);
    TwoParts(data, p + |sign|, end, prefix, text);
    TwoParts(data, p + |sign| + |prefix|, end, text, []) by { assert text + [] == text; }
  }

  lemma DigitsBehind(data: seq<byte>, p: nat, sign: seq<byte>, prefix: seq<byte>, text: seq<byte>, base: nat)
    requires MayPrecede(sign, prefix, base) && text != [] && p + |sign| + |prefix| + |text| <= |data|
    requires sign != [] ==> data[p] == sign[0]
    requires prefix != [] ==> data[p + |sign|] == prefix[0] && (|prefix| > 1 ==> data[p + |sign| + 1] == prefix[1])
    requires data[p + |sign| + |prefix|] == text[0] && (|text| > 1 ==> data[p + |sign| + |prefix| + 1] == text[1])
    requires forall i | 0 <= i < |text| :: text[i] != PLUS && text[i] != MINUS && text[i] != 120 && text[i] != 88
    requires p + |sign| + |prefix| + |text| < |data| ==> IsSpace(data[p + |sign| + |prefix| + |text|])
    ensures DigitsStart(data, p, base) == p + |sign| + |prefix|
    ensures data[p] == MINUS <==> sign == [MINUS]
  {
  }

  /**
    Every 64-bit value is read back from its numeral, before white space or the end, with
    its sign; a minus sign on an unsigned conversion is no number.
   */
  lemma ReadOfShow(data: seq<byte>, at: nat, end: nat, sign: seq<byte>, prefix: seq<byte>, value: nat, base: nat, signed: bool)
    requires 2 <= base <= 16 && value < U64 && at <= |data| && MayPrecede(sign, prefix, base)
    requires StandsAt(data, at, end, sign + prefix + ShowNumber(value, base))
    ensures ReadNumber(data, at, base, signed) ==
      if sign != [MINUS] then Number(value, end) else if signed then Number((0 - value) % U64, end) else NoNumber(end)
  {
    hide SkipTo, ShowNumber, Numeral, RunEnd, DigitOf, DigitsStart;
    StartOfDigits(data, at, end, sign, prefix, value, base);
    var p, text := SkipTo(data, at), ShowNumber(value, base);
    var start := p + |sign| + |prefix|;
    assert forall i | start <= i < end :: data[i] == text[i - start];
    SpaceIsNoDigit(base);
    var stop := RunEnd(data, start, |data|, DigitOf(base));
    assert stop == end;
    NumeralOfShow(value, base);
  }

  lemma SpaceIsNoDigit(base: nat)
    ensures forall b: byte | IsSpace(b) :: !DigitOf(base)(b)
  {
  }

  /** The number that bytes in little-endian order stand for. */
  function ValueOf(bytes: seq<byte>): nat {
    if bytes == [] then 0 else bytes[0] as int + 256 * ValueOf(bytes[1..])
  }

  lemma {:induction false} ValueOfLittleEndian(value: nat, n: nat)
    ensures ValueOf(LittleEndian(value, n)) == value % Pow(256, n)
    decreases n
  {
    if n > 0 {
      var low, rest := LittleEndian(value, n), LittleEndian(value / 256, n - 1);
      assert low == [(value % 256) as byte] + rest && low[1..] == rest;
      assert ValueOf(low) == value % 256 + 256 * ValueOf(rest);
      assert Pow(256, n) == 256 * Pow(256, n - 1);
      hide Pow, LittleEndian, ValueOf;
      ValueOfLittleEndian(value / 256, n - 1);
      ByteStep(value, Pow(256, n - 1));
    }
  }

  lemma ByteStep(value: nat, p: nat)
    requires p > 0
    ensures value % (256 * p) == value % 256 + 256 * ((value / 256) % p)
  {
    var q, r := (value / 256) / p, (value / 256) % p;
    assert value / 256 == q * p + r;
    assert 256 * (q * p) == q * (256 * p);
    DivModUnique(value, 256 * p, q, 256 * r + value % 256);
  }

  /** The numerals each integer conversion reads. */
  predicate ReadsBase(specifier: char, base: nat) {
    && (specifier == 'd' || specifier == 'u' ==> base == 10)
    && (specifier == 'x' || specifier == 'p' ==> base == 16)
    && (specifier == 'o' ==> base == 8)
    && (specifier == 'b' ==> base == 2)
  }

  /** What the target holds. */
  function Held(t: Target, memory: seq<byte>): nat
    requires InMemory(t, |memory|)
  {
    ValueOf(memory[t.data..t.data + t.capacity])
  }

  lemma WordModulo(value: int, n: nat)
    requires n <= 8
    ensures Pow(256, n) > 0 && (value % U64) % Pow(256, n) == value % Pow(256, n)
  {
    PowAdd(256, n, 8 - n);
    WordIsBytes();
    hide Pow;
    ModOfMod(value, Pow(256, n), Pow(256, 8 - n));
  }

  lemma WordIsBytes()
    ensures Pow(256, 8) == U64
  {
    assert Pow(256, 4) == 0x1_0000_0000;
    PowAdd(256, 4, 4);
  }

  /**
    An integer conversion stores the value written, modulo the target's size, in the base
    its specifier names, and a negative one for %d alone.
   */
  lemma IntegerIsStored(data: seq<byte>, at: nat, end: nat, sign: seq<byte>, prefix: seq<byte>, value: nat, base: nat,
                        memory: seq<byte>, t: Target, item: Item, parse: FloatParser)
    requires at <= |data| && InMemory(t, |memory|) && TargetFits(t, item, false, false) && Sized(parse)
    requires (IsInteger(item.specifier) || item.specifier == 'p') && ReadsBase(item.specifier, base)
    requires 2 <= base <= 16 && value < U64 && MayPrecede(sign, prefix, base)
    requires StandsAt(data, at, end, sign + prefix + ShowNumber(value, base))
    ensures var e := Conversion(data, at, memory, t, item, parse);
      && e.next == end
      && if sign == [MINUS] && item.specifier != 'd' then e.outcome == Stopped(false) && e.memory == memory
         else
           && e.outcome == Stored
           && Held(t, e.memory) == (if sign == [MINUS] then 0 - value else value) % Pow(256, t.capacity)
  {
    hide ReadNumber, StandsAt, ShowNumber, LittleEndian, ValueOf, Pow, MayPrecede, Sized;
    ReadOfShow(data, at, end, sign, prefix, value, base, item.specifier == 'd');
    var signed := if sign == [MINUS] then 0 - value else value;
    var e := Conversion(data, at, memory, t, item, parse);
    if sign != [MINUS] || item.specifier == 'd' {
      WordModulo(signed, t.capacity);
      ValueOfLittleEndian(signed % U64, t.capacity);
      assert e.memory[t.data..t.data + t.capacity] == LittleEndian(signed % U64, t.capacity);
    }
  }

  // ----------------------------------------------------------------- formats

  /** An item as validation yields it. */
  predicate IsItem(item: Item) {
    ItemOf(item.specifier, item.width) == Some(item)
  }

  function WidthText(width: nat): seq<byte> {
    if width == 0 then [] else if width == 16 then [49, 54] else [(48 + width % 10) as byte]
  }

  /** One conversion as it is written in a format. */
  function Spelled(item: Item): seq<byte>
    requires IsItem(item)
  {
    [PERCENT] + WidthText(item.width) + [item.specifier as int as byte]
  }

  function SpelledAll(items: seq<Item>): seq<byte>
    requires forall i | 0 <= i < |items| :: IsItem(items[i])
  {
    if items == [] then [] else Spelled(items[0]) + SpelledAll(items[1..])
  }

  /** A spelled conversion is read back where it stands. */
  lemma WidthOfSpelled(f: seq<byte>, at: nat, item: Item)
    requires IsItem(item) && at + |Spelled(item)| <= |f| && f[at..at + |Spelled(item)|] == Spelled(item)
    ensures var end := at + |Spelled(item)| - 1;
      && at + 1 < |f| && f[at] == PERCENT && f[at + 1] != PERCENT
      && WidthAt(f, at + 1, 0) == Some((end, item.width)) && CharOf(f[end]) == item.specifier
  {
    var text := Spelled(item);
    assert forall i | at <= i < at + |text| :: f[i] == text[i - at];
    if item.width == 16 {
      assert WidthAt(f, at + 2, 1) == WidthAt(f, at + 3, 16);
    }
  }

  /** Each item with the next target. */
  function Assigned(items: seq<Item>, s: Scan, next: nat): seq<Segment>
    requires next + |items| == |s.targets|
  {
    if items == [] then [] else [Convert(items[0], s.targets[next])] + Assigned(items[1..], s, next + 1)
  }

  predicate AllFit(items: seq<Item>, s: Scan, next: nat)
    requires s.Valid() && next + |items| == |s.targets|
  {
    forall i | 0 <= i < |items| :: IsItem(items[i]) && TargetFits(s.targets[next + i], items[i], s.checked, s.accessible[next + i])
  }

  lemma FirstFits(items: seq<Item>, s: Scan, next: nat)
    requires s.Valid() && next + |items| == |s.targets| && items != [] && AllFit(items, s, next)
    ensures IsItem(items[0]) && TargetFits(s.targets[next], items[0], s.checked, s.accessible[next]) && AllFit(items[1..], s, next + 1)
  {
    hide IsItem, TargetFits;
  }

  lemma SpelledCons(items: seq<Item>)
    requires items != [] && forall i | 0 <= i < |items| :: IsItem(items[i])
    ensures SpelledAll(items) == Spelled(items[0]) + SpelledAll(items[1..])
  {
    hide IsItem, Spelled;
  }

  lemma AllAreItems(items: seq<Item>, s: Scan, next: nat)
    requires s.Valid() && next + |items| == |s.targets| && AllFit(items, s, next)
    ensures forall i | 0 <= i < |items| :: IsItem(items[i])
  {
    hide IsItem, TargetFits;
  }

  lemma AssignedCons(items: seq<Item>, s: Scan, next: nat)
    requires next + |items| == |s.targets| && items != []
    ensures Assigned(items, s, next) == [Convert(items[0], s.targets[next])] + Assigned(items[1..], s, next + 1)
  {
  }

  lemma NothingSpelled(f: seq<byte>, at: nat, s: Scan, next: nat)
    requires s.Valid() && at <= |f| && next == |s.targets| && f[at..] == SpelledAll([])
    ensures Items(f, at, s, next) == Some([]) && Segments(f, at, s, next) == Assigned([], s, next)
  {
    assert at == |f|;
  }

  lemma SpelledParts(f: seq<byte>, at: nat, first: seq<byte>, rest: seq<byte>)
    requires at <= |f| && f[at..] == first + rest
    ensures at + |first| <= |f| && f[at..at + |first|] == first && f[at + |first|..] == rest
  {
    assert f[at..at + |first|] == f[at..][..|first|];
    assert f[at + |first|..] == f[at..][|first|..];
  }

  /** Validation and segmentation read a spelled list of fitting items back, each with its target. */
  lemma {:induction false} SegmentsOfSpelled(f: seq<byte>, at: nat, items: seq<Item>, s: Scan, next: nat)
    requires s.Valid() && at <= |f| && next + |items| == |s.targets| && AllFit(items, s, next) && f[at..] == SpelledAll(items)
    ensures Items(f, at, s, next) == Some(items) && Segments(f, at, s, next) == Assigned(items, s, next)
    decreases |items|
  {
    if items == [] {
      NothingSpelled(f, at, s, next);
    } else {
      hide *;
      FirstFits(items, s, next);
      AssignedCons(items, s, next);
      var end := SpelledHere(f, at, items, s, next);
      SegmentsOfSpelled(f, end, items[1..], s, next + 1);
      ItemsCons(f, at, end, items, s, next);
    }
  }

  /** The item is written from `at` to `end`. */
  predicate IsWritten(f: seq<byte>, at: nat, end: nat, item: Item) {
    IsItem(item) && at <= end <= |f| && f[at..end] == Spelled(item)
  }

  /** The first item stands at `at`, and the others behind it. */
  lemma SpelledHere(f: seq<byte>, at: nat, items: seq<Item>, s: Scan, next: nat) returns (end: nat)
    requires s.Valid() && at <= |f| && next + |items| == |s.targets| && items != [] && AllFit(items, s, next) && f[at..] == SpelledAll(items)
    ensures forall i | 0 <= i < |items[1..]| :: IsItem(items[1..][i])
    ensures end <= |f| && IsWritten(f, at, end, items[0]) && f[end..] == SpelledAll(items[1..])
  {
    AllAreItems(items, s, next);
    SpelledCons(items);
    end := at + |Spelled(items[0])|;
    hide IsItem, Spelled, SpelledAll;
    SpelledParts(f, at, Spelled(items[0]), SpelledAll(items[1..]));
  }

  lemma ItemsCons(f: seq<byte>, at: nat, end: nat, items: seq<Item>, s: Scan, next: nat)
    requires s.Valid() && next + |items| == |s.targets| && items != [] && IsWritten(f, at, end, items[0])
    requires TargetFits(s.targets[next], items[0], s.checked, s.accessible[next])
    requires Items(f, end, s, next + 1) == Some(items[1..])
    ensures Items(f, at, s, next) == Some(items)
    ensures Segments(f, at, s, next) ==
      [Convert(items[0], s.targets[next])] + Segments(f, end, s, next + 1)
  {
    hide TargetFits, Spelled, WidthAt;
    WidthOfSpelled(f, at, items[0]);
    assert [items[0]] + items[1..] == items;
  }
}
