/**
  What a validated scan does: the format as a list of segments, and each segment's effect
  on the input position and on memory. Writes stay inside the targets.
 */
module ScanSpec {
  import opened Basics
  import opened ScanFormat

  const EOF: int := -1
  const TOKEN_SIZE: nat := 192

  datatype Outcome = Stored | Stopped(atEnd: bool) | Failed

  /** The text-to-float conversions of the C library, one byte string per width. */
  type FloatParser = (seq<byte>, nat) -> Option<seq<byte>>

  ghost predicate Sized(parse: FloatParser) {
    forall token, width :: parse(token, width).Some? ==> |parse(token, width).value| == width
  }

  // --------------------------------------------------------------- the input

  /** The first position from `at` on that does not hold white space. */
  function SkipTo(data: seq<byte>, at: nat): (r: nat)
    requires at <= |data|
    ensures at <= r <= |data| && (r < |data| ==> !IsSpace(data[r]))
    decreases |data| - at
  {
    if at < |data| && IsSpace(data[at]) then SkipTo(data, at + 1) else at
  }

  /** The end of the longest run, of at most `limit` bytes, that satisfies p. */
  function RunEnd(data: seq<byte>, at: nat, limit: nat, p: byte -> bool): (r: nat)
    requires at <= |data|
    ensures at <= r <= |data| && r <= at + limit && forall i | at <= i < r :: p(data[i])
    ensures r < |data| && r < at + limit ==> !p(data[r])
    decreases |data| - at
  {
    if limit > 0 && at < |data| && p(data[at]) then RunEnd(data, at + 1, limit - 1, p) else at
  }

  function DigitValue(b: byte): int {
    if 48 <= b <= 57 then b as int - 48
    else if 97 <= b <= 102 then b as int - 87
    else if 65 <= b <= 70 then b as int - 55
    else -1
  }

  function DigitOf(base: nat): byte -> bool {
    (b: byte) => 0 <= DigitValue(b) < base
  }

  predicate IsVisible(b: byte) { !IsSpace(b) }

  predicate IsFloatByte(b: byte) {
    48 <= b <= 57 || 65 <= b <= 90 || 97 <= b <= 122 || b == 43 || b == 45 || b == 46
  }

  function Numeral(digits: seq<byte>, base: nat): nat {
    if digits == [] then 0
    else
      var n := |digits| - 1;
      Numeral(digits[..n], base) * base + (if DigitValue(digits[n]) < 0 then 0 else DigitValue(digits[n]))
  }

  /** Where the digits start: after an optional sign, and after 0x in base 16. */
  function DigitsStart(data: seq<byte>, at: nat, base: nat): (r: nat)
    requires at < |data|
    ensures at <= r <= |data|
  {
    var q := if data[at] == 43 || data[at] == 45 then at + 1 else at;
    if base == 16 && q + 1 < |data| && data[q] == 48 && (data[q + 1] == 120 || data[q + 1] == 88) then q + 2 else q
  }

  datatype Reading = Overflow | NoNumber(next: nat) | Number(value: nat, next: nat)

  function ReadNumber(data: seq<byte>, at: nat, base: nat, signed: bool): (r: Reading)
    requires at <= |data|
    ensures !r.Overflow? ==> r.next <= |data|
  {
    var p := SkipTo(data, at);
    if p == |data| then NoNumber(p)
    else
      var start := DigitsStart(data, p, base);
      var end := RunEnd(data, start, |data|, DigitOf(base));
      var value := Numeral(data[start..end], base);
      if value >= U64 then Overflow
      else if end == start || (data[p] == 45 && !signed) then NoNumber(end)
      else Number(if data[p] == 45 then (U64 - value) % U64 else value, end)
  }

  // -------------------------------------------------------------- the memory

  predicate InMemory(t: Target, size: nat) {
    t.data + t.capacity <= size
  }

  predicate Covers(t: Target, a: nat) {
    t.data <= a < t.data + t.capacity
  }

  function Written(memory: seq<byte>, at: nat, bytes: seq<byte>): (r: seq<byte>)
    requires at + |bytes| <= |memory|
    ensures |r| == |memory|
  {
    memory[..at] + bytes + memory[at + |bytes|..]
  }

  function LittleEndian(value: nat, bytes: nat): (r: seq<byte>)
    ensures |r| == bytes
  {
    if bytes == 0 then [] else [(value % 256) as byte] + LittleEndian(value / 256, bytes - 1)
  }

  function BaseOf(specifier: char): nat {
    if specifier == 'x' || specifier == 'p' then 16
    else if specifier == 'o' then 8
    else if specifier == 'b' then 2
    else 10
  }

  // ------------------------------------------------------------- conversions

  datatype Effect = Effect(outcome: Outcome, next: nat, memory: seq<byte>)

  /** What the conversion of one item does. */
  function Conversion(data: seq<byte>, at: nat, memory: seq<byte>, t: Target, item: Item, parse: FloatParser): (r: Effect)
    requires at <= |data| && InMemory(t, |memory|) && TargetFits(t, item, false, false) && Sized(parse)
    ensures r.next <= |data| && |r.memory| == |memory|
  {
    var p := SkipTo(data, at);
    if item.specifier == 'c' then
      if at == |data| then Effect(Stopped(true), at, memory)
      else Effect(Stored, at + 1, Written(memory, t.data, [data[at]]))
    else if item.specifier == 's' then
      if p == |data| then Effect(Stopped(true), p, memory)
      else
        var end := RunEnd(data, p, t.capacity - 1, IsVisible);
        Effect(Stored, end, Written(memory, t.data, data[p..end] + [NUL]))
    else if item.specifier == 'f' then
      var end := RunEnd(data, p, |data|, IsFloatByte);
      if end - p >= TOKEN_SIZE then Effect(Failed, at, memory)
      else if end == p then Effect(Stopped(false), p, memory)
      else
        var value := parse(data[p..end], item.width);
        if value.None? then Effect(Stopped(false), end, memory)
        else Effect(Stored, end, Written(memory, t.data, value.value))
    else
      match ReadNumber(data, at, BaseOf(item.specifier), item.specifier == 'd')
      case Overflow => Effect(Failed, at, memory)
      case NoNumber(next) => Effect(Stopped(false), next, memory)
      case Number(value, next) => Effect(Stored, next, Written(memory, t.data, LittleEndian(value, t.capacity)))
  }

  // ---------------------------------------------------------------- segments

  datatype Segment = Spaces | Byte(value: byte) | Convert(item: Item, target: Target)

  function Segments(f: seq<byte>, at: nat, s: Scan, next: nat): seq<Segment>
    requires at <= |f| && next <= |s.targets| && s.Valid() && Items(f, at, s, next).Some?
    decreases |f| - at
  {
    if at == |f| then []
    else if IsSpace(f[at]) then [Spaces] + Segments(f, at + 1, s, next)
    else if f[at] != PERCENT then [Byte(f[at])] + Segments(f, at + 1, s, next)
    else if f[at + 1] == PERCENT then [Byte(PERCENT)] + Segments(f, at + 2, s, next)
    else
      var (end, width) := WidthAt(f, at + 1, 0).value;
      [Convert(ItemOf(CharOf(f[end]), width).value, s.targets[next])] + Segments(f, end + 1, s, next + 1)
  }

  function Conversions(segments: seq<Segment>): (r: seq<Segment>)
    ensures forall i | 0 <= i < |r| :: r[i].Convert?
  {
    if segments == [] then []
    else (if segments[0].Convert? then [segments[0]] else []) + Conversions(segments[1..])
  }

  /** What validation established where a conversion starts. */
  lemma ValidatedConversion(f: seq<byte>, at: nat, s: Scan, next: nat)
    requires s.Valid() && at < |f| && next <= |s.targets| && f[at] == PERCENT && Items(f, at, s, next).Some?
    ensures at + 1 < |f|
    ensures f[at + 1] == PERCENT ==>
      && Items(f, at + 2, s, next) == Items(f, at, s, next)
      && Segments(f, at, s, next) == [Byte(PERCENT)] + Segments(f, at + 2, s, next)
    ensures f[at + 1] != PERCENT ==>
      && WidthAt(f, at + 1, 0).Some?
      && var (end, width) := WidthAt(f, at + 1, 0).value;
         && end < |f| && ItemOf(CharOf(f[end]), width).Some? && next < |s.targets|
         && TargetFits(s.targets[next], ItemOf(CharOf(f[end]), width).value, false, false)
         && Items(f, end + 1, s, next + 1).Some?
         && Items(f, at, s, next).value == [ItemOf(CharOf(f[end]), width).value] + Items(f, end + 1, s, next + 1).value
         && Segments(f, at, s, next) ==
              [Convert(ItemOf(CharOf(f[end]), width).value, s.targets[next])] + Segments(f, end + 1, s, next + 1)
  {
    hide ItemOf;
  }

  lemma ValidatedLiteral(f: seq<byte>, at: nat, s: Scan, next: nat)
    requires s.Valid() && at < |f| && next <= |s.targets| && f[at] != PERCENT && Items(f, at, s, next).Some?
    ensures Items(f, at + 1, s, next) == Items(f, at, s, next)
    ensures Segments(f, at, s, next) == [if IsSpace(f[at]) then Spaces else Byte(f[at])] + Segments(f, at + 1, s, next)
  {
  }

  lemma ConversionsCons(segment: Segment, rest: seq<Segment>)
    ensures Conversions([segment] + rest) == (if segment.Convert? then [segment] else []) + Conversions(rest)
  {
    assert ([segment] + rest)[1..] == rest;
  }

  /** The conversions among the segments are these items, each into the next target. */
  ghost predicate InOrder(segments: seq<Segment>, items: seq<Item>, s: Scan, next: nat) {
    && var cs := Conversions(segments);
    && |cs| == |items| == |s.targets| - next
    && forall i | 0 <= i < |cs| :: cs[i] == Convert(items[i], s.targets[next + i])
  }

  lemma InOrderSkip(segment: Segment, rest: seq<Segment>, items: seq<Item>, s: Scan, next: nat)
    requires !segment.Convert? && InOrder(rest, items, s, next)
    ensures InOrder([segment] + rest, items, s, next)
  {
    hide Conversions;
    ConversionsCons(segment, rest);
  }

  lemma InOrderCons(item: Item, rest: seq<Segment>, items: seq<Item>, s: Scan, next: nat)
    requires next < |s.targets| && InOrder(rest, items, s, next + 1)
    ensures InOrder([Convert(item, s.targets[next])] + rest, [item] + items, s, next)
  {
    hide Conversions;
    ConversionsCons(Convert(item, s.targets[next]), rest);
  }

  lemma NothingInOrder(f: seq<byte>, s: Scan, next: nat)
    requires s.Valid() && next <= |s.targets| && Items(f, |f|, s, next).Some?
    ensures InOrder(Segments(f, |f|, s, next), Items(f, |f|, s, next).value, s, next)
  {
  }

  /** The segments convert exactly the validated items, each into the next target. */
  lemma {:induction false} ConversionsAreItems(f: seq<byte>, at: nat, s: Scan, next: nat)
    requires at <= |f| && next <= |s.targets| && s.Valid() && Items(f, at, s, next).Some?
    ensures InOrder(Segments(f, at, s, next), Items(f, at, s, next).value, s, next)
    decreases |f| - at
  {
    hide ItemOf, TargetFits, WidthAt, Items, Segments, InOrder;
    if at == |f| {
      NothingInOrder(f, s, next);
    } else if f[at] != PERCENT {
      ValidatedLiteral(f, at, s, next);
      ConversionsAreItems(f, at + 1, s, next);
      InOrderSkip(if IsSpace(f[at]) then Spaces else Byte(f[at]), Segments(f, at + 1, s, next), Items(f, at, s, next).value, s, next);
    } else {
      ValidatedConversion(f, at, s, next);
      if f[at + 1] == PERCENT {
        ConversionsAreItems(f, at + 2, s, next);
        InOrderSkip(Byte(PERCENT), Segments(f, at + 2, s, next), Items(f, at, s, next).value, s, next);
      } else {
        var (end, width) := WidthAt(f, at + 1, 0).value;
        ConversionsAreItems(f, end + 1, s, next + 1);
        InOrderCons(ItemOf(CharOf(f[end]), width).value, Segments(f, end + 1, s, next + 1), Items(f, end + 1, s, next + 1).value, s, next);
      }
    }
  }

  // ---------------------------------------------------------- interpretation

  datatype Result = Returned(count: int) | Aborted

  datatype Final = Final(result: Result, next: nat, memory: seq<byte>)

  /** Every conversion has a fitting target in memory. */
  predicate Runnable(segments: seq<Segment>, size: nat) {
    forall i | 0 <= i < |segments| && segments[i].Convert? ::
      InMemory(segments[i].target, size) && TargetFits(segments[i].target, segments[i].item, false, false)
  }

  function Count(converted: nat, atEnd: bool): Result {
    Returned(if converted == 0 && atEnd then EOF else converted)
  }

  function Interpret(segments: seq<Segment>, data: seq<byte>, at: nat, memory: seq<byte>, converted: nat, parse: FloatParser): Final
    requires at <= |data| && Runnable(segments, |memory|) && Sized(parse)
    decreases |segments|
  {
    if segments == [] then Final(Returned(converted), at, memory)
    else
      var rest := segments[1..];
      match segments[0]
      case Spaces => Interpret(rest, data, SkipTo(data, at), memory, converted, parse)
      case Byte(b) =>
        if at < |data| && data[at] == b then Interpret(rest, data, at + 1, memory, converted, parse)
        else Final(Count(converted, at == |data|), at, memory)
      case Convert(item, target) =>
        var e := Conversion(data, at, memory, target, item, parse);
        match e.outcome
        case Failed => Final(Aborted, e.next, memory)
        case Stopped(atEnd) => Final(Count(converted, atEnd), e.next, memory)
        case Stored => Interpret(rest, data, e.next, e.memory, converted + 1, parse)
  }

  // --------------------------------------------------------------- properties

  /** Only the target's own bytes change. */
  ghost predicate OnlyTarget(t: Target, before: seq<byte>, after: seq<byte>) {
    |after| == |before| && forall a | 0 <= a < |before| && !Covers(t, a) :: after[a] == before[a]
  }

  ghost predicate Terminated(t: Target, memory: seq<byte>) {
    exists a | 0 <= a < |memory| && Covers(t, a) :: memory[a] == NUL
  }

  /** One conversion writes only inside its target, and ends a string with a NUL. */
  lemma ConversionIsSafe(data: seq<byte>, at: nat, memory: seq<byte>, t: Target, item: Item, parse: FloatParser)
    requires at <= |data| && InMemory(t, |memory|) && TargetFits(t, item, false, false) && Sized(parse)
    ensures var e := Conversion(data, at, memory, t, item, parse);
      && OnlyTarget(t, memory, e.memory) && (!e.outcome.Stored? ==> e.memory == memory)
      && (item.specifier == 's' && e.outcome.Stored? ==> Terminated(t, e.memory))
  {
    hide ReadNumber, IsFloatByte, LittleEndian;
    var e := Conversion(data, at, memory, t, item, parse);
    if item.specifier == 's' && e.outcome.Stored? {
      var p := SkipTo(data, at);
      assert e.memory[t.data + (e.next - p)] == NUL;
      assert Covers(t, t.data + (e.next - p));
    }
  }

  predicate Outside(segments: seq<Segment>, a: nat) {
    forall i | 0 <= i < |segments| && segments[i].Convert? :: !Covers(segments[i].target, a)
  }

  /** Bytes outside every target survive the whole scan. */
  lemma {:induction false} InterpretFrame(segments: seq<Segment>, data: seq<byte>, at: nat, memory: seq<byte>, converted: nat, parse: FloatParser, a: nat)
    requires at <= |data| && Runnable(segments, |memory|) && Sized(parse) && a < |memory| && Outside(segments, a)
    ensures var final := Interpret(segments, data, at, memory, converted, parse);
      |final.memory| == |memory| && final.memory[a] == memory[a]
    decreases |segments|
  {
    hide Conversion, Sized, TargetFits;
    if segments != [] {
      var rest := segments[1..];
      match segments[0]
      case Spaces => InterpretFrame(rest, data, SkipTo(data, at), memory, converted, parse, a);
      case Byte(b) =>
        if at < |data| && data[at] == b {
          InterpretFrame(rest, data, at + 1, memory, converted, parse, a);
        }
      case Convert(item, target) =>
        ConversionIsSafe(data, at, memory, target, item, parse);
        var e := Conversion(data, at, memory, target, item, parse);
        if e.outcome.Stored? {
          InterpretFrame(rest, data, e.next, e.memory, converted + 1, parse, a);
        }
    }
  }
}
