/**
  What a scan leaves behind when the input is what the format asks for: every value in its
  target and the count of conversions; and what it returns at the end of the input.
 */
module ScanOutcome {
  import opened Basics
  import opened Powers
  import opened ScanFormat
  import opened ScanSpec
  import opened ScanRoundTrip

  /** An integer as it is written in the input. */
  datatype Written = Written(sign: seq<byte>, prefix: seq<byte>, value: nat, base: nat, end: nat) {
    function Text(): seq<byte>
      requires 2 <= base <= 16
    {
      sign + prefix + ShowNumber(value, base)
    }

    function Number(): int {
      if sign == [MINUS] then 0 - value else value
    }
  }

  /** An integer conversion with its target and a numeral that it accepts. */
  predicate Accepts(item: Item, t: Target, w: Written, size: nat) {
    && (IsInteger(item.specifier) || item.specifier == 'p') && ReadsBase(item.specifier, w.base)
    && TargetFits(t, item, false, false) && InMemory(t, size)
    && 2 <= w.base <= 16 && w.value < U64 && MayPrecede(w.sign, w.prefix, w.base) && (w.sign == [MINUS] ==> item.specifier == 'd')
  }

  /** The numerals stand in the input one after another, each behind white space and before more of it. */
  predicate InARow(data: seq<byte>, at: nat, ws: seq<Written>)
    requires at <= |data| && forall i | 0 <= i < |ws| :: 2 <= ws[i].base <= 16
    decreases |ws|
  {
    ws == [] || (StandsAt(data, at, ws[0].end, ws[0].Text()) && InARow(data, ws[0].end, ws[1..]))
  }

  predicate Apart(a: Target, b: Target) {
    a.data + a.capacity <= b.data || b.data + b.capacity <= a.data
  }

  predicate AllApart(segments: seq<Segment>)
    requires forall i | 0 <= i < |segments| :: segments[i].Convert?
  {
    forall i, j | 0 <= i < j < |segments| :: Apart(segments[i].target, segments[j].target)
  }

  /** The segments are integer conversions, and the numerals suit them. */
  predicate Suits(segments: seq<Segment>, ws: seq<Written>, size: nat) {
    && |segments| == |ws|
    && forall i | 0 <= i < |segments| :: segments[i].Convert? && Accepts(segments[i].item, segments[i].target, ws[i], size)
  }

  /** The target holds the number, modulo its size. */
  predicate Keeps(t: Target, memory: seq<byte>, w: Written) {
    InMemory(t, |memory|) && Held(t, memory) == w.Number() % Pow(256, t.capacity)
  }

  lemma HeldStays(t: Target, before: seq<byte>, after: seq<byte>)
    requires |after| == |before| && InMemory(t, |before|) && forall a: nat | Covers(t, a) :: after[a] == before[a]
    ensures Held(t, after) == Held(t, before)
  {
    hide ValueOf;
    forall a: nat | t.data <= a < t.data + t.capacity ensures after[a] == before[a] {
      assert Covers(t, a);
    }
    assert after[t.data..t.data + t.capacity] == before[t.data..t.data + t.capacity];
  }

  lemma SuitsRunnable(segments: seq<Segment>, ws: seq<Written>, size: nat)
    requires Suits(segments, ws, size)
    ensures Runnable(segments, size)
  {
    hide TargetFits;
  }

  lemma {:induction false} FirstStored(segments: seq<Segment>, ws: seq<Written>, data: seq<byte>, at: nat, memory: seq<byte>, parse: FloatParser)
    requires at <= |data| && segments != [] && Suits(segments, ws, |memory|) && InARow(data, at, ws) && Sized(parse)
    ensures var e := Conversion(data, at, memory, segments[0].target, segments[0].item, parse);
      && e.outcome == Stored && e.next == ws[0].end <= |data| && |e.memory| == |memory| && Keeps(segments[0].target, e.memory, ws[0])
      && Suits(segments[1..], ws[1..], |e.memory|) && InARow(data, e.next, ws[1..])
  {
    hide Conversion, TargetFits, StandsAt, MayPrecede, ReadsBase, Held, Pow;
    var w := ws[0];
    assert Accepts(segments[0].item, segments[0].target, w, |memory|);
    IntegerIsStored(data, at, w.end, w.sign, w.prefix, w.value, w.base, memory, segments[0].target, segments[0].item, parse);
  }

  /** Every numeral is stored, in its own target, and all are counted. */
  lemma {:induction false} NumeralsAreStored(segments: seq<Segment>, ws: seq<Written>, data: seq<byte>, at: nat, memory: seq<byte>, converted: nat, parse: FloatParser)
    requires at <= |data| && Suits(segments, ws, |memory|) && InARow(data, at, ws) && AllApart(segments) && Sized(parse)
    ensures Runnable(segments, |memory|)
    ensures var final := Interpret(segments, data, at, memory, converted, parse);
      && final.result == Returned(converted + |segments|) && final.next == (if ws == [] then at else ws[|ws| - 1].end)
      && |final.memory| == |memory| && forall i | 0 <= i < |segments| :: Keeps(segments[i].target, final.memory, ws[i])
    decreases |segments|
  {
    SuitsRunnable(segments, ws, |memory|);
    if segments != [] {
      var t, rest := segments[0].target, segments[1..];
      var e := Conversion(data, at, memory, t, segments[0].item, parse);
      FirstStored(segments, ws, data, at, memory, parse);
      NumeralsAreStored(rest, ws[1..], data, e.next, e.memory, converted + 1, parse);
      var final := Interpret(rest, data, e.next, e.memory, converted + 1, parse);
      assert Interpret(segments, data, at, memory, converted, parse) == final;
      hide Conversion, Interpret, Suits, InARow, Sized, Runnable, Accepts;
      FirstStays(segments, data, e.next, e.memory, converted + 1, parse);
      assert Keeps(t, final.memory, ws[0]);
      forall i | 0 <= i < |segments| ensures Keeps(segments[i].target, final.memory, ws[i]) {
        if i > 0 {
          assert segments[i] == rest[i - 1] && ws[i] == ws[1..][i - 1];
        }
      }
    }
  }

  /** What the other conversions leave in the first target. */
  lemma FirstStays(segments: seq<Segment>, data: seq<byte>, at: nat, memory: seq<byte>, converted: nat, parse: FloatParser)
    requires at <= |data| && segments != [] && (forall i | 0 <= i < |segments| :: segments[i].Convert?) && AllApart(segments) && Sized(parse)
    requires Runnable(segments[1..], |memory|) && InMemory(segments[0].target, |memory|)
    ensures var final := Interpret(segments[1..], data, at, memory, converted, parse);
      |final.memory| == |memory| && Held(segments[0].target, final.memory) == Held(segments[0].target, memory)
  {
    hide Conversion, Interpret, TargetFits, Sized;
    var t := segments[0].target;
    var final := Interpret(segments[1..], data, at, memory, converted, parse);
    assert t.data < |memory| || t.capacity == 0;
    forall a: nat | Covers(t, a) ensures |final.memory| == |memory| && final.memory[a] == memory[a] {
      assert Outside(segments[1..], a);
      InterpretFrame(segments[1..], data, at, memory, converted, parse, a);
    }
    InterpretSize(segments[1..], data, at, memory, converted, parse);
    HeldStays(t, memory, final.memory);
  }

  lemma {:induction false} InterpretSize(segments: seq<Segment>, data: seq<byte>, at: nat, memory: seq<byte>, converted: nat, parse: FloatParser)
    requires at <= |data| && Runnable(segments, |memory|) && Sized(parse)
    ensures |Interpret(segments, data, at, memory, converted, parse).memory| == |memory|
    decreases |segments|
  {
    hide Conversion, Sized, TargetFits;
    if segments != [] {
      var rest := segments[1..];
      match segments[0]
      case Spaces => InterpretSize(rest, data, SkipTo(data, at), memory, converted, parse);
      case Byte(b) =>
        if at < |data| && data[at] == b {
          InterpretSize(rest, data, at + 1, memory, converted, parse);
        }
      case Convert(item, target) =>
        var e := Conversion(data, at, memory, target, item, parse);
        if e.outcome.Stored? {
          InterpretSize(rest, data, e.next, e.memory, converted + 1, parse);
        }
    }
  }

  // ------------------------------------------------- strings and characters

  /** The C string that starts where the target does. */
  predicate HoldsString(t: Target, memory: seq<byte>, text: seq<byte>) {
    |text| < t.capacity && InMemory(t, |memory|) && memory[t.data..t.data + |text| + 1] == text + [NUL]
  }

  /** %s stores the word behind any white space, cut to the target, and stops where the cut is. */
  lemma WordIsStored(data: seq<byte>, at: nat, end: nat, word: seq<byte>, memory: seq<byte>, t: Target, item: Item, parse: FloatParser)
    requires at <= |data| && InMemory(t, |memory|) && TargetFits(t, item, false, false) && Sized(parse) && item.specifier == 's'
    requires word != [] && StandsAt(data, at, end, word) && forall i | 0 <= i < |word| :: !IsSpace(word[i])
    ensures var e := Conversion(data, at, memory, t, item, parse);
      var kept := if |word| < t.capacity then |word| else t.capacity - 1;
      && e.outcome == Stored && e.next == end - |word| + kept && HoldsString(t, e.memory, word[..kept])
  {
    hide SkipTo, RunEnd;
    var p := SkipTo(data, at);
    var kept := if |word| < t.capacity then |word| else t.capacity - 1;
    assert forall i | p <= i < end :: data[i] == word[i - p];
    var stop := RunEnd(data, p, t.capacity - 1, IsVisible);
    assert stop == p + kept;
    assert data[p..stop] == word[..kept];
  }

  /** %c stores the next byte, white space too. */
  lemma ByteIsStored(data: seq<byte>, at: nat, memory: seq<byte>, t: Target, item: Item, parse: FloatParser)
    requires at < |data| && InMemory(t, |memory|) && TargetFits(t, item, false, false) && Sized(parse) && item.specifier == 'c'
    ensures var e := Conversion(data, at, memory, t, item, parse);
      && e.outcome == Stored && e.next == at + 1 && e.memory == memory[t.data := data[at]]
  {
  }

  /** With nothing but white space left, a scan that has converted nothing reports the end of the input at a %s. */
  lemma EndOfInput(segments: seq<Segment>, data: seq<byte>, at: nat, memory: seq<byte>, converted: nat, parse: FloatParser)
    requires at <= |data| && Runnable(segments, |memory|) && Sized(parse) && segments != []
    requires segments[0].Convert? && segments[0].item.specifier == 's' && forall i | at <= i < |data| :: IsSpace(data[i])
    ensures var final := Interpret(segments, data, at, memory, converted, parse);
      final.result == Returned(if converted == 0 then EOF else converted) && final.memory == memory
  {
    hide SkipTo, RunEnd;
  }
}
