/**
  Which scanned strings stay terminated. Targets may overlap, so a later conversion can
  overwrite the NUL of an earlier %s; whether it can is decided here exactly, on the
  format itself.
 */
module ScanTerminators {
  import opened Basics
  import opened ScanFormat
  import opened ScanSpec
  import opened ScanRoundTrip

  // ---------------------------------------------------------- what is kept

  const STRING: Item := Item('s', 0)

  /** A NUL stands in the target after its first byte, as every %s leaves one. */
  ghost predicate Ended(t: Target, memory: seq<byte>) {
    exists a | 0 <= a < |memory| && t.data < a < t.data + t.capacity :: memory[a] == NUL
  }

  /**
    A conversion into u can leave t without a NUL: %c writes one byte, %s its own NUL at
    any place after the first byte of u, and the others all of u.
   */
  predicate Erases(item: Item, u: Target, t: Target) {
    var end := t.data + t.capacity;
    match item.specifier
    case 'c' => t.data < u.data < end
    case 's' => u.data < end < u.data + u.capacity
    case _ => u.data < end && t.data + 1 < u.data + u.capacity
  }

  lemma WrittenAt(memory: seq<byte>, at: nat, bytes: seq<byte>, a: nat)
    requires at + |bytes| <= |memory| && a < |memory|
    ensures Written(memory, at, bytes)[a] == if at <= a < at + |bytes| then bytes[a - at] else memory[a]
  {
  }

  /** A write that spares some NUL, or brings one, leaves the string ended. */
  lemma WrittenKeeps(memory: seq<byte>, at: nat, bytes: seq<byte>, t: Target)
    requires at + |bytes| <= |memory|
    requires
      || (Ended(t, memory) && (at + |bytes| <= t.data + 1 || t.data + t.capacity <= at))
      || (exists i | 0 <= i < |bytes| :: bytes[i] == NUL && t.data < at + i < t.data + t.capacity)
    ensures Ended(t, Written(memory, at, bytes))
  {
    hide Written;
    if i :| 0 <= i < |bytes| && bytes[i] == NUL && t.data < at + i < t.data + t.capacity {
      WrittenAt(memory, at, bytes, at + i);
      assert Written(memory, at, bytes)[at + i] == NUL;
    } else {
      var a :| 0 <= a < |memory| && t.data < a < t.data + t.capacity && memory[a] == NUL;
      WrittenAt(memory, at, bytes, a);
      assert Written(memory, at, bytes)[a] == NUL;
    }
  }

  /** A stored %s has written at least one byte and then the NUL, inside its target. */
  lemma StringStored(data: seq<byte>, at: nat, memory: seq<byte>, u: Target, parse: FloatParser)
    requires at <= |data| && InMemory(u, |memory|) && TargetFits(u, STRING, false, false) && Sized(parse)
    requires Conversion(data, at, memory, u, STRING, parse).outcome.Stored?
    ensures var e, p := Conversion(data, at, memory, u, STRING, parse), SkipTo(data, at);
      && p < e.next && e.next - p < u.capacity && e.memory == Written(memory, u.data, data[p..e.next] + [NUL])
  {
    hide Written;
  }

  /** A conversion that does not erase keeps an ended string ended; a stored %s ends its own. */
  lemma ConversionKeeps(data: seq<byte>, at: nat, memory: seq<byte>, u: Target, item: Item, parse: FloatParser, t: Target)
    requires at <= |data| && InMemory(u, |memory|) && TargetFits(u, item, false, false) && Sized(parse)
    requires (Ended(t, memory) && !Erases(item, u, t)) || (item == STRING && t == u)
    requires Conversion(data, at, memory, u, item, parse).outcome.Stored?
    ensures Ended(t, Conversion(data, at, memory, u, item, parse).memory)
  {
    hide Written, ReadNumber, RunEnd, SkipTo, LittleEndian, Ended;
    var e := Conversion(data, at, memory, u, item, parse);
    if item.specifier == 's' {
      var p := SkipTo(data, at);
      SameString(item, data, at, memory, u, parse);
      StringStored(data, at, memory, u, parse);
      var bytes := data[p..e.next] + [NUL];
      assert bytes[|bytes| - 1] == NUL;
      WrittenKeeps(memory, u.data, bytes, t);
    } else if item.specifier == 'c' {
      WrittenKeeps(memory, u.data, [data[at]], t);
    } else if item.specifier == 'f' {
      var p := SkipTo(data, at);
      WrittenKeeps(memory, u.data, parse(data[p..RunEnd(data, p, |data|, IsFloatByte)], item.width).value, t);
    } else {
      var number := ReadNumber(data, at, BaseOf(item.specifier), item.specifier == 'd');
      WrittenKeeps(memory, u.data, LittleEndian(number.value, u.capacity), t);
    }
  }

  lemma SameString(item: Item, data: seq<byte>, at: nat, memory: seq<byte>, u: Target, parse: FloatParser)
    requires item.specifier == 's' && at <= |data| && InMemory(u, |memory|) && TargetFits(u, item, false, false) && Sized(parse)
    ensures TargetFits(u, STRING, false, false)
    ensures Conversion(data, at, memory, u, item, parse) == Conversion(data, at, memory, u, STRING, parse)
  {
    hide Written, RunEnd, SkipTo;
  }

  // ------------------------------------------------------------ whole scans

  /** No conversion of the segments can erase the string. */
  predicate Spares(segments: seq<Segment>, t: Target) {
    forall i | 0 <= i < |segments| && segments[i].Convert? :: !Erases(segments[i].item, segments[i].target, t)
  }

  predicate ReadsString(segment: Segment) {
    segment.Convert? && segment.item.specifier == 's'
  }

  lemma {:induction false} EndedStays(segments: seq<Segment>, data: seq<byte>, at: nat, memory: seq<byte>, converted: nat, parse: FloatParser, t: Target)
    requires at <= |data| && Runnable(segments, |memory|) && Sized(parse) && Spares(segments, t) && Ended(t, memory)
    ensures Ended(t, Interpret(segments, data, at, memory, converted, parse).memory)
    decreases |segments|
  {
    hide Conversion, Sized, TargetFits, Ended, Erases;
    if segments != [] {
      var rest := segments[1..];
      match segments[0]
      case Spaces => EndedStays(rest, data, SkipTo(data, at), memory, converted, parse, t);
      case Byte(b) =>
        if at < |data| && data[at] == b {
          EndedStays(rest, data, at + 1, memory, converted, parse, t);
        }
      case Convert(item, target) =>
        var e := Conversion(data, at, memory, target, item, parse);
        if e.outcome.Stored? {
          ConversionKeeps(data, at, memory, target, item, parse, t);
          EndedStays(rest, data, e.next, e.memory, converted + 1, parse, t);
        }
    }
  }

  /** The position among the segments of the k-th conversion. */
  function IndexOf(segments: seq<Segment>, k: nat): (r: nat)
    requires k < |Conversions(segments)|
    ensures r < |segments| && segments[r] == Conversions(segments)[k]
  {
    if !segments[0].Convert? then 1 + IndexOf(segments[1..], k)
    else if k == 0 then 0
    else 1 + IndexOf(segments[1..], k - 1)
  }

  /** A performed %s is terminated at the end of the scan when no later conversion can erase it. */
  lemma {:induction false} StringsTerminated(segments: seq<Segment>, data: seq<byte>, at: nat, memory: seq<byte>, converted: nat, parse: FloatParser, k: nat)
    requires at <= |data| && Runnable(segments, |memory|) && Sized(parse)
    requires k < |Conversions(segments)| && ReadsString(Conversions(segments)[k])
    requires Spares(segments[IndexOf(segments, k) + 1..], Conversions(segments)[k].target)
    requires var r := Interpret(segments, data, at, memory, converted, parse).result; r.Returned? && converted + k < r.count
    ensures Ended(Conversions(segments)[k].target, Interpret(segments, data, at, memory, converted, parse).memory)
    decreases |segments|
  {
    hide Conversion, Sized, TargetFits, Ended, Erases, Spares;
    var rest, i := segments[1..], IndexOf(segments, k);
    if i > 0 {
      assert rest[i..] == segments[i + 1..];
    }
    match segments[0]
    case Spaces => StringsTerminated(rest, data, SkipTo(data, at), memory, converted, parse, k);
    case Byte(b) => StringsTerminated(rest, data, at + 1, memory, converted, parse, k);
    case Convert(item, target) =>
      var e := Conversion(data, at, memory, target, item, parse);
      if k == 0 {
        StringEnds(data, at, memory, target, item, parse);
        EndedStays(rest, data, e.next, e.memory, converted + 1, parse, target);
      } else {
        StringsTerminated(rest, data, e.next, e.memory, converted + 1, parse, k - 1);
      }
  }

  lemma StringEnds(data: seq<byte>, at: nat, memory: seq<byte>, t: Target, item: Item, parse: FloatParser)
    requires item.specifier == 's' && at <= |data| && InMemory(t, |memory|) && TargetFits(t, item, false, false) && Sized(parse)
    requires Conversion(data, at, memory, t, item, parse).outcome.Stored?
    ensures Ended(t, Conversion(data, at, memory, t, item, parse).memory)
  {
    hide Conversion, Ended;
    SameString(item, data, at, memory, t, parse);
    ConversionKeeps(data, at, memory, t, STRING, parse, t);
  }

  lemma EndedIsTerminated(t: Target, memory: seq<byte>)
    requires Ended(t, memory)
    ensures Terminated(t, memory)
  {
    var a :| 0 <= a < |memory| && t.data < a < t.data + t.capacity && memory[a] == NUL;
    assert Covers(t, a);
  }

  // ------------------------------------------------------------ what is lost

  const LETTER: byte := 97
  const SPACE: byte := 32

  function Letters(n: nat): seq<byte> {
    seq(n, _ => LETTER)
  }

  function Filled(size: nat): seq<byte> {
    seq(size, _ => 1)
  }

  /** The C library answers with all bits set. */
  function AllOnes(token: seq<byte>, width: nat): Option<seq<byte>> {
    Some(seq(width, _ => 255))
  }

  lemma AllOnesIsSized()
    ensures Sized(AllOnes)
  {
  }

  /** The run of letters that a %s reads. */
  lemma LettersRun(data: seq<byte>, at: nat, n: nat, limit: nat)
    requires at + n <= |data| && data[at..at + n] == Letters(n) && n <= limit
    requires n == limit || at + n == |data| || data[at + n] == SPACE
    ensures RunEnd(data, at, limit, IsVisible) == at + n
  {
    hide RunEnd;
    assert forall i | at <= i < at + n :: data[i] == data[at..at + n][i - at];
  }

  /** So many letters and a space, read into t. */
  lemma FirstString(data: seq<byte>, t: Target, n: nat, size: nat, parse: FloatParser)
    requires TargetFits(t, STRING, false, false) && InMemory(t, size) && 0 < n < t.capacity && Sized(parse)
    requires n < |data| && data[..n] == Letters(n) && data[n] == SPACE
    ensures Conversion(data, 0, Filled(size), t, STRING, parse) ==
      Effect(Stored, n, Written(Filled(size), t.data, Letters(n) + [NUL]))
  {
    hide RunEnd, Written;
    assert data[0..n] == data[..n];
    assert data[0] == data[..n][0];
    assert SkipTo(data, 0) == 0;
    LettersRun(data, 0, n, t.capacity - 1);
  }

  /** How many letters the first string gets, so that the second conversion meets its NUL. */
  function Length(item: Item, u: Target, t: Target): nat
    requires TargetFits(t, STRING, false, false) && Erases(item, u, t)
  {
    if item.specifier == 's' then t.capacity - 1 else if u.data > t.data then u.data - t.data else 1
  }

  /** The rest of the input, after the space. */
  function SecondText(item: Item, u: Target): seq<byte>
    requires TargetFits(u, item, false, false)
  {
    match item.specifier
    case 'c' => []
    case 's' => Letters(u.capacity - 1)
    case 'f' => [49]
    case _ => ShowNumber(U64 - 1, BaseOf(item.specifier))
  }

  /** What the second conversion then writes. */
  function SecondBytes(item: Item, u: Target): (r: seq<byte>)
    requires TargetFits(u, item, false, false)
    ensures |r| == if item.specifier == 'c' then 1 else u.capacity
    ensures forall i | 0 <= i < |r| :: r[i] == NUL ==> item.specifier == 's' && i == |r| - 1
  {
    match item.specifier
    case 'c' => [SPACE]
    case 's' => Letters(u.capacity - 1) + [NUL]
    case _ => seq(u.capacity, _ => 255)
  }

  function Ones(bytes: nat): nat {
    if bytes == 0 then 0 else Ones(bytes - 1) * 256 + 255
  }

  lemma {:induction false} OnesAreStored(wide: nat, bytes: nat)
    requires bytes <= wide
    ensures LittleEndian(Ones(wide), bytes) == seq(bytes, _ => 255)
    decreases bytes
  {
    if bytes > 0 {
      assert Ones(wide) % 256 == 255 && Ones(wide) / 256 == Ones(wide - 1);
      OnesAreStored(wide - 1, bytes - 1);
    }
  }

  lemma SkipsTheSpace(data: seq<byte>, n: nat)
    requires n + 1 < |data| && data[n] == SPACE && !IsSpace(data[n + 1])
    ensures SkipTo(data, n) == n + 1
  {
    assert SkipTo(data, n + 1) == n + 1;
  }

  lemma SecondString(data: seq<byte>, n: nat, memory: seq<byte>, item: Item, u: Target, parse: FloatParser)
    requires item.specifier == 's' && TargetFits(u, item, false, false) && InMemory(u, |memory|) && Sized(parse)
    requires n < |data| && data[n] == SPACE && data[n + 1..] == Letters(u.capacity - 1)
    ensures Conversion(data, n, memory, u, item, parse) == Effect(Stored, |data|, Written(memory, u.data, SecondBytes(item, u)))
  {
    hide RunEnd, SkipTo, Written;
    assert data[n + 1] == data[n + 1..][0];
    SkipsTheSpace(data, n);
    assert data[n + 1..|data|] == data[n + 1..];
    LettersRun(data, n + 1, u.capacity - 1, u.capacity - 1);
  }

  lemma SecondFloat(data: seq<byte>, n: nat, memory: seq<byte>, item: Item, u: Target)
    requires item.specifier == 'f' && TargetFits(u, item, false, false) && InMemory(u, |memory|) && Sized(AllOnes)
    requires n < |data| && data[n] == SPACE && data[n + 1..] == [49]
    ensures Conversion(data, n, memory, u, item, AllOnes) == Effect(Stored, |data|, Written(memory, u.data, SecondBytes(item, u)))
  {
    hide RunEnd, SkipTo, Written;
    assert data[n + 1] == data[n + 1..][0];
    SkipsTheSpace(data, n);
    assert RunEnd(data, n + 1, |data|, IsFloatByte) == |data|;
  }

  lemma SecondNumber(data: seq<byte>, n: nat, memory: seq<byte>, item: Item, u: Target, parse: FloatParser)
    requires item.specifier != 'c' && item.specifier != 's' && item.specifier != 'f'
    requires TargetFits(u, item, false, false) && InMemory(u, |memory|) && Sized(parse)
    requires n < |data| && data[n] == SPACE && data[n + 1..] == ShowNumber(U64 - 1, BaseOf(item.specifier))
    ensures Conversion(data, n, memory, u, item, parse) == Effect(Stored, |data|, Written(memory, u.data, SecondBytes(item, u)))
  {
    hide RunEnd, SkipTo, Written, ReadNumber, ShowNumber, LittleEndian;
    var base := BaseOf(item.specifier);
    assert data[n + 1] == data[n + 1..][0];
    SkipsTheSpace(data, n);
    assert data[n + 1..|data|] == data[n + 1..];
    assert [] + [] + ShowNumber(U64 - 1, base) == ShowNumber(U64 - 1, base);
    ReadOfShow(data, n, |data|, [], [], U64 - 1, base, item.specifier == 'd');
    assert Ones(8) == U64 - 1;
    OnesAreStored(8, u.capacity);
  }

  lemma SecondConversion(data: seq<byte>, n: nat, memory: seq<byte>, item: Item, u: Target)
    requires TargetFits(u, item, false, false) && InMemory(u, |memory|) && Sized(AllOnes)
    requires n < |data| && data[n] == SPACE && data[n + 1..] == SecondText(item, u)
    ensures var e := Conversion(data, n, memory, u, item, AllOnes);
      e.outcome.Stored? && e.memory == Written(memory, u.data, SecondBytes(item, u))
  {
    hide Conversion, TargetFits;
    match item.specifier
    case 'c' => SecondByte(data, n, memory, item, u, AllOnes);
    case 's' => SecondString(data, n, memory, item, u, AllOnes);
    case 'f' => SecondFloat(data, n, memory, item, u);
    case _ => SecondNumber(data, n, memory, item, u, AllOnes);
  }

  lemma SecondByte(data: seq<byte>, n: nat, memory: seq<byte>, item: Item, u: Target, parse: FloatParser)
    requires item.specifier == 'c' && TargetFits(u, item, false, false) && InMemory(u, |memory|) && Sized(parse)
    requires n < |data| && data[n] == SPACE
    ensures Conversion(data, n, memory, u, item, parse) == Effect(Stored, n + 1, Written(memory, u.data, SecondBytes(item, u)))
  {
    hide Written;
  }

  /** The second write covers the one NUL of the string and brings none into it. */
  lemma NulIsCovered(t: Target, n: nat, at: nat, bytes: seq<byte>, size: nat)
    requires InMemory(t, size) && 0 < n < t.capacity && at + |bytes| <= size && at <= t.data + n < at + |bytes|
    requires forall i | 0 <= i < |bytes| :: bytes[i] == NUL ==> t.data + t.capacity <= at + i
    ensures !Terminated(t, Written(Written(Filled(size), t.data, Letters(n) + [NUL]), at, bytes))
  {
    hide Written;
    var first := Letters(n) + [NUL];
    var once := Written(Filled(size), t.data, first);
    forall a | 0 <= a < size && Covers(t, a) ensures Written(once, at, bytes)[a] != NUL {
      WrittenAt(Filled(size), t.data, first, a);
      WrittenAt(once, at, bytes, a);
    }
  }

  // ------------------------------------------------------ the exact condition

  /** %s and then the item, as a format for two targets. */
  function PairFormat(item: Item): seq<byte>
    requires IsItem(item)
  {
    SpelledAll([STRING, item])
  }

  function PairScan(t: Target, u: Target): Scan {
    Scan([t, u], false, [false, false])
  }

  /** The targets of that format are valid and in memory. */
  predicate PairFits(t: Target, item: Item, u: Target, size: nat) {
    && TargetFits(t, STRING, false, false) && InMemory(t, size)
    && IsItem(item) && TargetFits(u, item, false, false) && InMemory(u, size)
  }

  lemma PairSegments(t: Target, item: Item, u: Target, size: nat)
    requires PairFits(t, item, u, size)
    ensures var f, s := PairFormat(item), PairScan(t, u);
      && Items(f, 0, s, 0) == Some([STRING, item])
      && Segments(f, 0, s, 0) == [Convert(STRING, t), Convert(item, u)]
      && Runnable(Segments(f, 0, s, 0), size)
  {
    var f, s, items := PairFormat(item), PairScan(t, u), [STRING, item];
    assert IsItem(STRING);
    hide SpelledAll, Items, Segments, TargetFits, IsItem;
    assert f[0..] == f;
    SegmentsOfSpelled(f, 0, items, s, 0);
    assert items[1..] == [item] && [item][1..] == [];
    assert Assigned([item], s, 1) == [Convert(item, u)] + Assigned([], s, 2);
    assert Assigned(items, s, 0) == [Convert(STRING, t)] + Assigned([item], s, 1);
  }

  /** Both conversions are performed and the string is left without a NUL. */
  ghost predicate Loses(t: Target, item: Item, u: Target, size: nat, data: seq<byte>, memory: seq<byte>, parse: FloatParser)
    requires PairFits(t, item, u, size)
  {
    PairSegments(t, item, u, size);
    && |memory| == size && Sized(parse)
    && var final := Interpret(Segments(PairFormat(item), 0, PairScan(t, u), 0), data, 0, memory, 0, parse);
       final.result == Returned(2) && !Terminated(t, final.memory)
  }

  /**
    A later conversion can leave a scanned string without its NUL exactly when its target
    overlaps the string's in the way Erases says.
   */
  lemma TerminatorLostExactly(t: Target, item: Item, u: Target, size: nat)
    requires PairFits(t, item, u, size)
    ensures Erases(item, u, t) <==> exists data, memory, parse :: Loses(t, item, u, size, data, memory, parse)
  {
    hide Loses, Erases, PairFits;
    if Erases(item, u, t) {
      ErasedIsLost(t, item, u, size);
    } else {
      forall data, memory, parse ensures !Loses(t, item, u, size, data, memory, parse) {
        SparedIsKept(t, item, u, size, data, memory, parse);
      }
    }
  }

  lemma SparedIsKept(t: Target, item: Item, u: Target, size: nat, data: seq<byte>, memory: seq<byte>, parse: FloatParser)
    requires PairFits(t, item, u, size) && !Erases(item, u, t)
    ensures !Loses(t, item, u, size, data, memory, parse)
  {
    hide Interpret, Erases, Terminated, Ended, TargetFits, Sized;
    PairSegments(t, item, u, size);
    var segments := [Convert(STRING, t), Convert(item, u)];
    if |memory| == size && Sized(parse) && Interpret(segments, data, 0, memory, 0, parse).result == Returned(2) {
      assert Conversions(segments)[0] == segments[0] && segments[1..] == [Convert(item, u)];
      StringsTerminated(segments, data, 0, memory, 0, parse, 0);
      EndedIsTerminated(t, Interpret(segments, data, 0, memory, 0, parse).memory);
    }
  }

  /** Letters, a space, and what the second conversion reads. */
  function PairInput(t: Target, item: Item, u: Target): seq<byte>
    requires TargetFits(t, STRING, false, false) && TargetFits(u, item, false, false) && Erases(item, u, t)
  {
    Letters(Length(item, u, t)) + [SPACE] + SecondText(item, u)
  }

  lemma InputParts(t: Target, item: Item, u: Target)
    requires TargetFits(t, STRING, false, false) && TargetFits(u, item, false, false) && Erases(item, u, t)
    ensures var data, n := PairInput(t, item, u), Length(item, u, t);
      n < |data| && data[..n] == Letters(n) && data[n] == SPACE && data[n + 1..] == SecondText(item, u)
  {
    hide SecondText, Length, TargetFits, Erases;
  }

  /** On that input both conversions are stored, the second over the first. */
  lemma PairWrites(t: Target, item: Item, u: Target, size: nat)
    requires PairFits(t, item, u, size) && Erases(item, u, t)
    ensures Sized(AllOnes) && 0 < Length(item, u, t) < t.capacity
    ensures var data, text := PairInput(t, item, u), Letters(Length(item, u, t)) + [NUL];
      var first := Conversion(data, 0, Filled(size), t, STRING, AllOnes);
      var second := Conversion(data, first.next, first.memory, u, item, AllOnes);
      && first.outcome.Stored? && second.outcome.Stored?
      && second.memory == Written(Written(Filled(size), t.data, text), u.data, SecondBytes(item, u))
  {
    PairFacts(t, item, u, size);
    hide Written, Conversion, SecondText, SecondBytes, Erases, Length, PairInput, TargetFits, Letters, Filled, Sized, IsItem;
    var data, n := PairInput(t, item, u), Length(item, u, t);
    InputParts(t, item, u);
    AllOnesIsSized();
    FirstString(data, t, n, size, AllOnes);
    SecondConversion(data, n, Written(Filled(size), t.data, Letters(n) + [NUL]), item, u);
  }

  lemma ErasedIsLost(t: Target, item: Item, u: Target, size: nat)
    requires PairFits(t, item, u, size) && Erases(item, u, t)
    ensures exists data, memory, parse :: Loses(t, item, u, size, data, memory, parse)
  {
    PairFacts(t, item, u, size);
    hide Written, Conversion, Interpret, Terminated, SecondBytes, Erases, Length, TargetFits, IsItem, PairInput, Letters, Filled, Sized, PairFormat, Segments;
    var data := PairInput(t, item, u);
    PairWrites(t, item, u, size);
    NulIsCovered(t, Length(item, u, t), u.data, SecondBytes(item, u), size);
    PairSegments(t, item, u, size);
    PairRuns(t, item, u, size, data, Filled(size), AllOnes);
    assert Loses(t, item, u, size, data, Filled(size), AllOnes);
  }

  /** The NUL of the first string lies under the second write. */
  lemma PairFacts(t: Target, item: Item, u: Target, size: nat)
    requires PairFits(t, item, u, size) && Erases(item, u, t)
    ensures var n, bytes := Length(item, u, t), SecondBytes(item, u);
      && 0 < n < t.capacity && |Letters(n)| == n && |Filled(size)| == size && t.data + n + 1 <= size && u.data + |bytes| <= size
      && u.data <= t.data + n < u.data + |bytes|
      && forall i | 0 <= i < |bytes| :: bytes[i] == NUL ==> t.data + t.capacity <= u.data + i
  {
  }

  /** Two stored conversions make the whole run. */
  lemma PairRuns(t: Target, item: Item, u: Target, size: nat, data: seq<byte>, memory: seq<byte>, parse: FloatParser)
    requires PairFits(t, item, u, size) && |memory| == size && Sized(parse)
    requires var first := Conversion(data, 0, memory, t, STRING, parse);
      first.outcome.Stored? && Conversion(data, first.next, first.memory, u, item, parse).outcome.Stored?
    ensures var segments, first := [Convert(STRING, t), Convert(item, u)], Conversion(data, 0, memory, t, STRING, parse);
      var second := Conversion(data, first.next, first.memory, u, item, parse);
      && Runnable(segments, size)
      && Interpret(segments, data, 0, memory, 0, parse) == Final(Returned(2), second.next, second.memory)
  {
    hide Conversion, TargetFits, ItemOf;
    var segments, first := [Convert(STRING, t), Convert(item, u)], Conversion(data, 0, memory, t, STRING, parse);
    var second := Conversion(data, first.next, first.memory, u, item, parse);
    var last := [segments[1]];
    assert segments[1..] == last && last[1..] == [];
    assert Interpret(last, data, first.next, first.memory, 1, parse) == Final(Returned(2), second.next, second.memory);
  }

  /** For one, %s into two bytes and %c into the second of them. */
  lemma OverlapLosesTerminator()
    ensures PairFormat(Item('c', 0)) == [37, 115, 37, 99]
    ensures exists data, memory, parse :: Loses(Target(1, 2, AnyTarget), Item('c', 0), Target(2, 1, AnyTarget), 3, data, memory, parse)
  {
    var byte := Item('c', 0);
    assert Spelled(STRING) == [37, 115] && Spelled(byte) == [37, 99];
    assert [STRING, byte][1..] == [byte] && [byte][1..] == [];
    assert SpelledAll([byte]) == Spelled(byte) + SpelledAll([]);
    assert SpelledAll([STRING, byte]) == Spelled(STRING) + SpelledAll([byte]);
    ErasedIsLost(Target(1, 2, AnyTarget), Item('c', 0), Target(2, 1, AnyTarget), 3);
  }
}
