/**
  hs_scan_input of runtime/hitsimple_runtime.c: the second pass reads the format again,
  from memory and without the first pass's bounds checks, while it writes the targets.
  It is proved to do what the validated segments prescribe.
 */
module ScanInput {
  import opened Basics
  import opened Powers
  import opened ScanFormat
  import opened ScanSpec

  /** A stream; reading past its end yields EOF. */
  class Input {
    const data: seq<byte>
    var position: nat

    constructor (data: seq<byte>)
      ensures this.data == data && position == 0
    {
      this.data, position := data, 0;
    }

    ghost predicate Valid()
      reads this
    {
      position <= |data|
    }

    method Get() returns (ch: int)
      requires Valid()
      modifies this`position
      ensures Valid()
      ensures if old(position) < |data| then ch == data[old(position)] as int && position == old(position) + 1
        else ch == EOF && position == old(position)
    {
      if position < |data| {
        ch := data[position] as int;
        position := position + 1;
      } else {
        ch := EOF;
      }
    }

    /** ungetc of the byte just read. */
    method Unget()
      requires Valid() && position > 0
      modifies this`position
      ensures Valid() && position == old(position) - 1
    {
      position := position - 1;
    }

    method GetNonspace() returns (ch: int)
      requires Valid()
      modifies this`position
      ensures Valid() && var p := SkipTo(data, old(position));
        if p == |data| then ch == EOF && position == p else ch == data[p] as int && position == p + 1
    {
      ch := Get();
      while ch != EOF && IsSpace(ch as byte)
        invariant Valid() && old(position) <= position
        invariant ch != EOF ==> position > old(position) && ch == data[position - 1] as int
        invariant SkipTo(data, old(position)) == SkipTo(data, if ch == EOF then position else position - 1)
        invariant ch == EOF ==> position == |data|
        decreases |data| - position, ch != EOF
      {
        ch := Get();
      }
    }

    method SkipSpace()
      requires Valid()
      modifies this`position
      ensures Valid() && position == SkipTo(data, old(position))
    {
      var ch := GetNonspace();
      if ch != EOF {
        Unget();
      }
    }
  }

  // ---------------------------------------------------------- reading values

  /** hs_read_integer. */
  method ReadInteger(input: Input, base: nat, signed: bool) returns (r: Reading)
    requires input.Valid() && 2 <= base <= 16
    modifies input`position
    ensures input.Valid() && r == ReadNumber(input.data, old(input.position), base, signed)
    ensures !r.Overflow? ==> input.position == r.next
  {
    hide RunEnd, Numeral, DigitOf;
    var ch := input.GetNonspace();
    if ch == EOF {
      return NoNumber(input.position);
    }
    ghost var p := input.position - 1;
    var negative := ch == 45;
    ch := ReadPrefix(input, base, ch);
    var overflow, value, digits := ReadDigits(input, base, ch, DigitsStart(input.data, p, base));
    if overflow {
      return Overflow;
    }
    if digits == 0 || (negative && !signed) {
      return NoNumber(input.position);
    }
    r := Number(if negative then (U64 - value) % U64 else value, input.position);
  }

  /** After the byte at `at` or the end of the stream. */
  ghost predicate ReadAt(input: Input, ch: int, at: nat)
    reads input
  {
    at <= |input.data| &&
    if at == |input.data| then ch == EOF && input.position == at else ch == input.data[at] as int && input.position == at + 1
  }

  /** The optional sign, and the optional 0x of base 16. */
  method ReadPrefix(input: Input, base: nat, first: int) returns (ch: int)
    requires input.Valid() && input.position > 0 && first == input.data[input.position - 1] as int
    modifies input`position
    ensures input.Valid() && ReadAt(input, ch, DigitsStart(input.data, old(input.position) - 1, base))
  {
    ch := first;
    if ch == 43 || ch == 45 {
      ch := input.Get();
    }
    if base == 16 && ch == 48 {
      var prefix := input.Get();
      if prefix == 120 || prefix == 88 {
        ch := input.Get();
      } else if prefix != EOF {
        input.Unget();
      }
    }
  }

  method ReadDigits(input: Input, base: nat, first: int, ghost start: nat) returns (overflow: bool, value: nat, digits: nat)
    requires input.Valid() && 2 <= base <= 16 && ReadAt(input, first, start)
    modifies input`position
    ensures input.Valid() && start <= |input.data|
    ensures var end := RunEnd(input.data, start, |input.data|, DigitOf(base));
      var numeral := Numeral(input.data[start..end], base);
      && (overflow <==> numeral >= U64)
      && (!overflow ==> value == numeral && digits == end - start && input.position == end)
  {
    hide RunEnd, Numeral;
    ghost var data := input.data;
    ghost var end := RunEnd(data, start, |data|, DigitOf(base));
    var ch := first;
    overflow, value, digits := false, 0, 0;
    NoDigits(data, start, base);
    while ch != EOF
      invariant start + digits <= end && ReadAt(input, ch, start + digits)
      invariant value < U64 && value == Numeral(data[start..start + digits], base)
      decreases |data| - input.position, ch != EOF
    {
      ghost var at := start + digits;
      var digit := DigitValue(ch as byte);
      if digit < 0 || digit >= base {
        input.Unget();
        OutsideRun(data, start, at, |data|, DigitOf(base));
        return;
      }
      InsideRun(data, start, at, |data|, DigitOf(base));
      NumeralStep(data, start, at, base);
      NumeralGrows(data, start, at + 1, end, base);
      if value > (U64 - 1 - digit) / base {
        TooLarge(value, digit, base);
        overflow := true;
        return;
      }
      FitsAfterDigit(value, digit, base);
      value := value * base + digit;
      digits := digits + 1;
      ch := input.Get();
    }
  }

  lemma NoDigits(data: seq<byte>, start: nat, base: nat)
    requires start <= |data|
    ensures Numeral(data[start..start], base) == 0
  {
  }

  lemma InsideRun(data: seq<byte>, start: nat, at: nat, limit: nat, p: byte -> bool)
    requires start <= at < |data| && at < start + limit && at <= RunEnd(data, start, limit, p) && p(data[at])
    ensures at < RunEnd(data, start, limit, p)
  {
  }

  lemma OutsideRun(data: seq<byte>, start: nat, at: nat, limit: nat, p: byte -> bool)
    requires start <= at < |data| && at <= RunEnd(data, start, limit, p) && !p(data[at])
    ensures at == RunEnd(data, start, limit, p)
  {
  }

  lemma NumeralStep(data: seq<byte>, start: nat, at: nat, base: nat)
    requires start <= at < |data| && DigitValue(data[at]) >= 0
    ensures Numeral(data[start..at + 1], base) == Numeral(data[start..at], base) * base + DigitValue(data[at])
  {
    assert data[start..at + 1][..at - start] == data[start..at];
  }

  lemma {:induction false} NumeralGrows(data: seq<byte>, start: nat, at: nat, end: nat, base: nat)
    requires start <= at <= end <= |data| && base > 0
    ensures Numeral(data[start..at], base) <= Numeral(data[start..end], base)
    decreases end
  {
    hide Numeral;
    if at < end {
      NumeralGrows(data, start, at, end - 1, base);
      NumeralLast(data[start..end], base);
      assert data[start..end][..end - 1 - start] == data[start..end - 1];
    }
  }

  lemma NumeralLast(digits: seq<byte>, base: nat)
    requires digits != [] && base > 0
    ensures Numeral(digits[..|digits| - 1], base) <= Numeral(digits, base)
  {
    MulMono(1, base, Numeral(digits[..|digits| - 1], base));
  }

  lemma FitsAfterDigit(value: nat, digit: nat, base: nat)
    requires base > 0 && digit < U64 && value <= (U64 - 1 - digit) / base
    ensures value * base + digit < U64
  {
    var q, r := (U64 - 1 - digit) / base, (U64 - 1 - digit) % base;
    assert U64 - 1 - digit == q * base + r;
    MulStrict(value, q, base);
  }

  lemma TooLarge(value: nat, digit: nat, base: nat)
    requires base > 0 && digit < U64 && value > (U64 - 1 - digit) / base
    ensures value * base + digit >= U64
  {
    var q, r := (U64 - 1 - digit) / base, (U64 - 1 - digit) % base;
    assert U64 - 1 - digit == q * base + r;
    MulStrict(q + 1, value, base);
    assert (q + 1) * base == q * base + base;
  }

  /** hs_read_float_token: the buffer always keeps room for the final NUL. */
  method ReadFloatToken(input: Input, buffer: array<byte>) returns (failed: bool, length: nat)
    requires input.Valid() && buffer.Length > 0
    modifies input`position, buffer
    ensures input.Valid() && var p := SkipTo(input.data, old(input.position));
      var end := RunEnd(input.data, p, |input.data|, IsFloatByte);
      && (failed <==> end - p >= buffer.Length)
      && (!failed ==> length == end - p && input.position == end && length <= buffer.Length && buffer[..length] == input.data[p..end])
  {
    hide RunEnd, SkipTo, IsFloatByte;
    ghost var data, p := input.data, SkipTo(input.data, input.position);
    ghost var end := RunEnd(data, p, |data|, IsFloatByte);
    failed, length := false, 0;
    var ch := input.GetNonspace();
    if ch == EOF {
      return;
    }
    while ch != EOF && IsFloatByte(ch as byte)
      invariant length < buffer.Length && p + length <= end && ReadAt(input, ch, p + length)
      invariant buffer[..length] == data[p..p + length]
      decreases |data| - input.position, ch != EOF
    {
      InsideRun(data, p, p + length, |data|, IsFloatByte);
      if length + 1 >= buffer.Length {
        failed := true;
        return;
      }
      buffer[length] := ch as byte;
      length := length + 1;
      ch := input.Get();
    }
    if ch != EOF {
      input.Unget();
      OutsideRun(data, p, p + length, |data|, IsFloatByte);
    }
    buffer[length] := NUL;
  }

  // ------------------------------------------------------------- conversions

  /** memcpy and hs_store_unsigned. */
  method StoreBytes(memory: array<byte>, at: nat, value: seq<byte>)
    requires at + |value| <= memory.Length
    modifies memory
    ensures memory[..] == Written(old(memory[..]), at, value)
  {
    for i := 0 to |value|
      invariant forall a | 0 <= a < memory.Length :: memory[a] == if at <= a < at + i then value[a - at] else old(memory[a])
    {
      memory[at + i] := value[i];
    }
  }

  lemma WrittenNothing(memory: seq<byte>, at: nat)
    requires at <= |memory|
    ensures Written(memory, at, []) == memory
  {
  }

  lemma WrittenGrows(memory: seq<byte>, at: nat, bytes: seq<byte>, b: byte)
    requires at + |bytes| < |memory|
    ensures Written(memory, at, bytes)[at + |bytes| := b] == Written(memory, at, bytes + [b])
  {
  }

  lemma WrittenNext(memory: seq<byte>, at: nat, data: seq<byte>, from: nat, to: nat)
    requires from <= to < |data| && at + (to - from) < |memory|
    ensures Written(memory, at, data[from..to])[at + (to - from) := data[to]] == Written(memory, at, data[from..to + 1])
  {
    assert data[from..to + 1] == data[from..to] + [data[to]];
    WrittenGrows(memory, at, data[from..to], data[to]);
  }

  /** The run of non-space bytes that starts with the byte just read. */
  method StoreRun(input: Input, memory: array<byte>, t: Target, first: int) returns (written: nat)
    requires input.Valid() && input.position > 0 && ReadAt(input, first, input.position - 1)
    requires InMemory(t, memory.Length) && t.capacity >= 2
    modifies input`position, memory
    ensures var p := old(input.position) - 1;
      var end := RunEnd(input.data, p, t.capacity - 1, IsVisible);
      && written == end - p && input.position == end
      && memory[..] == Written(old(memory[..]), t.data, input.data[p..end])
  {
    hide RunEnd, Written, IsVisible;
    ghost var data, p := input.data, input.position - 1;
    var ch := first;
    written := 0;
    assert data[p..p] == [];
    WrittenNothing(memory[..], t.data);
    while ch != EOF && IsVisible(ch as byte) && written + 1 < t.capacity
      invariant written < t.capacity && p + written <= RunEnd(data, p, t.capacity - 1, IsVisible) && ReadAt(input, ch, p + written)
      invariant memory[..] == Written(old(memory[..]), t.data, data[p..p + written])
      decreases |data| - input.position, ch != EOF
    {
      InsideRun(data, p, p + written, t.capacity - 1, IsVisible);
      WrittenNext(old(memory[..]), t.data, data, p, p + written);
      memory[t.data + written] := ch as byte;
      written := written + 1;
      ch := input.Get();
    }
    if ch != EOF && (!IsVisible(ch as byte) || written + 1 == t.capacity) {
      input.Unget();
      if written + 1 < t.capacity {
        OutsideRun(data, p, p + written, t.capacity - 1, IsVisible);
      }
    }
  }

  /** %s: at most capacity - 1 bytes, then a NUL. */
  method ScanString(input: Input, memory: array<byte>, t: Target) returns (r: Outcome)
    requires input.Valid() && InMemory(t, memory.Length) && t.capacity >= 2
    modifies input`position, memory
    ensures input.Valid() && var p := SkipTo(input.data, old(input.position));
      if p == |input.data| then r == Stopped(true) && input.position == p && memory[..] == old(memory[..])
      else
        var end := RunEnd(input.data, p, t.capacity - 1, IsVisible);
        r == Stored && input.position == end && memory[..] == Written(old(memory[..]), t.data, input.data[p..end] + [NUL])
  {
    hide RunEnd, SkipTo, Written;
    var ch := input.GetNonspace();
    if ch == EOF {
      return Stopped(true);
    }
    ghost var p := input.position - 1;
    var written := StoreRun(input, memory, t, ch);
    WrittenGrows(old(memory[..]), t.data, input.data[p..p + written], NUL);
    memory[t.data + written] := NUL;
    r := Stored;
  }

  /** One conversion into a validated target. */
  method ScanItem(input: Input, memory: array<byte>, t: Target, item: Item, parse: FloatParser) returns (r: Outcome)
    requires input.Valid() && InMemory(t, memory.Length) && TargetFits(t, item, false, false) && Sized(parse)
    modifies input`position, memory
    ensures input.Valid()
    ensures var e := Conversion(input.data, old(input.position), old(memory[..]), t, item, parse);
      r == e.outcome && memory[..] == e.memory && (!r.Failed? ==> input.position == e.next)
  {
    hide RunEnd, SkipTo, ReadNumber, IsFloatByte, Written, LittleEndian;
    if item.specifier == 'c' {
      var ch := input.Get();
      if ch == EOF {
        return Stopped(true);
      }
      StoreBytes(memory, t.data, [ch as byte]);
      return Stored;
    }
    if item.specifier == 's' {
      r := ScanString(input, memory, t);
      return;
    }
    if item.specifier == 'f' {
      var buffer := new byte[TOKEN_SIZE];
      var failed, length := ReadFloatToken(input, buffer);
      if failed {
        return Failed;
      }
      if length == 0 {
        return Stopped(false);
      }
      var value := parse(buffer[..length], item.width);
      if value.None? {
        return Stopped(false);
      }
      StoreBytes(memory, t.data, value.value);
      return Stored;
    }
    var reading := ReadInteger(input, BaseOf(item.specifier), item.specifier == 'd');
    match reading {
      case Overflow => r := Failed;
      case NoNumber(_) => r := Stopped(false);
      case Number(value, _) =>
        StoreBytes(memory, t.data, LittleEndian(value, t.capacity));
        r := Stored;
    }
  }

  // ------------------------------------------------------------ second pass

  /** The format stands, with its NUL, at its address. */
  ghost predicate FormatAt(memory: seq<byte>, address: nat, f: seq<byte>) {
    && address + |f| < |memory| && memory[address..address + |f|] == f && memory[address + |f|] == NUL
    && forall i | 0 <= i < |f| :: f[i] != NUL
  }

  ghost predicate Disjoint(t: Target, address: nat, length: nat) {
    t.data + t.capacity <= address || address + length <= t.data
  }

  lemma FormatByte(memory: seq<byte>, address: nat, f: seq<byte>, i: nat)
    requires FormatAt(memory, address, f) && i <= |f|
    ensures address + |f| < |memory| && memory[address + i] == if i < |f| then f[i] else NUL
    ensures memory[address..address + |f|] == f
  {
    if i < |f| {
      assert memory[address..address + |f|][i] == f[i];
    }
  }

  /** Conversions cannot change a format that overlaps no target. */
  lemma FormatStays(memory: seq<byte>, after: seq<byte>, address: nat, f: seq<byte>, t: Target)
    requires FormatAt(memory, address, f) && OnlyTarget(t, memory, after) && Disjoint(t, address, |f| + 1)
    ensures FormatAt(after, address, f)
  {
    forall a | address <= a <= address + |f| ensures after[a] == memory[a] {
      assert !Covers(t, a);
    }
    assert after[address..address + |f|] == memory[address..address + |f|];
  }

  /** Scanning digits without a bound stops where the validated scan did. */
  lemma DigitsAgree(f: seq<byte>, at: nat, width: nat)
    requires at < |f| && IsDigit(f[at]) && WidthAt(f, at, width).Some?
    ensures WidthAt(f, at, width) == WidthAt(f, at + 1, width * 10 + (f[at] as int - 48))
    ensures width * 10 + (f[at] as int - 48) < U64
  {
    var digit: nat := f[at] as int - 48;
    FitsAfterDigit(width, digit, 10);
  }

  ghost predicate TargetsUsable(s: Scan, size: nat, address: nat, length: nat) {
    forall k | 0 <= k < |s.targets| :: InMemory(s.targets[k], size) && Disjoint(s.targets[k], address, length)
  }

  lemma {:induction false} SegmentsRunnable(f: seq<byte>, at: nat, s: Scan, next: nat, size: nat, address: nat)
    requires at <= |f| && next <= |s.targets| && s.Valid() && Items(f, at, s, next).Some? && TargetsUsable(s, size, address, |f| + 1)
    ensures Runnable(Segments(f, at, s, next), size)
    decreases |f| - at
  {
    if at == |f| {
      return;
    }
    hide ItemOf, TargetFits, WidthAt, Items, Segments;
    if f[at] != PERCENT {
      ValidatedLiteral(f, at, s, next);
      SegmentsRunnable(f, at + 1, s, next, size, address);
      return;
    }
    ValidatedConversion(f, at, s, next);
    if f[at + 1] == PERCENT {
      SegmentsRunnable(f, at + 2, s, next, size, address);
    } else {
      SegmentsRunnable(f, WidthAt(f, at + 1, 0).value.0 + 1, s, next + 1, size, address);
    }
  }

  /** The interpreter on one segment and the rest. */
  lemma InterpretStep(segment: Segment, rest: seq<Segment>, data: seq<byte>, at: nat, memory: seq<byte>, converted: nat, parse: FloatParser)
    requires at <= |data| && Runnable([segment] + rest, |memory|) && Sized(parse)
    ensures Runnable(rest, |memory|)
    ensures segment.Convert? ==> InMemory(segment.target, |memory|) && TargetFits(segment.target, segment.item, false, false)
    ensures Interpret([segment] + rest, data, at, memory, converted, parse) ==
      match segment
      case Spaces => Interpret(rest, data, SkipTo(data, at), memory, converted, parse)
      case Byte(b) =>
        if at < |data| && data[at] == b then Interpret(rest, data, at + 1, memory, converted, parse)
        else Final(Count(converted, at == |data|), at, memory)
      case Convert(item, target) =>
        var e := Conversion(data, at, memory, target, item, parse);
        match e.outcome
        case Failed => Final(Aborted, e.next, memory)
        case Stopped(atEnd) => Final(Count(converted, atEnd), e.next, memory)
        case Stored => Interpret(rest, data, e.next, e.memory, converted + 1, parse)
  {
    hide Conversion, Sized, TargetFits, SkipTo;
    var all := [segment] + rest;
    assert all[0] == segment && all[1..] == rest;
    assert forall i | 0 <= i < |rest| :: rest[i] == all[i + 1];
  }

  lemma {:induction false} SkipTwice(data: seq<byte>, at: nat)
    requires at <= |data|
    ensures SkipTo(data, SkipTo(data, at)) == SkipTo(data, at)
  {
  }

  /** strlen. */
  method Length(memory: array<byte>, address: nat, ghost f: seq<byte>) returns (length: nat)
    requires FormatAt(memory[..], address, f)
    ensures length == |f|
  {
    length := 0;
    while memory[address + length] != NUL
      invariant length <= |f|
      decreases |f| - length
    {
      assert memory[address..address + |f|][length] == f[length];
      length := length + 1;
    }
  }

  /** Width and specifier, read without bounds checks. */
  method ReadItem(memory: array<byte>, address: nat, ghost f: seq<byte>, start: nat) returns (index: nat, item: Item)
    requires FormatAt(memory[..], address, f) && start < |f| && WidthAt(f, start, 0).Some? && WidthAt(f, start, 0).value.0 < |f|
    requires ItemOf(CharOf(f[WidthAt(f, start, 0).value.0]), WidthAt(f, start, 0).value.1).Some?
    ensures index == WidthAt(f, start, 0).value.0
    ensures Some(item) == ItemOf(CharOf(f[index]), WidthAt(f, start, 0).value.1)
  {
    index := start;
    var width: nat := 0;
    FormatByte(memory[..], address, f, index);
    while IsDigit(memory[address + index])
      invariant start <= index < |f| && memory[address + index] == f[index]
      invariant WidthAt(f, index, width) == WidthAt(f, start, 0)
      decreases |f| - index
    {
      DigitsAgree(f, index, width);
      width := (width * 10 + (memory[address + index] as int - 48)) % U64;
      index := index + 1;
      FormatByte(memory[..], address, f, index);
    }
    var specifier := CharOf(memory[address + index]);
    item := Item(specifier, if specifier == 'f' && width == 0 then 8 else width);
  }

  /** A literal format byte must be the next input byte. */
  method MatchByte(input: Input, expected: byte) returns (matched: bool, atEnd: bool)
    requires input.Valid()
    modifies input`position
    ensures input.Valid() && atEnd == (old(input.position) == |input.data|)
    ensures matched == (!atEnd && input.data[old(input.position)] == expected)
    ensures input.position == old(input.position) + if matched then 1 else 0
  {
    var ch := input.Get();
    matched, atEnd := ch == expected as int, ch == EOF;
    if !matched && !atEnd {
      input.Unget();
    }
  }

  /** The last index of a run of white space in the format. */
  method SpacesEnd(memory: array<byte>, address: nat, f: seq<byte>, start: nat) returns (index: nat)
    requires FormatAt(memory[..], address, f) && start < |f| && IsSpace(f[start])
    ensures start <= index < |f| && forall i | start <= i <= index :: IsSpace(f[i])
  {
    index := start;
    while index + 1 < |f| && IsSpace(memory[address + index + 1])
      invariant start <= index < |f| && forall i | start <= i <= index :: IsSpace(f[i])
    {
      FormatByte(memory[..], address, f, index + 1);
      index := index + 1;
    }
  }

  /** A run of white space in the format acts like a single white-space segment. */
  lemma {:induction false} SpaceRun(f: seq<byte>, start: nat, last: nat, s: Scan, next: nat, data: seq<byte>, at: nat, memory: seq<byte>, converted: nat, parse: FloatParser)
    requires start <= last < |f| && next <= |s.targets| && s.Valid() && Items(f, start, s, next).Some?
    requires forall i | start <= i <= last :: IsSpace(f[i])
    requires at <= |data| && Runnable(Segments(f, start, s, next), |memory|) && Sized(parse)
    ensures Items(f, last + 1, s, next) == Items(f, start, s, next) && Runnable(Segments(f, last + 1, s, next), |memory|)
    ensures Interpret(Segments(f, start, s, next), data, at, memory, converted, parse) ==
      Interpret(Segments(f, last + 1, s, next), data, SkipTo(data, at), memory, converted, parse)
    decreases last - start
  {
    hide Items, Segments, Interpret, Runnable, Sized, SkipTo;
    ValidatedLiteral(f, start, s, next);
    InterpretStep(Spaces, Segments(f, start + 1, s, next), data, at, memory, converted, parse);
    if start < last {
      SpaceRun(f, start + 1, last, s, next, data, SkipTo(data, at), memory, converted, parse);
      SkipTwice(data, at);
    }
  }

  /** hs_scan_input on a format that overlaps no target. */
  method ScanFormatted(input: Input, memory: array<byte>, parse: FloatParser, address: nat, ghost f: seq<byte>, s: Scan) returns (r: Result)
    requires input.Valid() && Sized(parse) && s.Valid() && FormatAt(memory[..], address, f)
    requires TargetsUsable(s, memory.Length, address, |f| + 1)
    modifies input`position, memory
    ensures input.Valid()
    ensures Items(f, 0, s, 0).None? ==> r == Aborted && memory[..] == old(memory[..])
    ensures Items(f, 0, s, 0).Some? ==>
      && Runnable(Segments(f, 0, s, 0), memory.Length)
      && var final := Interpret(Segments(f, 0, s, 0), input.data, old(input.position), old(memory[..]), 0, parse);
         r == final.result && memory[..] == final.memory && (r.Returned? ==> input.position == final.next)
  {
    hide FormatAt, TargetFits, ItemOf, OnlyTarget, Items, Segments, Sized, WidthAt, Interpret, Runnable, Conversion, SkipTo;
    FormatByte(memory[..], address, f, |f|);
    var length := Length(memory, address, f);
    var format := memory[address..address + length];
    var ok := ValidateFormat(format, s);
    if !ok {
      return Aborted;
    }
    SegmentsRunnable(f, 0, s, 0, memory.Length, address);
    ghost var final := Interpret(Segments(f, 0, s, 0), input.data, input.position, memory[..], 0, parse);
    var next: nat, index: nat, converted: nat := 0, 0, 0;
    while index < length
      invariant input.Valid() && index <= length && next <= |s.targets| && FormatAt(memory[..], address, f)
      invariant Items(f, index, s, next).Some? && Runnable(Segments(f, index, s, next), memory.Length)
      invariant final == Interpret(Segments(f, index, s, next), input.data, input.position, memory[..], converted, parse)
    {
      FormatByte(memory[..], address, f, index);
      if IsSpace(memory[address + index]) {
        var last := SpacesEnd(memory, address, format, index);
        SpaceRun(f, index, last, s, next, input.data, input.position, memory[..], converted, parse);
        input.SkipSpace();
        index := last + 1;
        continue;
      }
      if memory[address + index] != PERCENT {
        ValidatedLiteral(f, index, s, next);
        InterpretStep(Byte(f[index]), Segments(f, index + 1, s, next), input.data, input.position, memory[..], converted, parse);
        var matched, atEnd := MatchByte(input, memory[address + index]);
        if !matched {
          return Count(converted, atEnd);
        }
        index := index + 1;
        continue;
      }
      ValidatedConversion(f, index, s, next);
      index := index + 1;
      FormatByte(memory[..], address, f, index);
      if memory[address + index] == PERCENT {
        InterpretStep(Byte(PERCENT), Segments(f, index + 1, s, next), input.data, input.position, memory[..], converted, parse);
        var matched, atEnd := MatchByte(input, PERCENT);
        if !matched {
          return Count(converted, atEnd);
        }
        index := index + 1;
        continue;
      }
      var item;
      index, item := ReadItem(memory, address, f, index);
      var target := s.targets[next];
      InterpretStep(Convert(item, target), Segments(f, index + 1, s, next + 1), input.data, input.position, memory[..], converted, parse);
      ConversionIsSafe(input.data, input.position, memory[..], target, item, parse);
      ghost var before := memory[..];
      var outcome := ScanItem(input, memory, target, item, parse);
      FormatStays(before, memory[..], address, f, target);
      if outcome.Failed? {
        return Aborted;
      }
      if outcome.Stopped? {
        return Count(converted, outcome.atEnd);
      }
      next, converted, index := next + 1, converted + 1, index + 1;
    }
    InterpretEnd(f, s, next, input.data, input.position, memory[..], converted, parse);
    r := Returned(converted);
  }

  lemma InterpretEnd(f: seq<byte>, s: Scan, next: nat, data: seq<byte>, at: nat, memory: seq<byte>, converted: nat, parse: FloatParser)
    requires next <= |s.targets| && s.Valid() && Items(f, |f|, s, next).Some? && at <= |data| && Sized(parse)
    ensures Segments(f, |f|, s, next) == [] && Runnable([], |memory|)
    ensures Interpret([], data, at, memory, converted, parse) == Final(Returned(converted), at, memory)
  {
  }
}
