/**
  Scan formats of runtime/hitsimple_runtime.c: the validating first pass. A format is the
  characters before the terminating NUL.
 */
module ScanFormat {
  import opened Basics

  const U64: nat := 0x1_0000_0000_0000_0000
  const NUL: byte := 0
  const PERCENT: byte := 37

  datatype TargetKind = AnyTarget | StringTarget | PointerTarget | FloatTarget

  /** Where a conversion writes: capacity bytes from address data on. */
  datatype Target = Target(data: nat, capacity: nat, kind: TargetKind)

  /** One conversion: the specifier, and the byte length of a float. */
  datatype Item = Item(specifier: char, width: nat)

  predicate IsDigit(b: byte) { 48 <= b <= 57 }

  predicate IsSpace(b: byte) { b == 32 || 9 <= b <= 13 }

  function CharOf(b: byte): char { b as int as char }

  // -------------------------------------------------------------- validation

  /** hs_validate_scan_target; `accessible` is the outcome of hs_check on the target. */
  predicate TargetFits(t: Target, item: Item, checked: bool, accessible: bool) {
    && t.data != 0 && (checked ==> accessible)
    && match item.specifier
       case 's' => t.capacity >= 2 && (t.kind.AnyTarget? || t.kind.StringTarget?)
       case 'c' => t.capacity >= 1 && t.kind.AnyTarget?
       case 'p' => t.capacity == 8 && (t.kind.AnyTarget? || t.kind.PointerTarget?)
       case 'f' => t.capacity == item.width && (t.kind.AnyTarget? || t.kind.FloatTarget?)
       case _ => (t.capacity == 1 || t.capacity == 2 || t.capacity == 4 || t.capacity == 8) && t.kind.AnyTarget?
  }

  predicate IsInteger(c: char) {
    c == 'd' || c == 'u' || c == 'x' || c == 'o' || c == 'b'
  }

  /** The item a specifier and its written width stand for. */
  function ItemOf(specifier: char, width: nat): Option<Item> {
    if specifier == 'f' then
      var bytes := if width == 0 then 8 else width;
      if bytes == 2 || bytes == 4 || bytes == 8 || bytes == 16 then Some(Item('f', bytes)) else None
    else if width != 0 then None
    else if IsInteger(specifier) || specifier == 'c' || specifier == 's' || specifier == 'p' then Some(Item(specifier, 0))
    else None
  }

  /** The digits from `at` on: where they end and their value, unless it overflows. */
  function WidthAt(f: seq<byte>, at: nat, width: nat): (r: Option<(nat, nat)>)
    requires at <= |f|
    ensures r.Some? ==> at <= r.value.0 <= |f| && (r.value.0 < |f| ==> !IsDigit(f[r.value.0]))
    decreases |f| - at
  {
    if at < |f| && IsDigit(f[at]) then
      var digit := f[at] as int - 48;
      if width > (U64 - 1 - digit) / 10 then None else WidthAt(f, at + 1, width * 10 + digit)
    else Some((at, width))
  }

  datatype Scan = Scan(targets: seq<Target>, checked: bool, accessible: seq<bool>) {
    predicate Valid() { |accessible| == |targets| }
  }

  /** The items of a format from `at` on, matched with the targets from `next` on. */
  function Items(f: seq<byte>, at: nat, s: Scan, next: nat): Option<seq<Item>>
    requires at <= |f| && next <= |s.targets| && s.Valid()
    decreases |f| - at
  {
    if at == |f| then (if next == |s.targets| then Some([]) else None)
    else if f[at] != PERCENT then Items(f, at + 1, s, next)
    else if at + 1 == |f| then None
    else if f[at + 1] == PERCENT then Items(f, at + 2, s, next)
    else
      match WidthAt(f, at + 1, 0)
      case None => None
      case Some((end, width)) =>
        if end == |f| then None
        else
          match ItemOf(CharOf(f[end]), width)
          case None => None
          case Some(item) =>
            if next == |s.targets| || !TargetFits(s.targets[next], item, s.checked, s.accessible[next]) then None
            else
              match Items(f, end + 1, s, next + 1)
              case None => None
              case Some(rest) => Some([item] + rest)
  }

  /** hs_validate_scan_format: false stands for a call of hs_fail. */
  method ValidateFormat(f: seq<byte>, s: Scan) returns (ok: bool)
    requires s.Valid()
    ensures ok == Items(f, 0, s, 0).Some?
  {
    var next: nat, index: nat := 0, 0;
    while index < |f|
      invariant index <= |f| && next <= |s.targets|
      invariant Items(f, 0, s, 0).Some? == Items(f, index, s, next).Some?
    {
      if f[index] != PERCENT {
        index := index + 1;
        continue;
      }
      index := index + 1;
      if index >= |f| {
        return false;
      }
      if f[index] == PERCENT {
        index := index + 1;
        continue;
      }
      var width: nat := 0;
      ghost var from := index;
      while index < |f| && IsDigit(f[index])
        invariant from <= index <= |f|
        invariant WidthAt(f, from, 0) == WidthAt(f, index, width)
      {
        var digit: nat := f[index] as int - 48;
        if width > (U64 - 1 - digit) / 10 {
          return false;
        }
        width := width * 10 + digit;
        index := index + 1;
      }
      if index >= |f| {
        return false;
      }
      var item := ItemOf(CharOf(f[index]), width);
      if item.None? || next >= |s.targets| || !TargetFits(s.targets[next], item.value, s.checked, s.accessible[next]) {
        return false;
      }
      next := next + 1;
      index := index + 1;
    }
    ok := next == |s.targets|;
  }
}
