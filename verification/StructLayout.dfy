/**
  C struct layout as resolveStruct in src/compat/CCompatLowering.cpp computes it, and
  the members lowerStruct emits. Sizes are size_t values; overflow is an error.
 */
module StructLayout {
  import opened Basics
  import opened Powers

  const SIZE_MAX: nat := 0xFFFF_FFFF_FFFF_FFFF

  datatype Kind = Integer | Floating | Pointer | Aggregate | Void

  /** One value of byteLength bytes, repeated elementCount times. */
  datatype AbiType = AbiType(
    kind: Kind,
    byteLength: nat,
    alignment: nat,
    elementCount: nat,
    fields: seq<AbiType>,
    offsets: seq<nat>)

  function TotalBytes(t: AbiType): nat {
    t.byteLength * t.elementCount
  }

  // ------------------------------------------------------------- the code

  function AlignUp(value: nat, alignment: nat): Option<nat> {
    if alignment == 0 then None
    else
      var remainder := value % alignment;
      if remainder == 0 then Some(value)
      else if value > SIZE_MAX - (alignment - remainder) then None
      else Some(value + (alignment - remainder))
  }

  /** ObjectInfo::byteLength: zero when the product overflows. */
  function CheckedBytes(t: AbiType): nat {
    if TotalBytes(t) > SIZE_MAX then 0 else TotalBytes(t)
  }

  datatype Layout = Layout(offsets: seq<nat>, end: nat, alignment: nat)

  function Max(a: nat, b: nat): nat {
    if a >= b then a else b
  }

  /** Place one more field after those already laid out. */
  function AddField(l: Layout, t: AbiType): Option<Layout> {
    var bytes := CheckedBytes(t);
    if bytes == 0 || t.alignment == 0 then None
    else
      match AlignUp(l.end, t.alignment)
      case None => None
      case Some(offset) =>
        if offset > SIZE_MAX - bytes then None
        else Some(Layout(l.offsets + [offset], offset + bytes, Max(l.alignment, t.alignment)))
  }

  function LayoutFields(ts: seq<AbiType>): Option<Layout> {
    if ts == [] then Some(Layout([], 0, 1))
    else
      match LayoutFields(ts[..|ts| - 1])
      case None => None
      case Some(l) => AddField(l, ts[|ts| - 1])
  }

  /** The aggregate resolveStruct produces from its resolved fields. */
  function ResolveLayout(ts: seq<AbiType>): Option<AbiType> {
    match LayoutFields(ts)
    case None => None
    case Some(l) =>
      match AlignUp(l.end, l.alignment)
      case None => None
      case Some(bytes) => Some(AbiType(Aggregate, bytes, l.alignment, 1, ts, l.offsets))
  }

  method ResolveStruct(ts: seq<AbiType>) returns (r: Option<AbiType>)
    ensures r == ResolveLayout(ts)
  {
    var offset: nat, alignment: nat, offsets: seq<nat> := 0, 1, [];
    for i := 0 to |ts|
      invariant LayoutFields(ts[..i]) == Some(Layout(offsets, offset, alignment))
    {
      var t := ts[i];
      assert ts[..i + 1][..i] == ts[..i] && ts[..i + 1][i] == t;
      var bytes := CheckedBytes(t);
      var aligned := AlignUp(offset, t.alignment);
      if bytes == 0 || t.alignment == 0 || aligned.None? || aligned.value > SIZE_MAX - bytes {
        FailedPrefix(ts, i + 1);
        return None;
      }
      offsets := offsets + [aligned.value];
      alignment := Max(alignment, t.alignment);
      offset := aligned.value + bytes;
    }
    assert ts[..|ts|] == ts;
    var bytes := AlignUp(offset, alignment);
    if bytes.None? {
      return None;
    }
    r := Some(AbiType(Aggregate, bytes.value, alignment, 1, ts, offsets));
  }

  lemma {:induction false} FailedPrefix(ts: seq<AbiType>, n: nat)
    requires n <= |ts| && LayoutFields(ts[..n]).None?
    ensures LayoutFields(ts).None?
    decreases |ts|
  {
    if n == |ts| {
      assert ts[..n] == ts;
    } else {
      assert ts[..|ts| - 1][..n] == ts[..n];
      FailedPrefix(ts[..|ts| - 1], n);
    }
  }

  // -------------------------------------------------------- resolved types

  /** The scalars resolveBaseType and makePointer can produce on a 64-bit target. */
  predicate IsScalar(t: AbiType) {
    && (t.kind.Integer? || t.kind.Floating? || t.kind.Pointer?)
    && t.byteLength in {1, 2, 4, 8}
    && (t.kind.Floating? ==> t.byteLength in {4, 8})
    && (t.kind.Pointer? ==> t.byteLength == 8)
    && t.alignment == t.byteLength && t.fields == [] && t.offsets == []
  }

  /** Types that resolution yields: scalars, and structs laid out from such types. */
  predicate Resolved(t: AbiType)
    decreases t
  {
    if t.kind.Aggregate? then
      && (forall i | 0 <= i < |t.fields| :: Resolved(t.fields[i]) && t.fields[i].elementCount >= 1)
      && ResolveLayout(t.fields) == Some(t.(elementCount := 1))
    else IsScalar(t)
  }

  // ---------------------------------------------------------- arithmetic

  lemma AlignUpIsLeast(value: nat, alignment: nat, m: nat)
    requires AlignUp(value, alignment).Some?
    ensures var r := AlignUp(value, alignment).value;
      && value <= r < value + alignment && r % alignment == 0
      && (value <= m && m % alignment == 0 ==> r <= m)
  {
    var q, rest := value / alignment, value % alignment;
    assert value == q * alignment + rest;
    assert (q + 1) * alignment == q * alignment + alignment;
    DivModUnique((q + 1) * alignment, alignment, q + 1, 0);
    var k := m / alignment;
    if m % alignment == 0 {
      assert m == k * alignment;
      MulStrict(q, k, alignment);
      MulStrict(q + 1, k, alignment);
    }
  }

  /** The alignments that occur: each divides every larger one, and eight. */
  predicate PowerAlign(a: nat) {
    a == 1 || a == 2 || a == 4 || a == 8
  }

  lemma AlignDivides(f: nat, a: nat, m: nat)
    requires PowerAlign(f) && PowerAlign(a) && f <= a && m % a == 0
    ensures m % f == 0
  {
    if a == 8 {
      EightDivides(m);
    } else if a == 4 {
      FourDivides(m);
    }
  }

  lemma EightDivides(m: nat)
    requires m % 8 == 0
    ensures m % 4 == 0 && m % 2 == 0
  {
    var k := m / 8;
    DivModUnique(m, 4, 2 * k, 0);
    DivModUnique(m, 2, 4 * k, 0);
  }

  lemma FourDivides(m: nat)
    requires m % 4 == 0
    ensures m % 2 == 0
  {
    DivModUnique(m, 2, 2 * (m / 4), 0);
  }

  lemma ProductMod(x: nat, k: nat, a: nat)
    requires a > 0 && x % a == 0
    ensures (k * x) % a == 0
  {
    var q := x / a;
    assert x == q * a;
    MulAssoc(k, q, a);
    DivModUnique(k * x, a, k * q, 0);
  }

  lemma SumMod(x: nat, y: nat, a: nat)
    requires a > 0 && x % a == 0 && y % a == 0
    ensures (x + y) % a == 0 && (x >= y ==> (x - y) % a == 0)
  {
    var p, q := x / a, y / a;
    assert x == p * a && y == q * a;
    assert (p + q) * a == x + y && (p - q) * a == x - y;
    DivModUnique(x + y, a, p + q, 0);
    DivModUnique(x - y, a, p - q, 0);
  }

  // ------------------------------------------------------ layout properties

  ghost predicate FieldsOk(ts: seq<AbiType>) {
    forall i | 0 <= i < |ts| :: PowerAlign(ts[i].alignment) && TotalBytes(ts[i]) > 0
  }

  /** Offsets are aligned, ordered and inside; the alignment is the largest one. */
  ghost predicate LaidOut(ts: seq<AbiType>, l: Layout)
    requires FieldsOk(ts)
  {
    && |l.offsets| == |ts| && PowerAlign(l.alignment)
    && (forall i | 0 <= i < |ts| ::
          && l.offsets[i] % ts[i].alignment == 0 && ts[i].alignment <= l.alignment
          && l.offsets[i] + TotalBytes(ts[i]) <= l.end)
    && (forall i, j | 0 <= i < j < |ts| :: l.offsets[i] + TotalBytes(ts[i]) <= l.offsets[j])
  }

  lemma {:induction false} LayoutCorrect(ts: seq<AbiType>)
    requires FieldsOk(ts) && LayoutFields(ts).Some?
    ensures LaidOut(ts, LayoutFields(ts).value)
    decreases |ts|
  {
    hide TotalBytes, AlignUp, LaidOut;
    if ts == [] {
      NothingLaidOut(ts);
    } else {
      var n := |ts| - 1;
      LayoutCorrect(ts[..n]);
      AddFieldCorrect(ts[..n], LayoutFields(ts[..n]).value, ts[n]);
      assert ts[..n] + [ts[n]] == ts;
    }
  }

  lemma NothingLaidOut(ts: seq<AbiType>)
    requires ts == []
    ensures LaidOut(ts, Layout([], 0, 1))
  {
  }

  /** Placing one more field keeps a layout correct. */
  lemma AddFieldCorrect(init: seq<AbiType>, before: Layout, t: AbiType)
    requires FieldsOk(init + [t]) && FieldsOk(init) && LaidOut(init, before) && AddField(before, t).Some?
    ensures LaidOut(init + [t], AddField(before, t).value)
  {
    hide TotalBytes, AlignUp;
    var n, ts, l := |init|, init + [t], AddField(before, t).value;
    assert ts[n] == t;
    AlignUpIsLeast(before.end, t.alignment, 0);
    forall i | 0 <= i < n
      ensures l.offsets[i] % ts[i].alignment == 0 && ts[i].alignment <= l.alignment
      ensures l.offsets[i] + TotalBytes(ts[i]) <= before.end <= l.offsets[n]
    {
      assert ts[i] == init[i] && l.offsets[i] == before.offsets[i];
    }
    forall i, j | 0 <= i < j < |ts| ensures l.offsets[i] + TotalBytes(ts[i]) <= l.offsets[j] {
      if j < n {
        assert ts[i] == init[i] && l.offsets[i] == before.offsets[i] && l.offsets[j] == before.offsets[j];
      }
    }
  }

  /** The field that covers byte m of a layout. */
  predicate CoversAt(ts: seq<AbiType>, offsets: seq<nat>, i: nat, m: nat)
    requires |offsets| == |ts|
  {
    i < |ts| && offsets[i] <= m < offsets[i] + TotalBytes(ts[i])
  }

  /** A multiple of an alignment at least as large as every field's is never padding. */
  lemma {:induction false} NoGapAtMultiple(ts: seq<AbiType>, a: nat, m: nat) returns (i: nat)
    requires FieldsOk(ts) && LayoutFields(ts).Some? && |LayoutFields(ts).value.offsets| == |ts|
    requires PowerAlign(a) && LayoutFields(ts).value.alignment <= a && m % a == 0 && m < LayoutFields(ts).value.end
    ensures CoversAt(ts, LayoutFields(ts).value.offsets, i, m)
    decreases |ts|
  {
    hide TotalBytes;
    var n := |ts| - 1;
    var init, t := ts[..n], ts[n];
    var before := LayoutFields(init).value;
    LayoutCorrect(init);
    if m < before.end {
      i := NoGapAtMultiple(init, a, m);
      assert ts[i] == init[i];
    } else {
      AlignDivides(t.alignment, a, m);
      AlignUpIsLeast(before.end, t.alignment, m);
      i := n;
    }
  }

  /** Tail padding contains no multiple of the struct's own alignment. */
  lemma BelowSizeIsBelowEnd(end: nat, alignment: nat, m: nat)
    requires AlignUp(end, alignment).Some? && m % alignment == 0 && m < AlignUp(end, alignment).value
    ensures m < end
  {
    AlignUpIsLeast(end, alignment, m);
  }

  // ----------------------------------------------------- resolved aggregates

  lemma {:induction false} ResolvedFacts(t: AbiType)
    requires Resolved(t)
    ensures PowerAlign(t.alignment) && t.byteLength % t.alignment == 0
    ensures t.kind.Aggregate? ==>
      && FieldsOk(t.fields) && LayoutFields(t.fields).Some?
      && t.offsets == LayoutFields(t.fields).value.offsets && t.alignment == LayoutFields(t.fields).value.alignment
      && AlignUp(LayoutFields(t.fields).value.end, t.alignment) == Some(t.byteLength)
      && LaidOut(t.fields, LayoutFields(t.fields).value)
    decreases t
  {
    if t.kind.Aggregate? {
      forall i | 0 <= i < |t.fields| ensures PowerAlign(t.fields[i].alignment) && TotalBytes(t.fields[i]) > 0 {
        ResolvedFacts(t.fields[i]);
        LayoutNeedsBytes(t.fields, i);
      }
      LayoutCorrect(t.fields);
      AlignUpIsLeast(LayoutFields(t.fields).value.end, t.alignment, 0);
    }
  }

  /** A layout exists only when every field has a positive size. */
  lemma {:induction false} LayoutNeedsBytes(ts: seq<AbiType>, i: nat)
    requires LayoutFields(ts).Some? && i < |ts|
    ensures TotalBytes(ts[i]) > 0
    decreases |ts|
  {
    if i < |ts| - 1 {
      LayoutNeedsBytes(ts[..|ts| - 1], i);
    }
  }

  /** Offsets of every resolved struct are aligned, increasing, disjoint and inside. */
  lemma StructOffsets(t: AbiType)
    requires Resolved(t) && t.kind.Aggregate?
    ensures |t.offsets| == |t.fields|
    ensures forall i | 0 <= i < |t.fields| ::
      && t.fields[i].alignment > 0 && t.offsets[i] % t.fields[i].alignment == 0
      && TotalBytes(t.fields[i]) > 0 && t.offsets[i] + TotalBytes(t.fields[i]) <= t.byteLength
    ensures forall i, j | 0 <= i < j < |t.fields| :: t.offsets[i] + TotalBytes(t.fields[i]) <= t.offsets[j]
    ensures t.alignment > 0 && t.byteLength % t.alignment == 0
  {
    hide TotalBytes;
    ResolvedFacts(t);
    AlignUpIsLeast(LayoutFields(t.fields).value.end, t.alignment, 0);
  }

  // ------------------------------------------------------- the least layout

  /** Where field i of a layout may start: at 0, or at the end of the field before. */
  function FreeAt(ts: seq<AbiType>, offsets: seq<nat>, i: nat): nat
    requires |offsets| == |ts| && i <= |ts|
  {
    if i == 0 then 0 else offsets[i - 1] + TotalBytes(ts[i - 1])
  }

  predicate IsLeastMultiple(r: nat, value: nat, alignment: nat) {
    alignment > 0 && r % alignment == 0 && value <= r < value + alignment
  }

  /** Every field stands as early as its alignment allows after the one before. */
  ghost predicate Tight(ts: seq<AbiType>, offsets: seq<nat>, end: nat) {
    && |offsets| == |ts| && end == FreeAt(ts, offsets, |ts|)
    && forall i | 0 <= i < |ts| :: IsLeastMultiple(offsets[i], FreeAt(ts, offsets, i), ts[i].alignment)
  }

  /** The alignment is the greatest of the fields', or 1. */
  ghost predicate IsGreatest(ts: seq<AbiType>, a: nat) {
    && (forall i | 0 <= i < |ts| :: ts[i].alignment <= a)
    && (a == 1 || exists i | 0 <= i < |ts| :: ts[i].alignment == a)
  }

  lemma {:induction false} LayoutIsTight(ts: seq<AbiType>)
    requires LayoutFields(ts).Some?
    ensures var l := LayoutFields(ts).value; Tight(ts, l.offsets, l.end) && IsGreatest(ts, l.alignment) && l.alignment >= 1
    decreases |ts|
  {
    hide TotalBytes, AlignUp;
    if ts != [] {
      var n := |ts| - 1;
      LayoutIsTight(ts[..n]);
      TightAfter(ts[..n], LayoutFields(ts[..n]).value, ts[n]);
      assert ts[..n] + [ts[n]] == ts;
    }
  }

  lemma LeastAligned(value: nat, alignment: nat)
    requires AlignUp(value, alignment).Some?
    ensures IsLeastMultiple(AlignUp(value, alignment).value, value, alignment)
  {
    AlignUpIsLeast(value, alignment, 0);
  }

  lemma TightAfter(init: seq<AbiType>, before: Layout, t: AbiType)
    requires Tight(init, before.offsets, before.end) && IsGreatest(init, before.alignment) && before.alignment >= 1
    requires AddField(before, t).Some?
    ensures var ts, l := init + [t], AddField(before, t).value;
      Tight(ts, l.offsets, l.end) && IsGreatest(ts, l.alignment) && l.alignment >= 1
  {
    hide TotalBytes, AlignUp, IsLeastMultiple;
    var n, ts, l := |init|, init + [t], AddField(before, t).value;
    LeastAligned(before.end, t.alignment);
    assert ts[n] == t;
    forall i | 0 <= i < |ts| ensures IsLeastMultiple(l.offsets[i], FreeAt(ts, l.offsets, i), ts[i].alignment) {
      if i < n {
        assert ts[i] == init[i] && l.offsets[i] == before.offsets[i];
        assert FreeAt(ts, l.offsets, i) == FreeAt(init, before.offsets, i);
      }
    }
    if before.alignment > t.alignment && before.alignment != 1 {
      var i :| 0 <= i < n && init[i].alignment == before.alignment;
      assert ts[i].alignment == before.alignment;
    }
  }

  /**
    The layout of every resolved struct is the least possible: the first field at 0, each
    further one at the least multiple of its alignment at or after the end of the one
    before, and the size the least multiple of the greatest alignment at or after the last.
   */
  lemma StructIsTight(t: AbiType)
    requires Resolved(t) && t.kind.Aggregate?
    ensures |t.offsets| == |t.fields| && Tight(t.fields, t.offsets, FreeAt(t.fields, t.offsets, |t.fields|))
    ensures IsGreatest(t.fields, t.alignment)
    ensures IsLeastMultiple(t.byteLength, FreeAt(t.fields, t.offsets, |t.fields|), t.alignment)
  {
    hide TotalBytes, AlignUp;
    ResolvedFacts(t);
    LayoutIsTight(t.fields);
    AlignUpIsLeast(LayoutFields(t.fields).value.end, t.alignment, 0);
  }

  /** Such a layout is determined by the fields. */
  lemma {:induction false} TightIsUnique(ts: seq<AbiType>, a: seq<nat>, b: seq<nat>, i: nat)
    requires |a| == |b| == |ts| && Tight(ts, a, FreeAt(ts, a, |ts|)) && Tight(ts, b, FreeAt(ts, b, |ts|)) && i < |ts|
    ensures a[i] == b[i]
    decreases i
  {
    hide TotalBytes;
    if i > 0 {
      TightIsUnique(ts, a, b, i - 1);
    }
    assert IsLeastMultiple(a[i], FreeAt(ts, a, i), ts[i].alignment) && IsLeastMultiple(b[i], FreeAt(ts, b, i), ts[i].alignment);
    LeastIsUnique(a[i], b[i], FreeAt(ts, a, i), ts[i].alignment);
  }

  lemma LeastIsUnique(a: nat, b: nat, value: nat, alignment: nat)
    requires IsLeastMultiple(a, value, alignment) && IsLeastMultiple(b, value, alignment)
    ensures a == b
  {
    var p, q := a / alignment, b / alignment;
    assert a == p * alignment && b == q * alignment;
    assert (p + 1) * alignment == p * alignment + alignment && (q + 1) * alignment == q * alignment + alignment;
    MulStrict(p + 1, q, alignment);
    MulStrict(q + 1, p, alignment);
  }

  // ----------------------------------------------------------- lowerStruct

  /** An emitted template member: a named field, or padding. */
  datatype Member = Field(name: string, bytes: nat) | Padding(index: nat, bytes: nat)

  function MemberBytes(ms: seq<Member>): nat {
    if ms == [] then 0 else MemberBytes(ms[..|ms| - 1]) + ms[|ms| - 1].bytes
  }

  lemma Snoc(ms: seq<Member>, m: Member)
    ensures MemberBytes(ms + [m]) == MemberBytes(ms) + m.bytes
  {
    assert (ms + [m])[..|ms|] == ms;
  }

  /** The first n fields stand at the member positions `at`. */
  ghost predicate FieldsAt(names: seq<string>, t: AbiType, members: seq<Member>, at: seq<nat>, n: nat)
    requires n <= |names| == |t.fields| == |t.offsets|
  {
    |at| == n && forall k | 0 <= k < n :: IsFieldAt(members, at[k], names[k], TotalBytes(t.fields[k]), t.offsets[k])
  }

  lemma FieldsStay(names: seq<string>, t: AbiType, members: seq<Member>, m: Member, at: seq<nat>, n: nat)
    requires n <= |names| == |t.fields| == |t.offsets| && FieldsAt(names, t, members, at, n)
    ensures FieldsAt(names, t, members + [m], at, n)
  {
    hide MemberBytes, TotalBytes;
    forall k | 0 <= k < n
      ensures IsFieldAt(members + [m], at[k], names[k], TotalBytes(t.fields[k]), t.offsets[k])
    {
      assert (members + [m])[..at[k]] == members[..at[k]];
    }
  }

  lemma FieldPlaced(names: seq<string>, t: AbiType, members: seq<Member>, at: seq<nat>, n: nat)
    requires n < |names| == |t.fields| == |t.offsets| && FieldsAt(names, t, members, at, n)
    requires MemberBytes(members) == t.offsets[n]
    ensures FieldsAt(names, t, members + [Field(names[n], TotalBytes(t.fields[n]))], at + [|members|], n + 1)
  {
    hide MemberBytes, TotalBytes, IsFieldAt;
    var m := Field(names[n], TotalBytes(t.fields[n]));
    FieldsStay(names, t, members, m, at, n);
    LastFieldAt(members, names[n], TotalBytes(t.fields[n]));
    var more := at + [|members|];
    forall k | 0 <= k < n + 1
      ensures IsFieldAt(members + [m], more[k], names[k], TotalBytes(t.fields[k]), t.offsets[k])
    {
      if k < n {
        assert more[k] == at[k];
      }
    }
  }

  lemma LastFieldAt(members: seq<Member>, name: string, bytes: nat)
    ensures IsFieldAt(members + [Field(name, bytes)], |members|, name, bytes, MemberBytes(members))
  {
    hide MemberBytes;
    assert (members + [Field(name, bytes)])[..|members|] == members;
  }

  /** The padding loop of lowerStruct. */
  method LowerStruct(names: seq<string>, t: AbiType) returns (members: seq<Member>)
    requires Resolved(t) && t.kind.Aggregate? && |names| == |t.fields|
    ensures EndToEnd(names, t, members)
  {
    hide MemberBytes, TotalBytes, Resolved, FieldsAt;
    StructOffsets(t);
    EmptyStruct(t);
    members := [];
    var offset: nat, paddingIndex: nat := 0, 0;
    ghost var at: seq<nat> := [];
    NoMembers(names, t);
    for i := 0 to |t.fields|
      invariant MemberBytes(members) == offset
      invariant offset == if i == 0 then 0 else t.offsets[i - 1] + TotalBytes(t.fields[i - 1])
      invariant FieldsAt(names, t, members, at, i)
    {
      if t.offsets[i] > offset {
        var padding := Padding(paddingIndex, t.offsets[i] - offset);
        Snoc(members, padding);
        FieldsStay(names, t, members, padding, at, i);
        members := members + [padding];
        paddingIndex := paddingIndex + 1;
        offset := t.offsets[i];
      }
      assert i > 0 ==> t.offsets[i - 1] + TotalBytes(t.fields[i - 1]) <= t.offsets[i];
      var field := Field(names[i], TotalBytes(t.fields[i]));
      Snoc(members, field);
      FieldPlaced(names, t, members, at, i);
      at := at + [|members|];
      members := members + [field];
      offset := offset + TotalBytes(t.fields[i]);
    }
    if t.byteLength > offset {
      var padding := Padding(paddingIndex, t.byteLength - offset);
      Snoc(members, padding);
      FieldsStay(names, t, members, padding, at, |t.fields|);
      members := members + [padding];
    }
    AllPlaced(names, t, members, at);
  }

  lemma NoMembers(names: seq<string>, t: AbiType)
    requires |names| == |t.fields| == |t.offsets|
    ensures FieldsAt(names, t, [], [], 0) && MemberBytes([]) == 0
  {
  }

  lemma EmptyStruct(t: AbiType)
    requires Resolved(t) && t.kind.Aggregate?
    ensures t.fields == [] ==> t.byteLength == 0
  {
    ResolvedFacts(t);
    assert AlignUp(0, 1) == Some(0);
  }

  lemma AllPlaced(names: seq<string>, t: AbiType, members: seq<Member>, at: seq<nat>)
    requires |names| == |t.fields| == |t.offsets| && FieldsAt(names, t, members, at, |t.fields|)
    requires MemberBytes(members) == t.byteLength
    ensures EndToEnd(names, t, members)
  {
    hide MemberBytes, TotalBytes;
    forall k | 0 <= k < |t.fields|
      ensures HasField(members, names[k], TotalBytes(t.fields[k]), t.offsets[k])
    {
      assert IsFieldAt(members, at[k], names[k], TotalBytes(t.fields[k]), t.offsets[k]);
    }
  }

  /** Member j is the named field, and the members before it fill exactly `offset` bytes. */
  ghost predicate IsFieldAt(members: seq<Member>, j: nat, name: string, bytes: nat, offset: nat) {
    j < |members| && members[j] == Field(name, bytes) && MemberBytes(members[..j]) == offset
  }

  /** Laid end to end without gaps, the members put each field at its struct offset. */
  ghost predicate EndToEnd(names: seq<string>, t: AbiType, members: seq<Member>)
    requires |names| == |t.fields|
  {
    && |t.offsets| == |t.fields| && MemberBytes(members) == t.byteLength
    && forall k | 0 <= k < |t.fields| ::
         HasField(members, names[k], TotalBytes(t.fields[k]), t.offsets[k])
  }

  ghost predicate HasField(members: seq<Member>, name: string, bytes: nat, offset: nat) {
    exists j: nat :: IsFieldAt(members, j, name, bytes, offset)
  }
}
