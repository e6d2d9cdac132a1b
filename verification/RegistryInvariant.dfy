/**
  What every run of the registry keeps. Freed blocks stay in the table and lookups see
  them; because a new entry always takes the lowest available slot, they still never
  hide a live object, except through realloc's in-place rewrite.
 */
module RegistryInvariant {
  import opened RuntimeFrames
  import opened Registry

  /** Two ranges without a common address. */
  predicate Apart(p: nat, m: nat, q: nat, n: nat) {
    p + m <= q || q + n <= p
  }

  predicate EntriesApart(a: Entry, b: Entry) {
    Apart(a.ptr, a.size, b.ptr, b.size)
  }

  ghost predicate LiveDisjoint(slots: seq<Entry>) {
    forall i, j | 0 <= i < j < |slots| && slots[i].Live() && slots[j].Live() :: EntriesApart(slots[i], slots[j])
  }

  /** No freed entry in a lower slot overlaps a live entry in a higher one. */
  ghost predicate NoShadow(slots: seq<Entry>) {
    forall i, j | 0 <= i < j < |slots| && slots[i].Stale() && slots[j].Live() :: EntriesApart(slots[i], slots[j])
  }

  /** The heap as a set of addresses, disjoint from stack and static storage. */
  ghost predicate AllHeap(heap: nat -> bool, ptr: nat, size: nat) {
    forall a: nat | ptr <= a < ptr + size :: heap(a)
  }

  ghost predicate NoneHeap(heap: nat -> bool, ptr: nat, size: nat) {
    forall a: nat | ptr <= a < ptr + size :: !heap(a)
  }

  ghost predicate EntryOk(e: Entry, heap: nat -> bool) {
    e.ptr != 0 ==>
      && e.size > 0 && (e.freed ==> e.kind.Heap?)
      && (if e.kind.Heap? then AllHeap(heap, e.ptr, e.size) else NoneHeap(heap, e.ptr, e.size))
  }

  /** A live local or temporary belongs to an active frame and an open scope of it. */
  ghost predicate LifetimeOk(e: Entry, frames: Frames)
    requires frames.Valid()
  {
    e.Live() && e.Scoped() ==> 1 <= e.frame <= frames.current && e.scope <= frames.scopes[e.frame]
  }

  ghost predicate Invariant(t: Table, heap: nat -> bool) {
    && t.Valid() && LiveDisjoint(t.slots) && NoShadow(t.slots)
    && (forall i | 0 <= i < |t.slots| :: EntryOk(t.slots[i], heap))
    && (forall i | 0 <= i < |t.slots| :: LifetimeOk(t.slots[i], t.frames))
  }

  // ------------------------------------------- what the environment provides

  /** The range meets no live object other than the one in slot `skip`. */
  ghost predicate RangeFree(slots: seq<Entry>, ptr: nat, size: nat, skip: nat) {
    forall i | 0 <= i < |slots| && i != skip && slots[i].Live() :: Apart(slots[i].ptr, slots[i].size, ptr, size)
  }

  /** The range meets no freed block below slot `below`. */
  ghost predicate AvoidsStale(slots: seq<Entry>, ptr: nat, size: nat, below: nat) {
    forall i | 0 <= i < |slots| && i < below && slots[i].Stale() :: Apart(slots[i].ptr, slots[i].size, ptr, size)
  }

  ghost predicate NewObject(t: Table, ptr: nat, size: nat, kind: Kind, frame: nat, scope: nat)
    requires t.Valid()
  {
    First(t.slots, Exactly(ptr, kind, frame, scope)) == MAX_OBJECTS ==> RangeFree(t.slots, ptr, size, MAX_OBJECTS)
  }

  /**
    Allocators return heap blocks disjoint from every live object; stack and static
    objects lie outside the heap and do not overlap live ones.
   */
  ghost predicate Allowed(t: Table, op: Op, heap: nat -> bool)
    requires t.Valid()
  {
    match op
    case OpRegisterLocal(ptr, size) =>
      NoneHeap(heap, ptr, size) && NewObject(t, ptr, size, Local, t.frames.current, t.frames.Depth())
    case OpRegisterStatic(ptr, size) => NoneHeap(heap, ptr, size) && NewObject(t, ptr, size, Static, 0, 0)
    case OpRegisterTemporary(ptr, size, id) =>
      && NoneHeap(heap, ptr, size)
      && RangeFree(t.slots, ptr, size, First(t.slots, TemporaryOf(t.frames.current, t.frames.Depth(), id)))
    case OpAlloc(size, got) => AllocOk(t, size, got, heap)
    case OpCalloc(count, size, got) => AllocOk(t, count * size, got, heap)
    case OpRealloc(ptr, size, next) =>
      if ptr == 0 then AllocOk(t, size, next, heap)
      else
        var i := First(t.slots, Containing(ptr));
        AllHeap(heap, next, size) && RangeFree(t.slots, next, size, i) && AvoidsStale(t.slots, next, size, i)
    case _ => true
  }

  ghost predicate AllocOk(t: Table, size: nat, got: nat, heap: nat -> bool) {
    AllHeap(heap, got, size) && RangeFree(t.slots, got, size, MAX_OBJECTS)
  }

  // -------------------------------------------------------- keeping it, by step

  /** Writing a live entry into slot k. */
  lemma UpdateKeeps(t: Table, k: nat, e: Entry, heap: nat -> bool)
    requires Invariant(t, heap) && k < MAX_OBJECTS
    requires e.Live() && EntryOk(e, heap) && LifetimeOk(e, t.frames)
    requires RangeFree(t.slots, e.ptr, e.size, k) && AvoidsStale(t.slots, e.ptr, e.size, k)
    ensures Invariant(t.(slots := t.slots[k := e]), heap)
  {
    hide EntryOk, LifetimeOk;
    var s := t.slots[k := e];
    forall i, j | 0 <= i < j < |s| && (s[i].Live() || s[i].Stale()) && s[j].Live() ensures EntriesApart(s[i], s[j]) {
      if i == k { assert s[j] == t.slots[j]; }
      if j == k { assert s[i] == t.slots[i]; }
    }
  }

  /** The lowest available slot has only live entries below it. */
  lemma PlaceKeeps(t: Table, e: Entry, heap: nat -> bool)
    requires Invariant(t, heap) && e.Live() && EntryOk(e, heap) && LifetimeOk(e, t.frames)
    requires RangeFree(t.slots, e.ptr, e.size, MAX_OBJECTS)
    ensures Place(t, e).Ok? ==> Invariant(Place(t, e).value, heap)
  {
    hide EntryOk, LifetimeOk;
    var i := First(t.slots, Available());
    if i < MAX_OBJECTS {
      forall k | 0 <= k < i ensures !t.slots[k].Stale() {
        assert !Available()(t.slots[k]);
      }
      assert Available()(t.slots[i]);
      UpdateKeeps(t, i, e, heap);
    }
  }

  lemma RegisterKeeps(t: Table, ptr: nat, size: nat, kind: Kind, frame: nat, scope: nat, heap: nat -> bool)
    requires Invariant(t, heap) && NewObject(t, ptr, size, kind, frame, scope)
    requires if kind.Heap? then AllHeap(heap, ptr, size) else NoneHeap(heap, ptr, size)
    requires kind.Local? || kind.Temporary? ==> 1 <= frame <= t.frames.current && scope <= t.frames.scopes[frame]
    ensures Register(t, ptr, size, kind, frame, scope).Ok? ==>
      Invariant(Register(t, ptr, size, kind, frame, scope).value, heap)
  {
    hide LiveDisjoint, NoShadow;
    if ptr != 0 && size != 0 && First(t.slots, Exactly(ptr, kind, frame, scope)) == MAX_OBJECTS {
      PlaceKeeps(t, Entry(ptr, size, frame, scope, 0, kind, false), heap);
    }
  }

  /** Removing an entry, or marking a heap block freed, breaks nothing. */
  lemma RetireKeeps(t: Table, k: nat, e: Entry, heap: nat -> bool)
    requires Invariant(t, heap) && k < MAX_OBJECTS && t.slots[k].Live()
    requires e == t.slots[k].Cleared() || (e == t.slots[k].(freed := true) && e.kind.Heap?)
    ensures Invariant(t.(slots := t.slots[k := e]), heap)
  {
    var s := t.slots[k := e];
    forall i, j | 0 <= i < j < |s| && (s[i].Live() || s[i].Stale()) && s[j].Live() ensures EntriesApart(s[i], s[j]) {
      assert s[j] == t.slots[j];
      if i == k { assert EntriesApart(t.slots[i], t.slots[j]); } else { assert s[i] == t.slots[i]; }
    }
  }

  /** Clearing scoped entries while the counters shrink. */
  lemma ClearKeeps(t: Table, p: Entry -> bool, frames: Frames, heap: nat -> bool)
    requires Invariant(t, heap) && frames.Valid()
    requires forall i | 0 <= i < |t.slots| && !p(t.slots[i]) :: LifetimeOk(t.slots[i], frames)
    ensures Invariant(Table(ClearWhere(t.slots, p), frames), heap)
  {
    var s := ClearWhere(t.slots, p);
    forall i, j | 0 <= i < j < |s| && (s[i].Live() || s[i].Stale()) && s[j].Live() ensures EntriesApart(s[i], s[j]) {
      assert s[i] == t.slots[i] && s[j] == t.slots[j];
    }
    forall i | 0 <= i < |s| ensures EntryOk(s[i], heap) && LifetimeOk(s[i], frames) {
      assert EntryOk(t.slots[i], heap);
    }
  }

  lemma FrameExitKeeps(t: Table, heap: nat -> bool)
    requires Invariant(t, heap) && FrameExit(t).Ok?
    ensures Invariant(FrameExit(t).value, heap)
  {
    var p, frames := InFrame(t.frames.current), t.frames.FrameExit().value;
    forall i | 0 <= i < |t.slots| && !p(t.slots[i]) ensures LifetimeOk(t.slots[i], frames) {
      assert LifetimeOk(t.slots[i], t.frames);
    }
    ClearKeeps(t, p, frames, heap);
  }

  lemma ScopeExitKeeps(t: Table, heap: nat -> bool)
    requires Invariant(t, heap) && ScopeExit(t).Ok?
    ensures Invariant(ScopeExit(t).value, heap)
  {
    var p, frames := InScope(t.frames.current, t.frames.Depth()), t.frames.ScopeExit().value;
    forall i | 0 <= i < |t.slots| && !p(t.slots[i]) ensures LifetimeOk(t.slots[i], frames) {
      assert LifetimeOk(t.slots[i], t.frames);
    }
    ClearKeeps(t, p, frames, heap);
  }

  lemma {:induction false} ExitScopesKeeps(t: Table, target: nat, heap: nat -> bool)
    requires Invariant(t, heap) && target <= t.frames.Depth() && t.frames.current > 0
    ensures ExitScopes(t, target).Ok? && Invariant(ExitScopes(t, target).value, heap)
    decreases t.frames.Depth()
  {
    hide LiveDisjoint, NoShadow, EntryOk;
    if t.frames.Depth() != target {
      ScopeExitKeeps(t, heap);
      ExitScopesKeeps(ScopeExit(t).value, target, heap);
    }
  }

  lemma EnterKeeps(t: Table, frames: Frames, heap: nat -> bool)
    requires Invariant(t, heap)
    requires t.frames.FrameEnter() == Ok(frames) || t.frames.ScopeEnter() == Ok(frames)
    ensures Invariant(t.(frames := frames), heap)
  {
    forall i | 0 <= i < |t.slots| ensures LifetimeOk(t.slots[i], frames) {
      assert LifetimeOk(t.slots[i], t.frames);
    }
  }

  lemma FreeKeeps(t: Table, ptr: nat, heap: nat -> bool)
    requires Invariant(t, heap) && Free(t, ptr).Ok?
    ensures Invariant(Free(t, ptr).value, heap)
  {
    hide LiveDisjoint, NoShadow, EntryOk;
    if ptr != 0 {
      var i := First(t.slots, Containing(ptr));
      RetireKeeps(t, i, t.slots[i].(freed := true), heap);
    }
  }

  lemma TemporaryKeeps(t: Table, ptr: nat, size: nat, id: nat, heap: nat -> bool)
    requires Invariant(t, heap) && Allowed(t, OpRegisterTemporary(ptr, size, id), heap)
    requires RegisterTemporary(t, ptr, size, id).Ok?
    ensures Invariant(RegisterTemporary(t, ptr, size, id).value, heap)
  {
    var frame, scope := t.frames.current, t.frames.Depth();
    var i := First(t.slots, TemporaryOf(frame, scope, id));
    if i < MAX_OBJECTS {
      assert TemporaryOf(frame, scope, id)(t.slots[i]);
      if size == 0 {
        RetireKeeps(t, i, t.slots[i].Cleared(), heap);
      } else {
        var e := t.slots[i].(ptr := ptr, size := size);
        assert LifetimeOk(t.slots[i], t.frames);
        StackAvoidsStale(t, ptr, size, i, heap);
        UpdateKeeps(t, i, e, heap);
      }
    } else if size > 0 {
      PlaceKeeps(t, Entry(ptr, size, frame, scope, id, Temporary, false), heap);
    }
  }

  /** Freed blocks are heap blocks, so storage outside the heap never meets one. */
  lemma StackAvoidsStale(t: Table, ptr: nat, size: nat, below: nat, heap: nat -> bool)
    requires Invariant(t, heap) && NoneHeap(heap, ptr, size) && size > 0
    ensures AvoidsStale(t.slots, ptr, size, below)
  {
    forall i | 0 <= i < |t.slots| && i < below && t.slots[i].Stale()
      ensures Apart(t.slots[i].ptr, t.slots[i].size, ptr, size)
    {
      assert EntryOk(t.slots[i], heap);
      assert heap(t.slots[i].ptr) && !heap(ptr);
    }
  }

  lemma ReallocKeeps(t: Table, ptr: nat, size: nat, next: nat, heap: nat -> bool)
    requires Invariant(t, heap) && Allowed(t, OpRealloc(ptr, size, next), heap) && Realloc(t, ptr, size, next).Ok?
    ensures Invariant(Realloc(t, ptr, size, next).value, heap)
  {
    if ptr == 0 {
      AllocKeeps(t, size, next, heap);
    } else if size == 0 {
      FreeKeeps(t, ptr, heap);
    } else {
      var i := First(t.slots, Containing(ptr));
      UpdateKeeps(t, i, t.slots[i].(ptr := next, size := size, frame := 0, kind := Heap, freed := false), heap);
    }
  }

  lemma AllocKeeps(t: Table, size: nat, got: nat, heap: nat -> bool)
    requires Invariant(t, heap) && AllocOk(t, size, got, heap) && Alloc(t, size, got).Ok?
    ensures Invariant(Alloc(t, size, got).value, heap)
  {
    if size != 0 {
      RegisterKeeps(t, got, size, Heap, 0, 0, heap);
    }
  }

  /** Every operation keeps the invariant. */
  lemma ApplyKeeps(t: Table, op: Op, heap: nat -> bool)
    requires Invariant(t, heap) && Allowed(t, op, heap) && Apply(t, op).Ok?
    ensures Invariant(Apply(t, op).value, heap)
  {
    hide LiveDisjoint, NoShadow, EntryOk, LifetimeOk, Register, Place, First;
    match op
    case OpRegisterLocal(ptr, size) => RegisterKeeps(t, ptr, size, Local, t.frames.current, t.frames.Depth(), heap);
    case OpRegisterStatic(ptr, size) => RegisterKeeps(t, ptr, size, Static, 0, 0, heap);
    case OpRegisterTemporary(ptr, size, id) => TemporaryKeeps(t, ptr, size, id, heap);
    case OpAlloc(size, got) => AllocKeeps(t, size, got, heap);
    case OpCalloc(count, size, got) => AllocKeeps(t, count * size, got, heap);
    case OpRealloc(ptr, size, next) => ReallocKeeps(t, ptr, size, next, heap);
    case OpFree(ptr) => FreeKeeps(t, ptr, heap);
    case OpFrameEnter => EnterKeeps(t, t.frames.FrameEnter().value, heap);
    case OpFrameExit => FrameExitKeeps(t, heap);
    case OpScopeEnter => EnterKeeps(t, t.frames.ScopeEnter().value, heap);
    case OpScopeExit => ScopeExitKeeps(t, heap);
    case OpScopeExitTo(target) => ExitScopesKeeps(t, target, heap);
  }

  // ------------------------------------------------------------------ runs

  /** A run whose every step is allowed and succeeds, from t to r. */
  ghost predicate Reaches(t: Table, ops: seq<Op>, r: Table, heap: nat -> bool)
    decreases |ops|
  {
    if ops == [] then r == t
    else
      && t.Valid() && Allowed(t, ops[0], heap) && Apply(t, ops[0]).Ok?
      && Reaches(Apply(t, ops[0]).value, ops[1..], r, heap)
  }

  lemma EmptyInvariant(heap: nat -> bool)
    ensures Invariant(EmptyTable(), heap)
  {
  }

  lemma {:induction false} RunKeeps(t: Table, ops: seq<Op>, r: Table, heap: nat -> bool)
    requires Invariant(t, heap) && Reaches(t, ops, r, heap)
    ensures Invariant(r, heap)
    decreases |ops|
  {
    hide Invariant, Apply, Allowed;
    if ops != [] {
      ApplyKeeps(t, ops[0], heap);
      RunKeeps(Apply(t, ops[0]).value, ops[1..], r, heap);
    }
  }

  /** Over every run from the empty table, no freed entry hides a live one. */
  lemma EveryRun(ops: seq<Op>, r: Table, heap: nat -> bool)
    requires Reaches(EmptyTable(), ops, r, heap)
    ensures Invariant(r, heap)
  {
    hide Invariant, Reaches;
    EmptyInvariant(heap);
    RunKeeps(EmptyTable(), ops, r, heap);
  }

  // --------------------------------------------------- lookups and checks

  /** A lookup inside a live object finds that object. */
  lemma FindReturnsLive(t: Table, j: nat, address: nat, heap: nat -> bool)
    requires Invariant(t, heap) && j < MAX_OBJECTS && t.slots[j].Live() && t.slots[j].Contains(address)
    ensures First(t.slots, Containing(address)) == j
  {
    var i := First(t.slots, Containing(address));
    assert Containing(address)(t.slots[j]);
    assert i <= j && Containing(address)(t.slots[i]);
  }

  /** The whole range lies inside one live registered object. */
  ghost predicate InsideLive(t: Table, ptr: nat, size: nat) {
    exists i | 0 <= i < |t.slots| :: Encloses(t.slots[i], ptr, size)
  }

  predicate Encloses(e: Entry, ptr: nat, size: nat) {
    e.Live() && e.ptr <= ptr && ptr + size <= e.ptr + e.size
  }

  /** In every state, a check that succeeds has found an enclosing live object. */
  lemma CheckIsSound(t: Table, ptr: nat, size: nat)
    requires t.Valid() && size > 0 && Check(t, ptr, size).Ok?
    ensures InsideLive(t, ptr, size)
  {
    var i := First(t.slots, Containing(ptr));
    assert Containing(ptr)(t.slots[i]);
    assert Encloses(t.slots[i], ptr, size);
  }

  /** On every reachable table, hs_check succeeds exactly inside live objects. */
  lemma CheckIsExact(t: Table, ptr: nat, size: nat, heap: nat -> bool)
    requires Invariant(t, heap) && size > 0
    ensures Check(t, ptr, size).Ok? <==> InsideLive(t, ptr, size)
  {
    if Check(t, ptr, size).Ok? {
      CheckIsSound(t, ptr, size);
    }
    if InsideLive(t, ptr, size) {
      var j: nat :| j < |t.slots| && Encloses(t.slots[j], ptr, size);
      FindReturnsLive(t, j, ptr, heap);
    }
  }

  /** Registration fails as full exactly when every slot is live. */
  lemma FullExactly(t: Table, e: Entry)
    requires t.Valid()
    ensures Place(t, e) == Failed(RegistryFull) <==> forall i | 0 <= i < MAX_OBJECTS :: t.slots[i].Live()
  {
    var i := First(t.slots, Available());
    forall k | 0 <= k < MAX_OBJECTS ensures Available()(t.slots[k]) == !t.slots[k].Live() {
    }
  }

  // ------------------------------------------------------------- lifetimes

  function Exited(frame: nat, target: nat): Entry -> bool {
    (e: Entry) => e.ptr != 0 && e.Scoped() && e.frame == frame && e.scope > target
  }

  /** Leaving scopes one by one clears exactly the entries above the target depth. */
  lemma {:induction false} ExitScopesClears(t: Table, target: nat, heap: nat -> bool)
    requires Invariant(t, heap) && target <= t.frames.Depth() && t.frames.current > 0
    ensures ExitScopes(t, target) ==
      Ok(Table(ClearWhere(t.slots, Exited(t.frames.current, target)),
               t.frames.(scopes := t.frames.scopes[t.frames.current := target])))
    decreases t.frames.Depth()
  {
    var frame, d := t.frames.current, t.frames.Depth();
    if d == target {
      NothingAbove(t, d, heap);
      assert t.frames.scopes[frame := target] == t.frames.scopes;
      assert ClearWhere(t.slots, Exited(frame, target)) == t.slots;
    } else {
      ScopeExitKeeps(t, heap);
      var m := ScopeExit(t).value;
      ExitScopesClears(m, target, heap);
      NothingAbove(t, d, heap);
      assert m.frames.scopes[frame := target] == t.frames.scopes[frame := target];
      TwoClears(t.slots, frame, target, d);
    }
  }

  lemma NothingAbove(t: Table, d: nat, heap: nat -> bool)
    requires Invariant(t, heap) && t.frames.current > 0 && t.frames.Depth() <= d
    ensures forall i | 0 <= i < |t.slots| :: !Exited(t.frames.current, d)(t.slots[i])
  {
    forall i | 0 <= i < |t.slots| ensures !Exited(t.frames.current, d)(t.slots[i]) {
      assert LifetimeOk(t.slots[i], t.frames) && EntryOk(t.slots[i], heap);
    }
  }

  lemma TwoClears(slots: seq<Entry>, frame: nat, target: nat, d: nat)
    requires target < d
    requires forall i | 0 <= i < |slots| :: !Exited(frame, d)(slots[i])
    ensures ClearWhere(ClearWhere(slots, InScope(frame, d)), Exited(frame, target)) == ClearWhere(slots, Exited(frame, target))
  {
    var a := ClearWhere(ClearWhere(slots, InScope(frame, d)), Exited(frame, target));
    var b := ClearWhere(slots, Exited(frame, target));
    forall i | 0 <= i < |slots| ensures a[i] == b[i] {
      assert !Exited(frame, d)(slots[i]);
    }
  }

  /**
    After hs_scope_exit_to(t) nothing of the exited scopes is left, and heap, static,
    outer-frame and outer-scope entries are untouched.
   */
  lemma ScopeExitToLifetimes(t: Table, target: nat, heap: nat -> bool)
    requires Invariant(t, heap) && ScopeExitTo(t, target).Ok?
    ensures var r := ScopeExitTo(t, target).value;
      && r.Valid() && r.frames.current == t.frames.current && r.frames.Depth() == target
      && forall i | 0 <= i < MAX_OBJECTS ::
           && !(r.slots[i].ptr != 0 && r.slots[i].Scoped() && r.slots[i].frame == t.frames.current && r.slots[i].scope > target)
           && (!Exited(t.frames.current, target)(t.slots[i]) ==> r.slots[i] == t.slots[i])
  {
    ExitScopesClears(t, target, heap);
  }

  /** After hs_frame_exit no local or temporary of that frame, or of a later one, is left. */
  lemma FrameExitLifetimes(t: Table, heap: nat -> bool)
    requires Invariant(t, heap) && FrameExit(t).Ok?
    ensures var r := FrameExit(t).value;
      && r.Valid() && r.frames.current == t.frames.current - 1
      && forall i | 0 <= i < MAX_OBJECTS ::
           && (r.slots[i].ptr != 0 && r.slots[i].Scoped() ==> r.slots[i].frame < t.frames.current)
           && (!InFrame(t.frames.current)(t.slots[i]) ==> r.slots[i] == t.slots[i])
  {
    var r := FrameExit(t).value;
    forall i | 0 <= i < MAX_OBJECTS
      ensures r.slots[i].ptr != 0 && r.slots[i].Scoped() ==> r.slots[i].frame < t.frames.current
    {
      assert LifetimeOk(t.slots[i], t.frames) && EntryOk(t.slots[i], heap);
    }
  }

  // ---------------------------------------------------------------- realloc

  /**
    When realloc moves a block, lookups inside it keep working exactly when the moved
    block avoids every freed range in a lower slot.
   */
  lemma ReallocShadowsExactly(t: Table, ptr: nat, size: nat, next: nat, heap: nat -> bool)
    requires Invariant(t, heap) && ptr != 0 && size > 0 && Realloc(t, ptr, size, next).Ok?
    requires var i := First(t.slots, Containing(ptr));
      AllHeap(heap, next, size) && RangeFree(t.slots, next, size, i)
    ensures var i, r := First(t.slots, Containing(ptr)), Realloc(t, ptr, size, next).value;
      (forall a: nat | next <= a < next + size :: First(r.slots, Containing(a)) == i) <==>
      AvoidsStale(t.slots, next, size, i)
  {
    var i, r := First(t.slots, Containing(ptr)), Realloc(t, ptr, size, next).value;
    if AvoidsStale(t.slots, next, size, i) {
      ReallocKeeps(t, ptr, size, next, heap);
      forall a: nat | next <= a < next + size ensures First(r.slots, Containing(a)) == i {
        FindReturnsLive(r, i, a, heap);
      }
    } else {
      var k: nat :| k < |t.slots| && k < i && t.slots[k].Stale() && !Apart(t.slots[k].ptr, t.slots[k].size, next, size);
      var a: nat := if t.slots[k].ptr >= next then t.slots[k].ptr else next;
      assert r.slots[k] == t.slots[k] && r.slots[k].Contains(a) by {
        assert EntryOk(t.slots[k], heap);
      }
      assert Containing(a)(r.slots[k]);
      assert First(r.slots, Containing(a)) != i;
    }
  }

  /**
    A run that shows it happens: allocate A and B, free A, and let realloc move B into
    A's old range. Every step is one a correct allocator may take; B is live and a
    check inside it fails.
   */
  lemma ReallocCanHideALiveBlock()
    ensures var t0 := EmptyTable();
      var t1 := Alloc(t0, 16, 1000);
      && t1.Ok? && t1.value.Valid() && RangeFree(t0.slots, 1000, 16, MAX_OBJECTS)
      && var t2 := Alloc(t1.value, 16, 2000);
      && t2.Ok? && t2.value.Valid() && RangeFree(t1.value.slots, 2000, 16, MAX_OBJECTS)
      && var t3 := Free(t2.value, 1000);
      && t3.Ok? && t3.value.Valid()
      && var t4 := Realloc(t3.value, 2000, 16, 1000);
      && t4.Ok? && t4.value.Valid() && RangeFree(t3.value.slots, 1000, 16, 1)
      && InsideLive(t4.value, 1000, 16) && Check(t4.value, 1000, 16) == Failed(InvalidAccess)
  {
    hide First;
    var t0 := EmptyTable();
    FirstIs(t0.slots, Exactly(1000, Heap, 0, 0), MAX_OBJECTS);
    FirstIs(t0.slots, Available(), 0);
    var a := Entry(1000, 16, 0, 0, 0, Heap, false);
    var t1 := Alloc(t0, 16, 1000).value;
    assert t1.slots == t0.slots[0 := a];
    FirstIs(t1.slots, Exactly(2000, Heap, 0, 0), MAX_OBJECTS);
    FirstIs(t1.slots, Available(), 1);
    var t2 := Alloc(t1, 16, 2000).value;
    assert t2.slots == t1.slots[1 := Entry(2000, 16, 0, 0, 0, Heap, false)];
    FirstIs(t2.slots, Containing(1000), 0);
    var t3 := Free(t2, 1000).value;
    assert t3.slots == t2.slots[0 := a.(freed := true)];
    FirstIs(t3.slots, Containing(2000), 1);
    var t4 := Realloc(t3, 2000, 16, 1000).value;
    assert t4.slots == t3.slots[1 := a];
    FirstIs(t4.slots, Containing(1000), 0);
    assert Encloses(t4.slots[1], 1000, 16);
  }
}
