/**
  What the registry is for: the table of slots, with freed entries, reuse and linear
  search, behaves as a set of live objects and a stack of scope depths. Every operation is
  pinned by its effect on those, and by exactly when it fails and how.
 */
module RegistryEffect {
  import opened RuntimeFrames
  import opened Registry
  import opened RegistryInvariant
  import opened Basics
  import opened Powers

  // ------------------------------------------------------- the abstract memory

  datatype Object = Object(ptr: nat, size: nat, frame: nat, scope: nat, id: nat, kind: Kind)

  /** The live objects, and the scope depth of each active frame, the innermost last. */
  datatype Memory = Memory(live: set<Object>, depths: seq<nat>)

  function ObjectOf(e: Entry): Object {
    Object(e.ptr, e.size, e.frame, e.scope, e.id, e.kind)
  }

  function Objects(slots: seq<Entry>): set<Object> {
    set i | 0 <= i < |slots| && slots[i].Live() :: ObjectOf(slots[i])
  }

  function MemoryOf(t: Table): Memory
    requires t.Valid()
  {
    Memory(Objects(t.slots), t.frames.scopes[1..t.frames.current + 1])
  }

  predicate OnStack(o: Object) {
    o.kind.Local? || o.kind.Temporary?
  }

  predicate FromSite(o: Object, frame: nat, scope: nat, id: nat) {
    o.kind.Temporary? && o.frame == frame && o.scope == scope && o.id == id
  }

  function Innermost(m: Memory): nat {
    if m.depths == [] then 0 else m.depths[|m.depths| - 1]
  }

  /** The effect of a successful operation. */
  ghost predicate Effect(m: Memory, op: Op, r: Memory) {
    var frame, scope := |m.depths|, Innermost(m);
    match op
    case OpRegisterLocal(ptr, size) => r == m.(live := m.live + {Object(ptr, size, frame, scope, 0, Local)})
    case OpRegisterStatic(ptr, size) => r == m.(live := m.live + {Object(ptr, size, 0, 0, 0, Static)})
    case OpRegisterTemporary(ptr, size, id) =>
      && r.depths == m.depths
      && forall o :: o in r.live <==>
           || (o in m.live && !FromSite(o, frame, scope, id))
           || (size > 0 && o == Object(ptr, size, frame, scope, id, Temporary))
    case OpAlloc(size, got) => r == Allocated(m, size, got)
    case OpCalloc(count, size, got) => r == Allocated(m, count * size, got)
    case OpFree(ptr) => r == Without(m, ptr)
    case OpRealloc(ptr, size, next) => r == Allocated(Without(m, ptr), size, next)
    case OpFrameEnter => r == m.(depths := m.depths + [0])
    case OpFrameExit =>
      frame > 0 && r.depths == m.depths[..frame - 1] && forall o :: o in r.live <==> o in m.live && !(OnStack(o) && o.frame == frame)
    case OpScopeEnter => frame > 0 && r == m.(depths := m.depths[frame - 1 := scope + 1])
    case OpScopeExit => frame > 0 && scope > 0 && LeftTo(m, r, scope - 1)
    case OpScopeExitTo(target) => frame > 0 && target <= scope && LeftTo(m, r, target)
  }

  /** One more heap block, unless it is empty. */
  function Allocated(m: Memory, size: nat, got: nat): Memory {
    if size == 0 then m else m.(live := m.live + {Object(got, size, 0, 0, 0, Heap)})
  }

  /** Without the heap block that starts at ptr. */
  function Without(m: Memory, ptr: nat): Memory {
    m.(live := set o | o in m.live && !(o.kind.Heap? && o.ptr == ptr))
  }

  ghost predicate LeftTo(m: Memory, r: Memory, target: nat)
    requires m.depths != []
  {
    var frame := |m.depths|;
    && r.depths == m.depths[frame - 1 := target]
    && forall o :: o in r.live <==> o in m.live && !(OnStack(o) && o.frame == frame && o.scope > target)
  }

  /** When an operation fails, and how; `full` when every slot is live, `freed` when the lookup of ptr finds a freed block there. */
  ghost function FaultOf(m: Memory, op: Op, full: bool, freed: bool): Option<Fault> {
    var frame, scope := |m.depths|, Innermost(m);
    match op
    case OpRegisterLocal(ptr, size) => if frame == 0 then Some(ObjectOutsideFrame) else RegistrationFault(m, ptr, size, Local, frame, scope, full)
    case OpRegisterStatic(ptr, size) => RegistrationFault(m, ptr, size, Static, 0, 0, full)
    case OpRegisterTemporary(ptr, size, id) =>
      if frame == 0 then Some(ObjectOutsideFrame)
      else if size == 0 then None
      else if ptr == 0 then Some(InvalidRegistration)
      else if full && !exists o :: o in m.live && FromSite(o, frame, scope, id) then Some(RegistryFull)
      else None
    case OpAlloc(size, got) => AllocationFault(m, size, got, full)
    case OpCalloc(count, size, got) => if count * size > UINT64_MAX then Some(SizeOverflow) else AllocationFault(m, count * size, got, full)
    case OpFree(ptr) => FreeFault(m, ptr, freed)
    case OpRealloc(ptr, size, next) =>
      if ptr == 0 then AllocationFault(m, size, next, full)
      else if size == 0 then FreeFault(m, ptr, freed)
      else if !StartsBlock(m, ptr) then Some(InvalidRealloc)
      else if next == 0 then Some(NullAllocation)
      else None
    case OpFrameEnter => if frame + 1 >= MAX_FRAMES then Some(FrameOverflow) else None
    case OpFrameExit => if frame == 0 then Some(FrameUnderflow) else None
    case OpScopeEnter => if frame == 0 then Some(ScopeOutsideFrame) else if scope == UINT64_MAX then Some(ScopeOverflow) else None
    case OpScopeExit => if frame == 0 || scope == 0 then Some(ScopeUnderflow) else None
    case OpScopeExitTo(target) => if frame == 0 || target > scope then Some(InvalidScopeExit) else None
  }

  /** A live heap block starts at ptr. */
  ghost predicate StartsBlock(m: Memory, ptr: nat) {
    exists o :: o in m.live && o.kind.Heap? && o.ptr == ptr
  }

  predicate SamePlace(o: Object, ptr: nat, kind: Kind, frame: nat, scope: nat) {
    o.ptr == ptr && o.kind == kind && o.frame == frame && o.scope == scope
  }

  ghost function RegistrationFault(m: Memory, ptr: nat, size: nat, kind: Kind, frame: nat, scope: nat, full: bool): Option<Fault> {
    if ptr == 0 || size == 0 then Some(InvalidRegistration)
    else if exists o :: o in m.live && SamePlace(o, ptr, kind, frame, scope) && o.size != size then Some(ConflictingRegistration)
    else if full && Object(ptr, size, frame, scope, 0, kind) !in m.live then Some(RegistryFull)
    else None
  }

  ghost function AllocationFault(m: Memory, size: nat, got: nat, full: bool): Option<Fault> {
    if size == 0 then None
    else if got == 0 then Some(NullAllocation)
    else RegistrationFault(m, got, size, Heap, 0, 0, full)
  }

  ghost function FreeFault(m: Memory, ptr: nat, freed: bool): Option<Fault> {
    if ptr == 0 || StartsBlock(m, ptr) then None else if freed then Some(DoubleFree) else Some(InvalidFree)
  }

  // ----------------------------------------------------------- further order

  /** Only temporaries have a site, heap and static objects no frame, and a site has one temporary per scope. */
  ghost predicate Tidy(t: Table) {
    && (forall i | 0 <= i < |t.slots| && t.slots[i].Live() :: TidyEntry(t.slots[i]))
    && (forall i, j | 0 <= i < j < |t.slots| && t.slots[i].Live() && t.slots[j].Live() :: !SameSite(t.slots[i], t.slots[j]))
  }

  predicate TidyEntry(e: Entry) {
    (e.kind.Temporary? || e.id == 0) && (e.kind.Heap? || e.kind.Static? ==> e.frame == 0 && e.scope == 0)
  }

  predicate SameSite(a: Entry, b: Entry) {
    a.kind.Temporary? && b.kind.Temporary? && a.frame == b.frame && a.scope == b.scope && a.id == b.id
  }

  // ----------------------------------------------------- slots and the objects

  lemma PutObject(slots: seq<Entry>, i: nat, e: Entry)
    requires i < |slots| && !slots[i].Live() && e.Live()
    ensures Objects(slots[i := e]) == Objects(slots) + {ObjectOf(e)}
  {
    var after := slots[i := e];
    forall o | o in Objects(slots) + {ObjectOf(e)} ensures o in Objects(after) {
      if o == ObjectOf(e) {
        assert after[i] == e;
      } else {
        var k :| 0 <= k < |slots| && slots[k].Live() && ObjectOf(slots[k]) == o;
        assert after[k] == slots[k];
      }
    }
    forall o | o in Objects(after) ensures o in Objects(slots) + {ObjectOf(e)} {
      var k :| 0 <= k < |after| && after[k].Live() && ObjectOf(after[k]) == o;
      if k != i {
        assert after[k] == slots[k];
      }
    }
  }

  /** Distinct live slots hold objects at distinct addresses. */
  lemma LiveDiffer(t: Table, i: nat, j: nat, heap: nat -> bool)
    requires Invariant(t, heap) && i < |t.slots| && j < |t.slots| && i != j && t.slots[i].Live() && t.slots[j].Live()
    ensures t.slots[i].ptr != t.slots[j].ptr && t.slots[i].size > 0
  {
    assert EntryOk(t.slots[i], heap) && EntryOk(t.slots[j], heap);
    if i < j {
      assert EntriesApart(t.slots[i], t.slots[j]);
    } else {
      assert EntriesApart(t.slots[j], t.slots[i]);
    }
  }

  lemma SwapObject(t: Table, i: nat, e: Entry, heap: nat -> bool)
    requires Invariant(t, heap) && i < |t.slots| && t.slots[i].Live()
    ensures Objects(t.slots[i := e]) == Objects(t.slots) - {ObjectOf(t.slots[i])} + (if e.Live() then {ObjectOf(e)} else {})
  {
    hide LiveDisjoint, NoShadow, EntryOk, LifetimeOk;
    var slots, after, old_ := t.slots, t.slots[i := e], ObjectOf(t.slots[i]);
    forall k | 0 <= k < |slots| && k != i && slots[k].Live() ensures ObjectOf(slots[k]) != old_ && after[k] == slots[k] {
      LiveDiffer(t, k, i, heap);
    }
    var goal := Objects(slots) - {old_} + (if e.Live() then {ObjectOf(e)} else {});
    forall o | o in goal ensures o in Objects(after) {
      if e.Live() && o == ObjectOf(e) {
        assert after[i] == e;
      } else {
        var k :| 0 <= k < |slots| && slots[k].Live() && ObjectOf(slots[k]) == o;
        assert after[k] == slots[k];
      }
    }
    forall o | o in Objects(after) ensures o in goal {
      var k :| 0 <= k < |after| && after[k].Live() && ObjectOf(after[k]) == o;
      if k == i {
        assert after[k] == e;
      } else {
        assert after[k] == slots[k] && o in Objects(slots);
      }
    }
  }

  /** Clearing keeps exactly the objects outside the cleared set. */
  lemma ClearObjects(slots: seq<Entry>, p: Entry -> bool, o: Object)
    requires forall i | 0 <= i < |slots| && slots[i].Live() && ObjectOf(slots[i]) == o :: p(slots[i]) == p(EntryOf(o))
    ensures o in Objects(ClearWhere(slots, p)) <==> o in Objects(slots) && !p(EntryOf(o))
  {
    var after := ClearWhere(slots, p);
    if o in Objects(after) {
      var k :| 0 <= k < |after| && after[k].Live() && ObjectOf(after[k]) == o;
      assert after[k] == slots[k];
    }
    if o in Objects(slots) && !p(EntryOf(o)) {
      var k :| 0 <= k < |slots| && slots[k].Live() && ObjectOf(slots[k]) == o;
      assert after[k] == slots[k];
    }
  }

  function EntryOf(o: Object): Entry {
    Entry(o.ptr, o.size, o.frame, o.scope, o.id, o.kind, false)
  }

  lemma FoundObject(slots: seq<Entry>, i: nat)
    requires i < |slots| && slots[i].Live()
    ensures ObjectOf(slots[i]) in Objects(slots)
  {
  }

  lemma SlotOf(slots: seq<Entry>, o: Object) returns (i: nat)
    requires o in Objects(slots)
    ensures i < |slots| && slots[i].Live() && slots[i] == EntryOf(o)
  {
    i :| 0 <= i < |slots| && slots[i].Live() && ObjectOf(slots[i]) == o;
  }

  // ------------------------------------------------------------ registration

  predicate Full(slots: seq<Entry>) {
    forall i | 0 <= i < |slots| :: slots[i].Live()
  }

  /** The effect of a registration, and when it fails. */
  lemma RegisterEffect(t: Table, ptr: nat, size: nat, kind: Kind, frame: nat, scope: nat, heap: nat -> bool)
    requires Invariant(t, heap) && Tidy(t) && !kind.Temporary?
    ensures var m, o := MemoryOf(t), Object(ptr, size, frame, scope, 0, kind);
      match Register(t, ptr, size, kind, frame, scope)
      case Ok(r) => r.Valid() && RegistrationFault(m, ptr, size, kind, frame, scope, Full(t.slots)).None? && MemoryOf(r) == m.(live := m.live + {o})
      case Failed(fault) => RegistrationFault(m, ptr, size, kind, frame, scope, Full(t.slots)) == Some(fault)
  {
    hide LiveDisjoint, NoShadow, EntryOk, LifetimeOk;
    var m, o := MemoryOf(t), Object(ptr, size, frame, scope, 0, kind);
    var p := Exactly(ptr, kind, frame, scope);
    var i := First(t.slots, p);
    if ptr != 0 && size != 0 {
      if i < MAX_OBJECTS {
        assert p(t.slots[i]);
        FoundObject(t.slots, i);
        forall x | x in m.live && SamePlace(x, ptr, kind, frame, scope) ensures x == ObjectOf(t.slots[i]) {
          var k := SlotOf(t.slots, x);
          if k != i {
            LiveDiffer(t, k, i, heap);
          }
        }
        assert SamePlace(ObjectOf(t.slots[i]), ptr, kind, frame, scope);
      } else {
        forall x | x in m.live ensures !SamePlace(x, ptr, kind, frame, scope) {
          var k := SlotOf(t.slots, x);
          assert !p(t.slots[k]);
        }
        PlaceEffect(t, EntryOf(o));
      }
    }
  }

  lemma PlaceEffect(t: Table, e: Entry)
    requires t.Valid() && e.Live()
    ensures Place(t, e).Failed? <==> Full(t.slots)
    ensures Place(t, e).Failed? ==> Place(t, e).fault == RegistryFull
    ensures Place(t, e).Ok? ==> Place(t, e).value.Valid() && MemoryOf(Place(t, e).value) == MemoryOf(t).(live := MemoryOf(t).live + {ObjectOf(e)})
  {
    var i := First(t.slots, Available());
    if i < MAX_OBJECTS {
      assert Available()(t.slots[i]);
      PutObject(t.slots, i, e);
    } else {
      forall k | 0 <= k < |t.slots| ensures t.slots[k].Live() {
        assert !Available()(t.slots[k]);
      }
    }
  }

  lemma AllocEffect(t: Table, size: nat, got: nat, heap: nat -> bool)
    requires Invariant(t, heap) && Tidy(t)
    ensures match Alloc(t, size, got)
      case Ok(r) => r.Valid() && AllocationFault(MemoryOf(t), size, got, Full(t.slots)).None? && MemoryOf(r) == Allocated(MemoryOf(t), size, got)
      case Failed(fault) => AllocationFault(MemoryOf(t), size, got, Full(t.slots)) == Some(fault)
  {
    hide Tidy, MemoryOf, Register;
    if size != 0 && got != 0 {
      RegisterEffect(t, got, size, Heap, 0, 0, heap);
    }
  }

  lemma OverflowExactly(count: nat, size: nat)
    ensures (count != 0 && size > UINT64_MAX / count) <==> count * size > UINT64_MAX
  {
    if count != 0 {
      var q, r := UINT64_MAX / count, UINT64_MAX % count;
      assert UINT64_MAX == q * count + r;
      if size > q {
        MulMono(q + 1, size, count);
        assert (q + 1) * count == q * count + count;
      } else {
        MulMono(size, q, count);
      }
    }
  }

  lemma TemporaryEffect(t: Table, ptr: nat, size: nat, id: nat, heap: nat -> bool)
    requires Invariant(t, heap) && Tidy(t)
    ensures var op := OpRegisterTemporary(ptr, size, id);
      match RegisterTemporary(t, ptr, size, id)
      case Ok(r) => r.Valid() && FaultOf(MemoryOf(t), op, Full(t.slots), false).None? && Effect(MemoryOf(t), op, MemoryOf(r))
      case Failed(fault) => FaultOf(MemoryOf(t), op, Full(t.slots), false) == Some(fault)
  {
    hide LiveDisjoint, NoShadow, EntryOk, LifetimeOk;
    var m, frame, scope := MemoryOf(t), t.frames.current, t.frames.Depth();
    FramesMatch(t);
    if frame > 0 {
      var p := TemporaryOf(frame, scope, id);
      var i := First(t.slots, p);
      if i < MAX_OBJECTS {
        assert p(t.slots[i]);
        FoundObject(t.slots, i);
        forall x | x in m.live ensures FromSite(x, frame, scope, id) <==> x == ObjectOf(t.slots[i]) {
          var k := SlotOf(t.slots, x);
          if k < i {
            assert !p(t.slots[k]);
          } else if k > i {
            LiveDiffer(t, k, i, heap);
          }
        }
        if size == 0 {
          SwapObject(t, i, t.slots[i].Cleared(), heap);
        } else if ptr != 0 {
          SwapObject(t, i, t.slots[i].(ptr := ptr, size := size), heap);
        }
      } else {
        forall x | x in m.live ensures !FromSite(x, frame, scope, id) {
          var k := SlotOf(t.slots, x);
          assert !p(t.slots[k]);
        }
        if size > 0 && ptr != 0 {
          PlaceEffect(t, Entry(ptr, size, frame, scope, id, Temporary, false));
        }
      }
    }
  }

  lemma FramesMatch(t: Table)
    requires t.Valid()
    ensures |MemoryOf(t).depths| == t.frames.current
    ensures t.frames.current > 0 ==> Innermost(MemoryOf(t)) == t.frames.Depth()
  {
  }

  // -------------------------------------------------------------------- heap

  /** The lookup of ptr finds a freed block that starts there. */
  predicate FreedAt(t: Table, ptr: nat)
    requires t.Valid()
  {
    exists i | 0 <= i < |t.slots| :: t.slots[i].Stale() && t.slots[i].ptr == ptr && forall j | 0 <= j < i :: !t.slots[j].Contains(ptr)
  }

  /** A live heap block that starts at ptr is what the lookup finds. */
  lemma BlockFound(t: Table, ptr: nat, heap: nat -> bool)
    requires Invariant(t, heap) && ptr != 0
    ensures var i := First(t.slots, Containing(ptr));
      && (StartsBlock(MemoryOf(t), ptr) <==> i < MAX_OBJECTS && t.slots[i].Live() && t.slots[i].kind.Heap? && t.slots[i].ptr == ptr)
      && (FreedAt(t, ptr) <==> i < MAX_OBJECTS && t.slots[i].Stale() && t.slots[i].kind.Heap? && t.slots[i].ptr == ptr)
  {
    hide LiveDisjoint, NoShadow, LifetimeOk;
    var p := Containing(ptr);
    var i := First(t.slots, p);
    assert i < MAX_OBJECTS ==> p(t.slots[i]) && EntryOk(t.slots[i], heap);
    if StartsBlock(MemoryOf(t), ptr) {
      var o :| o in MemoryOf(t).live && o.kind.Heap? && o.ptr == ptr;
      var k := SlotOf(t.slots, o);
      assert EntryOk(t.slots[k], heap);
      FindReturnsLive(t, k, ptr, heap);
    }
    if i < MAX_OBJECTS && t.slots[i].Live() {
      FoundObject(t.slots, i);
    }
    if FreedAt(t, ptr) {
      var k :| 0 <= k < |t.slots| && t.slots[k].Stale() && t.slots[k].ptr == ptr && forall j | 0 <= j < k :: !t.slots[j].Contains(ptr);
      assert EntryOk(t.slots[k], heap);
      FirstIs(t.slots, p, k);
    }
    forall j | 0 <= j < i ensures !t.slots[j].Contains(ptr) {
      assert !p(t.slots[j]);
    }
  }

  /** Only one block starts at an address. */
  lemma WithoutBlock(t: Table, i: nat, heap: nat -> bool)
    requires Invariant(t, heap) && i < |t.slots| && t.slots[i].Live() && t.slots[i].kind.Heap?
    ensures Without(MemoryOf(t), t.slots[i].ptr).live == MemoryOf(t).live - {ObjectOf(t.slots[i])}
  {
    hide LiveDisjoint, NoShadow, EntryOk, LifetimeOk;
    var m := MemoryOf(t);
    forall o | o in m.live && o.kind.Heap? && o.ptr == t.slots[i].ptr ensures o == ObjectOf(t.slots[i]) {
      var k := SlotOf(t.slots, o);
      if k != i {
        LiveDiffer(t, k, i, heap);
      }
    }
  }

  lemma NothingAtNull(t: Table)
    requires t.Valid()
    ensures Without(MemoryOf(t), 0) == MemoryOf(t)
  {
    forall o | o in MemoryOf(t).live ensures o.ptr != 0 {
      var _ := SlotOf(t.slots, o);
    }
  }

  lemma FreeEffect(t: Table, ptr: nat, heap: nat -> bool)
    requires Invariant(t, heap)
    ensures match Free(t, ptr)
      case Ok(r) => r.Valid() && FreeFault(MemoryOf(t), ptr, FreedAt(t, ptr)).None? && MemoryOf(r) == Without(MemoryOf(t), ptr)
      case Failed(fault) => FreeFault(MemoryOf(t), ptr, FreedAt(t, ptr)) == Some(fault)
  {
    hide LiveDisjoint, NoShadow, EntryOk, LifetimeOk, FreedAt, StartsBlock;
    if ptr == 0 {
      NothingAtNull(t);
    } else {
      BlockFound(t, ptr, heap);
      var i := First(t.slots, Containing(ptr));
      assert i < MAX_OBJECTS ==> Containing(ptr)(t.slots[i]);
      if Free(t, ptr).Ok? {
        SwapObject(t, i, t.slots[i].(freed := true), heap);
        WithoutBlock(t, i, heap);
      }
    }
  }

  lemma ReallocEffect(t: Table, ptr: nat, size: nat, next: nat, heap: nat -> bool)
    requires Invariant(t, heap) && Tidy(t)
    ensures var op := OpRealloc(ptr, size, next);
      match Realloc(t, ptr, size, next)
      case Ok(r) => r.Valid() && FaultOf(MemoryOf(t), op, Full(t.slots), FreedAt(t, ptr)).None? && Effect(MemoryOf(t), op, MemoryOf(r))
      case Failed(fault) => FaultOf(MemoryOf(t), op, Full(t.slots), FreedAt(t, ptr)) == Some(fault)
  {
    hide LiveDisjoint, NoShadow, EntryOk, LifetimeOk, FreedAt, StartsBlock, AllocationFault, FreeFault;
    if ptr == 0 {
      AllocEffect(t, size, next, heap);
      NothingAtNull(t);
    } else if size == 0 {
      FreeEffect(t, ptr, heap);
    } else {
      BlockFound(t, ptr, heap);
      var i := First(t.slots, Containing(ptr));
      assert i < MAX_OBJECTS ==> Containing(ptr)(t.slots[i]);
      if Realloc(t, ptr, size, next).Ok? {
        SwapObject(t, i, t.slots[i].(ptr := next, size := size, frame := 0, kind := Heap, freed := false), heap);
        WithoutBlock(t, i, heap);
        assert TidyEntry(t.slots[i]);
      }
    }
  }

  // ------------------------------------------------------- frames and scopes

  lemma FrameExitEffect(t: Table, heap: nat -> bool)
    requires Invariant(t, heap) && FrameExit(t).Ok?
    ensures FrameExit(t).value.Valid() && Effect(MemoryOf(t), OpFrameExit, MemoryOf(FrameExit(t).value))
  {
    hide LiveDisjoint, NoShadow, EntryOk, LifetimeOk;
    var m, r, frame := MemoryOf(t), MemoryOf(FrameExit(t).value), t.frames.current;
    FramesMatch(t);
    assert r.depths == m.depths[..frame - 1];
    forall o ensures o in r.live <==> o in m.live && !(OnStack(o) && o.frame == frame) {
      NonNull(t, o);
      ClearObjects(t.slots, InFrame(frame), o);
    }
  }

  lemma NonNull(t: Table, o: Object)
    requires t.Valid()
    ensures o in MemoryOf(t).live ==> o.ptr != 0
  {
    if o in MemoryOf(t).live {
      var _ := SlotOf(t.slots, o);
    }
  }

  lemma ScopeExitToEffect(t: Table, target: nat, heap: nat -> bool)
    requires Invariant(t, heap) && t.frames.current > 0 && target <= t.frames.Depth()
    ensures ExitScopes(t, target).Ok? && ExitScopes(t, target).value.Valid()
    ensures MemoryOf(t).depths != [] && LeftTo(MemoryOf(t), MemoryOf(ExitScopes(t, target).value), target)
  {
    ExitScopesClears(t, target, heap);
    ExitScopesKeeps(t, target, heap);
    hide LiveDisjoint, NoShadow, EntryOk, LifetimeOk, ExitScopes;
    var m, r, frame := MemoryOf(t), MemoryOf(ExitScopes(t, target).value), t.frames.current;
    FramesMatch(t);
    assert r.depths == m.depths[frame - 1 := target];
    forall o ensures o in r.live <==> o in m.live && !(OnStack(o) && o.frame == frame && o.scope > target) {
      NonNull(t, o);
      ClearObjects(t.slots, Exited(frame, target), o);
    }
  }

  lemma ScopeExitIsExitTo(t: Table, heap: nat -> bool)
    requires Invariant(t, heap) && ScopeExit(t).Ok?
    ensures ExitScopes(t, t.frames.Depth() - 1) == ScopeExit(t)
  {
    hide LiveDisjoint, NoShadow, EntryOk, LifetimeOk, ClearWhere;
    assert ExitScopes(ScopeExit(t).value, t.frames.Depth() - 1) == ScopeExit(t);
  }

  // --------------------------------------------------------------- every step

  /** What an operation looks up. */
  function LookedUp(op: Op): nat {
    match op
    case OpFree(ptr) => ptr
    case OpRealloc(ptr, _, _) => ptr
    case _ => 0
  }

  /** Every operation has its effect on the objects, or fails exactly when and how it should. */
  lemma ApplyEffect(t: Table, op: Op, heap: nat -> bool)
    requires Invariant(t, heap) && Tidy(t)
    ensures var fault := FaultOf(MemoryOf(t), op, Full(t.slots), FreedAt(t, LookedUp(op)));
      match Apply(t, op)
      case Ok(r) => r.Valid() && fault.None? && Effect(MemoryOf(t), op, MemoryOf(r))
      case Failed(f) => fault == Some(f)
  {
    hide LiveDisjoint, NoShadow, EntryOk, LifetimeOk, Tidy, FreedAt, Full, StartsBlock, Register, Place, RegistrationFault, AllocationFault, FreeFault, LeftTo, Objects,
      RegisterTemporary, Free, Realloc, Alloc, ExitScopes;
    FramesMatch(t);
    match op
    case OpRegisterLocal(ptr, size) => RegisterEffect(t, ptr, size, Local, t.frames.current, t.frames.Depth(), heap);
    case OpRegisterStatic(ptr, size) => RegisterEffect(t, ptr, size, Static, 0, 0, heap);
    case OpRegisterTemporary(ptr, size, id) => TemporaryEffect(t, ptr, size, id, heap);
    case OpAlloc(size, got) => AllocEffect(t, size, got, heap);
    case OpCalloc(count, size, got) =>
      OverflowExactly(count, size);
      AllocEffect(t, count * size, got, heap);
    case OpRealloc(ptr, size, next) => ReallocEffect(t, ptr, size, next, heap);
    case OpFree(ptr) => FreeEffect(t, ptr, heap);
    case OpFrameEnter => FrameEnterEffect(t);
    case OpFrameExit =>
      if t.frames.current > 0 {
        FrameExitEffect(t, heap);
      }
    case OpScopeEnter => ScopeEnterEffect(t);
    case OpScopeExit =>
      if t.frames.current > 0 && t.frames.Depth() > 0 {
        ScopeExitIsExitTo(t, heap);
        ScopeExitToEffect(t, t.frames.Depth() - 1, heap);
      }
    case OpScopeExitTo(target) =>
      if t.frames.current > 0 && target <= t.frames.Depth() {
        ScopeExitToEffect(t, target, heap);
      }
  }

  lemma FrameEnterEffect(t: Table)
    requires t.Valid()
    ensures FrameEnter(t).Ok? ==>
      FrameEnter(t).value.Valid() && MemoryOf(FrameEnter(t).value) == MemoryOf(t).(depths := MemoryOf(t).depths + [0])
  {
    if FrameEnter(t).Ok? {
      var n, r := t.frames.current, FrameEnter(t).value;
      assert r.frames.scopes[1..n + 2] == t.frames.scopes[1..n + 1] + [0];
    }
  }

  lemma ScopeEnterEffect(t: Table)
    requires t.Valid()
    ensures ScopeEnter(t).Ok? ==>
      && ScopeEnter(t).value.Valid() && t.frames.current > 0
      && MemoryOf(ScopeEnter(t).value) == MemoryOf(t).(depths := MemoryOf(t).depths[t.frames.current - 1 := t.frames.Depth() + 1])
  {
    if ScopeEnter(t).Ok? {
      var n, r := t.frames.current, ScopeEnter(t).value;
      assert r.frames.scopes[1..n + 1] == t.frames.scopes[1..n + 1][n - 1 := t.frames.Depth() + 1];
    }
  }

  // ---------------------------------------------------------------- every run

  ghost predicate TidyMemory(m: Memory) {
    && (forall o :: o in m.live ==> TidyEntry(EntryOf(o)))
    && (forall a, b :: a in m.live && b in m.live && SameSite(EntryOf(a), EntryOf(b)) ==> a == b)
  }

  lemma TidyExactly(t: Table, heap: nat -> bool)
    requires Invariant(t, heap)
    ensures Tidy(t) <==> TidyMemory(MemoryOf(t))
  {
    hide LiveDisjoint, NoShadow, EntryOk, LifetimeOk;
    var m := MemoryOf(t);
    if Tidy(t) {
      forall a, b | a in m.live && b in m.live && SameSite(EntryOf(a), EntryOf(b)) ensures a == b {
        var i := SlotOf(t.slots, a);
        var j := SlotOf(t.slots, b);
        assert !(i < j) && !(j < i);
      }
      forall o | o in m.live ensures TidyEntry(EntryOf(o)) {
        var _ := SlotOf(t.slots, o);
      }
    }
    if TidyMemory(m) {
      forall i | 0 <= i < |t.slots| && t.slots[i].Live() ensures TidyEntry(t.slots[i]) {
        FoundObject(t.slots, i);
        assert TidyEntry(EntryOf(ObjectOf(t.slots[i])));
      }
      forall i, j | 0 <= i < j < |t.slots| && t.slots[i].Live() && t.slots[j].Live() ensures !SameSite(t.slots[i], t.slots[j]) {
        FoundObject(t.slots, i);
        FoundObject(t.slots, j);
        LiveDiffer(t, i, j, heap);
        assert EntryOf(ObjectOf(t.slots[i])) == t.slots[i] && EntryOf(ObjectOf(t.slots[j])) == t.slots[j];
      }
    }
  }

  lemma EffectKeepsTidy(m: Memory, op: Op, r: Memory)
    requires TidyMemory(m) && Effect(m, op, r)
    ensures TidyMemory(r)
  {
  }

  /** The set of objects goes through the same steps. */
  ghost predicate Runs(m: Memory, ops: seq<Op>, r: Memory)
    decreases |ops|
  {
    if ops == [] then r == m else exists next :: Effect(m, ops[0], next) && Runs(next, ops[1..], r)
  }

  lemma {:induction false} RunRefines(t: Table, ops: seq<Op>, r: Table, heap: nat -> bool)
    requires Invariant(t, heap) && Tidy(t) && Reaches(t, ops, r, heap)
    ensures Invariant(r, heap) && Tidy(r) && Runs(MemoryOf(t), ops, MemoryOf(r))
    decreases |ops|
  {
    hide LiveDisjoint, NoShadow, EntryOk, LifetimeOk, Tidy, MemoryOf, Apply, Allowed, Effect, FaultOf;
    if ops != [] {
      var next := Apply(t, ops[0]).value;
      ApplyEffect(t, ops[0], heap);
      ApplyKeeps(t, ops[0], heap);
      TidyExactly(t, heap);
      EffectKeepsTidy(MemoryOf(t), ops[0], MemoryOf(next));
      TidyExactly(next, heap);
      RunRefines(next, ops[1..], r, heap);
    }
  }

  /** Every run of the table, from its empty state, is a run of the set of objects. */
  lemma EveryRunRefines(ops: seq<Op>, r: Table, heap: nat -> bool)
    requires Reaches(EmptyTable(), ops, r, heap)
    ensures r.Valid() && Runs(Memory({}, []), ops, MemoryOf(r))
  {
    hide LiveDisjoint, NoShadow, EntryOk, LifetimeOk, Reaches, Runs;
    EmptyInvariant(heap);
    assert MemoryOf(EmptyTable()) == Memory({}, []);
    RunRefines(EmptyTable(), ops, r, heap);
  }

  /** A check of a nonempty range succeeds exactly when it lies inside one object of the set. */
  lemma CheckSeesObjects(t: Table, ptr: nat, size: nat, heap: nat -> bool)
    requires Invariant(t, heap) && size > 0
    ensures Check(t, ptr, size).Ok? <==> exists o :: o in MemoryOf(t).live && o.ptr <= ptr && ptr + size <= o.ptr + o.size
  {
    hide LiveDisjoint, NoShadow, EntryOk, LifetimeOk, Check;
    CheckIsExact(t, ptr, size, heap);
    if InsideLive(t, ptr, size) {
      var i :| 0 <= i < |t.slots| && Encloses(t.slots[i], ptr, size);
      FoundObject(t.slots, i);
      assert ObjectOf(t.slots[i]).ptr <= ptr;
    }
    if o :| o in MemoryOf(t).live && o.ptr <= ptr && ptr + size <= o.ptr + o.size {
      var i := SlotOf(t.slots, o);
      assert Encloses(t.slots[i], ptr, size);
    }
  }

  /** For one: a local that has been registered can be accessed. */
  lemma RegisteredLocalIsAccessible(t: Table, ptr: nat, size: nat, heap: nat -> bool)
    requires Invariant(t, heap) && Tidy(t) && Allowed(t, OpRegisterLocal(ptr, size), heap) && RegisterLocal(t, ptr, size).Ok?
    ensures var r := RegisterLocal(t, ptr, size).value; r.Valid() && Check(r, ptr, size).Ok?
  {
    hide LiveDisjoint, NoShadow, EntryOk, LifetimeOk, Check, Register, Objects;
    var op, r := OpRegisterLocal(ptr, size), RegisterLocal(t, ptr, size).value;
    ApplyEffect(t, op, heap);
    ApplyKeeps(t, op, heap);
    CheckSeesObjects(r, ptr, size, heap);
    assert Object(ptr, size, |MemoryOf(t).depths|, Innermost(MemoryOf(t)), 0, Local) in MemoryOf(r).live;
  }
}
