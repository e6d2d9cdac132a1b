/**
  The checked-memory registry of runtime/hitsimple_runtime.c as functions on its state:
  a table of 1024 slots searched linearly, the frame counters, and every operation.
  Addresses are naturals, 0 is NULL; an operation that calls hs_fail yields its fault.
  The pointer malloc, calloc or realloc returns is a parameter.
 */
module Registry {
  import opened RuntimeFrames

  const MAX_OBJECTS: nat := 1024

  datatype Kind = Heap | Static | Local | Temporary

  datatype Entry = Entry(ptr: nat, size: nat, frame: nat, scope: nat, id: nat, kind: Kind, freed: bool) {
    predicate Live() {
      ptr != 0 && !freed
    }

    /** A freed block that is still in the table. */
    predicate Stale() {
      ptr != 0 && freed
    }

    predicate Contains(address: nat) {
      ptr != 0 && ptr <= address < ptr + size
    }

    predicate Scoped() {
      kind.Local? || kind.Temporary?
    }

    function Cleared(): Entry {
      Entry(0, 0, 0, 0, 0, kind, false)
    }
  }

  datatype Table = Table(slots: seq<Entry>, frames: Frames) {
    predicate Valid() {
      |slots| == MAX_OBJECTS && frames.Valid()
    }
  }

  function EmptyTable(): (t: Table)
    ensures t.Valid()
  {
    Table(seq(MAX_OBJECTS, _ => Entry(0, 0, 0, 0, 0, Heap, false)), InitialFrames())
  }

  // --------------------------------------------------------------- searches

  /** The lowest slot satisfying p, or the number of slots. */
  function First(slots: seq<Entry>, p: Entry -> bool): (i: nat)
    ensures i <= |slots|
    ensures forall j | 0 <= j < i :: !p(slots[j])
    ensures i < |slots| ==> p(slots[i])
  {
    if slots == [] then 0
    else if p(slots[0]) then 0
    else
      var r := First(slots[1..], p);
      assert forall j | 0 < j <= r :: slots[j] == slots[1..][j - 1] || j == r;
      1 + r
  }

  lemma FirstIs(slots: seq<Entry>, p: Entry -> bool, i: nat)
    requires i <= |slots| && (forall j | 0 <= j < i :: !p(slots[j])) && (i < |slots| ==> p(slots[i]))
    ensures First(slots, p) == i
  {
    var f := First(slots, p);
    assert f < |slots| ==> p(slots[f]);
  }

  function Containing(address: nat): Entry -> bool {
    (e: Entry) => e.Contains(address)
  }

  function Available(): Entry -> bool {
    (e: Entry) => e.ptr == 0 || e.freed
  }

  function Exactly(ptr: nat, kind: Kind, frame: nat, scope: nat): Entry -> bool {
    (e: Entry) => e.ptr == ptr && e.kind == kind && e.frame == frame && e.scope == scope && !e.freed
  }

  function TemporaryOf(frame: nat, scope: nat, id: nat): Entry -> bool {
    (e: Entry) => e.ptr != 0 && e.kind.Temporary? && e.frame == frame && e.scope == scope && e.id == id && !e.freed
  }

  // ----------------------------------------------------------- registration

  function Place(t: Table, e: Entry): Outcome<Table>
    requires t.Valid()
  {
    var i := First(t.slots, Available());
    if i == MAX_OBJECTS then Failed(RegistryFull) else Ok(t.(slots := t.slots[i := e]))
  }

  function Register(t: Table, ptr: nat, size: nat, kind: Kind, frame: nat, scope: nat): Outcome<Table>
    requires t.Valid()
  {
    if ptr == 0 || size == 0 then Failed(InvalidRegistration)
    else
      var existing := First(t.slots, Exactly(ptr, kind, frame, scope));
      if existing < MAX_OBJECTS then
        if t.slots[existing].size != size then Failed(ConflictingRegistration) else Ok(t)
      else Place(t, Entry(ptr, size, frame, scope, 0, kind, false))
  }

  function RegisterLocal(t: Table, ptr: nat, size: nat): Outcome<Table>
    requires t.Valid()
  {
    if t.frames.current == 0 then Failed(ObjectOutsideFrame)
    else Register(t, ptr, size, Local, t.frames.current, t.frames.Depth())
  }

  function RegisterStatic(t: Table, ptr: nat, size: nat): Outcome<Table>
    requires t.Valid()
  {
    Register(t, ptr, size, Static, 0, 0)
  }

  /** One slot per temporary site and scope; an empty result clears it. */
  function RegisterTemporary(t: Table, ptr: nat, size: nat, id: nat): Outcome<Table>
    requires t.Valid()
  {
    if t.frames.current == 0 then Failed(ObjectOutsideFrame)
    else
      var frame, scope := t.frames.current, t.frames.Depth();
      var existing := First(t.slots, TemporaryOf(frame, scope, id));
      if size == 0 then
        if existing < MAX_OBJECTS then Ok(t.(slots := t.slots[existing := t.slots[existing].Cleared()])) else Ok(t)
      else if ptr == 0 then Failed(InvalidRegistration)
      else if existing < MAX_OBJECTS then
        Ok(t.(slots := t.slots[existing := t.slots[existing].(ptr := ptr, size := size)]))
      else Place(t, Entry(ptr, size, frame, scope, id, Temporary, false))
  }

  // -------------------------------------------------------- heap operations

  /** `got` is what malloc returned. */
  function Alloc(t: Table, size: nat, got: nat): Outcome<Table>
    requires t.Valid()
  {
    if size == 0 then Ok(t)
    else if got == 0 then Failed(NullAllocation)
    else Register(t, got, size, Heap, 0, 0)
  }

  function Calloc(t: Table, count: nat, size: nat, got: nat): Outcome<Table>
    requires t.Valid()
  {
    if count != 0 && size > UINT64_MAX / count then Failed(SizeOverflow) else Alloc(t, count * size, got)
  }

  function Free(t: Table, ptr: nat): Outcome<Table>
    requires t.Valid()
  {
    if ptr == 0 then Ok(t)
    else
      var i := First(t.slots, Containing(ptr));
      if i == MAX_OBJECTS || t.slots[i].ptr != ptr || !t.slots[i].kind.Heap? then Failed(InvalidFree)
      else if t.slots[i].freed then Failed(DoubleFree)
      else Ok(t.(slots := t.slots[i := t.slots[i].(freed := true)]))
  }

  /** Rewrites the slot in place with the block realloc returned. */
  function Realloc(t: Table, ptr: nat, size: nat, next: nat): Outcome<Table>
    requires t.Valid()
  {
    if ptr == 0 then Alloc(t, size, next)
    else if size == 0 then Free(t, ptr)
    else
      var i := First(t.slots, Containing(ptr));
      if i == MAX_OBJECTS || t.slots[i].freed || t.slots[i].ptr != ptr || !t.slots[i].kind.Heap? then Failed(InvalidRealloc)
      else if next == 0 then Failed(NullAllocation)
      else Ok(t.(slots := t.slots[i := t.slots[i].(ptr := next, size := size, frame := 0, kind := Heap, freed := false)]))
  }

  /** hs_check on a load or a store. */
  function Check(t: Table, ptr: nat, size: nat): Outcome<()>
    requires t.Valid()
  {
    if size == 0 then Ok(())
    else if ptr == 0 then Failed(NullAddress)
    else
      var i := First(t.slots, Containing(ptr));
      if i == MAX_OBJECTS || t.slots[i].freed then Failed(InvalidAccess)
      else if size > t.slots[i].size || ptr - t.slots[i].ptr > t.slots[i].size - size then Failed(InvalidAccess)
      else Ok(())
  }

  // ------------------------------------------------------ frames and scopes

  function InFrame(frame: nat): Entry -> bool {
    (e: Entry) => e.ptr != 0 && e.Scoped() && e.frame == frame
  }

  function InScope(frame: nat, scope: nat): Entry -> bool {
    (e: Entry) => e.ptr != 0 && e.Scoped() && e.frame == frame && e.scope == scope
  }

  /** The clearing loop: every slot satisfying p is cleared. */
  function ClearWhere(slots: seq<Entry>, p: Entry -> bool): (r: seq<Entry>)
    ensures |r| == |slots|
    ensures forall i | 0 <= i < |slots| :: r[i] == if p(slots[i]) then slots[i].Cleared() else slots[i]
  {
    seq(|slots|, i requires 0 <= i < |slots| => if p(slots[i]) then slots[i].Cleared() else slots[i])
  }

  function FrameEnter(t: Table): Outcome<Table>
    requires t.Valid()
  {
    match t.frames.FrameEnter()
    case Failed(fault) => Failed(fault)
    case Ok(frames) => Ok(t.(frames := frames))
  }

  function FrameExit(t: Table): Outcome<Table>
    requires t.Valid()
  {
    match t.frames.FrameExit()
    case Failed(fault) => Failed(fault)
    case Ok(frames) => Ok(Table(ClearWhere(t.slots, InFrame(t.frames.current)), frames))
  }

  function ScopeEnter(t: Table): Outcome<Table>
    requires t.Valid()
  {
    match t.frames.ScopeEnter()
    case Failed(fault) => Failed(fault)
    case Ok(frames) => Ok(t.(frames := frames))
  }

  function ScopeExit(t: Table): Outcome<Table>
    requires t.Valid()
  {
    match t.frames.ScopeExit()
    case Failed(fault) => Failed(fault)
    case Ok(frames) => Ok(Table(ClearWhere(t.slots, InScope(t.frames.current, t.frames.Depth())), frames))
  }

  /** Exit scopes one at a time until the target depth. */
  function ExitScopes(t: Table, target: nat): (r: Outcome<Table>)
    requires t.Valid() && target <= t.frames.Depth() && t.frames.current > 0
    decreases t.frames.Depth()
  {
    if t.frames.Depth() == target then Ok(t)
    else ExitScopes(ScopeExit(t).value, target)
  }

  function ScopeExitTo(t: Table, target: nat): Outcome<Table>
    requires t.Valid()
  {
    if t.frames.current == 0 || target > t.frames.Depth() then Failed(InvalidScopeExit)
    else ExitScopes(t, target)
  }

  // ------------------------------------------------------------------ runs

  datatype Op =
    | OpRegisterLocal(ptr: nat, size: nat)
    | OpRegisterStatic(ptr: nat, size: nat)
    | OpRegisterTemporary(ptr: nat, size: nat, id: nat)
    | OpAlloc(size: nat, got: nat)
    | OpCalloc(count: nat, size: nat, got: nat)
    | OpRealloc(ptr: nat, size: nat, next: nat)
    | OpFree(ptr: nat)
    | OpFrameEnter
    | OpFrameExit
    | OpScopeEnter
    | OpScopeExit
    | OpScopeExitTo(target: nat)

  function Apply(t: Table, op: Op): Outcome<Table>
    requires t.Valid()
  {
    match op
    case OpRegisterLocal(ptr, size) => RegisterLocal(t, ptr, size)
    case OpRegisterStatic(ptr, size) => RegisterStatic(t, ptr, size)
    case OpRegisterTemporary(ptr, size, id) => RegisterTemporary(t, ptr, size, id)
    case OpAlloc(size, got) => Alloc(t, size, got)
    case OpCalloc(count, size, got) => Calloc(t, count, size, got)
    case OpRealloc(ptr, size, next) => Realloc(t, ptr, size, next)
    case OpFree(ptr) => Free(t, ptr)
    case OpFrameEnter => FrameEnter(t)
    case OpFrameExit => FrameExit(t)
    case OpScopeEnter => ScopeEnter(t)
    case OpScopeExit => ScopeExit(t)
    case OpScopeExitTo(target) => ScopeExitTo(t, target)
  }
}
