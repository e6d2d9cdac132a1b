/**
  The registry in the source's own form: global arrays updated in place by scanning
  loops. Every operation is proved to compute the function of the same name on the
  table; on a fault the table is left as it was.
 */
module RegistryRuntime {
  import opened RuntimeFrames
  import opened Registry

  /** The outcome of an operation agrees with what the function on tables says. */
  ghost predicate Matches(expected: Outcome<Table>, r: Outcome<()>, before: Table, after: Table) {
    match expected
    case Ok(t) => r == Ok(()) && after == t
    case Failed(fault) => r == Failed(fault) && after == before
  }

  class Runtime {
    const allocs: array<Entry>
    const frameScopes: array<nat>
    var currentFrame: nat

    ghost predicate Valid()
      reads this, allocs, frameScopes
    {
      allocs.Length == MAX_OBJECTS && frameScopes.Length == MAX_FRAMES && Value().Valid()
    }

    ghost function Value(): Table
      reads this, allocs, frameScopes
    {
      Table(allocs[..], Frames(currentFrame, frameScopes[..]))
    }

    constructor ()
      ensures Valid() && Value() == EmptyTable()
      ensures fresh(allocs) && fresh(frameScopes)
    {
      allocs := new Entry[MAX_OBJECTS](_ => Entry(0, 0, 0, 0, 0, Heap, false));
      frameScopes := new nat[MAX_FRAMES](_ => 0);
      currentFrame := 0;
      new;
      assert allocs[..] == EmptyTable().slots && frameScopes[..] == EmptyTable().frames.scopes;
    }

    /** hs_find: the first entry, freed or not, that contains the address. */
    method Find(address: nat) returns (i: nat)
      requires Valid()
      ensures i == First(allocs[..], Containing(address))
    {
      i := 0;
      while i < allocs.Length
        invariant 0 <= i <= allocs.Length
        invariant forall j | 0 <= j < i :: !allocs[j].Contains(address)
      {
        if allocs[i].ptr != 0 && address >= allocs[i].ptr && address - allocs[i].ptr < allocs[i].size {
          break;
        }
        i := i + 1;
      }
      FirstIs(allocs[..], Containing(address), i);
    }

    /** hs_slot: the lowest empty or freed slot. */
    method Slot() returns (i: nat)
      requires Valid()
      ensures i == First(allocs[..], Available())
    {
      i := 0;
      while i < allocs.Length
        invariant 0 <= i <= allocs.Length
        invariant forall j | 0 <= j < i :: allocs[j].ptr != 0 && !allocs[j].freed
      {
        if allocs[i].ptr == 0 || allocs[i].freed {
          break;
        }
        i := i + 1;
      }
      FirstIs(allocs[..], Available(), i);
    }

    method FindExact(ptr: nat, kind: Kind, frame: nat, scope: nat) returns (i: nat)
      requires Valid()
      ensures i == First(allocs[..], Exactly(ptr, kind, frame, scope))
    {
      i := 0;
      while i < allocs.Length
        invariant 0 <= i <= allocs.Length
        invariant forall j | 0 <= j < i :: !Exactly(ptr, kind, frame, scope)(allocs[j])
      {
        if allocs[i].ptr == ptr && allocs[i].kind == kind && allocs[i].frame == frame &&
           allocs[i].scope == scope && !allocs[i].freed {
          break;
        }
        i := i + 1;
      }
      FirstIs(allocs[..], Exactly(ptr, kind, frame, scope), i);
    }

    method FindTemporary(frame: nat, scope: nat, id: nat) returns (i: nat)
      requires Valid()
      ensures i == First(allocs[..], TemporaryOf(frame, scope, id))
    {
      i := 0;
      while i < allocs.Length
        invariant 0 <= i <= allocs.Length
        invariant forall j | 0 <= j < i :: !TemporaryOf(frame, scope, id)(allocs[j])
      {
        if allocs[i].ptr != 0 && allocs[i].kind.Temporary? && allocs[i].frame == frame &&
           allocs[i].scope == scope && allocs[i].id == id && !allocs[i].freed {
          break;
        }
        i := i + 1;
      }
      FirstIs(allocs[..], TemporaryOf(frame, scope, id), i);
    }

    method PlaceEntry(e: Entry) returns (r: Outcome<()>)
      requires Valid()
      modifies allocs
      ensures Valid() && Matches(Place(old(Value()), e), r, old(Value()), Value())
    {
      hide First;
      var slot := Slot();
      if slot == MAX_OBJECTS {
        return Failed(RegistryFull);
      }
      allocs[slot] := e;
      r := Ok(());
    }

    method RegisterObject(ptr: nat, size: nat, kind: Kind, frame: nat, scope: nat) returns (r: Outcome<()>)
      requires Valid()
      modifies allocs
      ensures Valid() && Matches(Register(old(Value()), ptr, size, kind, frame, scope), r, old(Value()), Value())
    {
      hide First, Place;
      if ptr == 0 || size == 0 {
        return Failed(InvalidRegistration);
      }
      var existing := FindExact(ptr, kind, frame, scope);
      if existing < MAX_OBJECTS {
        if allocs[existing].size != size {
          return Failed(ConflictingRegistration);
        }
        return Ok(());
      }
      r := PlaceEntry(Entry(ptr, size, frame, scope, 0, kind, false));
    }

    method RegisterLocalObject(ptr: nat, size: nat) returns (r: Outcome<()>)
      requires Valid()
      modifies allocs
      ensures Valid() && Matches(RegisterLocal(old(Value()), ptr, size), r, old(Value()), Value())
    {
      hide Register;
      if currentFrame == 0 {
        return Failed(ObjectOutsideFrame);
      }
      r := RegisterObject(ptr, size, Local, currentFrame, frameScopes[currentFrame]);
    }

    method RegisterStaticObject(ptr: nat, size: nat) returns (r: Outcome<()>)
      requires Valid()
      modifies allocs
      ensures Valid() && Matches(RegisterStatic(old(Value()), ptr, size), r, old(Value()), Value())
    {
      hide Register;
      r := RegisterObject(ptr, size, Static, 0, 0);
    }

    method RegisterTemporaryObject(ptr: nat, size: nat, id: nat) returns (r: Outcome<()>)
      requires Valid()
      modifies allocs
      ensures Valid() && Matches(RegisterTemporary(old(Value()), ptr, size, id), r, old(Value()), Value())
    {
      hide First, Place;
      if currentFrame == 0 {
        return Failed(ObjectOutsideFrame);
      }
      var scope := frameScopes[currentFrame];
      var existing := FindTemporary(currentFrame, scope, id);
      if size == 0 {
        if existing < MAX_OBJECTS {
          allocs[existing] := allocs[existing].Cleared();
        }
        return Ok(());
      }
      if ptr == 0 {
        return Failed(InvalidRegistration);
      }
      if existing < MAX_OBJECTS {
        allocs[existing] := allocs[existing].(ptr := ptr, size := size);
        return Ok(());
      }
      r := PlaceEntry(Entry(ptr, size, currentFrame, scope, id, Temporary, false));
    }

    method AllocObject(size: nat, got: nat) returns (r: Outcome<()>)
      requires Valid()
      modifies allocs
      ensures Valid() && Matches(Alloc(old(Value()), size, got), r, old(Value()), Value())
    {
      hide Register;
      if size == 0 {
        return Ok(());
      }
      if got == 0 {
        return Failed(NullAllocation);
      }
      r := RegisterObject(got, size, Heap, 0, 0);
    }

    method CallocObject(count: nat, size: nat, got: nat) returns (r: Outcome<()>)
      requires Valid()
      modifies allocs
      ensures Valid() && Matches(Calloc(old(Value()), count, size, got), r, old(Value()), Value())
    {
      hide Alloc;
      if count != 0 && size > UINT64_MAX / count {
        return Failed(SizeOverflow);
      }
      r := AllocObject(count * size, got);
    }

    method FreeObject(ptr: nat) returns (r: Outcome<()>)
      requires Valid()
      modifies allocs
      ensures Valid() && Matches(Free(old(Value()), ptr), r, old(Value()), Value())
    {
      hide First;
      if ptr == 0 {
        return Ok(());
      }
      var i := Find(ptr);
      if i == MAX_OBJECTS || allocs[i].ptr != ptr || !allocs[i].kind.Heap? {
        return Failed(InvalidFree);
      }
      if allocs[i].freed {
        return Failed(DoubleFree);
      }
      allocs[i] := allocs[i].(freed := true);
      r := Ok(());
    }

    method ReallocObject(ptr: nat, size: nat, next: nat) returns (r: Outcome<()>)
      requires Valid()
      modifies allocs
      ensures Valid() && Matches(Realloc(old(Value()), ptr, size, next), r, old(Value()), Value())
    {
      hide First, Alloc, Free;
      if ptr == 0 {
        r := AllocObject(size, next);
        return;
      }
      if size == 0 {
        r := FreeObject(ptr);
        return;
      }
      var i := Find(ptr);
      if i == MAX_OBJECTS || allocs[i].freed || allocs[i].ptr != ptr || !allocs[i].kind.Heap? {
        return Failed(InvalidRealloc);
      }
      if next == 0 {
        return Failed(NullAllocation);
      }
      allocs[i] := allocs[i].(ptr := next, size := size, frame := 0, kind := Heap, freed := false);
      r := Ok(());
    }

    method CheckAccess(ptr: nat, size: nat) returns (r: Outcome<()>)
      requires Valid()
      ensures r == Check(Value(), ptr, size)
    {
      if size == 0 {
        return Ok(());
      }
      if ptr == 0 {
        return Failed(NullAddress);
      }
      var i := Find(ptr);
      if i == MAX_OBJECTS || allocs[i].freed {
        return Failed(InvalidAccess);
      }
      if size > allocs[i].size || ptr - allocs[i].ptr > allocs[i].size - size {
        return Failed(InvalidAccess);
      }
      r := Ok(());
    }

    method EnterFrame() returns (r: Outcome<()>)
      requires Valid()
      modifies this`currentFrame, frameScopes
      ensures Valid() && Matches(FrameEnter(old(Value())), r, old(Value()), Value())
    {
      if currentFrame + 1 >= MAX_FRAMES {
        return Failed(FrameOverflow);
      }
      currentFrame := currentFrame + 1;
      frameScopes[currentFrame] := 0;
      assert frameScopes[..] == old(frameScopes[..])[currentFrame := 0];
      r := Ok(());
    }

    method EnterScope() returns (r: Outcome<()>)
      requires Valid()
      modifies frameScopes
      ensures Valid() && Matches(ScopeEnter(old(Value())), r, old(Value()), Value())
    {
      if currentFrame == 0 {
        return Failed(ScopeOutsideFrame);
      }
      if frameScopes[currentFrame] == UINT64_MAX {
        return Failed(ScopeOverflow);
      }
      frameScopes[currentFrame] := frameScopes[currentFrame] + 1;
      assert frameScopes[..] == old(frameScopes[..])[currentFrame := old(frameScopes[currentFrame]) + 1];
      r := Ok(());
    }

    /** The clearing loop of hs_frame_exit. */
    method ClearFrame(frame: nat)
      requires Valid()
      modifies allocs
      ensures Valid() && Value() == old(Value()).(slots := ClearWhere(old(Value()).slots, InFrame(frame)))
    {
      var i := 0;
      while i < allocs.Length
        invariant 0 <= i <= allocs.Length
        invariant forall j | 0 <= j < i :: allocs[j] == ClearWhere(old(allocs[..]), InFrame(frame))[j]
        invariant forall j | i <= j < allocs.Length :: allocs[j] == old(allocs[j])
      {
        if allocs[i].ptr != 0 && (allocs[i].kind.Local? || allocs[i].kind.Temporary?) && allocs[i].frame == frame {
          allocs[i] := allocs[i].Cleared();
        }
        i := i + 1;
      }
      assert allocs[..] == ClearWhere(old(allocs[..]), InFrame(frame));
    }

    /** The clearing loop of hs_scope_exit. */
    method ClearScope(frame: nat, scope: nat)
      requires Valid()
      modifies allocs
      ensures Valid() && Value() == old(Value()).(slots := ClearWhere(old(Value()).slots, InScope(frame, scope)))
    {
      var i := 0;
      while i < allocs.Length
        invariant 0 <= i <= allocs.Length
        invariant forall j | 0 <= j < i :: allocs[j] == ClearWhere(old(allocs[..]), InScope(frame, scope))[j]
        invariant forall j | i <= j < allocs.Length :: allocs[j] == old(allocs[j])
      {
        if allocs[i].ptr != 0 && (allocs[i].kind.Local? || allocs[i].kind.Temporary?) &&
           allocs[i].frame == frame && allocs[i].scope == scope {
          allocs[i] := allocs[i].Cleared();
        }
        i := i + 1;
      }
      assert allocs[..] == ClearWhere(old(allocs[..]), InScope(frame, scope));
    }

    method ExitFrame() returns (r: Outcome<()>)
      requires Valid()
      modifies this`currentFrame, frameScopes, allocs
      ensures Valid() && Matches(FrameExit(old(Value())), r, old(Value()), Value())
    {
      if currentFrame == 0 {
        return Failed(FrameUnderflow);
      }
      ClearFrame(currentFrame);
      frameScopes[currentFrame] := 0;
      assert frameScopes[..] == old(frameScopes[..])[currentFrame := 0];
      currentFrame := currentFrame - 1;
      r := Ok(());
    }

    method ExitScope() returns (r: Outcome<()>)
      requires Valid()
      modifies frameScopes, allocs
      ensures Valid() && Matches(ScopeExit(old(Value())), r, old(Value()), Value())
    {
      if currentFrame == 0 || frameScopes[currentFrame] == 0 {
        return Failed(ScopeUnderflow);
      }
      ClearScope(currentFrame, frameScopes[currentFrame]);
      frameScopes[currentFrame] := frameScopes[currentFrame] - 1;
      assert frameScopes[..] == old(frameScopes[..])[currentFrame := old(frameScopes[currentFrame]) - 1];
      r := Ok(());
    }

    method ExitScopesTo(target: nat) returns (r: Outcome<()>)
      requires Valid()
      modifies frameScopes, allocs
      ensures Valid() && Matches(ScopeExitTo(old(Value()), target), r, old(Value()), Value())
    {
      if currentFrame == 0 || target > frameScopes[currentFrame] {
        return Failed(InvalidScopeExit);
      }
      while frameScopes[currentFrame] > target
        invariant Valid() && currentFrame > 0 && target <= frameScopes[currentFrame]
        invariant ExitScopes(Value(), target) == ExitScopes(old(Value()), target)
        decreases frameScopes[currentFrame]
      {
        var step := ExitScope();
      }
      r := Ok(());
    }
  }
}
