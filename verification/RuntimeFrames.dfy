/**
  The frame and scope counters of runtime/hitsimple_runtime.c: hs_current_frame
  and hs_frame_scopes, and the operations on them. A call of hs_fail is a fault.
 */
module RuntimeFrames {

  const MAX_FRAMES: nat := 1024
  const UINT64_MAX: nat := 0xFFFF_FFFF_FFFF_FFFF

  datatype Fault =
    | FrameOverflow
    | FrameUnderflow
    | ScopeOutsideFrame
    | ScopeOverflow
    | ScopeUnderflow
    | InvalidScopeExit
    | ObjectOutsideFrame
    | InvalidRegistration
    | ConflictingRegistration
    | RegistryFull
    | NullAllocation
    | SizeOverflow
    | InvalidRealloc
    | InvalidFree
    | DoubleFree
    | NullAddress
    | InvalidAccess

  datatype Outcome<+T> = Ok(value: T) | Failed(fault: Fault)

  /** Frame 0 means that no frame is active; scopes[k] is the depth of frame k. */
  datatype Frames = Frames(current: nat, scopes: seq<nat>) {
    predicate Valid() {
      |scopes| == MAX_FRAMES && current < MAX_FRAMES && forall k | 0 <= k < |scopes| :: scopes[k] <= UINT64_MAX
    }

    function Depth(): nat
      requires Valid()
    {
      scopes[current]
    }

    function FrameEnter(): (r: Outcome<Frames>)
      requires Valid()
      ensures r.Ok? ==> r.value.Valid()
    {
      if current + 1 >= MAX_FRAMES then Failed(FrameOverflow)
      else Ok(Frames(current + 1, scopes[current + 1 := 0]))
    }

    function FrameExit(): (r: Outcome<Frames>)
      requires Valid()
      ensures r.Ok? ==> r.value.Valid()
    {
      if current == 0 then Failed(FrameUnderflow)
      else Ok(Frames(current - 1, scopes[current := 0]))
    }

    function ScopeEnter(): (r: Outcome<Frames>)
      requires Valid()
      ensures r.Ok? ==> r.value.Valid()
    {
      if current == 0 then Failed(ScopeOutsideFrame)
      else if Depth() == UINT64_MAX then Failed(ScopeOverflow)
      else Ok(Frames(current, scopes[current := Depth() + 1]))
    }

    function ScopeExit(): (r: Outcome<Frames>)
      requires Valid()
      ensures r.Ok? ==> r.value.Valid()
    {
      if current == 0 || Depth() == 0 then Failed(ScopeUnderflow)
      else Ok(Frames(current, scopes[current := Depth() - 1]))
    }

    /** The source loops hs_scope_exit; the counters end at the target. */
    function ScopeExitTo(target: nat): (r: Outcome<Frames>)
      requires Valid()
      ensures r.Ok? ==> r.value.Valid()
    {
      if current == 0 || target > Depth() then Failed(InvalidScopeExit)
      else Ok(Frames(current, scopes[current := target]))
    }
  }

  function InitialFrames(): (r: Frames)
    ensures r.Valid()
  {
    Frames(0, seq(MAX_FRAMES, _ => 0))
  }
}
