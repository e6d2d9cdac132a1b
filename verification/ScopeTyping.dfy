/**
  Every block the emitter creates has one static scope depth, and every path through
  the emitted code respects it: the depth bookkeeping of the emitter is a typing.
 */
module ScopeTyping {
  import opened ScopeHir

  // ------------------------------------------------- depth along a block

  datatype Phase = Unentered | Inside(depth: nat) | Left

  /** Where a run of instructions leads: on, to other blocks, out, or to a fault. */
  datatype Flow = At(phase: Phase) | Jumps(targets: set<nat>, depth: nat) | Ended | Wrong

  function StepFlow(fl: Flow, i: Instr, limit: nat): Flow {
    if !fl.At? then fl
    else
      match (i, fl.phase)
      case (Op(_), Inside(d)) => fl
      case (CallFunction(_), Inside(d)) => fl
      case (FrameEnter, Unentered) => At(Inside(0))
      case (FrameExit, Inside(d)) => At(Left)
      case (ScopeEnter, Inside(d)) => if d < limit then At(Inside(d + 1)) else Wrong
      case (ScopeExit, Inside(d)) => if d > 0 then At(Inside(d - 1)) else Wrong
      case (ScopeExitTo(t), Inside(d)) => if t <= d then At(Inside(t)) else Wrong
      case (Br(b), Inside(d)) => Jumps({b}, d)
      case (CondBr(t, f), Inside(d)) => Jumps({t, f}, d)
      case (Ret, Left) => Ended
      case (ExitProcess, Inside(d)) => Ended
      case _ => Wrong
  }

  function FlowOf(code: Code, start: Phase, limit: nat): Flow {
    if code == [] then At(start)
    else StepFlow(FlowOf(code[..|code| - 1], start, limit), code[|code| - 1], limit)
  }

  /** Block 0 is the entry block; every other block starts inside the frame. */
  function Start(block: nat, depths: seq<nat>): Phase
    requires block < |depths|
  {
    if block == 0 then Unentered else Inside(depths[block])
  }

  ghost predicate IsTarget(block: nat, depth: nat, depths: seq<nat>) {
    0 < block < |depths| && depths[block] == depth
  }

  ghost predicate FlowOk(fl: Flow, depths: seq<nat>) {
    && !fl.Wrong?
    && (fl.Jumps? ==> forall t | t in fl.targets :: IsTarget(t, fl.depth, depths))
  }

  /** The graph is well typed: every jump lands on a block of the depth it has. */
  ghost predicate BlocksTyped(blocks: seq<Code>, depths: seq<nat>, limit: nat) {
    && |depths| == |blocks|
    && forall b: nat | b < |blocks| :: FlowOk(FlowOf(blocks[b], Start(b, depths), limit), depths)
  }

  /** The insertion point is at the depth the emitter believes it is at. */
  ghost predicate CodeTyped(e: State, depths: seq<nat>, limit: nat) {
    && BlocksTyped(e.blocks, depths, limit)
    && 0 < e.current < |e.blocks|
    && var fl := FlowOf(e.blocks[e.current], Inside(depths[e.current]), limit);
       fl.At? ==> fl == At(Inside(e.depth))
  }

  ghost predicate LabelsTyped(e: State, depths: seq<nat>) {
    && (forall l | l in e.labelBlocks ::
          l in e.labelDepths && IsTarget(e.labelBlocks[l], e.labelDepths[l], depths))
    && (forall l, m | l in e.labelBlocks && m in e.labelBlocks && l != m ::
          e.labelBlocks[l] != e.labelBlocks[m])
  }

  ghost predicate TargetsTyped(e: State, depths: seq<nat>) {
    && (forall k | 0 <= k < |e.loops| ::
          && IsTarget(e.loops[k].breakBlock, e.loops[k].breakDepth, depths) && e.loops[k].breakDepth <= e.depth
          && IsTarget(e.loops[k].continueBlock, e.loops[k].continueDepth, depths)
          && e.loops[k].continueDepth <= e.depth)
    && (forall k | 0 <= k < |e.catches| ::
          IsTarget(e.catches[k].catchBlock, e.catches[k].depth, depths) && e.catches[k].depth <= e.depth)
  }

  ghost predicate Typed(e: State, depths: seq<nat>, limit: nat) {
    CodeTyped(e, depths, limit) && LabelsTyped(e, depths) && TargetsTyped(e, depths)
  }

  // ----------------------------------------------------- single emissions

  lemma FlowSnoc(code: Code, i: Instr, start: Phase, limit: nat)
    ensures FlowOf(code + [i], start, limit) == StepFlow(FlowOf(code, start, limit), i, limit)
  {
    assert (code + [i])[..|code|] == code;
  }

  /** Append one instruction whose flow is fine; d is the depth afterwards. */
  lemma EmitCode(e: State, i: Instr, d: nat, depths: seq<nat>, limit: nat)
    requires CodeTyped(e, depths, limit)
    requires FlowOk(StepFlow(At(Inside(e.depth)), i, limit), depths)
    requires StepFlow(At(Inside(e.depth)), i, limit).At? ==> StepFlow(At(Inside(e.depth)), i, limit) == At(Inside(d))
    ensures CodeTyped(e.Emit(i).(depth := d), depths, limit)
  {
    hide FlowOf, StepFlow;
    var r := e.Emit(i);
    FlowSnoc(e.blocks[e.current], i, Inside(depths[e.current]), limit);
    StickyFlow(FlowOf(e.blocks[e.current], Inside(depths[e.current]), limit), i, limit);
    forall b: nat | b < |r.blocks|
      ensures FlowOk(FlowOf(r.blocks[b], Start(b, depths), limit), depths)
    {
      if b != e.current { assert r.blocks[b] == e.blocks[b]; }
    }
  }

  lemma StickyFlow(fl: Flow, i: Instr, limit: nat)
    ensures !fl.At? ==> StepFlow(fl, i, limit) == fl
  {
  }

  lemma BranchCode(e: State, i: Instr, depths: seq<nat>, limit: nat)
    requires CodeTyped(e, depths, limit)
    requires (i.Br? && IsTarget(i.block, e.depth, depths)) ||
             (i.CondBr? && IsTarget(i.ifTrue, e.depth, depths) && IsTarget(i.ifFalse, e.depth, depths))
    ensures CodeTyped(e.Emit(i), depths, limit)
  {
    hide FlowOf;
    EmitCode(e, i, e.depth, depths, limit);
  }

  lemma BrUnlessTerminatedCode(e: State, block: nat, depths: seq<nat>, limit: nat)
    requires CodeTyped(e, depths, limit) && IsTarget(block, e.depth, depths)
    ensures CodeTyped(e.BrUnlessTerminated(block), depths, limit)
  {
    hide FlowOf;
    if !e.Terminated() { BranchCode(e, Br(block), depths, limit); }
  }

  /** Unwind to the target's depth and jump there. */
  lemma JumpOutCode(e: State, depth: nat, block: nat, depths: seq<nat>, limit: nat)
    requires CodeTyped(e, depths, limit) && depth <= e.depth && IsTarget(block, depth, depths)
    ensures CodeTyped(e.ExitTo(depth).Emit(Br(block)), depths, limit)
  {
    hide FlowOf, CodeTyped;
    UnwindCode(e, depth, depths, limit);
    var out := e.ExitTo(depth).(depth := depth);
    EmitCode(out, Br(block), e.depth, depths, limit);
    assert out.Emit(Br(block)).(depth := e.depth) == e.ExitTo(depth).Emit(Br(block));
  }

  lemma UnwindCode(e: State, depth: nat, depths: seq<nat>, limit: nat)
    requires CodeTyped(e, depths, limit) && depth <= e.depth
    ensures CodeTyped(e.ExitTo(depth).(depth := depth), depths, limit)
  {
    hide FlowOf;
    if depth < e.depth {
      EmitCode(e, ScopeExitTo(depth), depth, depths, limit);
    } else {
      assert e.(depth := depth) == e;
    }
  }

  /** Leave the frame and return. */
  lemma ReturnCode(e: State, depths: seq<nat>, limit: nat)
    requires CodeTyped(e, depths, limit)
    ensures CodeTyped(e.LeaveFrame().Emit(Ret), depths, limit)
  {
    hide FlowOf;
    UnwindCode(e, 0, depths, limit);
    var out := e.ExitTo(0);
    var code, start := out.blocks[out.current], Inside(depths[e.current]);
    FlowSnoc(code, FrameExit, start, limit);
    FlowSnoc(code + [FrameExit], Ret, start, limit);
    var r := e.LeaveFrame().Emit(Ret);
    assert r.blocks[r.current] == code + [FrameExit] + [Ret];
    forall b: nat | b < |r.blocks|
      ensures FlowOk(FlowOf(r.blocks[b], Start(b, depths), limit), depths)
    {
      if b != e.current { assert r.blocks[b] == out.blocks[b]; }
    }
  }

  lemma ExitProcessCode(e: State, depths: seq<nat>, limit: nat)
    requires CodeTyped(e, depths, limit)
    ensures CodeTyped(e.ExitTo(0).Emit(ExitProcess).Emit(Ret), depths, limit)
  {
    hide FlowOf;
    UnwindCode(e, 0, depths, limit);
    var out := e.ExitTo(0);
    var code, start := out.blocks[out.current], Inside(depths[e.current]);
    FlowSnoc(code, ExitProcess, start, limit);
    FlowSnoc(code + [ExitProcess], Ret, start, limit);
    var r := e.ExitTo(0).Emit(ExitProcess).Emit(Ret);
    assert r.blocks[r.current] == code + [ExitProcess] + [Ret];
    forall b: nat | b < |r.blocks|
      ensures FlowOk(FlowOf(r.blocks[b], Start(b, depths), limit), depths)
    {
      if b != e.current { assert r.blocks[b] == out.blocks[b]; }
    }
  }

  lemma AtCode(e: State, block: nat, depths: seq<nat>, limit: nat)
    requires CodeTyped(e, depths, limit) && IsTarget(block, e.depth, depths)
    requires e.blocks[block] == []
    ensures CodeTyped(e.At(block), depths, limit)
  {
  }

  lemma AddBlocksCode(e: State, more: seq<nat>, depths: seq<nat>, limit: nat)
    requires CodeTyped(e, depths, limit)
    ensures CodeTyped(e.AddBlocks(|more|), depths + more, limit)
  {
    hide FlowOf;
    var r, all := e.AddBlocks(|more|), depths + more;
    forall b: nat | b < |r.blocks|
      ensures FlowOk(FlowOf(r.blocks[b], Start(b, all), limit), all)
    {
      if b < |e.blocks| {
        assert r.blocks[b] == e.blocks[b] && Start(b, all) == Start(b, depths);
        WiderFlow(FlowOf(e.blocks[b], Start(b, depths), limit), depths, more);
      } else {
        assert r.blocks[b] == [];
        EmptyFlow(Start(b, all), limit);
      }
    }
  }

  lemma EmptyFlow(start: Phase, limit: nat)
    ensures FlowOf([], start, limit) == At(start)
  {
  }

  lemma WiderFlow(fl: Flow, depths: seq<nat>, more: seq<nat>)
    requires FlowOk(fl, depths)
    ensures FlowOk(fl, depths + more)
  {
  }

  /** A terminated block no longer flows on, whatever depth the emitter is at. */
  lemma TerminatedCode(e: State, d: nat, depths: seq<nat>, limit: nat)
    requires CodeTyped(e, depths, limit) && e.Terminated()
    ensures CodeTyped(e.(depth := d), depths, limit)
  {
    var code := e.blocks[e.current];
    FlowSnoc(code[..|code| - 1], code[|code| - 1], Inside(depths[e.current]), limit);
    assert code == code[..|code| - 1] + [code[|code| - 1]];
  }
}
