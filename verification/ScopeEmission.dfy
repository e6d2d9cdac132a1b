/**
  The emitter keeps the typing: by induction over statements, with non-local jumps.
  A Stage describes a moment inside the emission of one construct that began at `base`.
 */
module ScopeEmission {
  import opened ScopeHir
  import opened ScopeTyping

  function LabelSet(e: State, names: set<string>): set<nat> {
    set l | l in names && l in e.labelBlocks :: e.labelBlocks[l]
  }

  /** Only touched old blocks changed, and the insertion point is touched or new. */
  ghost predicate Frame(e: State, r: State, touched: set<nat>) {
    && |r.blocks| >= |e.blocks|
    && (forall b: nat | b < |e.blocks| && b !in touched :: r.blocks[b] == e.blocks[b])
    && (r.current in touched || r.current >= |e.blocks|)
  }

  /** The blocks of these labels are still empty and not being filled. */
  ghost predicate Pending(e: State, names: set<string>) {
    forall l | l in names && l in e.labelBlocks ::
      e.labelBlocks[l] < |e.blocks| && e.blocks[e.labelBlocks[l]] == [] && e.labelBlocks[l] != e.current
  }

  ghost predicate Ready(e: State, names: set<string>, depths: seq<nat>, limit: nat) {
    Typed(e, depths, limit) && Pending(e, names)
  }

  ghost predicate SameContext(e: State, r: State) {
    && r.labelBlocks == e.labelBlocks && r.labelDepths == e.labelDepths
    && r.loops == e.loops && r.catches == e.catches && r.depth == e.depth
  }

  /** The result of emitting a statement with these labels. */
  ghost predicate Emitted(e: State, r: State, names: set<string>, depths: seq<nat>, depths': seq<nat>, limit: nat) {
    && Typed(r, depths', limit) && depths <= depths'
    && Frame(e, r, {e.current} + LabelSet(e, names))
    && SameContext(e, r)
  }

  ghost predicate Stage(base: State, e: State, done: set<string>, todo: set<string>, spare: set<nat>,
                        start: seq<nat>, depths: seq<nat>, limit: nat) {
    && CodeTyped(e, depths, limit) && start <= depths && |start| == |base.blocks|
    && e.labelBlocks == base.labelBlocks && e.labelDepths == base.labelDepths
    && LabelsTyped(base, start)
    && Frame(base, e, {base.current} + LabelSet(base, done))
    && Pending(e, todo) && done !! todo
    && (forall b | b in spare :: |base.blocks| <= b < |e.blocks| && e.blocks[b] == [] && b != e.current)
  }

  // ------------------------------------------------------- context widening

  lemma WidenLabels(base: State, e: State, start: seq<nat>, depths: seq<nat>)
    requires LabelsTyped(base, start) && start <= depths
    requires e.labelBlocks == base.labelBlocks && e.labelDepths == base.labelDepths
    ensures LabelsTyped(e, depths)
  {
  }

  lemma WidenTargets(base: State, e: State, start: seq<nat>, depths: seq<nat>)
    requires TargetsTyped(base, start) && start <= depths
    requires e.loops == base.loops && e.catches == base.catches && e.depth >= base.depth
    ensures TargetsTyped(e, depths)
  {
    forall k | 0 <= k < |e.loops|
      ensures IsTarget(e.loops[k].breakBlock, e.loops[k].breakDepth, depths)
      ensures IsTarget(e.loops[k].continueBlock, e.loops[k].continueDepth, depths)
      ensures e.loops[k].breakDepth <= e.depth && e.loops[k].continueDepth <= e.depth
    {
      assert IsTarget(base.loops[k].breakBlock, base.loops[k].breakDepth, start);
    }
    forall k | 0 <= k < |e.catches|
      ensures IsTarget(e.catches[k].catchBlock, e.catches[k].depth, depths) && e.catches[k].depth <= e.depth
    {
      assert IsTarget(base.catches[k].catchBlock, base.catches[k].depth, start);
    }
  }

  lemma PushLoop(base: State, e: State, t: LoopTargets, depths: seq<nat>)
    requires TargetsTyped(base, depths) && e.loops == base.loops + [t] && e.catches == base.catches
    requires e.depth == base.depth == t.breakDepth == t.continueDepth
    requires IsTarget(t.breakBlock, t.breakDepth, depths) && IsTarget(t.continueBlock, t.continueDepth, depths)
    ensures TargetsTyped(e, depths)
  {
    forall k | 0 <= k < |e.loops|
      ensures IsTarget(e.loops[k].breakBlock, e.loops[k].breakDepth, depths)
      ensures IsTarget(e.loops[k].continueBlock, e.loops[k].continueDepth, depths)
      ensures e.loops[k].breakDepth <= e.depth && e.loops[k].continueDepth <= e.depth
    {
      if k < |base.loops| { assert e.loops[k] == base.loops[k]; }
    }
  }

  lemma PushCatch(base: State, e: State, t: CatchTarget, depths: seq<nat>)
    requires TargetsTyped(base, depths) && e.catches == base.catches + [t] && e.loops == base.loops
    requires e.depth == base.depth == t.depth && IsTarget(t.catchBlock, t.depth, depths)
    ensures TargetsTyped(e, depths)
  {
    forall k | 0 <= k < |e.catches|
      ensures IsTarget(e.catches[k].catchBlock, e.catches[k].depth, depths) && e.catches[k].depth <= e.depth
    {
      if k < |base.catches| { assert e.catches[k] == base.catches[k]; }
    }
  }

  // ---------------------------------------------------------- stage moves

  lemma Begin(e: State, more: seq<nat>, names: set<string>, spare: set<nat>, depths: seq<nat>, limit: nat)
    requires Ready(e, names, depths, limit)
    requires forall b | b in spare :: |e.blocks| <= b < |e.blocks| + |more|
    ensures Stage(e, e.AddBlocks(|more|), {}, names, spare, depths, depths + more, limit)
  {
    hide FlowOf;
    AddBlocksCode(e, more, depths, limit);
  }

  /** Emitting into the insertion block keeps the stage when the code stays typed. */
  lemma Append(base: State, e: State, i: Instr, d: nat, done: set<string>, todo: set<string>, spare: set<nat>,
               start: seq<nat>, depths: seq<nat>, limit: nat)
    requires Stage(base, e, done, todo, spare, start, depths, limit)
    requires CodeTyped(e.Emit(i).(depth := d), depths, limit)
    ensures Stage(base, e.Emit(i).(depth := d), done, todo, spare, start, depths, limit)
  {
    hide FlowOf;
    var r := e.Emit(i);
    assert forall b: nat | b < |e.blocks| && b != e.current :: r.blocks[b] == e.blocks[b];
  }

  lemma Branch(base: State, e: State, i: Instr, done: set<string>, todo: set<string>, spare: set<nat>,
               start: seq<nat>, depths: seq<nat>, limit: nat)
    requires Stage(base, e, done, todo, spare, start, depths, limit)
    requires (i.Br? && IsTarget(i.block, e.depth, depths)) ||
             (i.CondBr? && IsTarget(i.ifTrue, e.depth, depths) && IsTarget(i.ifFalse, e.depth, depths))
    ensures Stage(base, e.Emit(i), done, todo, spare, start, depths, limit)
  {
    hide FlowOf;
    BranchCode(e, i, depths, limit);
    Append(base, e, i, e.depth, done, todo, spare, start, depths, limit);
    assert e.Emit(i).(depth := e.depth) == e.Emit(i);
  }

  /** Close the insertion block with a branch if it is open, then fill a spare block. */
  lemma Move(base: State, e: State, to: nat, block: nat, done: set<string>, todo: set<string>, spare: set<nat>,
             start: seq<nat>, depths: seq<nat>, limit: nat)
    requires Stage(base, e, done, todo, spare, start, depths, limit)
    requires IsTarget(to, e.depth, depths) && IsTarget(block, e.depth, depths) && block in spare
    ensures Stage(base, e.BrUnlessTerminated(to).At(block), done, todo, spare - {block}, start, depths, limit)
    ensures SameContext(e, e.BrUnlessTerminated(to).At(block)) && e.BrUnlessTerminated(to).errors == e.errors
  {
    hide FlowOf;
    if !e.Terminated() { Branch(base, e, Br(to), done, todo, spare, start, depths, limit); }
    Fill(base, e.BrUnlessTerminated(to), block, done, todo, spare, start, depths, limit);
  }

  lemma Fill(base: State, e: State, block: nat, done: set<string>, todo: set<string>, spare: set<nat>,
             start: seq<nat>, depths: seq<nat>, limit: nat)
    requires Stage(base, e, done, todo, spare, start, depths, limit)
    requires IsTarget(block, e.depth, depths) && block in spare
    ensures Stage(base, e.At(block), done, todo, spare - {block}, start, depths, limit)
  {
    hide FlowOf;
    AtCode(e, block, depths, limit);
    forall l | l in todo && l in e.labelBlocks ensures e.labelBlocks[l] != block {
      assert IsTarget(base.labelBlocks[l], base.labelDepths[l], start);
    }
  }

  /** Context fields that typing of the code does not see. */
  lemma Retarget(base: State, e: State, r: State, done: set<string>, todo: set<string>, spare: set<nat>,
                 start: seq<nat>, depths: seq<nat>, limit: nat)
    requires Stage(base, e, done, todo, spare, start, depths, limit)
    requires r == e.(loops := r.loops, catches := r.catches, staticActive := r.staticActive)
    ensures Stage(base, r, done, todo, spare, start, depths, limit)
  {
    hide FlowOf;
  }

  /** A part of the construct has been emitted. */
  lemma Part(base: State, e: State, r: State, names: set<string>, done: set<string>, todo: set<string>,
             spare: set<nat>, start: seq<nat>, depths: seq<nat>, depths': seq<nat>, limit: nat)
    requires Stage(base, e, done, todo, spare, start, depths, limit) && names <= todo
    requires Emitted(e, r, names, depths, depths', limit)
    ensures Stage(base, r, done + names, todo - names, spare, start, depths', limit)
  {
    hide FlowOf, CodeTyped;
    var touched := {e.current} + LabelSet(e, names);
    assert forall l | l in base.labelBlocks ::
        base.labelBlocks[l] < |base.blocks| by {
      assert forall l | l in base.labelBlocks :: IsTarget(base.labelBlocks[l], base.labelDepths[l], start);
    }
    assert LabelSet(base, done + names) == LabelSet(base, done) + LabelSet(e, names);
    forall b: nat | b < |base.blocks| && b !in {base.current} + LabelSet(base, done + names)
      ensures r.blocks[b] == base.blocks[b]
    {
      assert b !in touched;
    }
    forall l | l in todo - names && l in e.labelBlocks
      ensures r.blocks[e.labelBlocks[l]] == [] && e.labelBlocks[l] != r.current
    {
      assert e.labelBlocks[l] !in touched;
    }
    forall b | b in spare
      ensures r.blocks[b] == [] && b != r.current
    {
      assert b !in touched;
    }
  }

  lemma Finish(base: State, r: State, done: set<string>, todo: set<string>, spare: set<nat>,
               names: set<string>, start: seq<nat>, depths: seq<nat>, limit: nat)
    requires Stage(base, r, done, todo, spare, start, depths, limit) && done <= names
    requires TargetsTyped(base, start) && SameContext(base, r)
    ensures Emitted(base, r, names, start, depths, limit)
  {
    hide FlowOf, CodeTyped;
    WidenLabels(base, r, start, depths);
    WidenTargets(base, r, start, depths);
    assert LabelSet(base, done) <= LabelSet(base, names);
  }

  /** A stage is a state from which the next part can be emitted. */
  lemma Resume(base: State, e: State, names: set<string>, done: set<string>, todo: set<string>,
               spare: set<nat>, start: seq<nat>, depths: seq<nat>, limit: nat)
    requires Stage(base, e, done, todo, spare, start, depths, limit) && names <= todo
    requires TargetsTyped(e, depths)
    ensures Ready(e, names, depths, limit)
  {
    hide FlowOf, CodeTyped;
    WidenLabels(base, e, start, depths);
  }

  lemma Unchanged(e: State, names: set<string>, depths: seq<nat>, limit: nat)
    requires Typed(e, depths, limit)
    ensures Emitted(e, e, names, depths, depths, limit)
  {
    hide FlowOf;
  }

  /** Only the insertion block changed. */
  ghost predicate Local(e: State, r: State) {
    && SameContext(e, r) && r.current == e.current && |r.blocks| == |e.blocks| && r.errors == e.errors
    && forall b: nat | b < |e.blocks| && b != e.current :: r.blocks[b] == e.blocks[b]
  }

  lemma EmitLocal(e: State, i: Instr)
    ensures Local(e, e.Emit(i))
  {
  }

  lemma LocalTrans(e: State, m: State, r: State)
    requires Local(e, m) && Local(m, r)
    ensures Local(e, r)
  {
    forall b: nat | b < |e.blocks| && b != e.current ensures r.blocks[b] == e.blocks[b] {
      assert m.blocks[b] == e.blocks[b];
    }
  }

  lemma ExitToLocal(e: State, depth: nat, i: Instr)
    ensures Local(e, e.ExitTo(depth).Emit(i))
  {
    hide Local;
    EmitLocal(e, ScopeExitTo(depth));
    EmitLocal(e.ExitTo(depth), i);
    if e.depth > depth { LocalTrans(e, e.ExitTo(depth), e.ExitTo(depth).Emit(i)); }
  }

  lemma TwoLocal(e: State, i: Instr, j: Instr)
    ensures Local(e, e.ExitTo(0).Emit(i).Emit(j))
  {
    hide Local;
    ExitToLocal(e, 0, i);
    EmitLocal(e.ExitTo(0).Emit(i), j);
    LocalTrans(e, e.ExitTo(0).Emit(i), e.ExitTo(0).Emit(i).Emit(j));
  }

  /** One instruction sequence appended to the insertion block is a whole emission. */
  lemma Straight(e: State, r: State, names: set<string>, depths: seq<nat>, limit: nat)
    requires Typed(e, depths, limit) && CodeTyped(r, depths, limit) && Local(e, r)
    ensures Emitted(e, r, names, depths, depths, limit)
  {
    hide FlowOf;
  }
}
