/** Every accepted statement is emitted well typed, construct by construct. */
module ScopeInduction {
  import opened ScopeHir
  import opened ScopeLabels
  import opened ScopeTyping
  import opened ScopeEmission

  /** What the emission of statements with these labels needs from its state. */
  ghost predicate Fits(e: State, names: set<string>, nesting: nat, depths: seq<nat>, limit: nat) {
    Ready(e, names, depths, limit) && e.depth + nesting <= limit
  }

  lemma EmittedTrans(e: State, m: State, r: State, a: set<string>, b: set<string>,
                     d0: seq<nat>, d1: seq<nat>, d2: seq<nat>, limit: nat)
    requires Emitted(e, m, a, d0, d1, limit) && Emitted(m, r, b, d1, d2, limit)
    ensures Emitted(e, r, a + b, d0, d2, limit)
  {
    hide Typed;
    assert LabelSet(e, a + b) == LabelSet(e, a) + LabelSet(m, b);
  }

  lemma EmittedMore(e: State, r: State, a: set<string>, b: set<string>, d0: seq<nat>, d1: seq<nat>, limit: nat)
    requires Emitted(e, r, a, d0, d1, limit) && a <= b
    ensures Emitted(e, r, b, d0, d1, limit)
  {
    hide Typed;
    assert LabelSet(e, a) <= LabelSet(e, b);
  }

  lemma ReadyAfter(e: State, m: State, a: set<string>, b: set<string>, d0: seq<nat>, d1: seq<nat>, limit: nat)
    requires Ready(e, a + b, d0, limit) && Emitted(e, m, a, d0, d1, limit) && a !! b
    ensures Ready(m, b, d1, limit)
  {
    hide CodeTyped, TargetsTyped;
    var touched := {e.current} + LabelSet(e, a);
    forall l | l in b && l in m.labelBlocks
      ensures m.labelBlocks[l] < |m.blocks| && m.blocks[m.labelBlocks[l]] == [] && m.labelBlocks[l] != m.current
    {
      assert e.labelBlocks[l] !in touched;
    }
  }

  // ---------------------------------------------------------- sequences

  lemma {:induction false} StatementsTyped(e: State, ss: seq<Stmt>, depths: seq<nat>, limit: nat)
    returns (out: seq<nat>)
    requires Fits(e, LabelsOf(ss), NestingOf(ss), depths, limit)
    requires DistinctAll(ss) && DepthsAllOk(ss, e.depth, e.labelDepths)
    requires EmitStatements(e, ss).errors == 0
    ensures Emitted(e, EmitStatements(e, ss), LabelsOf(ss), depths, out, limit)
    decreases ss, 1
  {
    hide Typed;
    if ss == [] {
      out := depths;
      Unchanged(e, {}, depths, limit);
    } else if e.Terminated() && !ss[0].Label? {
      out := StatementsTyped(e, ss[1..], depths, limit);
      EmittedMore(e, EmitStatements(e, ss), LabelsOf(ss[1..]), LabelsOf(ss), depths, out, limit);
    } else {
      var m := EmitStmt(e, ss[0]);
      var mid := StmtTyped(e, ss[0], depths, limit);
      ReadyAfter(e, m, Labels(ss[0]), LabelsOf(ss[1..]), depths, mid, limit);
      out := StatementsTyped(m, ss[1..], mid, limit);
      EmittedTrans(e, m, EmitStatements(e, ss), Labels(ss[0]), LabelsOf(ss[1..]), depths, mid, out, limit);
    }
  }

  lemma {:induction false} ListTyped(e: State, ss: seq<Stmt>, depths: seq<nat>, limit: nat) returns (out: seq<nat>)
    requires Fits(e, LabelsOf(ss), NestingOf(ss), depths, limit)
    requires DistinctAll(ss) && DepthsAllOk(ss, e.depth, e.labelDepths)
    requires EmitList(e, ss).errors == 0
    ensures Emitted(e, EmitList(e, ss), LabelsOf(ss), depths, out, limit)
    decreases ss, 1
  {
    hide Typed;
    if ss == [] {
      out := depths;
      Unchanged(e, {}, depths, limit);
    } else {
      var m := EmitStmt(e, ss[0]);
      var mid := StmtTyped(e, ss[0], depths, limit);
      ReadyAfter(e, m, Labels(ss[0]), LabelsOf(ss[1..]), depths, mid, limit);
      out := ListTyped(m, ss[1..], mid, limit);
      EmittedTrans(e, m, EmitList(e, ss), Labels(ss[0]), LabelsOf(ss[1..]), depths, mid, out, limit);
    }
  }

  lemma {:induction false} PostTyped(e: State, ss: seq<Stmt>, depths: seq<nat>, limit: nat) returns (out: seq<nat>)
    requires Fits(e, LabelsOf(ss), NestingOf(ss), depths, limit)
    requires DistinctAll(ss) && DepthsAllOk(ss, e.depth, e.labelDepths)
    requires EmitPost(e, ss).errors == 0
    ensures Emitted(e, EmitPost(e, ss), LabelsOf(ss), depths, out, limit)
    decreases ss, 1
  {
    hide Typed;
    if ss == [] {
      out := depths;
      Unchanged(e, {}, depths, limit);
    } else {
      var m := EmitStmt(e, ss[0]);
      out := StmtTyped(e, ss[0], depths, limit);
      if m.Terminated() {
        EmittedMore(e, m, Labels(ss[0]), LabelsOf(ss), depths, out, limit);
      } else {
        var mid := out;
        ReadyAfter(e, m, Labels(ss[0]), LabelsOf(ss[1..]), depths, mid, limit);
        out := PostTyped(m, ss[1..], mid, limit);
        EmittedTrans(e, m, EmitPost(e, ss), Labels(ss[0]), LabelsOf(ss[1..]), depths, mid, out, limit);
      }
    }
  }

  // ------------------------------------------------------------- blocks

  lemma {:induction false} BlockTyped(e: State, ss: seq<Stmt>, depths: seq<nat>, limit: nat) returns (out: seq<nat>)
    requires Fits(e, LabelsOf(ss), 1 + NestingOf(ss), depths, limit)
    requires DistinctAll(ss) && DepthsAllOk(ss, e.depth + 1, e.labelDepths)
    requires EmitBlock(e, ss).errors == 0
    ensures Emitted(e, EmitBlock(e, ss), LabelsOf(ss), depths, out, limit)
    decreases ss, 2
  {
    hide FlowOf, CodeTyped, EmitStatements;
    var names := LabelsOf(ss);
    var inner := OpenScope(e, names, depths, limit);
    Resume(e, inner, names, {}, names, {}, depths, depths, limit);
    out := StatementsTyped(inner, ss, depths, limit);
    var filled := EmitStatements(inner, ss);
    Part(e, inner, filled, names, {}, names, {}, depths, depths, out, limit);
    CloseScope(e, filled, {} + names, names - names, depths, out, limit);
    Finish(e, EmitBlock(e, ss), {} + names, names - names, {}, names, depths, out, limit);
  }

  lemma OpenScope(e: State, names: set<string>, depths: seq<nat>, limit: nat) returns (inner: State)
    requires Ready(e, names, depths, limit) && e.depth < limit
    ensures inner == e.Emit(ScopeEnter).Deeper()
    ensures Stage(e, inner, {}, names, {}, depths, depths, limit) && TargetsTyped(inner, depths)
  {
    hide FlowOf;
    inner := e.Emit(ScopeEnter).Deeper();
    EmitCode(e, ScopeEnter, e.depth + 1, depths, limit);
    assert inner == e.Emit(ScopeEnter).(depth := e.depth + 1);
    WidenTargets(e, inner, depths, depths);
    assert forall b: nat | b < |e.blocks| && b != e.current :: inner.blocks[b] == e.blocks[b];
  }

  /** Leaving a block: hs_scope_exit on the path that falls out, nothing on one that has left. */
  lemma CloseScope(base: State, e: State, done: set<string>, todo: set<string>,
                   start: seq<nat>, depths: seq<nat>, limit: nat)
    requires Stage(base, e, done, todo, {}, start, depths, limit) && e.depth > 0
    ensures var closed := if e.Terminated() then e else e.Emit(ScopeExit);
      Stage(base, closed.Shallower(), done, todo, {}, start, depths, limit)
  {
    hide FlowOf;
    if e.Terminated() {
      TerminatedCode(e, e.depth - 1, depths, limit);
    } else {
      EmitCode(e, ScopeExit, e.depth - 1, depths, limit);
      Append(base, e, ScopeExit, e.depth - 1, done, todo, {}, start, depths, limit);
      assert e.Emit(ScopeExit).Shallower() == e.Emit(ScopeExit).(depth := e.depth - 1);
    }
  }

  /** Emit a block as one part of a construct. */
  lemma {:induction false} SubBlock(base: State, e: State, ss: seq<Stmt>, done: set<string>, todo: set<string>,
                                    spare: set<nat>, start: seq<nat>, depths: seq<nat>, limit: nat)
    returns (out: seq<nat>)
    requires Stage(base, e, done, todo, spare, start, depths, limit) && TargetsTyped(e, depths)
    requires LabelsOf(ss) <= todo && e.depth + 1 + NestingOf(ss) <= limit
    requires DistinctAll(ss) && DepthsAllOk(ss, e.depth + 1, e.labelDepths)
    requires EmitBlock(e, ss).errors == 0
    ensures Stage(base, EmitBlock(e, ss), done + LabelsOf(ss), todo - LabelsOf(ss), spare, start, out, limit)
    ensures depths <= out && SameContext(e, EmitBlock(e, ss))
    decreases ss, 3
  {
    hide FlowOf, CodeTyped, EmitBlock, Stage;
    Resume(base, e, LabelsOf(ss), done, todo, spare, start, depths, limit);
    out := BlockTyped(e, ss, depths, limit);
    Part(base, e, EmitBlock(e, ss), LabelsOf(ss), done, todo, spare, start, depths, out, limit);
  }

  /** Add blocks at the current depth, branch to some of them and fill one. */
  lemma Split(e: State, k: nat, i: Instr, block: nat, names: set<string>, spare: set<nat>, depths: seq<nat>, limit: nat)
    requires Ready(e, names, depths, limit)
    requires forall b | b in spare :: |e.blocks| <= b < |e.blocks| + k
    requires (i.Br? && i.block in spare) || (i.CondBr? && i.ifTrue in spare && i.ifFalse in spare)
    requires block in spare
    ensures var r, out := e.AddBlocks(k).Emit(i).At(block), depths + seq(k, _ => e.depth);
      && Stage(e, r, {}, names, spare - {block}, depths, out, limit) && TargetsTyped(r, out)
      && SameContext(e, r) && r.errors == e.errors
      && (forall b | b in spare :: IsTarget(b, e.depth, out))
  {
    hide FlowOf;
    var more := seq(k, _ => e.depth);
    var out := depths + more;
    Begin(e, more, names, spare, depths, limit);
    assert e.AddBlocks(k) == e.AddBlocks(|more|);
    forall b | b in spare ensures IsTarget(b, e.depth, out) {
      assert out[b] == more[b - |depths|];
    }
    Branch(e, e.AddBlocks(k), i, {}, names, spare, depths, out, limit);
    Fill(e, e.AddBlocks(k).Emit(i), block, {}, names, spare, depths, out, limit);
    WidenTargets(e, e.AddBlocks(k).Emit(i).At(block), depths, out);
  }

  // ------------------------------------------------------- control flow

  lemma {:induction false} IfTyped(e: State, s: Stmt, depths: seq<nat>, limit: nat) returns (out: seq<nat>)
    requires s.If? && Fits(e, Labels(s), Nesting(s), depths, limit)
    requires Distinct(s) && DepthsOk(s, e.depth, e.labelDepths) && EmitIf(e, s).errors == 0
    ensures Emitted(e, EmitIf(e, s), Labels(s), depths, out, limit)
    decreases s, 2
  {
    hide FlowOf, CodeTyped, EmitBlock, Stage, TargetsTyped, LabelsTyped, State.BrUnlessTerminated;
    var n, names, spare := |e.blocks|, Labels(s), {|e.blocks|, |e.blocks| + 1, |e.blocks| + 2};
    Split(e, 3, CondBr(n, n + 1), n, names, spare, depths, limit);
    var e1, d1 := e.AddBlocks(3).Emit(CondBr(n, n + 1)).At(n), depths + seq(3, _ => e.depth);
    var d2 := SubBlock(e, e1, s.thenBlock, {}, names, spare - {n}, depths, d1, limit);
    var e2, done, todo := EmitBlock(e1, s.thenBlock), {} + LabelsOf(s.thenBlock), names - LabelsOf(s.thenBlock);
    Move(e, e2, n + 2, n + 1, done, todo, spare - {n}, depths, d2, limit);
    var e3 := e2.BrUnlessTerminated(n + 2).At(n + 1);
    if s.hasElse {
      WidenTargets(e, e3, depths, d2);
      out := SubBlock(e, e3, s.elseBlock, done, todo, spare - {n} - {n + 1}, depths, d2, limit);
      var e4 := EmitBlock(e3, s.elseBlock);
      done, todo := done + LabelsOf(s.elseBlock), todo - LabelsOf(s.elseBlock);
      Move(e, e4, n + 2, n + 2, done, todo, spare - {n} - {n + 1}, depths, out, limit);
    } else {
      out := d2;
      Move(e, e3, n + 2, n + 2, done, todo, spare - {n} - {n + 1}, depths, out, limit);
    }
    Finish(e, EmitIf(e, s), done, todo, spare - {n} - {n + 1} - {n + 2}, names, depths, out, limit);
  }

  /** Emit a statement as one part of a construct. */
  lemma {:induction false} SubStmt(base: State, e: State, s: Stmt, done: set<string>, todo: set<string>,
                                   spare: set<nat>, start: seq<nat>, depths: seq<nat>, limit: nat)
    returns (out: seq<nat>)
    requires Stage(base, e, done, todo, spare, start, depths, limit) && TargetsTyped(e, depths)
    requires Labels(s) <= todo && e.depth + Nesting(s) <= limit
    requires Distinct(s) && DepthsOk(s, e.depth, e.labelDepths)
    requires EmitStmt(e, s).errors == 0
    ensures Stage(base, EmitStmt(e, s), done + Labels(s), todo - Labels(s), spare, start, out, limit)
    ensures depths <= out && SameContext(e, EmitStmt(e, s))
    decreases s, 4
  {
    hide FlowOf, CodeTyped, EmitStmt, Stage;
    Resume(base, e, Labels(s), done, todo, spare, start, depths, limit);
    out := StmtTyped(e, s, depths, limit);
    Part(base, e, EmitStmt(e, s), Labels(s), done, todo, spare, start, depths, out, limit);
  }

  /** Push the loop's targets and start filling its body. */
  lemma EnterLoop(base: State, e: State, t: LoopTargets, block: nat, done: set<string>, todo: set<string>,
                  spare: set<nat>, start: seq<nat>, depths: seq<nat>, limit: nat)
    requires Stage(base, e, done, todo, spare, start, depths, limit) && TargetsTyped(e, depths)
    requires t.breakDepth == t.continueDepth == e.depth && block in spare && IsTarget(block, e.depth, depths)
    requires IsTarget(t.breakBlock, e.depth, depths) && IsTarget(t.continueBlock, e.depth, depths)
    ensures var r := e.(loops := e.loops + [t]).At(block);
      Stage(base, r, done, todo, spare - {block}, start, depths, limit) && TargetsTyped(r, depths)
  {
    hide FlowOf, CodeTyped, TargetsTyped, Stage;
    var pushed := e.(loops := e.loops + [t]);
    Retarget(base, e, pushed, done, todo, spare, start, depths, limit);
    Fill(base, pushed, block, done, todo, spare, start, depths, limit);
    PushLoop(e, pushed.At(block), t, depths);
  }

  /** Close the loop with a back edge, pop its targets and fill the block after it. */
  lemma LeaveLoop(base: State, e: State, loops: seq<LoopTargets>, t: LoopTargets, back: nat, block: nat,
                  done: set<string>, todo: set<string>, spare: set<nat>,
                  start: seq<nat>, depths: seq<nat>, limit: nat)
    requires Stage(base, e, done, todo, spare, start, depths, limit) && e.loops == loops + [t]
    requires IsTarget(back, e.depth, depths) && IsTarget(block, e.depth, depths) && block in spare
    ensures var r := PopLoop(e.BrUnlessTerminated(back)).At(block);
      && Stage(base, r, done, todo, spare - {block}, start, depths, limit)
      && SameContext(e.(loops := loops), r)
  {
    hide FlowOf, CodeTyped, Stage;
    Move(base, e, back, block, done, todo, spare, start, depths, limit);
    var moved := e.BrUnlessTerminated(back).At(block);
    assert (loops + [t])[..|loops|] == loops;
    Retarget(base, moved, moved.(loops := loops), done, todo, spare - {block}, start, depths, limit);
    assert PopLoop(e.BrUnlessTerminated(back)).At(block) == moved.(loops := loops);
  }

  lemma {:induction false} WhileTyped(e: State, s: Stmt, depths: seq<nat>, limit: nat) returns (out: seq<nat>)
    requires s.While? && Fits(e, Labels(s), Nesting(s), depths, limit)
    requires Distinct(s) && DepthsOk(s, e.depth, e.labelDepths) && EmitWhile(e, s).errors == 0
    ensures Emitted(e, EmitWhile(e, s), Labels(s), depths, out, limit)
    decreases s, 2
  {
    hide FlowOf, CodeTyped, EmitBlock, Stage, TargetsTyped, LabelsTyped;
    var n, names, spare := |e.blocks|, Labels(s), {|e.blocks|, |e.blocks| + 1, |e.blocks| + 2};
    Split(e, 3, Br(n), n, names, spare, depths, limit);
    var e1, d1 := e.AddBlocks(3).Emit(Br(n)).At(n), depths + seq(3, _ => e.depth);
    Branch(e, e1, CondBr(n + 1, n + 2), {}, names, spare - {n}, depths, d1, limit);
    var e2 := e1.Emit(CondBr(n + 1, n + 2));
    WidenTargets(e, e2, depths, d1);
    var t := LoopTargets(n + 2, n, e.depth, e.depth);
    EnterLoop(e, e2, t, n + 1, {}, names, spare - {n}, depths, d1, limit);
    var e3 := e2.(loops := e2.loops + [t]).At(n + 1);
    out := SubBlock(e, e3, s.body, {}, names, spare - {n} - {n + 1}, depths, d1, limit);
    var e4, done, todo := EmitBlock(e3, s.body), {} + LabelsOf(s.body), names - LabelsOf(s.body);
    LeaveLoop(e, e4, e.loops, t, n, n + 2, done, todo, spare - {n} - {n + 1}, depths, out, limit);
    Finish(e, EmitWhile(e, s), done, todo, spare - {n} - {n + 1} - {n + 2}, names, depths, out, limit);
  }

  /** The scope of a for statement is opened before its init statement. */
  lemma OpenFor(e: State, names: set<string>, spare: set<nat>, depths: seq<nat>, limit: nat)
    requires Ready(e, names, depths, limit) && e.depth < limit
    requires forall b | b in spare :: |e.blocks| <= b < |e.blocks| + 4
    ensures var r, out := e.AddBlocks(4).Emit(ScopeEnter).Deeper(), depths + seq(4, _ => e.depth + 1);
      && Stage(e, r, {}, names, spare, depths, out, limit) && TargetsTyped(r, out)
      && r.depth == e.depth + 1 && r.loops == e.loops && r.catches == e.catches
      && r.labelBlocks == e.labelBlocks && r.labelDepths == e.labelDepths
      && (forall b | b in spare :: IsTarget(b, e.depth + 1, out))
  {
    hide FlowOf;
    var more := seq(4, _ => e.depth + 1);
    var out, e1 := depths + more, e.AddBlocks(4);
    Begin(e, more, names, spare, depths, limit);
    assert e1 == e.AddBlocks(|more|);
    forall b | b in spare ensures IsTarget(b, e.depth + 1, out) {
      assert out[b] == more[b - |depths|];
    }
    EmitCode(e1, ScopeEnter, e.depth + 1, out, limit);
    Append(e, e1, ScopeEnter, e.depth + 1, {}, names, spare, depths, out, limit);
    assert e1.Emit(ScopeEnter).Deeper() == e1.Emit(ScopeEnter).(depth := e.depth + 1);
    WidenTargets(e, e1.Emit(ScopeEnter).Deeper(), depths, out);
  }

  /** From the end of the init statement to the start of the body. */
  lemma ForHead(base: State, e: State, i: Instr, n: nat, done: set<string>, todo: set<string>,
                start: seq<nat>, depths: seq<nat>, limit: nat)
    requires Stage(base, e, done, todo, {n, n + 1, n + 2, n + 3}, start, depths, limit) && TargetsTyped(e, depths)
    requires ForBlocks(e.depth, n, depths) && (i == CondBr(n + 1, n + 3) || i == Br(n + 1))
    ensures var t := LoopTargets(n + 3, n + 2, e.depth, e.depth);
      var r := e.BrUnlessTerminated(n).At(n).Emit(i).(loops := e.loops + [t]).At(n + 1);
      && Stage(base, r, done, todo, {n + 2, n + 3}, start, depths, limit) && TargetsTyped(r, depths)
      && SameContext(e.(loops := e.loops + [t]), r)
  {
    hide FlowOf, CodeTyped, Stage, TargetsTyped;
    var spare, rest := {n, n + 1, n + 2, n + 3}, {n + 1, n + 2, n + 3};
    Move(base, e, n, n, done, todo, spare, start, depths, limit);
    assert spare - {n} == rest && rest - {n + 1} == {n + 2, n + 3};
    var e1 := e.BrUnlessTerminated(n).At(n);
    Branch(base, e1, i, done, todo, rest, start, depths, limit);
    WidenTargets(e, e1.Emit(i), depths, depths);
    EnterLoop(base, e1.Emit(i), LoopTargets(n + 3, n + 2, e.depth, e.depth), n + 1, done, todo, rest, start, depths, limit);
  }

  ghost predicate ForBlocks(depth: nat, n: nat, depths: seq<nat>) {
    && IsTarget(n, depth, depths) && IsTarget(n + 1, depth, depths)
    && IsTarget(n + 2, depth, depths) && IsTarget(n + 3, depth, depths)
  }

  lemma ExitScope(base: State, e: State, done: set<string>, todo: set<string>, spare: set<nat>,
                  start: seq<nat>, depths: seq<nat>, limit: nat)
    requires Stage(base, e, done, todo, spare, start, depths, limit) && e.depth > 0
    ensures Stage(base, e.Emit(ScopeExit).Shallower(), done, todo, spare, start, depths, limit)
  {
    hide FlowOf;
    EmitCode(e, ScopeExit, e.depth - 1, depths, limit);
    Append(base, e, ScopeExit, e.depth - 1, done, todo, spare, start, depths, limit);
    assert e.Emit(ScopeExit).Shallower() == e.Emit(ScopeExit).(depth := e.depth - 1);
  }

  /** Body, post statements, back edge and the exit of the for scope. */
  lemma {:induction false} ForTail(base: State, e: State, s: Stmt, n: nat, loops: seq<LoopTargets>, t: LoopTargets,
                                   done: set<string>, todo: set<string>,
                                   start: seq<nat>, depths: seq<nat>, limit: nat)
    returns (out: seq<nat>)
    requires s.For? && Stage(base, e, done, todo, {n + 2, n + 3}, start, depths, limit) && TargetsTyped(e, depths)
    requires e.loops == loops + [t] && e.depth > 0
    requires ForBlocks(e.depth, n, depths)
    requires LabelsOf(s.body) + LabelsOf(s.post) <= todo && LabelsOf(s.post) !! LabelsOf(s.body)
    requires e.depth + 1 + NestingOf(s.body) <= limit && e.depth + NestingOf(s.post) <= limit
    requires DistinctAll(s.body) && DepthsAllOk(s.body, e.depth + 1, e.labelDepths)
    requires DistinctAll(s.post) && DepthsAllOk(s.post, e.depth, e.labelDepths)
    requires EmitPost(EmitBlock(e, s.body).BrUnlessTerminated(n + 2).At(n + 2), s.post).errors == 0
    ensures var posted := EmitPost(EmitBlock(e, s.body).BrUnlessTerminated(n + 2).At(n + 2), s.post);
      var r := PopLoop(posted.BrUnlessTerminated(n)).At(n + 3).Emit(ScopeExit).Shallower();
      && Stage(base, r, done + LabelsOf(s.body) + LabelsOf(s.post), todo - LabelsOf(s.body) - LabelsOf(s.post),
               {}, start, out, limit)
      && SameContext(e.(loops := loops, depth := e.depth - 1), r)
    decreases s, 0
  {
    hide FlowOf, CodeTyped, Stage, TargetsTyped, EmitBlock, EmitPost, State.BrUnlessTerminated;
    var spare := {n + 2, n + 3};
    var d1 := SubBlock(base, e, s.body, done, todo, spare, start, depths, limit);
    var e1, done1, todo1 := EmitBlock(e, s.body), done + LabelsOf(s.body), todo - LabelsOf(s.body);
    Move(base, e1, n + 2, n + 2, done1, todo1, spare, start, d1, limit);
    assert spare - {n + 2} == {n + 3};
    var e2 := e1.BrUnlessTerminated(n + 2).At(n + 2);
    WidenTargets(e, e2, depths, d1);
    Resume(base, e2, LabelsOf(s.post), done1, todo1, {n + 3}, start, d1, limit);
    out := PostTyped(e2, s.post, d1, limit);
    var e3, done2, todo2 := EmitPost(e2, s.post), done1 + LabelsOf(s.post), todo1 - LabelsOf(s.post);
    Part(base, e2, e3, LabelsOf(s.post), done1, todo1, {n + 3}, start, d1, out, limit);
    LeaveLoop(base, e3, loops, t, n, n + 3, done2, todo2, {n + 3}, start, out, limit);
    assert {n + 3} - {n + 3} == {};
    ExitScope(base, PopLoop(e3.BrUnlessTerminated(n)).At(n + 3), done2, todo2, {}, start, out, limit);
  }

  /** Head and tail together, from the state after the init statement. */
  lemma {:induction false} ForLoopTyped(base: State, e: State, s: Stmt, n: nat, done: set<string>, todo: set<string>,
                                        start: seq<nat>, depths: seq<nat>, limit: nat)
    returns (out: seq<nat>)
    requires s.For? && Stage(base, e, done, todo, {n, n + 1, n + 2, n + 3}, start, depths, limit)
    requires TargetsTyped(e, depths) && ForBlocks(e.depth, n, depths) && e.depth > 0
    requires LabelsOf(s.body) + LabelsOf(s.post) <= todo && Distinct(s)
    requires e.depth + 1 + NestingOf(s.body) <= limit && e.depth + NestingOf(s.post) <= limit
    requires DepthsAllOk(s.body, e.depth + 1, e.labelDepths) && DepthsAllOk(s.post, e.depth, e.labelDepths)
    requires EmitForLoop(e, s, n).errors == 0
    ensures Stage(base, EmitForLoop(e, s, n), done + LabelsOf(s.body) + LabelsOf(s.post),
                  todo - LabelsOf(s.body) - LabelsOf(s.post), {}, start, out, limit)
    ensures SameContext(e.(depth := e.depth - 1), EmitForLoop(e, s, n))
    decreases s, 1
  {
    hide FlowOf, CodeTyped, Stage, TargetsTyped, EmitBlock, EmitPost, State.BrUnlessTerminated, LabelsOf, NestingOf, DepthsAllOk, DistinctAll;
    var i := if s.conditional then CondBr(n + 1, n + 3) else Br(n + 1);
    var t := LoopTargets(n + 3, n + 2, e.depth, e.depth);
    ForHead(base, e, i, n, done, todo, start, depths, limit);
    var e1 := e.BrUnlessTerminated(n).At(n).Emit(i).(loops := e.loops + [t]).At(n + 1);
    out := ForTail(base, e1, s, n, e.loops, t, done, todo, start, depths, limit);
  }

  lemma {:induction false} ForTyped(e: State, s: Stmt, depths: seq<nat>, limit: nat) returns (out: seq<nat>)
    requires s.For? && Fits(e, Labels(s), Nesting(s), depths, limit)
    requires Distinct(s) && DepthsOk(s, e.depth, e.labelDepths) && EmitFor(e, s).errors == 0
    ensures Emitted(e, EmitFor(e, s), Labels(s), depths, out, limit)
    decreases s, 2
  {
    hide FlowOf, CodeTyped, Stage, TargetsTyped, LabelsTyped, EmitForLoop, EmitStmt;
    var n, names := |e.blocks|, Labels(s);
    var spare := {n, n + 1, n + 2, n + 3};
    OpenFor(e, names, spare, depths, limit);
    var e1, d1 := e.AddBlocks(4).Emit(ScopeEnter).Deeper(), depths + seq(4, _ => e.depth + 1);
    var e2, d2, done, todo := e1, d1, {}, names;
    if s.init.Some? {
      d2 := SubStmt(e, e1, s.init.value, {}, names, spare, depths, d1, limit);
      e2, done, todo := EmitStmt(e1, s.init.value), {} + Labels(s.init.value), names - Labels(s.init.value);
    }
    WidenTargets(e1, e2, d1, d2);
    assert ForBlocks(e2.depth, n, d2);
    out := ForLoopTyped(e, e2, s, n, done, todo, depths, d2, limit);
    Finish(e, EmitFor(e, s), done + LabelsOf(s.body) + LabelsOf(s.post),
           todo - LabelsOf(s.body) - LabelsOf(s.post), {}, names, depths, out, limit);
  }

  lemma {:induction false} TryTyped(e: State, s: Stmt, depths: seq<nat>, limit: nat) returns (out: seq<nat>)
    requires s.TryCatch? && Fits(e, Labels(s), Nesting(s), depths, limit)
    requires Distinct(s) && DepthsOk(s, e.depth, e.labelDepths) && EmitTryCatch(e, s).errors == 0
    ensures Emitted(e, EmitTryCatch(e, s), Labels(s), depths, out, limit)
    decreases s, 2
  {
    hide FlowOf, CodeTyped, EmitBlock, Stage, TargetsTyped, LabelsTyped, State.BrUnlessTerminated;
    var n, names, spare := |e.blocks|, Labels(s), {|e.blocks|, |e.blocks| + 1, |e.blocks| + 2};
    Split(e, 3, Br(n), n, names, spare, depths, limit);
    var e1, d1 := e.AddBlocks(3).Emit(Br(n)).At(n), depths + seq(3, _ => e.depth);
    var t := CatchTarget(n + 1, s.errorByteLength, e.depth);
    var e2 := e1.(catches := e.catches + [t]);
    Retarget(e, e1, e2, {}, names, spare - {n}, depths, d1, limit);
    PushCatch(e1, e2, t, d1);
    var d2 := SubBlock(e, e2, s.tryBlock, {}, names, spare - {n}, depths, d1, limit);
    var e3, done, todo := EmitBlock(e2, s.tryBlock), {} + LabelsOf(s.tryBlock), names - LabelsOf(s.tryBlock);
    assert (e.catches + [t])[..|e.catches|] == e.catches;
    var e4 := PopCatch(e3);
    Retarget(e, e3, e4, done, todo, spare - {n}, depths, d2, limit);
    Move(e, e4, n + 2, n + 1, done, todo, spare - {n}, depths, d2, limit);
    var e5 := e4.BrUnlessTerminated(n + 2).At(n + 1);
    WidenTargets(e, e5, depths, d2);
    out := SubBlock(e, e5, s.catchBlock, done, todo, spare - {n} - {n + 1}, depths, d2, limit);
    var e6 := EmitBlock(e5, s.catchBlock);
    done, todo := done + LabelsOf(s.catchBlock), todo - LabelsOf(s.catchBlock);
    Move(e, e6, n + 2, n + 2, done, todo, spare - {n} - {n + 1}, depths, out, limit);
    Finish(e, EmitTryCatch(e, s), done, todo, spare - {n} - {n + 1} - {n + 2}, names, depths, out, limit);
  }

  lemma {:induction false} ThrowTyped(e: State, s: Stmt, depths: seq<nat>, limit: nat) returns (out: seq<nat>)
    requires s.Throw? && Fits(e, Labels(s), Nesting(s), depths, limit)
    requires Distinct(s) && DepthsOk(s, e.depth, e.labelDepths) && EmitThrow(e, s).errors == 0
    ensures Emitted(e, EmitThrow(e, s), Labels(s), depths, out, limit)
    decreases s, 2
  {
    hide FlowOf, EmitStmt, CodeTyped, Local, Frame, LabelsTyped;
    if e.catches == [] {
      out := depths;
      ExitProcessCode(e, depths, limit);
      TwoLocal(e, ExitProcess, Ret);
      Straight(e, EmitThrow(e, s), Labels(s), depths, limit);
    } else {
      out := StmtTyped(e, s.delivery.value, depths, limit);
      var m := EmitStmt(e, s.delivery.value);
      if !m.Terminated() {
        var t := e.catches[|e.catches| - 1];
        JumpOutCode(m, t.depth, t.catchBlock, out, limit);
        ExitToLocal(m, t.depth, Br(t.catchBlock));
        Straight(m, EmitThrow(e, s), {}, out, limit);
        EmittedTrans(e, m, EmitThrow(e, s), Labels(s), {}, depths, out, out, limit);
        assert Labels(s) + {} == Labels(s);
      }
    }
  }

  lemma {:induction false} StaticTyped(e: State, s: Stmt, depths: seq<nat>, limit: nat) returns (out: seq<nat>)
    requires s.StaticInit? && !e.staticActive && Fits(e, Labels(s), Nesting(s), depths, limit)
    requires Distinct(s) && DepthsOk(s, e.depth, e.labelDepths) && EmitStmt(e, s).errors == 0
    ensures Emitted(e, EmitStmt(e, s), Labels(s), depths, out, limit)
    decreases s, 2
  {
    hide FlowOf, CodeTyped, Stage, TargetsTyped, LabelsTyped;
    var n, names, spare := |e.blocks|, Labels(s), {|e.blocks|, |e.blocks| + 1};
    Split(e, 2, CondBr(n + 1, n), n, names, spare, depths, limit);
    var e1, d1 := e.AddBlocks(2).Emit(CondBr(n + 1, n)).At(n), depths + seq(2, _ => e.depth);
    var e2 := e1.(staticActive := true);
    Retarget(e, e1, e2, {}, names, spare - {n}, depths, d1, limit);
    WidenTargets(e1, e2, d1, d1);
    out := SubStmt(e, e2, s.statement, {}, names, spare - {n}, depths, d1, limit);
    var e3 := EmitStmt(e2, s.statement);
    var e4 := e3.(staticActive := false);
    Retarget(e, e3, e4, {} + names, names - names, spare - {n}, depths, out, limit);
    Move(e, e4, n + 1, n + 1, {} + names, names - names, spare - {n}, depths, out, limit);
    Finish(e, EmitStmt(e, s), {} + names, names - names, spare - {n} - {n + 1}, names, depths, out, limit);
  }

  lemma {:induction false} LabelTyped(e: State, s: Stmt, depths: seq<nat>, limit: nat) returns (out: seq<nat>)
    requires s.Label? && Fits(e, Labels(s), Nesting(s), depths, limit)
    requires Distinct(s) && DepthsOk(s, e.depth, e.labelDepths) && EmitStmt(e, s).errors == 0
    ensures Emitted(e, EmitStmt(e, s), Labels(s), depths, out, limit)
    decreases s, 2
  {
    hide FlowOf, CodeTyped;
    var block := e.labelBlocks[s.name];
    var m := e.BrUnlessTerminated(block).At(block);
    EnterLabel(e, s.name, Labels(s.statement), depths, limit);
    out := StmtTyped(m, s.statement, depths, limit);
    assert LabelSet(e, Labels(s)) == {block} + LabelSet(e, Labels(s.statement));
  }

  lemma EnterLabel(e: State, name: string, inner: set<string>, depths: seq<nat>, limit: nat)
    requires Ready(e, {name} + inner, depths, limit) && name !in inner
    requires name in e.labelBlocks && e.labelDepths[name] == e.depth
    ensures var block := e.labelBlocks[name];
      var m := e.BrUnlessTerminated(block).At(block);
      && Ready(m, inner, depths, limit) && SameContext(e, m) && m.errors == e.errors && m.current == block
      && |m.blocks| == |e.blocks|
      && (forall b: nat | b < |e.blocks| && b != e.current :: m.blocks[b] == e.blocks[b])
  {
    hide FlowOf;
    var block := e.labelBlocks[name];
    BrUnlessTerminatedCode(e, block, depths, limit);
    AtCode(e.BrUnlessTerminated(block), block, depths, limit);
  }

  /** Every accepted statement keeps the typing, touching only its own blocks. */
  lemma {:induction false} StmtTyped(e: State, s: Stmt, depths: seq<nat>, limit: nat) returns (out: seq<nat>)
    requires Fits(e, Labels(s), Nesting(s), depths, limit)
    requires Distinct(s) && DepthsOk(s, e.depth, e.labelDepths) && EmitStmt(e, s).errors == 0
    ensures Emitted(e, EmitStmt(e, s), Labels(s), depths, out, limit)
    decreases s, 3
  {
    hide FlowOf, Emitted, EmitIf, EmitWhile, EmitFor, EmitThrow, EmitTryCatch, EmitList;
    match s
    case If(_, _, _) => out := IfTyped(e, s, depths, limit);
    case While(_) => out := WhileTyped(e, s, depths, limit);
    case For(_, _, _, _) => out := ForTyped(e, s, depths, limit);
    case Throw(_, _, _) => out := ThrowTyped(e, s, depths, limit);
    case TryCatch(_, _, _) => out := TryTyped(e, s, depths, limit);
    case StatementList(ss) => out := ListTyped(e, ss, depths, limit);
    case Label(_, _) => out := LabelTyped(e, s, depths, limit);
    case StaticInit(statement) =>
      if e.staticActive {
        out := StmtTyped(e, statement, depths, limit);
      } else {
        out := StaticTyped(e, s, depths, limit);
      }
    case _ =>
      out := depths;
      SimpleCode(e, s, depths, limit);
      Straight(e, EmitStmt(e, s), Labels(s), depths, limit);
  }

  /** Straight-line statements, returns and the three kinds of jump. */
  lemma SimpleCode(e: State, s: Stmt, depths: seq<nat>, limit: nat)
    requires Typed(e, depths, limit) && EmitStmt(e, s).errors == 0
    requires s.Plain? || s.Call? || s.Return? || s.Break? || s.Continue? || s.Goto?
    ensures CodeTyped(EmitStmt(e, s), depths, limit) && Local(e, EmitStmt(e, s))
  {
    hide FlowOf, CodeTyped, Local;
    match s
    case Plain(id) =>
      EmitCode(e, Op(id), e.depth, depths, limit);
      EmitLocal(e, Op(id));
    case Call(callee) =>
      EmitCode(e, CallFunction(callee), e.depth, depths, limit);
      EmitLocal(e, CallFunction(callee));
    case Return =>
      ReturnCode(e, depths, limit);
      TwoLocal(e, FrameExit, Ret);
    case Break =>
      var t := e.loops[|e.loops| - 1];
      JumpOutCode(e, t.breakDepth, t.breakBlock, depths, limit);
      ExitToLocal(e, t.breakDepth, Br(t.breakBlock));
    case Continue =>
      var t := e.loops[|e.loops| - 1];
      JumpOutCode(e, t.continueDepth, t.continueBlock, depths, limit);
      ExitToLocal(e, t.continueDepth, Br(t.continueBlock));
    case Goto(name) =>
      JumpOutCode(e, e.labelDepths[name], e.labelBlocks[name], depths, limit);
      ExitToLocal(e, e.labelDepths[name], Br(e.labelBlocks[name]));
  }
}
