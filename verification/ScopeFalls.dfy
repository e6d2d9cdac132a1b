/**
  When emission leaves the current block open, and the statements whose labels are all
  emitted: the emitter skips dead statements, and with them any label inside.
 */
module ScopeFalls {
  import opened ScopeHir
  import opened ScopeLabels
  import opened ScopeShape

  // ------------------------------------------------- labels that are emitted

  /** Whether emission leaves the current block open, from whether it was open before. */
  predicate Falls(s: Stmt, open: bool, inStatic: bool)
    decreases s, 1
  {
    match s
    case Plain(_) | Call(_) | If(_, _, _) | While(_) | For(_, _, _, _) | TryCatch(_, _, _) => true
    case Return | Break | Continue | Goto(_) | Throw(_, _, _) => false
    case Label(_, statement) => Falls(statement, true, inStatic)
    case StatementList(ss) => FallsAll(ss, open, inStatic)
    case StaticInit(statement) => !inStatic || Falls(statement, open, true)
  }

  predicate FallsAll(ss: seq<Stmt>, open: bool, inStatic: bool)
    decreases ss, 0
  {
    if ss == [] then open else FallsAll(ss[1..], Falls(ss[0], open, inStatic), inStatic)
  }

  /** No label sits in a statement that the emitter skips as dead code. */
  predicate NoLostLabels(s: Stmt, inStatic: bool)
    decreases s, 1
  {
    match s
    case If(t, hasElse, f) => NoneLost(t, true, inStatic) && (hasElse ==> NoneLost(f, true, inStatic))
    case While(body) => NoneLost(body, true, inStatic)
    case For(init, _, post, body) =>
      && (init.Some? ==> NoLostLabels(init.value, inStatic))
      && NoneLost(body, true, inStatic) && NoneLostAfter(post, true, inStatic)
    case Label(_, statement) => NoLostLabels(statement, inStatic)
    case Throw(_, _, delivery) => delivery.Some? ==> Labels(delivery.value) == {} && NoLostLabels(delivery.value, inStatic)
    case TryCatch(_, t, c) => NoneLost(t, true, inStatic) && NoneLost(c, true, inStatic)
    case StatementList(ss) => forall i | 0 <= i < |ss| :: NoLostLabels(ss[i], inStatic)
    case StaticInit(statement) => NoLostLabels(statement, true)
    case _ => true
  }

  /** In a block, dead statements other than labels are skipped. */
  predicate NoneLost(ss: seq<Stmt>, open: bool, inStatic: bool)
    decreases ss, 0
  {
    ss == [] ||
    if !open && !ss[0].Label? then Labels(ss[0]) == {} && NoneLost(ss[1..], false, inStatic)
    else NoLostLabels(ss[0], inStatic) && NoneLost(ss[1..], Falls(ss[0], open, inStatic), inStatic)
  }

  /** The post statements of a for loop end with the first that does not fall through. */
  predicate NoneLostAfter(ss: seq<Stmt>, open: bool, inStatic: bool)
    decreases ss, 0
  {
    ss == [] ||
    (NoLostLabels(ss[0], inStatic) &&
     if Falls(ss[0], open, inStatic) then NoneLostAfter(ss[1..], true, inStatic) else LabelsOf(ss[1..]) == {})
  }

  lemma EmittedLast(e: State, i: Instr)
    requires e.current < |e.blocks|
    ensures e.Emit(i).Terminated() == IsTerminator(i)
  {
  }

  /** Falls says exactly whether the block is left open. */
  lemma {:induction false} FallsExactly(e: State, s: Stmt)
    requires Ready(e, Labels(s)) && Distinct(s) && EmitStmt(e, s).errors == 0
    ensures EmitStmt(e, s).Terminated() == !Falls(s, !e.Terminated(), e.staticActive)
    decreases s, 1
  {
    hide Ready, EmitIf, EmitWhile, EmitFor, EmitTryCatch, EmitList, State.Emit, State.ExitTo, State.BrUnlessTerminated, Shape;
    ReadyBounds(e, Labels(s));
    match s
    case Plain(id) => EmittedLast(e, Op(id));
    case Call(callee) => EmittedLast(e, CallFunction(callee));
    case Return => LastOf(e, 0, FrameExit); EmittedLast(e.LeaveFrame(), Ret);
    case Break => LastOf(e, e.loops[|e.loops| - 1].breakDepth, Br(e.loops[|e.loops| - 1].breakBlock));
    case Continue => LastOf(e, e.loops[|e.loops| - 1].continueDepth, Br(e.loops[|e.loops| - 1].continueBlock));
    case Goto(name) => LastOf(e, e.labelDepths[name], Br(e.labelBlocks[name]));
    case If(_, _, _) => IfShape(e, s);
    case While(_) => WhileShape(e, s);
    case For(_, _, _, _) => ForEnds(e, s);
    case TryCatch(_, _, _) => TryShape(e, s);
    case Throw(_, _, _) => ThrowEnds(e, s);
    case Label(_, statement) =>
      LabelShape(e, s);
      FallsExactly(LabelStart(e, s), statement);
    case StatementList(ss) => FallsAllExactly(e, ss);
    case StaticInit(statement) =>
      if e.staticActive {
        FallsExactly(e, statement);
      } else {
        StaticShape(e, s);
      }
  }

  lemma ReadyBounds(e: State, names: set<string>)
    requires Ready(e, names)
    ensures Sound(e) && e.current < |e.blocks|
  {
  }

  lemma LastOf(e: State, target: nat, i: Instr)
    requires e.current < |e.blocks|
    ensures e.ExitTo(target).Emit(i).Terminated() == IsTerminator(i)
    ensures e.ExitTo(target).Emit(i).current < |e.ExitTo(target).Emit(i).blocks|
  {
  }

  lemma ForEnds(e: State, s: Stmt)
    requires s.For? && Ready(e, Labels(s)) && Distinct(s) && EmitFor(e, s).errors == 0
    ensures !EmitFor(e, s).Terminated()
  {
    hide Ready, Stage, EmitForLoop, EmitFor, State.Emit, Appends, Sound, ForStarted, ForExit, SameTargets;
    var n, started := |e.blocks|, ForStarted(e, s);
    ForIsLoop(e, s);
    ForInit(e, s);
    ForErrors(started, s, n);
    ForLoopShape(e, started, s, n);
    ForExitShape(e, started, s, n);
    EmittedLast(ForExit(started, s, n), ScopeExit);
  }

  lemma ThrowEnds(e: State, s: Stmt)
    requires s.Throw? && Ready(e, Labels(s)) && Distinct(s) && EmitThrow(e, s).errors == 0
    ensures EmitThrow(e, s).Terminated()
  {
    hide Ready, EmitStmt, State.Emit, State.ExitTo, Shape;
    ReadyBounds(e, Labels(s));
    if e.catches == [] {
      LastOf(e, 0, ExitProcess);
      EmittedLast(e.ExitTo(0).Emit(ExitProcess), Ret);
    } else {
      var target := e.catches[|e.catches| - 1];
      var delivered := EmitStmt(e, s.delivery.value);
      SameErrors(delivered, target.depth, Br(target.catchBlock));
      StmtShape(e, s.delivery.value);
      ShapeBounds(e, delivered, Labels(s.delivery.value));
      if !delivered.Terminated() {
        LastOf(delivered, target.depth, Br(target.catchBlock));
      }
    }
  }

  lemma ShapeBounds(e: State, r: State, names: set<string>)
    requires Shape(e, r, names)
    ensures r.current < |r.blocks| && Appends(e, r) && SameTargets(e, r)
  {
  }

  lemma {:induction false} FallsAllExactly(e: State, ss: seq<Stmt>)
    requires Ready(e, LabelsOf(ss)) && DistinctAll(ss) && EmitList(e, ss).errors == 0
    ensures EmitList(e, ss).Terminated() == !FallsAll(ss, !e.Terminated(), e.staticActive)
    decreases ss, 0
  {
    hide Ready, EmitStmt, Stage;
    if ss != [] {
      FirstShape(e, ss);
      FallsExactly(e, ss[0]);
      FallsAllExactly(EmitStmt(e, ss[0]), ss[1..]);
    }
  }
}
