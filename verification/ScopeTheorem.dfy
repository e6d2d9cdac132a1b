/** The induction: every construct, every way of leaving it, every label. */
module ScopeTheorem {
  import opened Basics
  import opened ScopeHir
  import opened ScopeLabels
  import opened ScopeShape
  import opened ScopeMeaning
  import opened ScopeFalls
  import opened ScopePreservation

  // -------------------------------------------------------- single statements

  lemma SimpleDoes(code: seq<Code>, e: State, s: Stmt, choices: seq<bool>, fuel: nat)
    requires Ready(e, {}) && Placed(e) && EmitStmt(e, s).errors == 0 && Within(EmitStmt(e, s), code)
    requires s.Plain? || s.Call? || s.Return? || s.Break? || s.Continue? || s.Goto?
    ensures Does(code, PointOf(e), choices, Exec(s, Enter, choices, ContextOf(e), fuel), e, EmitStmt(e, s), fuel)
  {
    hide Goes, Moves, Lasts, Within, State.Emit, State.ExitTo, Appends;
    SimpleShape(e, s);
    ShapeBounds(e, EmitStmt(e, s), {});
    match s
    case Plain(id) =>
      EventStep(e, Op(id), Did(id, e.depth), code, choices);
      EmittedLast(e, Op(id));
    case Call(callee) =>
      EventStep(e, CallFunction(callee), Called(callee, e.depth), code, choices);
      EmittedLast(e, CallFunction(callee));
    case Return => ReturnDoes(code, e, choices);
    case Break =>
      var t := e.loops[|e.loops| - 1];
      ExitStep(e, t.breakDepth, Br(t.breakBlock), At(t.breakBlock, 0, t.breakDepth), code, choices);
    case Continue =>
      var t := e.loops[|e.loops| - 1];
      ExitStep(e, t.continueDepth, Br(t.continueBlock), At(t.continueBlock, 0, t.continueDepth), code, choices);
    case Goto(name) =>
      ExitStep(e, e.labelDepths[name], Br(e.labelBlocks[name]), At(e.labelBlocks[name], 0, e.labelDepths[name]), code, choices);
  }

  lemma ReturnDoes(code: seq<Code>, e: State, choices: seq<bool>)
    requires Sound(e) && Within(e.LeaveFrame().Emit(Ret), code)
    ensures Moves(code, PointOf(e), choices, Done(0), choices, []) && Goes(code, PointOf(e), choices, Done(0), choices, [])
  {
    hide Goes, Moves, Lasts, Within, Appends;
    var inner := e.ExitTo(0);
    var left := inner.Emit(FrameExit);
    if e.depth > 0 {
      EmitShape(e, ScopeExitTo(0));
      ShapeSound(e, inner, {});
    }
    EmitShape(inner, FrameExit);
    ShapeSound(inner, left, {});
    ShapeBounds(inner, left, {});
    EmitShape(left, Ret);
    ShapeBounds(left, left.Emit(Ret), {});
    WithinBack(left, left.Emit(Ret), code);
    WithinBack(inner, left, code);
    LeaveStep(left, Ret, 0, Done(0), code, choices);
    SilentStep(inner, FrameExit, 0, code, choices);
    MovesAfter(code, PointAt(inner, 0), choices, PointAt(left, 0), choices, Done(0), choices, []);
    if e.depth > 0 {
      SilentStep(e, ScopeExitTo(0), e.depth, code, choices);
      MovesAfter(code, PointOf(e), choices, PointAt(inner, 0), choices, Done(0), choices, []);
    }
    MovesGo(code, PointOf(e), choices, Done(0), choices, []);
  }

  lemma {:induction false} StmtDoes(code: seq<Code>, e: State, s: Stmt, mode: Mode, choices: seq<bool>, fuel: nat)
    requires Ready(e, Labels(s)) && Distinct(s) && NoLostLabels(s, e.staticActive) && EmitStmt(e, s).errors == 0
    requires Placed(e) && DepthsOk(s, e.depth, e.labelDepths)
    requires Within(EmitStmt(e, s), code) && Startable(e, mode, Labels(s))
    ensures Does(code, StartOf(e, mode), choices, Exec(s, mode, choices, ContextOf(e), fuel), e, EmitStmt(e, s), fuel)
    decreases fuel, s, 5
  {
    hide Does, Within, Ready, EmitIf, EmitWhile, EmitFor, EmitThrow, EmitTryCatch, EmitList;
    match s
    case If(_, _, _) => IfDoes(code, e, s, mode, choices, fuel);
    case While(_) => WhileDoes(code, e, s, mode, choices, fuel);
    case For(_, _, _, _) => ForDoes(code, e, s, mode, choices, fuel);
    case Throw(_, _, _) => ThrowDoes(code, e, s, choices, fuel);
    case TryCatch(_, _, _) => TryDoes(code, e, s, mode, choices, fuel);
    case StatementList(ss) => ListDoes(code, e, ss, mode, choices, fuel);
    case Label(_, _) => LabelDoes(code, e, s, mode, choices, fuel);
    case StaticInit(statement) =>
      if e.staticActive {
        StmtDoes(code, e, statement, mode, choices, fuel);
      } else {
        StaticDoes(code, e, s, mode, choices, fuel);
      }
    case _ => SimpleDoes(code, e, s, choices, fuel);
  }

  // --------------------------------------------------------------- sequences

  /** The first statement and the rest. */
  lemma SequenceDoes(code: seq<Code>, e: State, first: State, r: State, ss: seq<Stmt>, mode: Mode, choices: seq<bool>, fuel: nat)
    requires ss != [] && (mode.Seek? ==> mode.name in Labels(ss[0])) && e.current < |e.blocks| && first.current < |first.blocks|
    requires SameTargets(e, first) && r.current < |r.blocks|
    requires var run := Exec(ss[0], mode, choices, ContextOf(e), fuel);
      && Does(code, StartOf(e, mode), choices, run, e, first, fuel)
      && (run.exit.Fell? ==> Does(code, PointOf(first), run.choices, ExecAll(ss[1..], Enter, run.choices, ContextOf(e), fuel), first, r, fuel))
    ensures Does(code, StartOf(e, mode), choices, ExecAll(ss, mode, choices, ContextOf(e), fuel), e, r, fuel)
  {
    hide Goes, Moves, Lasts, Exec;
    var run := Exec(ss[0], mode, choices, ContextOf(e), fuel);
    if run.exit.Fell? {
      DoesThen(code, StartOf(e, mode), choices, run, PointOf(first), ExecAll(ss[1..], Enter, run.choices, ContextOf(e), fuel), e, r, fuel);
    } else {
      DoesOutside(code, StartOf(e, mode), choices, run, e, first, e, r, fuel);
    }
  }

  lemma {:induction false} StatementsDo(code: seq<Code>, e: State, ss: seq<Stmt>, mode: Mode, choices: seq<bool>, fuel: nat)
    requires Ready(e, LabelsOf(ss)) && DistinctAll(ss) && NoneLost(ss, !e.Terminated(), e.staticActive) && EmitStatements(e, ss).errors == 0
    requires Placed(e) && DepthsAllOk(ss, e.depth, e.labelDepths)
    requires Within(EmitStatements(e, ss), code) && Startable(e, mode, LabelsOf(ss))
    ensures Does(code, StartOf(e, mode), choices, ExecAll(ss, mode, choices, ContextOf(e), fuel), e, EmitStatements(e, ss), fuel)
    decreases fuel, ss, 3
  {
    hide Does, Within, Ready, EmitStmt, Exec, Stage, Shape, Appends;
    ReadyBounds(e, LabelsOf(ss));
    var r := EmitStatements(e, ss);
    if ss == [] {
      OpenDoes(code, e, choices, fuel);
    } else if e.Terminated() && !ss[0].Label? {
      StatementsDo(code, e, ss[1..], mode, choices, fuel) by { ReadyFewer(e, LabelsOf(ss), LabelsOf(ss[1..])); }
    } else {
      var first := EmitStmt(e, ss[0]);
      FirstShape(e, ss);
      ReadyBounds(first, LabelsOf(ss[1..]));
      PlacedSame(e, first);
      StatementsShape(first, ss[1..]);
      ShapeBounds(first, r, LabelsOf(ss[1..]));
      WithinBack(first, r, code);
      FallsExactly(e, ss[0]);
      if mode.Seek? && mode.name !in Labels(ss[0]) {
        StatementsDo(code, first, ss[1..], mode, choices, fuel);
        SameEnds(code, StartOf(first, mode), choices, ExecAll(ss[1..], mode, choices, ContextOf(e), fuel), first, e, r, fuel);
      } else {
        StmtDoes(code, e, ss[0], mode, choices, fuel);
        var run := Exec(ss[0], mode, choices, ContextOf(e), fuel);
        if run.exit.Fell? {
          FellOpen(code, StartOf(e, mode), choices, run, e, first, fuel);
          StatementsDo(code, first, ss[1..], Enter, run.choices, fuel);
        }
        SequenceDoes(code, e, first, r, ss, mode, choices, fuel);
      }
    }
  }

  lemma FellOpen(code: seq<Code>, p: Point, choices: seq<bool>, run: Run, e: State, r: State, fuel: nat)
    requires Does(code, p, choices, run, e, r, fuel) && run.exit.Fell?
    ensures !r.Terminated()
  {
    hide Goes, Moves;
  }

  lemma ReadyFewer(e: State, names: set<string>, fewer: set<string>)
    requires Ready(e, names) && fewer <= names
    ensures Ready(e, fewer)
  {
  }

  lemma {:induction false} ListDoes(code: seq<Code>, e: State, ss: seq<Stmt>, mode: Mode, choices: seq<bool>, fuel: nat)
    requires Ready(e, LabelsOf(ss)) && DistinctAll(ss) && (forall i | 0 <= i < |ss| :: NoLostLabels(ss[i], e.staticActive))
    requires Placed(e) && DepthsAllOk(ss, e.depth, e.labelDepths)
    requires EmitList(e, ss).errors == 0 && Within(EmitList(e, ss), code) && Startable(e, mode, LabelsOf(ss))
    ensures Does(code, StartOf(e, mode), choices, ExecAll(ss, mode, choices, ContextOf(e), fuel), e, EmitList(e, ss), fuel)
    decreases fuel, ss, 3
  {
    hide Does, Within, Ready, EmitStmt, Exec, Stage, Shape, Appends;
    ReadyBounds(e, LabelsOf(ss));
    var r := EmitList(e, ss);
    if ss == [] {
      OpenDoes(code, e, choices, fuel);
    } else {
      var first := EmitStmt(e, ss[0]);
      FirstShape(e, ss);
      ReadyBounds(first, LabelsOf(ss[1..]));
      PlacedSame(e, first);
      ListShape(first, ss[1..]);
      ShapeBounds(first, r, LabelsOf(ss[1..]));
      WithinBack(first, r, code);
      if mode.Seek? && mode.name !in Labels(ss[0]) {
        ListDoes(code, first, ss[1..], mode, choices, fuel);
        SameEnds(code, StartOf(first, mode), choices, ExecAll(ss[1..], mode, choices, ContextOf(e), fuel), first, e, r, fuel);
      } else {
        StmtDoes(code, e, ss[0], mode, choices, fuel);
        var run := Exec(ss[0], mode, choices, ContextOf(e), fuel);
        if run.exit.Fell? {
          FellOpen(code, StartOf(e, mode), choices, run, e, first, fuel);
          ListDoes(code, first, ss[1..], Enter, run.choices, fuel);
        }
        SequenceDoes(code, e, first, r, ss, mode, choices, fuel);
      }
    }
  }

  lemma {:induction false} PostDoes(code: seq<Code>, e: State, ss: seq<Stmt>, mode: Mode, choices: seq<bool>, fuel: nat)
    requires Ready(e, LabelsOf(ss)) && DistinctAll(ss) && NoneLostAfter(ss, !e.Terminated(), e.staticActive)
    requires Placed(e) && DepthsAllOk(ss, e.depth, e.labelDepths)
    requires EmitPost(e, ss).errors == 0 && Within(EmitPost(e, ss), code) && Startable(e, mode, LabelsOf(ss)) && !e.Terminated()
    ensures Does(code, StartOf(e, mode), choices, ExecAll(ss, mode, choices, ContextOf(e), fuel), e, EmitPost(e, ss), fuel)
    decreases fuel, ss, 3
  {
    hide Does, Within, Ready, EmitStmt, Exec, Stage, Shape, Appends, Placed;
    ReadyBounds(e, LabelsOf(ss));
    var r := EmitPost(e, ss);
    if ss == [] {
      OpenDoes(code, e, choices, fuel);
    } else {
      var first := EmitStmt(e, ss[0]);
      FirstShape(e, ss);
      ReadyBounds(first, LabelsOf(ss[1..]));
      PlacedSame(e, first);
      FallsExactly(e, ss[0]);
      if first.Terminated() {
        StmtDoes(code, e, ss[0], mode, choices, fuel);
        var run := Exec(ss[0], mode, choices, ContextOf(e), fuel);
        if run.exit.Fell? {
          FellOpen(code, StartOf(e, mode), choices, run, e, first, fuel);
        }
      } else {
        PostShape(first, ss[1..]);
        ShapeBounds(first, r, LabelsOf(ss[1..]));
        WithinBack(first, r, code);
        if mode.Seek? && mode.name !in Labels(ss[0]) {
          PostDoes(code, first, ss[1..], mode, choices, fuel);
          SameEnds(code, StartOf(first, mode), choices, ExecAll(ss[1..], mode, choices, ContextOf(e), fuel), first, e, r, fuel);
        } else {
          StmtDoes(code, e, ss[0], mode, choices, fuel);
          var run := Exec(ss[0], mode, choices, ContextOf(e), fuel);
          if run.exit.Fell? {
            PostDoes(code, first, ss[1..], Enter, run.choices, fuel);
          }
          SequenceDoes(code, e, first, r, ss, mode, choices, fuel);
        }
      }
    }
  }

  // ------------------------------------------------------------------ blocks

  ghost predicate Sought(e: State, mode: Mode, names: set<string>) {
    mode.Seek? ==> mode.name in names && mode.name in e.labelBlocks
  }

  lemma {:induction false} BlockDoes(code: seq<Code>, e: State, ss: seq<Stmt>, mode: Mode, choices: seq<bool>, fuel: nat)
    requires Ready(e, LabelsOf(ss)) && DistinctAll(ss) && NoneLost(ss, true, e.staticActive) && EmitBlock(e, ss).errors == 0
    requires Placed(e) && DepthsAllOk(ss, e.depth + 1, e.labelDepths)
    requires Within(EmitBlock(e, ss), code) && Sought(e, mode, LabelsOf(ss))
    ensures Does(code, StartOf(e, mode), choices, ExecAll(ss, mode, choices, ContextOf(e).Inside(1), fuel), e, EmitBlock(e, ss), fuel)
    decreases fuel, ss, 4
  {
    hide Does, Goes, Within, Ready, EmitStatements, ExecAll, Shape, Appends, Placed, DepthsAllOk, DistinctAll, NoneLost, LabelsOf;
    ReadyBounds(e, LabelsOf(ss));
    BlockShape(e, ss);
    var start, r := BlockStart(e), EmitBlock(e, ss);
    var filled := EmitStatements(start, ss);
    ShapeBounds(e, r, LabelsOf(ss));
    WithinBack(filled, r, code);
    WithinBack(start, filled, code);
    EmittedLast(e, ScopeEnter);
    PlacedSame(e, start);
    StatementsDo(code, start, ss, mode, choices, fuel);
    var run := ExecAll(ss, mode, choices, ContextOf(e).Inside(1), fuel);
    WithinSame(start, e.Emit(ScopeEnter), code);
    SilentStep(e, ScopeEnter, e.depth, code, choices);
    if mode.Enter? {
      DoesAfter(code, PointOf(e), choices, PointOf(start), choices, run, start, filled, fuel);
    }
    if run.exit.Fell? {
      FellOpen(code, StartOf(start, mode), choices, run, start, filled, fuel);
      WithinSame(r, filled.Emit(ScopeExit), code);
      SilentStep(filled, ScopeExit, filled.depth, code, run.choices);
      EmittedLast(filled, ScopeExit);
      DoesThrough(code, StartOf(e, mode), choices, run, start, filled, e, r, fuel);
    } else {
      DoesOutside(code, StartOf(e, mode), choices, run, start, filled, e, r, fuel);
    }
  }

  lemma WithinSame(e: State, r: State, code: seq<Code>)
    requires Within(e, code) && e.blocks == r.blocks
    ensures Within(r, code)
  {
  }

  /** A branch of a construct that ends by joining an empty block. */
  lemma BranchDoes(code: seq<Code>, p: Point, choices: seq<bool>, run: Run, x: State, y: State, e: State, r: State, fuel: nat)
    requires Does(code, p, choices, run, x, y, fuel) && SameTargets(e, x) && Sound(y) && AtStart(r) && y.depth == r.depth
    requires Within(y.BrUnlessTerminated(r.current), code)
    ensures Does(code, p, choices, run, e, r, fuel)
  {
    hide Goes, Moves, Lasts, Within;
    if run.exit.Fell? {
      JoinStep(y, r.current, code, run.choices);
      DoesThrough(code, p, choices, run, x, y, e, r, fuel);
    } else {
      DoesOutside(code, p, choices, run, x, y, e, r, fuel);
    }
  }

  // ---------------------------------------------------------------------- if

  lemma {:induction false} IfDoes(code: seq<Code>, e: State, s: Stmt, mode: Mode, choices: seq<bool>, fuel: nat)
    requires s.If? && Ready(e, Labels(s)) && Distinct(s) && NoLostLabels(s, e.staticActive) && EmitIf(e, s).errors == 0
    requires Placed(e) && DepthsOk(s, e.depth, e.labelDepths)
    requires Within(EmitIf(e, s), code) && Startable(e, mode, Labels(s))
    ensures Does(code, StartOf(e, mode), choices, Exec(s, mode, choices, ContextOf(e), fuel), e, EmitIf(e, s), fuel)
    decreases fuel, s, 4
  {
    hide Goes, Moves, Lasts, Within, Ready, EmitBlock, ExecAll, Shape, Appends, State.Emit, State.BrUnlessTerminated, State.AddBlocks, Does, Sound, AtStart, Stage;
    var n, r := |e.blocks|, EmitIf(e, s);
    ReadyBounds(e, Labels(s));
    BoundsOfSound(e);
    IfShape(e, s);
    ThenShape(e, s);
    var first, other, done := IfThen(e), IfElse(e, s), IfDone(e, s);
    var filled := EmitBlock(first, s.thenBlock);
    WithinBack(done.BrUnlessTerminated(n + 2), r, code);
    WithinBack(done, done.BrUnlessTerminated(n + 2), code);
    WithinBack(other, done, code);
    WithinBack(filled.BrUnlessTerminated(n + 2), other, code);
    WithinBack(filled, filled.BrUnlessTerminated(n + 2), code);
    WithinBack(first, filled, code);
    WithinBack(e.AddBlocks(3).Emit(CondBr(n, n + 1)), first, code);
    StartPoint(first);
    StartPoint(other);
    PlacedSame(e, first);
    PlacedSame(e, other);
    SamePoint(e, 3);
    if mode.Enter? && choices == [] {
      SpentDoes(code, e.AddBlocks(3), n, n + 1, e, r, fuel);
      return;
    }
    if mode.Enter? {
      ChoiceStep(e.AddBlocks(3), n, n + 1, code, choices);
    }
    var rest := if mode.Enter? then choices[1..] else choices;
    if (mode.Enter? && choices[0]) || (mode.Seek? && mode.name in LabelsOf(s.thenBlock)) {
      BlockDoes(code, first, s.thenBlock, mode, rest, fuel);
      var run := ExecAll(s.thenBlock, mode, rest, ContextOf(e).Inside(1), fuel);
      BranchDoes(code, StartOf(first, mode), rest, run, first, filled, e, r, fuel);
      if mode.Enter? {
        DoesAfter(code, PointOf(e), choices, PointOf(first), rest, run, e, r, fuel);
      }
    } else if s.hasElse {
      BlockDoes(code, other, s.elseBlock, mode, rest, fuel);
      var run := ExecAll(s.elseBlock, mode, rest, ContextOf(e).Inside(1), fuel);
      BranchDoes(code, StartOf(other, mode), rest, run, other, done, e, r, fuel);
      if mode.Enter? {
        DoesAfter(code, PointOf(e), choices, PointOf(other), rest, run, e, r, fuel);
      }
    } else {
      StillDoes(code, other, rest, fuel);
      BranchDoes(code, PointOf(other), rest, Empty(Fell, rest), other, done, e, r, fuel);
      DoesAfter(code, PointOf(e), choices, PointOf(other), rest, Empty(Fell, rest), e, r, fuel);
    }
  }

  /** At a condition with no choices left. */
  lemma SpentDoes(code: seq<Code>, x: State, yes: nat, no: nat, e: State, r: State, fuel: nat)
    requires x.current < |x.blocks| && Within(x.Emit(CondBr(yes, no)), code)
    ensures Does(code, PointOf(x), [], Empty(Spent, []), e, r, fuel)
  {
    hide Goes, Moves, Lasts, Within;
    ChoiceStops(x, yes, no, code, fuel);
  }

  /** Doing nothing at the start of a block. */
  lemma StillDoes(code: seq<Code>, x: State, choices: seq<bool>, fuel: nat)
    requires AtStart(x)
    ensures Does(code, PointOf(x), choices, Empty(Fell, choices), x, x, fuel)
  {
    hide Goes, Moves, Lasts;
    GoesNowhere(code, PointOf(x), choices);
  }

  lemma SamePoint(e: State, n: nat)
    requires e.current < |e.blocks|
    ensures e.AddBlocks(n).current < |e.AddBlocks(n).blocks| && PointOf(e.AddBlocks(n)) == PointOf(e)
  {
  }

  // ------------------------------------------------------------------- while

  /** The blocks of a while loop stand in the code. */
  ghost predicate WhileCode(code: seq<Code>, e: State, s: Stmt)
    requires s.While?
  {
    var n, y := |e.blocks|, EmitBlock(WhileBody(e), s.body);
    && e.current < |e.blocks| && AtStart(EmitWhile(e, s)) && EmitWhile(e, s).current == n + 2
    && AtStart(WhileHead(e)) && Within(WhileHead(e).Emit(CondBr(n + 1, n + 2)), code) && Within(e.AddBlocks(3).Emit(Br(n)), code)
    && AtStart(WhileBody(e)) && Ready(WhileBody(e), LabelsOf(s.body)) && ContextOf(WhileBody(e)) == ContextOf(e)
    && WhileBody(e).labelBlocks == e.labelBlocks && WhileBody(e).catches == e.catches && WhileBody(e).staticActive == e.staticActive
    && y.errors == 0 && Sound(y) && Within(y, code) && Within(y.BrUnlessTerminated(n), code)
    && DistinctAll(s.body) && NoneLost(s.body, true, e.staticActive)
    && Placed(WhileBody(e)) && DepthsAllOk(s.body, e.depth + 1, WhileBody(e).labelDepths) && WhileBody(e).labelDepths == e.labelDepths
    && WhileHead(e).depth == y.depth == EmitWhile(e, s).depth == e.depth
  }

  lemma WhileCodeStands(code: seq<Code>, e: State, s: Stmt)
    requires s.While? && Ready(e, Labels(s)) && Distinct(s) && NoLostLabels(s, e.staticActive) && EmitWhile(e, s).errors == 0
    requires Placed(e) && DepthsOk(s, e.depth, e.labelDepths)
    requires Within(EmitWhile(e, s), code)
    ensures WhileCode(code, e, s)
  {
    hide Within, Ready, EmitBlock, Shape, Appends, State.Emit, State.BrUnlessTerminated, State.AddBlocks, Sound, AtStart;
    var n, y := |e.blocks|, EmitBlock(WhileBody(e), s.body);
    ReadyBounds(e, Labels(s));
    WhileShape(e, s);
    WithinBack(y.BrUnlessTerminated(n), EmitWhile(e, s), code);
    WithinBack(y, y.BrUnlessTerminated(n), code);
    WithinBack(WhileBody(e), y, code);
    WithinBack(WhileHead(e).Emit(CondBr(n + 1, n + 2)), WhileBody(e), code);
    WithinBack(WhileHead(e), WhileBody(e), code);
    WithinBack(e.AddBlocks(3).Emit(Br(n)), WhileHead(e), code);
    BoundsOfSound(e);
  }

  lemma BoundsOfSound(e: State)
    requires Sound(e)
    ensures e.current < |e.blocks|
  {
  }

  lemma {:induction false} WhileDoes(code: seq<Code>, e: State, s: Stmt, mode: Mode, choices: seq<bool>, fuel: nat)
    requires s.While? && Ready(e, Labels(s)) && Distinct(s) && NoLostLabels(s, e.staticActive) && EmitWhile(e, s).errors == 0
    requires Placed(e) && DepthsOk(s, e.depth, e.labelDepths)
    requires Within(EmitWhile(e, s), code) && Startable(e, mode, Labels(s))
    ensures Does(code, StartOf(e, mode), choices, Exec(s, mode, choices, ContextOf(e), fuel), e, EmitWhile(e, s), fuel)
    decreases fuel, s, 4
  {
    hide Goes, Moves, Lasts, Within, Ready, EmitBlock, EmitWhile, ExecAll, Shape, Appends, State.Emit, State.BrUnlessTerminated, State.AddBlocks, Does, Sound, AtStart;
    var n := |e.blocks|;
    WhileCodeStands(code, e, s);
    match mode
    case Enter =>
      WhileHeadDoes(code, e, s, choices, fuel);
      SamePoint(e, 3);
      LeaveStep(e.AddBlocks(3), Br(n), e.depth, At(n, 0, e.depth), code, choices);
      DoesAfter(code, PointOf(e), choices, At(n, 0, e.depth), choices, Exec(s, Enter, choices, ContextOf(e), fuel), e, EmitWhile(e, s), fuel);
    case Seek(_) =>
      BlockDoes(code, WhileBody(e), s.body, mode, choices, fuel);
      WhileAgainDoes(code, e, s, StartOf(e, mode), choices, ExecAll(s.body, mode, choices, ContextOf(e).Inside(1), fuel), fuel);
  }

  /** From the condition of the loop. */
  lemma {:induction false} WhileHeadDoes(code: seq<Code>, e: State, s: Stmt, choices: seq<bool>, fuel: nat)
    requires s.While? && WhileCode(code, e, s)
    ensures Does(code, At(|e.blocks|, 0, e.depth), choices, Exec(s, Enter, choices, ContextOf(e), fuel), e, EmitWhile(e, s), fuel)
    decreases fuel, s, 3
  {
    hide Goes, Moves, Lasts, Within, Ready, EmitBlock, EmitWhile, ExecAll, State.Emit, State.BrUnlessTerminated, State.AddBlocks, Sound;
    var n, r := |e.blocks|, EmitWhile(e, s);
    StartPoint(WhileHead(e));
    StartPoint(WhileBody(e));
    StartPoint(r);
    if choices == [] {
      SpentDoes(code, WhileHead(e), n + 1, n + 2, e, r, fuel);
    } else {
      ChoiceStep(WhileHead(e), n + 1, n + 2, code, choices);
      if choices[0] {
        var run := ExecAll(s.body, Enter, choices[1..], ContextOf(e).Inside(1), fuel);
        BlockDoes(code, WhileBody(e), s.body, Enter, choices[1..], fuel);
        DoesAfter(code, At(n, 0, e.depth), choices, At(n + 1, 0, e.depth), choices[1..], run, WhileBody(e), EmitBlock(WhileBody(e), s.body), fuel);
        WhileAgainDoes(code, e, s, At(n, 0, e.depth), choices, run, fuel);
      }
    }
  }

  /** After the body has run once. */
  lemma {:induction false} WhileAgainDoes(code: seq<Code>, e: State, s: Stmt, p: Point, choices: seq<bool>, body: Run, fuel: nat)
    requires s.While? && WhileCode(code, e, s)
    requires Does(code, p, choices, body, WhileBody(e), EmitBlock(WhileBody(e), s.body), fuel)
    ensures Does(code, p, choices, AfterWhile(s, body, ContextOf(e), fuel), e, EmitWhile(e, s), fuel)
    decreases fuel, s, 2
  {
    hide Goes, Moves, Lasts, Within, Ready, EmitBlock, EmitWhile, Exec, State.Emit, State.BrUnlessTerminated, State.AddBlocks;
    var n, r, y := |e.blocks|, EmitWhile(e, s), EmitBlock(WhileBody(e), s.body);
    StartPoint(r);
    if body.exit.Fell? || body.exit.Continued? {
      if body.exit.Fell? {
        FellGoes(code, p, choices, body, WhileBody(e), y, n, fuel);
      }
      if fuel == 0 {
        LastsNow(code, p, choices, At(n, 0, e.depth), body.choices, body.events);
      } else {
        WhileHeadDoes(code, e, s, body.choices, fuel - 1);
        DoesAgain(code, p, choices, body, At(n, 0, e.depth), Exec(s, Enter, body.choices, ContextOf(e), fuel - 1), e, r, fuel - 1);
      }
    } else if !body.exit.Broke? {
      DoesOutside(code, p, choices, body, WhileBody(e), y, e, r, fuel);
    }
  }

  // --------------------------------------------------------------- try, throw

  lemma {:induction false} TryDoes(code: seq<Code>, e: State, s: Stmt, mode: Mode, choices: seq<bool>, fuel: nat)
    requires s.TryCatch? && Ready(e, Labels(s)) && Distinct(s) && NoLostLabels(s, e.staticActive) && EmitTryCatch(e, s).errors == 0
    requires Placed(e) && DepthsOk(s, e.depth, e.labelDepths)
    requires Within(EmitTryCatch(e, s), code) && Startable(e, mode, Labels(s))
    ensures Does(code, StartOf(e, mode), choices, Exec(s, mode, choices, ContextOf(e), fuel), e, EmitTryCatch(e, s), fuel)
    decreases fuel, s, 4
  {
    hide Goes, Moves, Lasts, Within, Ready, EmitBlock, ExecAll, Shape, Appends, State.Emit, State.BrUnlessTerminated, State.AddBlocks, Sound, AtStart, PopCatch, Does;
    var n, r := |e.blocks|, EmitTryCatch(e, s);
    ReadyBounds(e, Labels(s));
    BoundsOfSound(e);
    TryShape(e, s);
    var start, handler := TryStart(e, s), CatchStart(e, s);
    var tried, handled := EmitBlock(start, s.tryBlock), EmitBlock(handler, s.catchBlock);
    var joined := PopCatch(tried).BrUnlessTerminated(n + 2);
    WithinBack(handled.BrUnlessTerminated(n + 2), r, code);
    WithinBack(handled, handled.BrUnlessTerminated(n + 2), code);
    WithinBack(handler, handled, code);
    WithinBack(joined, handler, code);
    WithinBack(tried, joined, code);
    WithinBack(start, tried, code);
    WithinBack(e.AddBlocks(3).Emit(Br(n)), start, code);
    StartPoint(start);
    StartPoint(handler);
    PlacedGuard(e, s);
    PlacedSame(e, handler);
    if mode.Seek? && mode.name !in LabelsOf(s.tryBlock) {
      BlockDoes(code, handler, s.catchBlock, mode, choices, fuel);
      BranchDoes(code, StartOf(e, mode), choices, ExecAll(s.catchBlock, mode, choices, ContextOf(e).Inside(1), fuel), handler, handled, e, r, fuel);
      return;
    }
    BlockDoes(code, start, s.tryBlock, mode, choices, fuel);
    var run := ExecAll(s.tryBlock, mode, choices, ContextOf(start).Inside(1), fuel);
    if mode.Enter? {
      SamePoint(e, 3);
      LeaveStep(e.AddBlocks(3), Br(n), e.depth, At(n, 0, e.depth), code, choices);
      DoesAfter(code, PointOf(e), choices, PointOf(start), choices, run, start, tried, fuel);
    }
    if run.exit.Thrown? {
      BlockDoes(code, handler, s.catchBlock, Enter, run.choices, fuel);
      var caught := ExecAll(s.catchBlock, Enter, run.choices, ContextOf(e).Inside(1), fuel);
      BranchDoes(code, PointOf(handler), run.choices, caught, handler, handled, e, r, fuel);
      ThrownGoes(code, StartOf(e, mode), choices, run, start, tried, fuel);
      DoesThen(code, StartOf(e, mode), choices, run, PointOf(handler), caught, e, r, fuel);
    } else {
      GuardedDoes(code, StartOf(e, mode), choices, run, start, tried, e, r, n + 2, fuel);
    }
  }

  lemma PlacedGuard(e: State, s: Stmt)
    requires s.TryCatch? && Placed(e)
    ensures Placed(TryStart(e, s))
  {
  }

  lemma ThrownGoes(code: seq<Code>, p: Point, choices: seq<bool>, run: Run, x: State, y: State, fuel: nat)
    requires Does(code, p, choices, run, x, y, fuel) && run.exit.Thrown? && x.catches != []
    ensures Goes(code, p, choices, At(x.catches[|x.catches| - 1].catchBlock, 0, x.catches[|x.catches| - 1].depth), run.choices, run.events)
  {
    hide Goes, Moves, Lasts;
  }

  /** A try block left without a throw. */
  lemma GuardedDoes(code: seq<Code>, p: Point, choices: seq<bool>, run: Run, x: State, y: State, e: State, r: State, merge: nat, fuel: nat)
    requires Does(code, p, choices, run, x, y, fuel) && !run.exit.Thrown? && Sound(y) && AtStart(r) && r.current == merge && y.depth == r.depth
    requires x.loops == e.loops && x.labelBlocks == e.labelBlocks && x.labelDepths == e.labelDepths && PopCatch(y) == y.(catches := e.catches)
    requires Within(PopCatch(y).BrUnlessTerminated(merge), code)
    ensures Does(code, p, choices, run, e, r, fuel)
  {
    hide Goes, Moves, Lasts, Within;
    if run.exit.Fell? {
      JoinStep(PopCatch(y), merge, code, run.choices);
      DoesThrough(code, p, choices, run, x, y, e, r, fuel);
    } else {
      DoesOutside(code, p, choices, run, x, y, e, r, fuel);
    }
  }

  lemma {:induction false} ThrowDoes(code: seq<Code>, e: State, s: Stmt, choices: seq<bool>, fuel: nat)
    requires s.Throw? && Ready(e, Labels(s)) && Distinct(s) && NoLostLabels(s, e.staticActive) && EmitThrow(e, s).errors == 0
    requires Placed(e) && DepthsOk(s, e.depth, e.labelDepths)
    requires Within(EmitThrow(e, s), code) && !e.Terminated()
    ensures Does(code, PointOf(e), choices, Exec(s, Enter, choices, ContextOf(e), fuel), e, EmitThrow(e, s), fuel)
    decreases fuel, s, 4
  {
    hide Goes, Moves, Lasts, Within, Ready, EmitStmt, Shape, Appends, State.Emit, State.ExitTo;
    var r := EmitThrow(e, s);
    ReadyBounds(e, Labels(s));
    ThrowShape(e, s);
    ShapeBounds(e, r, Labels(s));
    if e.catches == [] {
      var out := e.ExitTo(0).Emit(ExitProcess);
      ExitBounds(e, 0, ExitProcess);
      EmitShape(out, Ret);
      ShapeBounds(out, out.Emit(Ret), {});
      WithinBack(out, r, code);
      ExitStep(e, 0, ExitProcess, Exited(0), code, choices);
    } else {
      var target, delivered := e.catches[|e.catches| - 1], EmitStmt(e, s.delivery.value);
      SameErrors(delivered, target.depth, Br(target.catchBlock));
      StmtShape(e, s.delivery.value);
      ShapeBounds(e, delivered, Labels(s.delivery.value));
      ShapeSound(e, delivered, Labels(s.delivery.value));
      var run := Exec(s.delivery.value, Enter, choices, ContextOf(e), fuel);
      if !delivered.Terminated() {
        ExitAppends(delivered, target.depth, Br(target.catchBlock));
        WithinBack(delivered, r, code);
        ExitStep(delivered, target.depth, Br(target.catchBlock), At(target.catchBlock, 0, target.depth), code, run.choices);
      }
      StmtDoes(code, e, s.delivery.value, Enter, choices, fuel);
      if run.exit.Fell? {
        MovesBefore(code, PointOf(e), choices, PointOf(delivered), run.choices, At(target.catchBlock, 0, target.depth), run.events);
        MovesGo(code, PointOf(e), choices, At(target.catchBlock, 0, target.depth), run.choices, run.events);
      } else {
        DoesOutside(code, PointOf(e), choices, run, e, delivered, e, r, fuel);
      }
    }
  }

  lemma ExitBounds(e: State, target: nat, i: Instr)
    requires Sound(e)
    ensures Sound(e.ExitTo(target).Emit(i))
  {
  }

  lemma ExitAppends(e: State, target: nat, i: Instr)
    requires Sound(e)
    ensures Appends(e, e.ExitTo(target).Emit(i))
  {
  }

  // ------------------------------------------------------------ labels, static

  lemma {:induction false} LabelDoes(code: seq<Code>, e: State, s: Stmt, mode: Mode, choices: seq<bool>, fuel: nat)
    requires s.Label? && Ready(e, Labels(s)) && Distinct(s) && NoLostLabels(s, e.staticActive) && EmitStmt(e, s).errors == 0
    requires Placed(e) && DepthsOk(s, e.depth, e.labelDepths)
    requires Within(EmitStmt(e, s), code) && Startable(e, mode, Labels(s))
    ensures Does(code, StartOf(e, mode), choices, Exec(s, mode, choices, ContextOf(e), fuel), e, EmitStmt(e, s), fuel)
    decreases fuel, s, 4
  {
    hide Goes, Moves, Lasts, Within, Ready, Shape, Appends, State.BrUnlessTerminated, Does, Sound;
    var start, r, block := LabelStart(e, s), EmitStmt(e, s), e.labelBlocks[s.name];
    ReadyBounds(e, Labels(s));
    BoundsOfSound(e);
    LabelShape(e, s);
    StmtShape(start, s.statement);
    ShapeBounds(start, r, Labels(s.statement));
    WithinBack(start, r, code);
    WithinBack(e.BrUnlessTerminated(block), start, code);
    StartPoint(start);
    PlacedSame(e, start);
    var inner := if mode == Seek(s.name) then Enter else mode;
    var run := Exec(s.statement, inner, choices, ContextOf(e), fuel);
    StmtDoes(code, start, s.statement, inner, choices, fuel);
    SameEnds(code, StartOf(start, inner), choices, run, start, e, r, fuel);
    if mode.Enter? {
      JoinStep(e, block, code, choices);
      DoesAfter(code, PointOf(e), choices, PointOf(start), choices, run, e, r, fuel);
    }
  }

  lemma SameEnds(code: seq<Code>, p: Point, choices: seq<bool>, run: Run, x: State, e: State, r: State, fuel: nat)
    requires Does(code, p, choices, run, x, r, fuel) && SameTargets(e, x)
    ensures Does(code, p, choices, run, e, r, fuel)
  {
    hide Goes, Moves, Lasts;
  }

  lemma {:induction false} StaticDoes(code: seq<Code>, e: State, s: Stmt, mode: Mode, choices: seq<bool>, fuel: nat)
    requires s.StaticInit? && !e.staticActive && Ready(e, Labels(s)) && Distinct(s) && NoLostLabels(s, false) && EmitStmt(e, s).errors == 0
    requires Placed(e) && DepthsOk(s, e.depth, e.labelDepths)
    requires Within(EmitStmt(e, s), code) && Startable(e, mode, Labels(s))
    ensures Does(code, StartOf(e, mode), choices, Exec(s, mode, choices, ContextOf(e), fuel), e, EmitStmt(e, s), fuel)
    decreases fuel, s, 4
  {
    hide Goes, Moves, Lasts, Within, Ready, Shape, Appends, State.Emit, State.BrUnlessTerminated, State.AddBlocks, Does, Sound, AtStart;
    var n, r, start := |e.blocks|, EmitStmt(e, s), StaticStart(e);
    ReadyBounds(e, Labels(s));
    BoundsOfSound(e);
    StaticShape(e, s);
    var y := EmitStmt(start, s.statement);
    var joined := y.(staticActive := false).BrUnlessTerminated(n + 1);
    WithinBack(joined, r, code);
    WithinBack(y, joined, code);
    WithinBack(start, y, code);
    WithinBack(e.AddBlocks(2).Emit(CondBr(n + 1, n)), start, code);
    StartPoint(start);
    StartPoint(r);
    SamePoint(e, 2);
    if mode.Enter? && choices == [] {
      SpentDoes(code, e.AddBlocks(2), n + 1, n, e, r, fuel);
      return;
    }
    if mode.Enter? {
      ChoiceStep(e.AddBlocks(2), n + 1, n, code, choices);
      if choices[0] {
        StillDoes(code, r, choices[1..], fuel);
        SameFell(code, PointOf(r), choices[1..], r, e, fuel);
        DoesAfter(code, PointOf(e), choices, PointOf(r), choices[1..], Empty(Fell, choices[1..]), e, r, fuel);
        return;
      }
    }
    var rest := if mode.Enter? then choices[1..] else choices;
    var run := Exec(s.statement, mode, rest, ContextOf(start), fuel);
    OpenAtStart(start);
    PlacedStatic(e);
    StmtDoes(code, start, s.statement, mode, rest, fuel);
    IdleDoes(code, StartOf(start, mode), rest, run, start, y, e, r, n + 1, fuel);
    if mode.Enter? {
      DoesAfter(code, PointOf(e), choices, PointOf(start), rest, run, e, r, fuel);
    }
  }

  lemma PlacedStatic(e: State)
    requires Placed(e)
    ensures Placed(StaticStart(e))
  {
  }

  lemma OpenAtStart(x: State)
    requires AtStart(x)
    ensures !x.Terminated()
  {
  }

  lemma SameFell(code: seq<Code>, p: Point, choices: seq<bool>, r: State, e: State, fuel: nat)
    requires Does(code, p, choices, Empty(Fell, choices), r, r, fuel)
    ensures Does(code, p, choices, Empty(Fell, choices), e, r, fuel)
  {
    hide Goes, Moves, Lasts;
  }

  /** Leaving the static initialisation. */
  lemma IdleDoes(code: seq<Code>, p: Point, choices: seq<bool>, run: Run, x: State, y: State, e: State, r: State, merge: nat, fuel: nat)
    requires Does(code, p, choices, run, x, y, fuel) && Sound(y) && AtStart(r) && r.current == merge && y.depth == r.depth
    requires x.loops == e.loops && x.labelBlocks == e.labelBlocks && x.labelDepths == e.labelDepths && x.catches == e.catches
    requires Within(y.(staticActive := false).BrUnlessTerminated(merge), code)
    ensures Does(code, p, choices, run, e, r, fuel)
  {
    hide Goes, Moves, Lasts, Within;
    if run.exit.Fell? {
      JoinStep(y.(staticActive := false), merge, code, run.choices);
      DoesThrough(code, p, choices, run, x, y, e, r, fuel);
    } else {
      DoesOutside(code, p, choices, run, x, y, e, r, fuel);
    }
  }

  // --------------------------------------------------------------------- for

  /** The context of a for loop, whose blocks are one scope deeper. */
  function ForContext(x: State): Context {
    ContextOf(x).(depth := if x.depth > 0 then x.depth - 1 else 0)
  }

  /** The four blocks of a for loop, from its start x on, stand in the code. */
  ghost predicate ForCode(code: seq<Code>, x: State, s: Stmt, n: nat)
    requires s.For?
  {
    var head, body, post, exit := ForHead(x, n), ForBody(x, s, n), ForPost(x, s, n), ForExit(x, s, n);
    var y, z := EmitBlock(body, s.body), EmitPost(post, s.post);
    && AtStart(head) && head.current == n && Within(head.Emit(ForInstr(s, n)), code)
    && AtStart(body) && body.current == n + 1 && Ready(body, LabelsOf(s.body)) && ContextOf(body) == ContextOf(x)
    && body.labelBlocks == x.labelBlocks && body.catches == x.catches && body.staticActive == x.staticActive
    && body.loops == x.loops + [ForTargets(x, n)]
    && y.errors == 0 && Sound(y) && Within(y, code) && Within(y.BrUnlessTerminated(n + 2), code)
    && AtStart(post) && post.current == n + 2 && Ready(post, LabelsOf(s.post)) && SameTargets(body, post)
    && z.errors == 0 && Sound(z) && Within(z, code) && Within(z.BrUnlessTerminated(n), code)
    && AtStart(exit) && exit.current == n + 3 && Within(exit.Emit(ScopeExit), code)
    && EmitForLoop(x, s, n) == exit.Emit(ScopeExit).Shallower()
    && ForDepths(x, s, n)
    && DistinctAll(s.body) && NoneLost(s.body, true, x.staticActive) && DistinctAll(s.post) && NoneLostAfter(s.post, true, x.staticActive)
  }

  /** They stand one scope deeper than the loop. */
  ghost predicate ForDepths(x: State, s: Stmt, n: nat)
    requires s.For?
  {
    var head, body, post, exit := ForHead(x, n), ForBody(x, s, n), ForPost(x, s, n), ForExit(x, s, n);
    var y, z := EmitBlock(body, s.body), EmitPost(post, s.post);
    && x.depth > 0 && head.depth == body.depth == y.depth == post.depth == z.depth == exit.depth == x.depth
    && body.labelDepths == post.labelDepths == x.labelDepths
    && Placed(body) && DepthsAllOk(s.body, x.depth + 1, x.labelDepths) && Placed(post) && DepthsAllOk(s.post, x.depth, x.labelDepths)
  }

  lemma ForDepthsStand(x: State, s: Stmt, n: nat)
    requires s.For? && x.depth > 0 && Placed(x) && DepthsAllOk(s.body, x.depth + 1, x.labelDepths) && DepthsAllOk(s.post, x.depth, x.labelDepths)
    requires EmitBlock(ForBody(x, s, n), s.body).errors == 0 && EmitPost(ForPost(x, s, n), s.post).errors == 0
    requires SameTargets(ForBody(x, s, n), ForPost(x, s, n))
    ensures ForDepths(x, s, n)
  {
    hide EmitBlock, EmitPost, State.Emit, State.BrUnlessTerminated, PopLoop, Placed, DepthsAllOk;
    PlacedFor(x, s, n);
    PlacedSame(ForBody(x, s, n), ForPost(x, s, n));
    PopKeepsErrors(EmitPost(ForPost(x, s, n), s.post).BrUnlessTerminated(n));
  }

  lemma ForCodeStands(code: seq<Code>, e: State, s: Stmt)
    requires s.For? && Ready(e, Labels(s)) && Distinct(s) && NoLostLabels(s, e.staticActive) && EmitFor(e, s).errors == 0
    requires Placed(e) && DepthsOk(s, e.depth, e.labelDepths)
    requires Within(EmitFor(e, s), code)
    ensures EmitFor(e, s) == EmitForLoop(ForStarted(e, s), s, |e.blocks|) && ForCode(code, ForStarted(e, s), s, |e.blocks|)
    ensures Within(ForStarted(e, s).BrUnlessTerminated(|e.blocks|), code) && Within(ForStarted(e, s), code)
    ensures Within(e.AddBlocks(4).Emit(ScopeEnter), code) && SameTargets(e, ForStarted(e, s)) && SameTargets(e, ForScope(e))
    ensures Sound(ForScope(e)) && Sound(ForStarted(e, s)) && ForStarted(e, s).errors == 0
    ensures s.init.Some? ==> Ready(ForScope(e), Labels(s.init.value))
  {
    hide Within, Ready, EmitBlock, EmitPost, EmitStmt, EmitFor, EmitForLoop, Shape, Appends, State.Emit, State.BrUnlessTerminated, State.AddBlocks, Sound, AtStart,
      Stage, PopLoop, ForDepths, Placed, DepthsAllOk;
    var n, x := |e.blocks|, ForStarted(e, s);
    ForIsLoop(e, s);
    ForBegins(e, s);
    ForInit(e, s);
    ForErrors(x, s, n);
    ForLoopShape(e, x, s, n);
    ForExitShape(e, x, s, n);
    StageSound(e, x, Labels(s), ForLabels(s), {n, n + 1, n + 2, n + 3});
    var head, body, post, exit := ForHead(x, n), ForBody(x, s, n), ForPost(x, s, n), ForExit(x, s, n);
    var y, z := EmitBlock(body, s.body), EmitPost(post, s.post);
    WithinSame(EmitFor(e, s), exit.Emit(ScopeExit), code);
    WithinBack(exit, exit.Emit(ScopeExit), code);
    WithinBack(z.BrUnlessTerminated(n), exit, code);
    WithinBack(z, z.BrUnlessTerminated(n), code);
    WithinBack(post, z, code);
    WithinBack(y.BrUnlessTerminated(n + 2), post, code);
    WithinBack(y, y.BrUnlessTerminated(n + 2), code);
    WithinBack(body, y, code);
    WithinBack(head.Emit(ForInstr(s, n)), body, code);
    WithinBack(head, head.Emit(ForInstr(s, n)), code);
    WithinBack(x.BrUnlessTerminated(n), head, code);
    WithinBack(x, x.BrUnlessTerminated(n), code);
    WithinBack(ForScope(e), x, code);
    WithinBack(e.AddBlocks(4).Emit(ScopeEnter), ForScope(e), code);
    ForLoops(x, s, n);
    PlacedSame(e, x);
    ForDepthsStand(x, s, n);
  }

  lemma ForLoops(x: State, s: Stmt, n: nat)
    requires s.For?
    ensures ForBody(x, s, n).loops == x.loops + [ForTargets(x, n)]
  {
  }

  lemma PlacedFor(x: State, s: Stmt, n: nat)
    requires s.For? && Placed(x)
    ensures Placed(ForBody(x, s, n)) && ForBody(x, s, n).depth == x.depth && ForBody(x, s, n).labelDepths == x.labelDepths
  {
  }

  lemma {:induction false} ForDoes(code: seq<Code>, e: State, s: Stmt, mode: Mode, choices: seq<bool>, fuel: nat)
    requires s.For? && Ready(e, Labels(s)) && Distinct(s) && NoLostLabels(s, e.staticActive) && EmitFor(e, s).errors == 0
    requires Placed(e) && DepthsOk(s, e.depth, e.labelDepths)
    requires Within(EmitFor(e, s), code) && Startable(e, mode, Labels(s))
    ensures Does(code, StartOf(e, mode), choices, Exec(s, mode, choices, ContextOf(e), fuel), e, EmitFor(e, s), fuel)
    decreases fuel, s, 4
  {
    hide Goes, Moves, Lasts, Within, Ready, EmitBlock, EmitPost, EmitStmt, EmitFor, EmitForLoop, ExecAll, State.Emit, State.BrUnlessTerminated, State.AddBlocks, Does, Sound, ForCode;
    var n, x, r := |e.blocks|, ForStarted(e, s), EmitFor(e, s);
    ReadyBounds(e, Labels(s));
    BoundsOfSound(e);
    ForCodeStands(code, e, s);
    BoundsOfSound(x);
    if mode.Seek? && !(s.init.Some? && mode.name in Labels(s.init.value)) {
      ForSeeks(code, x, s, n, mode, choices, fuel);
      SameEnds(code, StartOf(x, mode), choices, Exec(s, mode, choices, ContextOf(e), fuel), x, e, r, fuel);
      return;
    }
    var scoped := ForScope(e);
    BoundsOfSound(scoped);
    PlacedSame(e, scoped);
    ScopeStarts(code, e, choices);
    var start := if s.init.Some? then Exec(s.init.value, mode, choices, ContextOf(e).Inside(1), fuel) else Empty(Fell, choices);
    if s.init.Some? {
      StmtDoes(code, scoped, s.init.value, mode, choices, fuel);
    } else {
      OpenDoes(code, scoped, choices, fuel);
    }
    if start.exit.Fell? {
      FellGoes(code, StartOf(scoped, mode), choices, start, scoped, x, n, fuel);
      ForTestDoes(code, x, s, n, start.choices, fuel);
      DoesThen(code, StartOf(scoped, mode), choices, start, At(n, 0, x.depth), ForTest(s, start.choices, ContextOf(e), fuel), x, r, fuel);
      SameEnds(code, StartOf(scoped, mode), choices, Exec(s, mode, choices, ContextOf(e), fuel), x, e, r, fuel);
    } else {
      ForBounds(code, x, s, n);
      LeftInside(code, StartOf(scoped, mode), choices, start, scoped, x, e, r, fuel);
    }
    if mode.Enter? {
      DoesAfter(code, PointOf(e), choices, PointOf(scoped), choices, Exec(s, mode, choices, ContextOf(e), fuel), e, r, fuel);
    }
  }

  lemma ScopeStarts(code: seq<Code>, e: State, choices: seq<bool>)
    requires e.current < |e.blocks| && Within(e.AddBlocks(4).Emit(ScopeEnter), code)
    ensures ForScope(e).current < |ForScope(e).blocks| && !ForScope(e).Terminated()
    ensures Goes(code, PointOf(e), choices, PointOf(ForScope(e)), choices, [])
  {
    hide Goes, Moves, Lasts, Within;
    SamePoint(e, 4);
    SilentStep(e.AddBlocks(4), ScopeEnter, e.depth, code, choices);
    EmittedLast(e.AddBlocks(4), ScopeEnter);
  }

  lemma OpenDoes(code: seq<Code>, x: State, choices: seq<bool>, fuel: nat)
    requires x.current < |x.blocks| && !x.Terminated()
    ensures Does(code, PointOf(x), choices, Empty(Fell, choices), x, x, fuel)
  {
    hide Goes, Moves, Lasts;
    GoesNowhere(code, PointOf(x), choices);
  }

  lemma FellGoes(code: seq<Code>, p: Point, choices: seq<bool>, run: Run, e: State, r: State, block: nat, fuel: nat)
    requires Does(code, p, choices, run, e, r, fuel) && run.exit.Fell? && Within(r.BrUnlessTerminated(block), code)
    ensures Moves(code, p, choices, At(block, 0, r.depth), run.choices, run.events) && Goes(code, p, choices, At(block, 0, r.depth), run.choices, run.events)
  {
    hide Goes, Moves, Lasts, Within;
    JoinStep(r, block, code, run.choices);
    MovesBefore(code, p, choices, PointOf(r), run.choices, At(block, 0, r.depth), run.events);
    MovesGo(code, p, choices, At(block, 0, r.depth), run.choices, run.events);
  }

  lemma LeftInside(code: seq<Code>, p: Point, choices: seq<bool>, run: Run, x: State, y: State, e: State, r: State, fuel: nat)
    requires Does(code, p, choices, run, x, y, fuel) && !run.exit.Fell? && SameTargets(e, x) && r.current < |r.blocks|
    ensures Does(code, p, choices, run, e, r, fuel)
  {
    hide Goes, Moves, Lasts;
  }

  lemma ForBounds(code: seq<Code>, x: State, s: Stmt, n: nat)
    requires s.For? && ForCode(code, x, s, n)
    ensures var r := EmitForLoop(x, s, n); r.current < |r.blocks| && !r.Terminated()
  {
    hide Within, Ready, EmitBlock, EmitPost;
    EmittedLast(ForExit(x, s, n), ScopeExit);
  }

  /** From the exit block to the end of the statement. */
  lemma ForLeaves(code: seq<Code>, x: State, s: Stmt, n: nat, choices: seq<bool>)
    requires s.For? && ForCode(code, x, s, n)
    ensures var r := EmitForLoop(x, s, n);
      && r.current < |r.blocks| && !r.Terminated()
      && Goes(code, At(n + 3, 0, x.depth), choices, PointOf(r), choices, [])
  {
    hide Goes, Moves, Lasts, Within, Ready, EmitBlock, EmitPost, ForExit, Placed, DepthsAllOk;
    ForBounds(code, x, s, n);
    StartPoint(ForExit(x, s, n));
    SilentStep(ForExit(x, s, n), ScopeExit, x.depth, code, choices);
  }

  /** The loop left by a break, or by its condition. */
  lemma ForBreaks(code: seq<Code>, x: State, s: Stmt, n: nat, p: Point, choices: seq<bool>, run: Run, fuel: nat)
    requires s.For? && ForCode(code, x, s, n) && Goes(code, p, choices, At(n + 3, 0, x.depth), run.choices, run.events)
    ensures Does(code, p, choices, run.With(Fell), x, EmitForLoop(x, s, n), fuel)
  {
    hide Goes, Moves, Lasts, ForCode, EmitForLoop;
    ForLeaves(code, x, s, n, run.choices);
    GoesBefore(code, p, choices, At(n + 3, 0, x.depth), run.choices, PointOf(EmitForLoop(x, s, n)), run.events);
  }

  lemma {:induction false} ForSeeks(code: seq<Code>, x: State, s: Stmt, n: nat, mode: Mode, choices: seq<bool>, fuel: nat)
    requires s.For? && ForCode(code, x, s, n) && mode.Seek? && mode.name in ForLabels(s) && mode.name in x.labelBlocks && x.current < |x.blocks|
    requires !(s.init.Some? && mode.name in Labels(s.init.value))
    ensures Does(code, StartOf(x, mode), choices, Exec(s, mode, choices, ForContext(x), fuel), x, EmitForLoop(x, s, n), fuel)
    decreases fuel, s, 3
  {
    hide Goes, Moves, Lasts, Within, Ready, EmitBlock, EmitPost, EmitForLoop, ExecAll, Does;
    if mode.name in LabelsOf(s.body) {
      BlockDoes(code, ForBody(x, s, n), s.body, mode, choices, fuel);
      ForBodyDone(code, x, s, n, StartOf(x, mode), choices, ExecAll(s.body, mode, choices, ForContext(x).Inside(2), fuel), fuel);
    } else {
      PostDoes(code, ForPost(x, s, n), s.post, mode, choices, fuel);
      ForPostDone(code, x, s, n, StartOf(x, mode), choices, ExecAll(s.post, mode, choices, ForContext(x).Inside(1), fuel), fuel);
    }
  }

  /** From the condition of the loop. */
  lemma {:induction false} ForTestDoes(code: seq<Code>, x: State, s: Stmt, n: nat, choices: seq<bool>, fuel: nat)
    requires s.For? && ForCode(code, x, s, n)
    ensures Does(code, At(n, 0, x.depth), choices, ForTest(s, choices, ForContext(x), fuel), x, EmitForLoop(x, s, n), fuel)
    decreases fuel, s, 3
  {
    hide Goes, Moves, Lasts, Within, Ready, EmitBlock, EmitPost, EmitForLoop, ExecAll, Does, State.Emit, State.BrUnlessTerminated;
    var head, body := ForHead(x, n), ForBody(x, s, n);
    StartPoint(head);
    StartPoint(body);
    if s.conditional && choices == [] {
      SpentDoes(code, head, n + 1, n + 3, x, EmitForLoop(x, s, n), fuel);
    } else {
      var rest := if s.conditional then choices[1..] else choices;
      if s.conditional {
        ChoiceStep(head, n + 1, n + 3, code, choices);
      } else {
        LeaveStep(head, Br(n + 1), x.depth, At(n + 1, 0, x.depth), code, choices);
      }
      if s.conditional && !choices[0] {
        ForBreaks(code, x, s, n, At(n, 0, x.depth), choices, Empty(Broke, rest), fuel);
      } else {
        var run := ExecAll(s.body, Enter, rest, ForContext(x).Inside(2), fuel);
        BlockDoes(code, body, s.body, Enter, rest, fuel);
        DoesAfter(code, At(n, 0, x.depth), choices, At(n + 1, 0, x.depth), rest, run, body, EmitBlock(body, s.body), fuel);
        ForBodyDone(code, x, s, n, At(n, 0, x.depth), choices, run, fuel);
      }
    }
  }

  /** After the body. */
  lemma {:induction false} ForBodyDone(code: seq<Code>, x: State, s: Stmt, n: nat, p: Point, choices: seq<bool>, run: Run, fuel: nat)
    requires s.For? && ForCode(code, x, s, n) && Does(code, p, choices, run, ForBody(x, s, n), EmitBlock(ForBody(x, s, n), s.body), fuel)
    ensures Does(code, p, choices, ForAfterBody(s, run, ForContext(x), fuel), x, EmitForLoop(x, s, n), fuel)
    decreases fuel, s, 2
  {
    hide Goes, Moves, Lasts, Within, Ready, EmitBlock, EmitPost, EmitForLoop, ExecAll, State.Emit, State.BrUnlessTerminated;
    var body, post := ForBody(x, s, n), ForPost(x, s, n);
    var y := EmitBlock(body, s.body);
    if run.exit.Fell? || run.exit.Continued? {
      if run.exit.Fell? {
        FellGoes(code, p, choices, run, body, y, n + 2, fuel);
      }
      StartPoint(post);
      var next := ExecAll(s.post, Enter, run.choices, ForContext(x).Inside(1), fuel);
      PostDoes(code, post, s.post, Enter, run.choices, fuel);
      ForPostDone(code, x, s, n, At(n + 2, 0, x.depth), run.choices, next, fuel);
      DoesThen(code, p, choices, run, At(n + 2, 0, x.depth), ForAfterPost(s, next, ForContext(x), fuel), x, EmitForLoop(x, s, n), fuel);
    } else if run.exit.Broke? {
      ForBreaks(code, x, s, n, p, choices, run, fuel);
    } else if !run.exit.Spent? {
      ForBounds(code, x, s, n);
      DoesOutside(code, p, choices, run, body, y, x, EmitForLoop(x, s, n), fuel);
    }
  }

  /** After the post statements. */
  lemma {:induction false} ForPostDone(code: seq<Code>, x: State, s: Stmt, n: nat, p: Point, choices: seq<bool>, run: Run, fuel: nat)
    requires s.For? && ForCode(code, x, s, n) && Does(code, p, choices, run, ForPost(x, s, n), EmitPost(ForPost(x, s, n), s.post), fuel)
    ensures Does(code, p, choices, ForAfterPost(s, run, ForContext(x), fuel), x, EmitForLoop(x, s, n), fuel)
    decreases fuel, s, 1
  {
    hide Goes, Moves, Lasts, Within, Ready, EmitBlock, EmitPost, EmitForLoop, ExecAll, ForTest, State.Emit, State.BrUnlessTerminated;
    var post, r := ForPost(x, s, n), EmitForLoop(x, s, n);
    var z := EmitPost(post, s.post);
    if run.exit.Broke? {
      ForBreaks(code, x, s, n, p, choices, run, fuel);
    } else if run.exit.Fell? || run.exit.Continued? {
      if run.exit.Fell? {
        FellGoes(code, p, choices, run, post, z, n, fuel);
      }
      if fuel == 0 {
        LastsNow(code, p, choices, if run.exit.Fell? then At(n, 0, x.depth) else At(n + 2, 0, x.depth), run.choices, run.events);
      } else if run.exit.Fell? {
        ForTestDoes(code, x, s, n, run.choices, fuel - 1);
        DoesAgain(code, p, choices, run, At(n, 0, x.depth), ForTest(s, run.choices, ForContext(x), fuel - 1), x, r, fuel - 1);
      } else {
        StartPoint(post);
        var again := ExecAll(s.post, Enter, run.choices, ForContext(x).Inside(1), fuel - 1);
        PostDoes(code, post, s.post, Enter, run.choices, fuel - 1);
        ForPostDone(code, x, s, n, At(n + 2, 0, x.depth), run.choices, again, fuel - 1);
        DoesAgain(code, p, choices, run, At(n + 2, 0, x.depth), ForAfterPost(s, again, ForContext(x), fuel - 1), x, r, fuel - 1);
      }
    } else if !run.exit.Spent? {
      ForBounds(code, x, s, n);
      DoesOutside(code, p, choices, run, post, z, x, r, fuel);
    }
  }

  // --------------------------------------------------------- whole functions

  /** Where the block of the function body starts. */
  lemma BodyReady(f: Function)
    requires DistinctAll(f.body)
    ensures var start := BeginFunction(f);
      && Ready(start, LabelsOf(f.body)) && AtStart(start) && start.current == 1 && start.errors == 0
      && start.labelBlocks.Keys <= LabelsOf(f.body) && start.blocks[0] == [FrameEnter, Br(1)] && start.loops == [] && start.catches == [] && !start.staticActive
      && start.depth == 0 && Placed(start) && DepthsAllOk(f.body, 1, start.labelDepths)
  {
    hide CollectStatements;
    var entry := State([[FrameEnter, Br(1)], []], 1, 0, [], [], map[], map[], false, 0);
    var start := BeginFunction(f);
    CollectAllCorrect(entry, f.body, 1);
    assert start.blocks[0] == start.blocks[..2][0] && start.blocks[1] == start.blocks[..2][1];
  }

  ghost predicate Emittable(f: Function) {
    DistinctAll(f.body) && NoneLost(f.body, true, false) && EmitFunction(f).errors == 0
  }

  lemma {:induction false} BodyDoes(f: Function, mode: Mode, choices: seq<bool>, fuel: nat)
    requires Emittable(f) && Sought(BeginFunction(f), mode, LabelsOf(f.body))
    ensures BeginFunction(f).current < |BeginFunction(f).blocks|
    ensures var run, code, start := ExecBody(f.body, mode, choices, fuel), EmitFunction(f).blocks, StartOf(BeginFunction(f), mode);
      if run.exit.Spent? then Lasts(code, start, choices, fuel)
      else (run.exit.Returned? || run.exit.Quit?) && Goes(code, start, choices, if run.exit.Quit? then Exited(0) else Done(0), run.choices, run.events)
    decreases fuel
  {
    hide Goes, Moves, Lasts, Within, Ready, EmitBlock, ExecAll, BeginFunction, Shape, Appends, LabelsOf, DistinctAll, NoneLost, State.Emit, Placed, DepthsAllOk;
    var start, code := BeginFunction(f), EmitFunction(f).blocks;
    var done := EmitBlock(start, f.body);
    BodyReady(f);
    ReadyBounds(start, LabelsOf(f.body));
    BodyEmitted(f);
    BlockDoes(code, start, f.body, mode, choices, fuel);
    var run := ExecAll(f.body, mode, choices, Context(false, false, 1), fuel);
    if run.exit.Fell? {
      ReturnDoes(code, done, run.choices);
      GoesBefore(code, StartOf(start, mode), choices, PointOf(done), run.choices, Done(0), run.events);
    } else if run.exit.Jumped? {
      var from, target := StartOf(start, mode), StartOf(start, Seek(run.exit.name));
      if fuel == 0 {
        LastsNow(code, from, choices, target, run.choices, run.events);
        return;
      }
      var again := ExecBody(f.body, Seek(run.exit.name), run.choices, fuel - 1);
      BodyDoes(f, Seek(run.exit.name), run.choices, fuel - 1);
      if again.exit.Spent? {
        LastsLonger(code, from, choices, target, run.choices, run.events, fuel - 1);
      } else {
        GoesOn(code, from, choices, target, run.choices, if again.exit.Quit? then Exited(0) else Done(0), again.choices, run.events, again.events);
      }
    }
  }

  /** An accepted function that returns a value never runs off the end of its body. */
  lemma NeverFallsOff(f: Function, mode: Mode, choices: seq<bool>, fuel: nat)
    requires Emittable(f) && f.returnsValue && Sought(BeginFunction(f), mode, LabelsOf(f.body))
    ensures !ExecAll(f.body, mode, choices, Context(false, false, 1), fuel).exit.Fell?
  {
    hide Goes, Moves, Lasts, Within, Ready, EmitBlock, ExecAll, BeginFunction, LabelsOf, DistinctAll, NoneLost, State.Emit, Placed, DepthsAllOk;
    BodyReady(f);
    ReadyBounds(BeginFunction(f), LabelsOf(f.body));
    BodyEmitted(f);
    BlockDoes(EmitFunction(f).blocks, BeginFunction(f), f.body, mode, choices, fuel);
  }

  lemma BodyEmitted(f: Function)
    requires Emittable(f)
    ensures var start := BeginFunction(f);
      var done := EmitBlock(start, f.body);
      && done.errors == 0 && Sound(done) && Within(done, EmitFunction(f).blocks)
      && (!done.Terminated() ==> Within(done.LeaveFrame().Emit(Ret), EmitFunction(f).blocks))
  {
    hide Ready, EmitBlock, BeginFunction, Shape, LabelsOf, DistinctAll, NoneLost;
    var start := BeginFunction(f);
    var done := EmitBlock(start, f.body);
    BodyReady(f);
    BlockShape(start, f.body);
    ReadyBounds(start, LabelsOf(f.body));
    ShapeSound(start, done, LabelsOf(f.body));
    SelfWithin(EmitFunction(f));
    if !done.Terminated() {
      ExitAppends(done, 0, FrameExit);
      ExitBounds(done, 0, FrameExit);
      LeaveAppends(done.LeaveFrame());
      WithinBack(done.LeaveFrame(), EmitFunction(f), EmitFunction(f).blocks);
      WithinBack(done, done.LeaveFrame(), EmitFunction(f).blocks);
    }
  }

  lemma SelfWithin(e: State)
    ensures Within(e, e.blocks)
  {
  }

  lemma LeaveAppends(e: State)
    requires Sound(e)
    ensures Appends(e, e.Emit(Ret))
  {
  }

  function FinalOf(run: Run): Config {
    Config(if run.exit.Quit? then Exited(0) else Done(0), run.choices, run.events)
  }

  function Entry(choices: seq<bool>): Config {
    Config(At(0, 0, 0), choices, [])
  }

  /** When the body's run comes to an end, the code run from the entry block ends the same way. */
  lemma EndedBodyEndsTheCode(f: Function, choices: seq<bool>, fuel: nat)
    requires Emittable(f) && !ExecBody(f.body, Enter, choices, fuel).exit.Spent?
    ensures Leads(EmitFunction(f).blocks, Entry(choices), FinalOf(ExecBody(f.body, Enter, choices, fuel)))
  {
    hide Leads, Goes, Moves, Lasts, BeginFunction, EmitFunction, ExecBody, Ready, Emittable;
    var code, run := EmitFunction(f).blocks, ExecBody(f.body, Enter, choices, fuel);
    BodyDoes(f, Enter, choices, fuel);
    EntryGoes(f, choices);
    var q := FinalOf(run).point;
    GoesAfter(code, At(0, 0, 0), choices, At(1, 0, 0), choices, q, run.choices, run.events);
    GoesFromNothing(code, At(0, 0, 0), choices, q, run.choices, run.events);
  }

  /** When the code ends after some steps, so does the body's run with that much fuel. */
  lemma EndedCodeEndsTheBody(f: Function, choices: seq<bool>, steps: nat, final: Config)
    requires Emittable(f) && Walk(EmitFunction(f).blocks, Entry(choices), steps) == Some(final) && !final.point.At?
    ensures var run := ExecBody(f.body, Enter, choices, steps); !run.exit.Spent? && final == FinalOf(run)
  {
    hide Leads, Goes, Moves, Lasts, Walk, BeginFunction, EmitFunction, ExecBody, Ready, Emittable;
    var code, run := EmitFunction(f).blocks, ExecBody(f.body, Enter, choices, steps);
    BodyDoes(f, Enter, choices, steps);
    EntryGoes(f, choices);
    if run.exit.Spent? {
      LastsAfter(code, At(0, 0, 0), choices, At(1, 0, 0), choices, [], steps);
      LastsRuns(code, choices, steps);
    } else {
      EndedBodyEndsTheCode(f, choices, steps);
      LeadsBy(code, Entry(choices), steps, final);
      FinishedIsUnique(code, Entry(choices), FinalOf(run), final);
    }
  }

  lemma LastsRuns(code: seq<Code>, choices: seq<bool>, n: nat)
    requires Lasts(code, At(0, 0, 0), choices, n)
    ensures Running(code, Entry(choices), n)
  {
    hide Running;
  }

  lemma LeadsBy(code: seq<Code>, a: Config, steps: nat, b: Config)
    requires Walk(code, a, steps) == Some(b)
    ensures Leads(code, a, b)
  {
  }

  /**
    The emitted function does what its body does: the code run from the entry block ends
    in a configuration exactly when the body's run comes to that end, with the same events
    and the same choices consumed. In particular one ends exactly when the other does.
   */
  lemma EmittedCodeDoesTheBody(f: Function, choices: seq<bool>, final: Config)
    requires Emittable(f) && !final.point.At?
    ensures Leads(EmitFunction(f).blocks, Entry(choices), final) <==>
      exists fuel: nat :: var run := ExecBody(f.body, Enter, choices, fuel); !run.exit.Spent? && final == FinalOf(run)
  {
    hide Walk, EmitFunction, ExecBody, Emittable;
    var code := EmitFunction(f).blocks;
    if Leads(code, Entry(choices), final) {
      var steps: nat :| Walk(code, Entry(choices), steps) == Some(final);
      EndedCodeEndsTheBody(f, choices, steps, final);
    }
    if fuel: nat :| !ExecBody(f.body, Enter, choices, fuel).exit.Spent? && final == FinalOf(ExecBody(f.body, Enter, choices, fuel)) {
      EndedBodyEndsTheCode(f, choices, fuel);
    }
  }

  lemma GoesFromNothing(code: seq<Code>, p: Point, a: seq<bool>, q: Point, b: seq<bool>, events: seq<Event>)
    requires Goes(code, p, a, q, b, events)
    ensures Leads(code, Config(p, a, []), Config(q, b, events))
  {
    hide Leads;
    assert [] + events == events;
  }

  /** The entry block leads to the body. */
  lemma EntryGoes(f: Function, choices: seq<bool>)
    requires Emittable(f)
    ensures var start := BeginFunction(f);
      && start.current < |start.blocks| && StartOf(start, Enter) == At(1, 0, 0)
      && Goes(EmitFunction(f).blocks, At(0, 0, 0), choices, At(1, 0, 0), choices, [])
  {
    hide Goes, Moves, Lasts, Ready, EmitBlock, BeginFunction, Shape, LabelsOf, DistinctAll, NoneLost, EmitFunction;
    var start, code := BeginFunction(f), EmitFunction(f).blocks;
    BodyReady(f);
    EntryStays(f);
    forall past: seq<Event>
      ensures Next(code, Config(At(0, 0, 0), choices, past)) == Some(Config(At(0, 1, 0), choices, past + []))
      ensures Next(code, Config(At(0, 1, 0), choices, past)) == Some(Config(At(1, 0, 0), choices, past + []))
    {
      assert past + [] == past;
    }
    GoesStep(code, At(0, 0, 0), choices, At(0, 1, 0), choices, []);
    GoesStep(code, At(0, 1, 0), choices, At(1, 0, 0), choices, []);
    GoesAfter(code, At(0, 0, 0), choices, At(0, 1, 0), choices, At(1, 0, 0), choices, []);
  }

  lemma EntryStays(f: Function)
    requires Emittable(f)
    ensures var code := EmitFunction(f).blocks; |code| > 0 && [FrameEnter, Br(1)] <= code[0]
  {
    hide EmitBlock, BeginFunction, LabelsOf, DistinctAll, NoneLost, EmitFunction, Ready, Shape;
    var start := BeginFunction(f);
    BodyReady(f);
    BodyEmitted(f);
    EmittedErrors(f);
    BlockShape(start, f.body);
    ShapeBounds(start, EmitBlock(start, f.body), LabelsOf(f.body));
    WithinBack(start, EmitBlock(start, f.body), EmitFunction(f).blocks);
    assert start.blocks[0] <= EmitFunction(f).blocks[0];
  }

  lemma EmittedErrors(f: Function)
    requires Emittable(f)
    ensures DistinctAll(f.body) && EmitBlock(BeginFunction(f), f.body).errors == 0
  {
    hide Ready, EmitBlock, BeginFunction, LabelsOf, DistinctAll, NoneLost;
    BodyEmitted(f);
  }

  /** More fuel never changes a finished run. */
  lemma FuelDoesNotMatter(f: Function, choices: seq<bool>, a: nat, b: nat)
    requires Emittable(f) && !ExecBody(f.body, Enter, choices, a).exit.Spent? && !ExecBody(f.body, Enter, choices, b).exit.Spent?
    ensures FinalOf(ExecBody(f.body, Enter, choices, a)) == FinalOf(ExecBody(f.body, Enter, choices, b))
  {
    hide Leads, EmitFunction, ExecBody, Emittable;
    EndedBodyEndsTheCode(f, choices, a);
    EndedBodyEndsTheCode(f, choices, b);
    FinishedIsUnique(EmitFunction(f).blocks, Entry(choices),
                     FinalOf(ExecBody(f.body, Enter, choices, a)), FinalOf(ExecBody(f.body, Enter, choices, b)));
  }
}
