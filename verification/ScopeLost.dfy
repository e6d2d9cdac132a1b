/**
  Labels inside statements that the emitter skips as dead code. Emission is that of the
  function without those statements, so the block of such a label stays empty.
 */
module ScopeLost {
  import opened Basics
  import opened ScopeHir
  import opened ScopeLabels
  import opened ScopeShape
  import opened ScopeFalls
  import opened ScopeTheorem

  // ----------------------------------------------------- without dead statements

  function Trim(s: Stmt, inStatic: bool): Stmt
    decreases s, 1
  {
    match s
    case If(t, hasElse, f) => If(TrimAll(t, true, inStatic), hasElse, if hasElse then TrimAll(f, true, inStatic) else f)
    case While(body) => While(TrimAll(body, true, inStatic))
    case For(init, conditional, post, body) =>
      For(if init.Some? then Some(Trim(init.value, inStatic)) else None, conditional,
          TrimPost(post, true, inStatic), TrimAll(body, true, inStatic))
    case Label(name, statement) => Label(name, Trim(statement, inStatic))
    case TryCatch(bytes, t, c) => TryCatch(bytes, TrimAll(t, true, inStatic), TrimAll(c, true, inStatic))
    case StatementList(ss) => StatementList(TrimEach(ss, inStatic))
    case StaticInit(statement) => StaticInit(Trim(statement, true))
    case _ => s
  }

  function TrimAll(ss: seq<Stmt>, open: bool, inStatic: bool): seq<Stmt>
    decreases ss, 0
  {
    if ss == [] then []
    else if !open && !ss[0].Label? then TrimAll(ss[1..], false, inStatic)
    else [Trim(ss[0], inStatic)] + TrimAll(ss[1..], Falls(ss[0], open, inStatic), inStatic)
  }

  function TrimPost(ss: seq<Stmt>, open: bool, inStatic: bool): seq<Stmt>
    decreases ss, 0
  {
    if ss == [] then []
    else [Trim(ss[0], inStatic)] + if Falls(ss[0], open, inStatic) then TrimPost(ss[1..], true, inStatic) else []
  }

  function TrimEach(ss: seq<Stmt>, inStatic: bool): seq<Stmt>
    decreases ss, 0
  {
    if ss == [] then [] else [Trim(ss[0], inStatic)] + TrimEach(ss[1..], inStatic)
  }

  // -------------------------------------------------------- emission is the same

  lemma {:induction false} StatementsTrim(e: State, ss: seq<Stmt>)
    requires Ready(e, LabelsOf(ss)) && DistinctAll(ss) && EmitStatements(e, ss).errors == 0
    ensures EmitStatements(e, TrimAll(ss, !e.Terminated(), e.staticActive)) == EmitStatements(e, ss)
    decreases ss, 1
  {
    hide Ready, Stage, EmitStmt, Trim, Falls, Distinct, Labels;
    if ss != [] {
      if e.Terminated() && !ss[0].Label? {
        StatementsTrim(e, ss[1..]) by { ReadyLess(e, LabelsOf(ss), LabelsOf(ss[1..])); }
      } else {
        var first := EmitStmt(e, ss[0]);
        FirstShape(e, ss);
        FallsExactly(e, ss[0]);
        StmtTrims(e, ss[0]);
        LabelStays(ss[0], e.staticActive);
        StatementsTrim(first, ss[1..]);
        var rest := TrimAll(ss[1..], !first.Terminated(), e.staticActive);
        assert ([Trim(ss[0], e.staticActive)] + rest)[1..] == rest;
      }
    }
  }

  lemma ReadyLess(e: State, names: set<string>, fewer: set<string>)
    requires Ready(e, names) && fewer <= names
    ensures Ready(e, fewer)
  {
  }

  lemma LabelStays(s: Stmt, inStatic: bool)
    ensures Trim(s, inStatic).Label? == s.Label?
  {
  }

  lemma {:induction false} ListTrims(e: State, ss: seq<Stmt>)
    requires Ready(e, LabelsOf(ss)) && DistinctAll(ss) && EmitList(e, ss).errors == 0
    ensures EmitList(e, TrimEach(ss, e.staticActive)) == EmitList(e, ss)
    decreases ss, 1
  {
    hide Ready, Stage, EmitStmt, Trim, Distinct, Labels;
    if ss != [] {
      FirstShape(e, ss);
      StmtTrims(e, ss[0]);
      ListTrims(EmitStmt(e, ss[0]), ss[1..]);
      var rest := TrimEach(ss[1..], e.staticActive);
      assert ([Trim(ss[0], e.staticActive)] + rest)[1..] == rest;
    }
  }

  lemma {:induction false} PostTrims(e: State, ss: seq<Stmt>)
    requires Ready(e, LabelsOf(ss)) && DistinctAll(ss) && EmitPost(e, ss).errors == 0
    ensures EmitPost(e, TrimPost(ss, !e.Terminated(), e.staticActive)) == EmitPost(e, ss)
    decreases ss, 1
  {
    hide Ready, Stage, EmitStmt, Trim, Falls, Distinct, Labels;
    if ss != [] {
      var first := EmitStmt(e, ss[0]);
      FirstShape(e, ss);
      FallsExactly(e, ss[0]);
      StmtTrims(e, ss[0]);
      var trimmed := TrimPost(ss, !e.Terminated(), e.staticActive);
      if !first.Terminated() {
        PostTrims(first, ss[1..]);
        var rest := TrimPost(ss[1..], true, e.staticActive);
        assert ([Trim(ss[0], e.staticActive)] + rest)[1..] == rest;
      }
    }
  }

  lemma {:induction false} BlockTrims(e: State, ss: seq<Stmt>)
    requires Ready(e, LabelsOf(ss)) && DistinctAll(ss) && EmitBlock(e, ss).errors == 0
    ensures EmitBlock(e, TrimAll(ss, true, e.staticActive)) == EmitBlock(e, ss)
    decreases ss, 2
  {
    hide Ready, EmitStatements, TrimAll, State.Emit, Shape, Appends, Sound;
    BlockShape(e, ss);
    ReadyBounds(e, LabelsOf(ss));
    EmittedLast(e, ScopeEnter);
    StatementsTrim(BlockStart(e), ss);
  }

  lemma {:induction false} StmtTrims(e: State, s: Stmt)
    requires Ready(e, Labels(s)) && Distinct(s) && EmitStmt(e, s).errors == 0
    ensures EmitStmt(e, Trim(s, e.staticActive)) == EmitStmt(e, s)
    decreases s, 3
  {
    hide Ready, EmitIf, EmitWhile, EmitFor, EmitThrow, EmitTryCatch, EmitList, TrimAll, TrimPost, TrimEach, Shape, State.BrUnlessTerminated;
    match s
    case If(_, _, _) => IfTrims(e, s);
    case While(_) => WhileTrims(e, s);
    case For(_, _, _, _) => ForTrims(e, s);
    case TryCatch(_, _, _) => TryTrims(e, s);
    case StatementList(ss) => ListTrims(e, ss);
    case Label(_, statement) =>
      LabelShape(e, s);
      StmtTrims(LabelStart(e, s), statement);
    case StaticInit(statement) =>
      if e.staticActive {
        StmtTrims(e, statement);
      } else {
        StaticShape(e, s);
        StmtTrims(StaticStart(e), statement);
      }
    case _ =>
  }

  lemma {:induction false} IfTrims(e: State, s: Stmt)
    requires s.If? && Ready(e, Labels(s)) && Distinct(s) && EmitIf(e, s).errors == 0
    ensures EmitIf(e, Trim(s, e.staticActive)) == EmitIf(e, s)
    decreases s, 2
  {
    hide Ready, Stage, EmitBlock, TrimAll, State.Emit, State.BrUnlessTerminated, State.AddBlocks, Shape, Appends, Sound, AtStart;
    IfShape(e, s);
    ThenShape(e, s);
    BlockTrims(IfThen(e), s.thenBlock);
    if s.hasElse {
      BlockTrims(IfElse(e, s), s.elseBlock);
    }
  }

  lemma {:induction false} WhileTrims(e: State, s: Stmt)
    requires s.While? && Ready(e, Labels(s)) && Distinct(s) && EmitWhile(e, s).errors == 0
    ensures EmitWhile(e, Trim(s, e.staticActive)) == EmitWhile(e, s)
    decreases s, 2
  {
    hide Ready, EmitBlock, TrimAll, State.Emit, State.BrUnlessTerminated, State.AddBlocks, Shape, Appends, Sound, AtStart, PopLoop;
    WhileShape(e, s);
    BlockTrims(WhileBody(e), s.body);
  }

  lemma {:induction false} TryTrims(e: State, s: Stmt)
    requires s.TryCatch? && Ready(e, Labels(s)) && Distinct(s) && EmitTryCatch(e, s).errors == 0
    ensures EmitTryCatch(e, Trim(s, e.staticActive)) == EmitTryCatch(e, s)
    decreases s, 2
  {
    hide Ready, EmitBlock, TrimAll, State.Emit, State.BrUnlessTerminated, State.AddBlocks, Shape, Appends, Sound, AtStart, PopCatch;
    TryShape(e, s);
    BlockTrims(TryStart(e, s), s.tryBlock);
    BlockTrims(CatchStart(e, s), s.catchBlock);
  }

  lemma {:induction false} ForTrims(e: State, s: Stmt)
    requires s.For? && Ready(e, Labels(s)) && Distinct(s) && EmitFor(e, s).errors == 0
    ensures EmitFor(e, Trim(s, e.staticActive)) == EmitFor(e, s)
    decreases s, 2
  {
    hide Ready, Stage, EmitBlock, EmitPost, EmitStmt, TrimAll, TrimPost, State.Emit, State.BrUnlessTerminated, State.AddBlocks, Shape, Appends, Sound,
      AtStart, PopLoop;
    var n, x := |e.blocks|, ForStarted(e, s);
    ForIsLoop(e, s);
    ForBegins(e, s);
    ForInit(e, s);
    ForErrors(x, s, n);
    ForLoopShape(e, x, s, n);
    ForExitShape(e, x, s, n);
    if s.init.Some? {
      StmtTrims(ForScope(e), s.init.value);
    }
    BlockTrims(ForBody(x, s, n), s.body);
    OpenStart(ForPost(x, s, n));
    PostTrims(ForPost(x, s, n), s.post);
  }

  lemma OpenStart(x: State)
    requires AtStart(x)
    ensures !x.Terminated()
  {
  }

  // --------------------------------------------------------- which labels are lost

  lemma {:induction false} TrimLabels(s: Stmt, inStatic: bool)
    ensures Labels(Trim(s, inStatic)) <= Labels(s) && (Distinct(s) ==> Distinct(Trim(s, inStatic)))
    decreases s, 1
  {
    hide TrimAll, TrimPost, TrimEach, LabelsOf, DistinctAll;
    match s
    case If(t, hasElse, f) =>
      TrimAllLabels(t, true, inStatic);
      TrimAllLabels(f, true, inStatic);
    case While(body) => TrimAllLabels(body, true, inStatic);
    case For(init, _, post, body) =>
      if init.Some? {
        TrimLabels(init.value, inStatic);
      }
      TrimPostLabels(post, true, inStatic);
      TrimAllLabels(body, true, inStatic);
    case Label(_, statement) => TrimLabels(statement, inStatic);
    case TryCatch(_, t, c) =>
      TrimAllLabels(t, true, inStatic);
      TrimAllLabels(c, true, inStatic);
    case StatementList(ss) => TrimEachLabels(ss, inStatic);
    case StaticInit(statement) => TrimLabels(statement, true);
    case _ =>
  }

  lemma {:induction false} TrimAllLabels(ss: seq<Stmt>, open: bool, inStatic: bool)
    ensures LabelsOf(TrimAll(ss, open, inStatic)) <= LabelsOf(ss) && (DistinctAll(ss) ==> DistinctAll(TrimAll(ss, open, inStatic)))
    decreases ss, 0
  {
    hide Trim, Falls, Labels, Distinct;
    if ss != [] {
      if !open && !ss[0].Label? {
        TrimAllLabels(ss[1..], false, inStatic);
      } else {
        TrimLabels(ss[0], inStatic);
        TrimAllLabels(ss[1..], Falls(ss[0], open, inStatic), inStatic);
        Cons(Trim(ss[0], inStatic), TrimAll(ss[1..], Falls(ss[0], open, inStatic), inStatic));
      }
    }
  }

  lemma Cons(s: Stmt, ss: seq<Stmt>)
    ensures LabelsOf([s] + ss) == Labels(s) + LabelsOf(ss)
    ensures DistinctAll([s] + ss) <==> Distinct(s) && DistinctAll(ss) && Labels(s) !! LabelsOf(ss)
  {
    assert ([s] + ss)[1..] == ss;
  }

  lemma {:induction false} TrimPostLabels(ss: seq<Stmt>, open: bool, inStatic: bool)
    ensures LabelsOf(TrimPost(ss, open, inStatic)) <= LabelsOf(ss) && (DistinctAll(ss) ==> DistinctAll(TrimPost(ss, open, inStatic)))
    decreases ss, 0
  {
    hide Trim, Falls, Labels, Distinct;
    if ss != [] {
      var rest := if Falls(ss[0], open, inStatic) then TrimPost(ss[1..], true, inStatic) else [];
      TrimLabels(ss[0], inStatic);
      TrimPostLabels(ss[1..], true, inStatic);
      Cons(Trim(ss[0], inStatic), rest);
    }
  }

  lemma {:induction false} TrimEachLabels(ss: seq<Stmt>, inStatic: bool)
    ensures LabelsOf(TrimEach(ss, inStatic)) <= LabelsOf(ss) && (DistinctAll(ss) ==> DistinctAll(TrimEach(ss, inStatic)))
    decreases ss, 0
  {
    hide Trim, Labels, Distinct;
    if ss != [] {
      TrimLabels(ss[0], inStatic);
      TrimEachLabels(ss[1..], inStatic);
      Cons(Trim(ss[0], inStatic), TrimEach(ss[1..], inStatic));
    }
  }

  /** What a throw delivers holds no label; it is an assignment that lowering makes. */
  predicate Delivers(s: Stmt)
    decreases s, 1
  {
    match s
    case If(t, hasElse, f) => DeliversAll(t) && (hasElse ==> DeliversAll(f))
    case While(body) => DeliversAll(body)
    case For(init, _, post, body) => (init.Some? ==> Delivers(init.value)) && DeliversAll(post) && DeliversAll(body)
    case Label(_, statement) => Delivers(statement)
    case Throw(_, _, delivery) => delivery.Some? ==> Labels(delivery.value) == {}
    case TryCatch(_, t, c) => DeliversAll(t) && DeliversAll(c)
    case StatementList(ss) => DeliversAll(ss)
    case StaticInit(statement) => Delivers(statement)
    case _ => true
  }

  predicate DeliversAll(ss: seq<Stmt>)
    decreases ss, 0
  {
    ss == [] || (Delivers(ss[0]) && DeliversAll(ss[1..]))
  }

  lemma UnionWhole(a': set<string>, b': set<string>, a: set<string>, b: set<string>)
    requires a' <= a && b' <= b && a !! b
    ensures a' + b' == a + b <==> a' == a && b' == b
  {
    if a' + b' == a + b {
      assert forall x | x in a :: x in a' + b';
      assert forall x | x in b :: x in a' + b';
    }
  }

  /** No label is lost exactly when trimming keeps all labels. */
  lemma {:induction false} LostExactly(s: Stmt, inStatic: bool)
    requires Distinct(s) && Delivers(s)
    ensures NoLostLabels(s, inStatic) <==> Labels(Trim(s, inStatic)) == Labels(s)
    decreases s, 1
  {
    hide TrimAll, TrimPost, TrimEach, LabelsOf, DistinctAll, NoneLost, NoneLostAfter, DeliversAll;
    match s
    case If(t, hasElse, f) =>
      LostAllExactly(t, true, inStatic);
      TrimAllLabels(t, true, inStatic);
      if hasElse {
        LostAllExactly(f, true, inStatic);
        TrimAllLabels(f, true, inStatic);
        UnionWhole(LabelsOf(TrimAll(t, true, inStatic)), LabelsOf(TrimAll(f, true, inStatic)), LabelsOf(t), LabelsOf(f));
      }
    case While(body) => LostAllExactly(body, true, inStatic);
    case For(init, _, post, body) => ForLostExactly(s, inStatic);
    case Label(name, statement) =>
      LostExactly(statement, inStatic);
      TrimLabels(statement, inStatic);
      UnionWhole({name}, Labels(Trim(statement, inStatic)), {name}, Labels(statement));
    case TryCatch(_, t, c) =>
      LostAllExactly(t, true, inStatic);
      LostAllExactly(c, true, inStatic);
      TrimAllLabels(t, true, inStatic);
      TrimAllLabels(c, true, inStatic);
      UnionWhole(LabelsOf(TrimAll(t, true, inStatic)), LabelsOf(TrimAll(c, true, inStatic)), LabelsOf(t), LabelsOf(c));
    case StatementList(ss) => LostEachExactly(ss, inStatic);
    case StaticInit(statement) => LostExactly(statement, true);
    case Throw(_, _, delivery) =>
      if delivery.Some? {
        NothingToLose(delivery.value, inStatic);
      }
    case _ =>
  }

  /** Without labels none is lost. */
  lemma {:induction false} NothingToLose(s: Stmt, inStatic: bool)
    requires Labels(s) == {}
    ensures NoLostLabels(s, inStatic)
    decreases s, 1
  {
    hide LabelsOf, NoneLost, NoneLostAfter;
    match s
    case If(t, hasElse, f) =>
      NothingToLoseIn(t, true, inStatic);
      if hasElse {
        NothingToLoseIn(f, true, inStatic);
      }
    case While(body) => NothingToLoseIn(body, true, inStatic);
    case For(init, _, post, body) =>
      if init.Some? {
        NothingToLose(init.value, inStatic);
      }
      NothingToLoseIn(post, true, inStatic);
      NothingToLoseIn(body, true, inStatic);
    case Throw(_, _, delivery) =>
      if delivery.Some? {
        NothingToLose(delivery.value, inStatic);
      }
    case TryCatch(_, t, c) =>
      NothingToLoseIn(t, true, inStatic);
      NothingToLoseIn(c, true, inStatic);
    case StatementList(ss) => NothingToLoseIn(ss, true, inStatic);
    case StaticInit(statement) => NothingToLose(statement, true);
    case _ =>
  }

  lemma {:induction false} NothingToLoseIn(ss: seq<Stmt>, open: bool, inStatic: bool)
    requires LabelsOf(ss) == {}
    ensures NoneLost(ss, open, inStatic) && NoneLostAfter(ss, open, inStatic)
    ensures forall i | 0 <= i < |ss| :: NoLostLabels(ss[i], inStatic)
    decreases ss, 0
  {
    hide Labels, NoLostLabels, Falls;
    if ss != [] {
      NothingToLose(ss[0], inStatic);
      NothingToLoseIn(ss[1..], false, inStatic);
      NothingToLoseIn(ss[1..], true, inStatic);
      assert forall i | 0 < i < |ss| :: ss[i] == ss[1..][i - 1];
    }
  }

  lemma {:induction false} ForLostExactly(s: Stmt, inStatic: bool)
    requires s.For? && Distinct(s) && Delivers(s)
    ensures NoLostLabels(s, inStatic) <==> Labels(Trim(s, inStatic)) == Labels(s)
    decreases s, 0
  {
    hide TrimAll, TrimPost, LabelsOf, DistinctAll, NoneLost, NoneLostAfter, DeliversAll;
    var post, body := TrimPost(s.post, true, inStatic), TrimAll(s.body, true, inStatic);
    LostPostExactly(s.post, true, inStatic);
    LostAllExactly(s.body, true, inStatic);
    TrimPostLabels(s.post, true, inStatic);
    TrimAllLabels(s.body, true, inStatic);
    UnionWhole(LabelsOf(post), LabelsOf(body), LabelsOf(s.post), LabelsOf(s.body));
    if s.init.Some? {
      var init := s.init.value;
      LostExactly(init, inStatic);
      TrimLabels(init, inStatic);
      UnionWhole(Labels(Trim(init, inStatic)), LabelsOf(post) + LabelsOf(body), Labels(init), LabelsOf(s.post) + LabelsOf(s.body));
      assert Labels(Trim(init, inStatic)) + LabelsOf(post) + LabelsOf(body) == Labels(Trim(init, inStatic)) + (LabelsOf(post) + LabelsOf(body));
      assert Labels(init) + LabelsOf(s.post) + LabelsOf(s.body) == Labels(init) + (LabelsOf(s.post) + LabelsOf(s.body));
    }
  }

  lemma {:induction false} LostAllExactly(ss: seq<Stmt>, open: bool, inStatic: bool)
    requires DistinctAll(ss) && DeliversAll(ss)
    ensures NoneLost(ss, open, inStatic) <==> LabelsOf(TrimAll(ss, open, inStatic)) == LabelsOf(ss)
    decreases ss, 0
  {
    hide Trim, Falls, Labels, Distinct, NoLostLabels, Delivers;
    if ss != [] {
      var first, rest := ss[0], ss[1..];
      if !open && !first.Label? {
        LostAllExactly(rest, false, inStatic);
        TrimAllLabels(rest, false, inStatic);
        UnionWhole({}, LabelsOf(TrimAll(rest, false, inStatic)), Labels(first), LabelsOf(rest));
      } else {
        var on := Falls(first, open, inStatic);
        LostExactly(first, inStatic);
        LostAllExactly(rest, on, inStatic);
        TrimLabels(first, inStatic);
        TrimAllLabels(rest, on, inStatic);
        Cons(Trim(first, inStatic), TrimAll(rest, on, inStatic));
        UnionWhole(Labels(Trim(first, inStatic)), LabelsOf(TrimAll(rest, on, inStatic)), Labels(first), LabelsOf(rest));
      }
    }
  }

  lemma {:induction false} LostPostExactly(ss: seq<Stmt>, open: bool, inStatic: bool)
    requires DistinctAll(ss) && DeliversAll(ss)
    ensures NoneLostAfter(ss, open, inStatic) <==> LabelsOf(TrimPost(ss, open, inStatic)) == LabelsOf(ss)
    decreases ss, 0
  {
    hide Trim, Falls, Labels, Distinct, NoLostLabels, Delivers;
    if ss != [] {
      var first, rest := ss[0], ss[1..];
      var kept := if Falls(first, open, inStatic) then TrimPost(rest, true, inStatic) else [];
      LostExactly(first, inStatic);
      LostPostExactly(rest, true, inStatic);
      TrimLabels(first, inStatic);
      TrimPostLabels(rest, true, inStatic);
      Cons(Trim(first, inStatic), kept);
      UnionWhole(Labels(Trim(first, inStatic)), LabelsOf(kept), Labels(first), LabelsOf(rest));
    }
  }

  lemma {:induction false} LostEachExactly(ss: seq<Stmt>, inStatic: bool)
    requires DistinctAll(ss) && DeliversAll(ss)
    ensures (forall i | 0 <= i < |ss| :: NoLostLabels(ss[i], inStatic)) <==> LabelsOf(TrimEach(ss, inStatic)) == LabelsOf(ss)
    decreases ss, 0
  {
    hide Trim, Labels, Distinct, NoLostLabels, Delivers;
    if ss != [] {
      var first, rest := ss[0], ss[1..];
      LostExactly(first, inStatic);
      LostEachExactly(rest, inStatic);
      TrimLabels(first, inStatic);
      TrimEachLabels(rest, inStatic);
      Cons(Trim(first, inStatic), TrimEach(rest, inStatic));
      UnionWhole(Labels(Trim(first, inStatic)), LabelsOf(TrimEach(rest, inStatic)), Labels(first), LabelsOf(rest));
      assert forall i | 0 < i < |ss| :: ss[i] == rest[i - 1];
    }
  }

  // ------------------------------------------------------------ whole functions

  lemma {:induction false} CollectsLabels(e: State, s: Stmt, d: nat)
    requires Delivers(s)
    ensures e.labelBlocks.Keys + Labels(s) <= CollectLabels(e, s, d).labelBlocks.Keys
    decreases s, 1
  {
    hide LabelsOf, DeliversAll, CollectStatements;
    match s
    case If(t, hasElse, f) =>
      CollectsAll(e, t, d + 1);
      if hasElse {
        CollectsAll(CollectStatements(e, t, d + 1), f, d + 1);
      }
    case While(body) => CollectsAll(e, body, d + 1);
    case For(init, _, post, body) =>
      if init.Some? {
        CollectsLabels(e, init.value, d + 1);
      }
      var r := if init.Some? then CollectLabels(e, init.value, d + 1) else e;
      CollectsAll(r, post, d + 1);
      CollectsAll(CollectStatements(r, post, d + 1), body, d + 2);
    case Label(name, statement) =>
      var r := if name in e.labelBlocks then e
               else e.AddBlocks(1).(labelBlocks := e.labelBlocks[name := |e.blocks|], labelDepths := e.labelDepths[name := d]);
      CollectsLabels(r, statement, d);
    case TryCatch(_, t, c) =>
      CollectsAll(e, t, d + 1);
      CollectsAll(CollectStatements(e, t, d + 1), c, d + 1);
    case StatementList(ss) => CollectsAll(e, ss, d);
    case StaticInit(statement) => CollectsLabels(e, statement, d);
    case _ =>
  }

  lemma {:induction false} CollectsAll(e: State, ss: seq<Stmt>, d: nat)
    requires DeliversAll(ss)
    ensures e.labelBlocks.Keys + LabelsOf(ss) <= CollectStatements(e, ss, d).labelBlocks.Keys
    decreases ss, 0
  {
    hide Labels, Delivers, CollectLabels;
    if ss != [] {
      CollectsLabels(e, ss[0], d);
      CollectsAll(CollectLabels(e, ss[0], d), ss[1..], d);
    }
  }

  predicate EmptyLabel(f: Function, l: string)
    requires l in BeginFunction(f).labelBlocks
  {
    var b := BeginFunction(f).labelBlocks[l];
    b < |EmitFunction(f).blocks| && EmitFunction(f).blocks[b] == []
  }

  /** The block of a label inside a skipped statement stays empty. */
  lemma LostLabelStaysEmpty(f: Function, l: string)
    requires DistinctAll(f.body) && EmitFunction(f).errors == 0
    requires l in LabelsOf(f.body) && l !in LabelsOf(TrimAll(f.body, true, false)) && l in BeginFunction(f).labelBlocks
    ensures EmptyLabel(f, l)
  {
    hide EmitBlock, BeginFunction, LabelsOf, DistinctAll, TrimAll;
    var start, trimmed := BeginFunction(f), TrimAll(f.body, true, false);
    BodyReady(f);
    FunctionErrors(f);
    TrimAllLabels(f.body, true, false);
    ReadyLess(start, LabelsOf(f.body), LabelsOf(trimmed));
    BlockTrims(start, f.body);
    BlockShape(start, trimmed);
    OtherBlocksStay(start, EmitBlock(start, f.body), LabelsOf(f.body), LabelsOf(trimmed), l);
    FinishTouchesCurrent(f, start.labelBlocks[l]);
  }

  lemma FunctionErrors(f: Function)
    requires EmitFunction(f).errors == 0
    ensures EmitBlock(BeginFunction(f), f.body).errors == 0
  {
    hide EmitBlock, BeginFunction;
    var done := EmitBlock(BeginFunction(f), f.body);
    SameErrors(done, 0, FrameExit);
    SameErrors(done.LeaveFrame(), 0, Ret);
  }

  lemma OtherBlocksStay(e: State, r: State, names: set<string>, kept: set<string>, l: string)
    requires Ready(e, names) && Shape(e, r, kept) && kept <= names && l in names && l !in kept && l in e.labelBlocks
    ensures var b := e.labelBlocks[l]; b < |r.blocks| && r.blocks[b] == [] && r.current != b
  {
  }

  lemma EmitElsewhere(e: State, i: Instr, b: nat)
    requires b < |e.blocks| && b != e.current
    ensures b < |e.Emit(i).blocks| && e.Emit(i).blocks[b] == e.blocks[b] && e.Emit(i).current == e.current
  {
  }

  /** Ending the function adds to the current block only. */
  lemma FinishTouchesCurrent(f: Function, b: nat)
    requires var done := EmitBlock(BeginFunction(f), f.body); b < |done.blocks| && b != done.current
    ensures b < |EmitFunction(f).blocks| && EmitFunction(f).blocks[b] == EmitBlock(BeginFunction(f), f.body).blocks[b]
  {
    hide EmitBlock, BeginFunction, State.Emit;
    var done := EmitBlock(BeginFunction(f), f.body);
    EmitElsewhere(done, ScopeExitTo(0), b);
    EmitElsewhere(done.ExitTo(0), FrameExit, b);
    EmitElsewhere(done.LeaveFrame(), Ret, b);
  }

  /**
    Every function the emitter accepts is one the simulation theorem speaks of, or has a
    label whose block is empty, which LLVM's verifier rejects.
   */
  lemma EmittableOrRejected(f: Function)
    requires DistinctAll(f.body) && DeliversAll(f.body) && EmitFunction(f).errors == 0
    ensures Emittable(f) || exists l | l in BeginFunction(f).labelBlocks :: EmptyLabel(f, l)
  {
    hide EmitFunction, BeginFunction, LabelsOf, DistinctAll, TrimAll, NoneLost;
    if !NoneLost(f.body, true, false) {
      LostAllExactly(f.body, true, false);
      TrimAllLabels(f.body, true, false);
      var l :| l in LabelsOf(f.body) && l !in LabelsOf(TrimAll(f.body, true, false));
      LabelsAreCollected(f);
      LostLabelStaysEmpty(f, l);
    }
  }

  lemma LabelsAreCollected(f: Function)
    requires DeliversAll(f.body)
    ensures LabelsOf(f.body) <= BeginFunction(f).labelBlocks.Keys
  {
    hide CollectStatements;
    CollectsAll(State([[FrameEnter, Br(1)], []], 1, 0, [], [], map[], map[], false, 0), f.body, 1);
  }
}
