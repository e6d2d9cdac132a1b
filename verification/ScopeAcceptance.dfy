/**
  Which functions the emitter accepts: exactly those whose emitted statements have
  somewhere to go. The condition speaks of the body alone.
 */
module ScopeAcceptance {
  import opened Basics
  import opened ScopeHir
  import opened ScopeLabels
  import opened ScopeShape
  import opened ScopeFalls

  // --------------------------------------------------------- the condition

  /** The label stands in s, itself at depth d, under `at` open scopes. A delivery holds no labels. */
  predicate LabelAt(s: Stmt, d: nat, name: string, at: nat)
    decreases s, 1
  {
    match s
    case If(t, hasElse, f) => LabelIn(t, d + 1, name, at) || (hasElse && LabelIn(f, d + 1, name, at))
    case While(body) => LabelIn(body, d + 1, name, at)
    case For(init, _, post, body) =>
      (init.Some? && LabelAt(init.value, d + 1, name, at)) || LabelIn(post, d + 1, name, at) || LabelIn(body, d + 2, name, at)
    case Label(n, statement) => (n == name && at == d) || LabelAt(statement, d, name, at)
    case TryCatch(_, t, handler) => LabelIn(t, d + 1, name, at) || LabelIn(handler, d + 1, name, at)
    case StatementList(ss) => LabelIn(ss, d, name, at)
    case StaticInit(statement) => LabelAt(statement, d, name, at)
    case _ => false
  }

  predicate LabelIn(ss: seq<Stmt>, d: nat, name: string, at: nat)
    decreases ss, 0
  {
    exists i | 0 <= i < |ss| :: LabelAt(ss[i], d, name, at)
  }

  /** The body, at depth 1, has this label. */
  ghost predicate Declared(body: seq<Stmt>, name: string) {
    exists at: nat :: LabelIn(body, 1, name, at)
  }

  ghost predicate DeclaredBy(body: seq<Stmt>, name: string, depth: nat) {
    exists at: nat :: at <= depth && LabelIn(body, 1, name, at)
  }

  /** Where a statement stands in a function body. */
  datatype Place = Place(body: seq<Stmt>, inLoop: bool, handler: Option<nat>, depth: nat, inStatic: bool) {
    function Inside(scopes: nat): Place {
      this.(depth := depth + scopes)
    }

    function Looping(): Place {
      this.(inLoop := true)
    }
  }

  /**
    Breaks and continues stand in a loop, gotos lead to a label of the body no deeper than
    themselves, and a throw with a handler has a delivery of the handler's length.
   */
  ghost predicate Legal(s: Stmt, p: Place)
    decreases s, 1
  {
    match s
    case Plain(_) | Call(_) | Return => true
    case Break | Continue => p.inLoop
    case Goto(name) => DeclaredBy(p.body, name, p.depth)
    case Label(name, statement) => Declared(p.body, name) && Legal(statement, p)
    case If(t, hasElse, f) => LegalBlock(t, true, p.Inside(1)) && (hasElse ==> LegalBlock(f, true, p.Inside(1)))
    case While(body) => LegalBlock(body, true, p.Inside(1).Looping())
    case For(init, _, post, body) =>
      && (init.Some? ==> Legal(init.value, p.Inside(1)))
      && LegalBlock(body, true, p.Inside(2).Looping()) && LegalPost(post, p.Inside(1).Looping())
    case Throw(target, source, delivery) =>
      p.handler.Some? ==> source == target == p.handler.value && delivery.Some? && Legal(delivery.value, p)
    case TryCatch(length, t, handler) =>
      LegalBlock(t, true, p.Inside(1).(handler := Some(length))) && LegalBlock(handler, true, p.Inside(1))
    case StatementList(ss) => forall i | 0 <= i < |ss| :: Legal(ss[i], p)
    case StaticInit(statement) => Legal(statement, p.(inStatic := true))
  }

  /** In a block, statements that cannot be reached do not count unless they are labels. */
  ghost predicate LegalBlock(ss: seq<Stmt>, open: bool, p: Place)
    decreases ss, 0
  {
    ss == [] ||
    if !open && !ss[0].Label? then LegalBlock(ss[1..], false, p)
    else Legal(ss[0], p) && LegalBlock(ss[1..], Falls(ss[0], open, p.inStatic), p)
  }

  /** The post statements count up to the first that does not fall through. */
  ghost predicate LegalPost(ss: seq<Stmt>, p: Place)
    decreases ss, 0
  {
    ss == [] || (Legal(ss[0], p) && (Falls(ss[0], true, p.inStatic) ==> LegalPost(ss[1..], p)))
  }

  /** Whether control can run off the end of a block. */
  predicate FallsOff(ss: seq<Stmt>, open: bool, inStatic: bool)
    decreases ss, 0
  {
    if ss == [] then open
    else if !open && !ss[0].Label? then FallsOff(ss[1..], false, inStatic)
    else FallsOff(ss[1..], Falls(ss[0], open, inStatic), inStatic)
  }

  ghost predicate LegalFunction(f: Function) {
    LegalBlock(f.body, true, Place(f.body, false, None, 1, false)) && (f.returnsValue ==> !FallsOff(f.body, true, false))
  }

  // ------------------------------------------------- labels and their depths

  predicate Recorded(m: map<string, nat>, name: string, at: nat) {
    name in m && m[name] == at
  }

  /** Collection adds exactly the labels of the statement, at the depths they stand at. */
  ghost predicate Adds(m: map<string, nat>, r: map<string, nat>, s: Stmt, d: nat) {
    forall name, at :: Recorded(r, name, at) <==> Recorded(m, name, at) || LabelAt(s, d, name, at)
  }

  ghost predicate AddsAll(m: map<string, nat>, r: map<string, nat>, ss: seq<Stmt>, d: nat) {
    forall name, at :: Recorded(r, name, at) <==> Recorded(m, name, at) || LabelIn(ss, d, name, at)
  }

  lemma LabelInParts(ss: seq<Stmt>, d: nat, name: string, at: nat)
    requires ss != []
    ensures LabelIn(ss, d, name, at) <==> LabelAt(ss[0], d, name, at) || LabelIn(ss[1..], d, name, at)
  {
    hide LabelAt;
    if i :| 0 <= i < |ss| && LabelAt(ss[i], d, name, at) && i > 0 {
      assert LabelAt(ss[1..][i - 1], d, name, at);
    }
    if i :| 0 <= i < |ss[1..]| && LabelAt(ss[1..][i], d, name, at) {
      assert LabelAt(ss[i + 1], d, name, at);
    }
  }

  lemma {:induction false} CollectAdds(e: State, s: Stmt, d: nat)
    requires e.labelBlocks.Keys == e.labelDepths.Keys && Distinct(s) && Labels(s) !! e.labelBlocks.Keys
    ensures Adds(e.labelDepths, CollectLabels(e, s, d).labelDepths, s, d)
    decreases s, 1
  {
    hide Collected, LabelIn, Recorded;
    match s
    case If(t, hasElse, f) =>
      CollectAddsAll(e, t, d + 1);
      if hasElse { CollectSecond(e, t, d + 1, f, d + 1); }
    case While(body) => CollectAddsAll(e, body, d + 1);
    case For(init, _, post, body) =>
      var m := if init.Some? then CollectLabels(e, init.value, d + 1) else e;
      if init.Some? {
        CollectAdds(e, init.value, d + 1);
        CollectCorrect(e, init.value, d + 1);
        KeysOfCollected(e, m, Labels(init.value));
      }
      CollectAddsAll(m, post, d + 1);
      CollectSecond(m, post, d + 1, body, d + 2);
    case Label(name, statement) =>
      var m := e.AddBlocks(1).(labelBlocks := e.labelBlocks[name := |e.blocks|],
                               labelDepths := e.labelDepths[name := d]);
      CollectAdds(m, statement, d);
      forall n, at
        ensures Recorded(CollectLabels(e, s, d).labelDepths, n, at) <==> Recorded(e.labelDepths, n, at) || LabelAt(s, d, n, at)
      {
        RecordedNew(e.labelDepths, name, d, n, at);
        assert LabelAt(s, d, n, at) <==> (n == name && at == d) || LabelAt(statement, d, n, at);
      }
    case TryCatch(_, t, handler) =>
      CollectAddsAll(e, t, d + 1);
      CollectSecond(e, t, d + 1, handler, d + 1);
    case StatementList(ss) => CollectAddsAll(e, ss, d);
    case StaticInit(statement) => CollectAdds(e, statement, d);
    case _ =>
  }

  lemma RecordedNew(m: map<string, nat>, name: string, d: nat, n: string, at: nat)
    requires name !in m
    ensures Recorded(m[name := d], n, at) <==> Recorded(m, n, at) || (n == name && at == d)
  {
  }

  /** A second sequence, with other labels. */
  lemma {:induction false} CollectSecond(e: State, a: seq<Stmt>, da: nat, b: seq<Stmt>, db: nat)
    requires e.labelBlocks.Keys == e.labelDepths.Keys && DistinctAll(a) && DistinctAll(b)
    requires LabelsOf(a) !! e.labelBlocks.Keys && LabelsOf(b) !! e.labelBlocks.Keys && LabelsOf(a) !! LabelsOf(b)
    ensures var m := CollectStatements(e, a, da); AddsAll(m.labelDepths, CollectStatements(m, b, db).labelDepths, b, db)
    decreases b, 1
  {
    hide Collected, AddsAll, CollectStatements;
    CollectAllCorrect(e, a, da);
    KeysOfCollected(e, CollectStatements(e, a, da), LabelsOf(a));
    CollectAddsAll(CollectStatements(e, a, da), b, db);
  }

  lemma {:induction false} CollectAddsAll(e: State, ss: seq<Stmt>, d: nat)
    requires e.labelBlocks.Keys == e.labelDepths.Keys && DistinctAll(ss) && LabelsOf(ss) !! e.labelBlocks.Keys
    ensures AddsAll(e.labelDepths, CollectStatements(e, ss, d).labelDepths, ss, d)
    decreases ss, 0
  {
    hide Collected, Recorded, LabelAt, CollectLabels;
    if ss != [] {
      var m := CollectLabels(e, ss[0], d);
      CollectAdds(e, ss[0], d);
      CollectCorrect(e, ss[0], d);
      KeysOfCollected(e, m, Labels(ss[0]));
      CollectAddsAll(m, ss[1..], d);
      forall name, at ensures LabelIn(ss, d, name, at) <==> LabelAt(ss[0], d, name, at) || LabelIn(ss[1..], d, name, at) {
        LabelInParts(ss, d, name, at);
      }
    }
  }

  // ----------------------------------------------------------- the emitter

  /** The emitter's fields say where the statement stands. */
  ghost predicate Matches(e: State, p: Place) {
    && e.errors == 0 && e.depth == p.depth && e.staticActive == p.inStatic && (e.loops != [] <==> p.inLoop)
    && p.handler == (if e.catches == [] then None else Some(e.catches[|e.catches| - 1].errorByteLength))
    && e.labelBlocks.Keys == e.labelDepths.Keys
    && AddsAll(map[], e.labelDepths, p.body, 1)
  }

  lemma MatchesSame(e: State, x: State, p: Place)
    requires Matches(e, p) && SameTargets(e, x) && x.errors == 0 && x.depth >= e.depth
    ensures Matches(x, p.Inside(x.depth - e.depth))
  {
    hide AddsAll;
  }

  /** At the depth it was. */
  lemma MatchesOn(e: State, x: State, p: Place)
    requires Matches(e, p) && SameTargets(e, x) && x.errors == 0 && x.depth == e.depth
    ensures Matches(x, p)
  {
    hide AddsAll;
  }

  lemma KnownExactly(e: State, p: Place, name: string)
    requires Matches(e, p)
    ensures name in e.labelBlocks <==> Declared(p.body, name)
    ensures (name in e.labelBlocks && e.labelDepths[name] <= e.depth) <==> DeclaredBy(p.body, name, p.depth)
  {
    hide LabelIn;
    if name in e.labelBlocks {
      assert Recorded(e.labelDepths, name, e.labelDepths[name]);
      assert LabelIn(p.body, 1, name, e.labelDepths[name]);
    }
    if at: nat :| LabelIn(p.body, 1, name, at) {
      assert Recorded(e.labelDepths, name, at);
    }
    if at: nat :| at <= p.depth && LabelIn(p.body, 1, name, at) {
      assert Recorded(e.labelDepths, name, at);
    }
  }

  lemma {:induction false} StmtAccepted(e: State, s: Stmt, p: Place)
    requires Ready(e, Labels(s)) && Distinct(s) && Matches(e, p)
    ensures EmitStmt(e, s).errors == 0 <==> Legal(s, p)
    decreases s, 3
  {
    hide Ready, EmitIf, EmitWhile, EmitFor, EmitThrow, EmitTryCatch, EmitList, Matches, LabelIn, State.Emit, State.ExitTo, State.BrUnlessTerminated, Stage, Shape;
    match s
    case If(_, _, _) => IfAccepted(e, s, p);
    case While(_) => WhileAccepted(e, s, p);
    case For(_, _, _, _) => ForAccepted(e, s, p);
    case Throw(_, _, _) => ThrowAccepted(e, s, p);
    case TryCatch(_, _, _) => TryAccepted(e, s, p);
    case StatementList(ss) => ListAccepted(e, ss, p);
    case Label(name, statement) =>
      KnownExactly(e, p, name);
      if name in e.labelBlocks {
        LabelBegins(e, s);
        StageReady(e, LabelStart(e, s), Labels(s), Labels(statement), {}, Labels(statement));
        assert Matches(LabelStart(e, s), p) by { MatchesFields(e, p); MatchesOn(e, LabelStart(e, s), p); }
        StmtAccepted(LabelStart(e, s), statement, p);
      }
    case StaticInit(statement) =>
      MatchesFields(e, p);
      if e.staticActive {
        StmtAccepted(e, statement, p);
      } else {
        StaticBegins(e, s);
        StageReady(e, StaticStart(e), Labels(s), Labels(s), {|e.blocks| + 1}, Labels(s));
        assert Matches(StaticStart(e), p.(inStatic := true)) by { MatchesStatic(e, p); }
        StmtAccepted(StaticStart(e), statement, p.(inStatic := true));
      }
    case Goto(name) =>
      KnownExactly(e, p, name);
      MatchesFields(e, p);
    case _ => MatchesFields(e, p);
  }

  lemma MatchesFields(e: State, p: Place)
    requires Matches(e, p)
    ensures e.errors == 0 && e.depth == p.depth && e.staticActive == p.inStatic && (e.loops != [] <==> p.inLoop)
    ensures p.handler == (if e.catches == [] then None else Some(e.catches[|e.catches| - 1].errorByteLength))
    ensures e.labelBlocks.Keys == e.labelDepths.Keys
  {
    hide AddsAll;
  }

  lemma MatchesStatic(e: State, p: Place)
    requires Matches(e, p)
    ensures Matches(StaticStart(e), p.(inStatic := true))
  {
    hide AddsAll;
  }

  // --------------------------------------------------------------- sequences

  /** After the first statement of a sequence the emitter stands where it stood. */
  lemma FirstAccepted(e: State, ss: seq<Stmt>, p: Place)
    requires ss != [] && Ready(e, LabelsOf(ss)) && DistinctAll(ss) && Matches(e, p) && EmitStmt(e, ss[0]).errors == 0
    ensures Ready(EmitStmt(e, ss[0]), LabelsOf(ss[1..])) && Matches(EmitStmt(e, ss[0]), p)
    ensures EmitStmt(e, ss[0]).Terminated() == !Falls(ss[0], !e.Terminated(), p.inStatic)
  {
    hide Ready, EmitStmt, Stage, Matches, Falls;
    FirstShape(e, ss);
    MatchesFields(e, p);
    MatchesOn(e, EmitStmt(e, ss[0]), p);
    FallsExactly(e, ss[0]);
  }

  lemma ReadyFirst(e: State, ss: seq<Stmt>)
    requires ss != [] && Ready(e, LabelsOf(ss))
    ensures Ready(e, Labels(ss[0])) && Ready(e, LabelsOf(ss[1..]))
  {
  }

  lemma {:induction false} ListAccepted(e: State, ss: seq<Stmt>, p: Place)
    requires Ready(e, LabelsOf(ss)) && DistinctAll(ss) && Matches(e, p)
    ensures EmitList(e, ss).errors == 0 <==> forall i | 0 <= i < |ss| :: Legal(ss[i], p)
    decreases ss, 1
  {
    hide Ready, EmitStmt, Matches, Legal, Falls;
    MatchesFields(e, p);
    if ss != [] {
      ReadyFirst(e, ss);
      StmtAccepted(e, ss[0], p);
      if EmitStmt(e, ss[0]).errors == 0 {
        FirstAccepted(e, ss, p);
        ListAccepted(EmitStmt(e, ss[0]), ss[1..], p);
        assert forall i | 1 <= i < |ss| :: ss[i] == ss[1..][i - 1];
      }
    }
  }

  lemma {:induction false} PostAccepted(e: State, ss: seq<Stmt>, p: Place)
    requires Ready(e, LabelsOf(ss)) && DistinctAll(ss) && Matches(e, p) && !e.Terminated()
    ensures EmitPost(e, ss).errors == 0 <==> LegalPost(ss, p)
    decreases ss, 1
  {
    hide Ready, EmitStmt, Matches, Legal, Falls;
    MatchesFields(e, p);
    if ss != [] {
      ReadyFirst(e, ss);
      StmtAccepted(e, ss[0], p);
      if EmitStmt(e, ss[0]).errors == 0 {
        FirstAccepted(e, ss, p);
        if !EmitStmt(e, ss[0]).Terminated() {
          PostAccepted(EmitStmt(e, ss[0]), ss[1..], p);
        }
      }
    }
  }

  lemma {:induction false} StatementsAccepted(e: State, ss: seq<Stmt>, p: Place)
    requires Ready(e, LabelsOf(ss)) && DistinctAll(ss) && Matches(e, p)
    ensures EmitStatements(e, ss).errors == 0 <==> LegalBlock(ss, !e.Terminated(), p)
    ensures EmitStatements(e, ss).errors == 0 ==> EmitStatements(e, ss).Terminated() == !FallsOff(ss, !e.Terminated(), p.inStatic)
    decreases ss, 1
  {
    hide Ready, EmitStmt, Matches, Legal, Falls;
    MatchesFields(e, p);
    if ss != [] {
      ReadyFirst(e, ss);
      if e.Terminated() && !ss[0].Label? {
        StatementsAccepted(e, ss[1..], p);
      } else {
        StmtAccepted(e, ss[0], p);
        if EmitStmt(e, ss[0]).errors == 0 {
          FirstAccepted(e, ss, p);
          StatementsAccepted(EmitStmt(e, ss[0]), ss[1..], p);
        }
      }
    }
  }

  lemma {:induction false} BlockAccepted(e: State, ss: seq<Stmt>, p: Place)
    requires Ready(e, LabelsOf(ss)) && DistinctAll(ss) && Matches(e, p)
    ensures EmitBlock(e, ss).errors == 0 <==> LegalBlock(ss, true, p.Inside(1))
    ensures EmitBlock(e, ss).errors == 0 ==> EmitBlock(e, ss).Terminated() == !FallsOff(ss, true, p.inStatic)
    decreases ss, 2
  {
    hide Ready, EmitStatements, Matches, Stage, LegalBlock, FallsOff, State.Emit;
    var start := BlockStart(e);
    MatchesFields(e, p);
    BlockBegins(e, ss);
    ReadyBounds(e, LabelsOf(ss));
    StageReady(e, start, LabelsOf(ss), LabelsOf(ss), {}, LabelsOf(ss));
    EmittedLast(e, ScopeEnter);
    MatchesSame(e, start, p);
    StatementsAccepted(start, ss, p.Inside(1));
    var filled := EmitStatements(start, ss);
    if filled.errors == 0 {
      StatementsShape(start, ss);
      ShapeBounds(start, filled, LabelsOf(ss));
      EmittedLast(filled, ScopeExit);
    }
  }

  // -------------------------------------------------------------- constructs

  lemma {:induction false} IfAccepted(e: State, s: Stmt, p: Place)
    requires s.If? && Ready(e, Labels(s)) && Distinct(s) && Matches(e, p)
    ensures EmitIf(e, s).errors == 0 <==> Legal(s, p)
    decreases s, 2
  {
    hide Ready, EmitBlock, Matches, Stage, Appends, LegalBlock, State.Emit, State.AddBlocks, State.BrUnlessTerminated;
    var n, names, first, other := |e.blocks|, Labels(s), IfThen(e), IfElse(e, s);
    MatchesFields(e, p);
    IfBegins(e, s);
    StageReady(e, first, names, names, {n + 1, n + 2}, LabelsOf(s.thenBlock));
    MatchesOn(e, first, p);
    BlockAccepted(first, s.thenBlock, p);
    if EmitBlock(first, s.thenBlock).errors == 0 {
      ThenShape(e, s);
      MatchesOn(e, other, p);
      if s.hasElse {
        StageReady(e, other, names, ElseLabels(s), {n + 2}, LabelsOf(s.elseBlock));
        BlockAccepted(other, s.elseBlock, p);
      }
    }
  }

  lemma MatchesLoop(e: State, x: State, t: LoopTargets, p: Place)
    requires Matches(e, p) && x == e.(blocks := x.blocks, current := x.current, loops := e.loops + [t])
    ensures Matches(x, p.Looping())
  {
    hide AddsAll;
  }

  lemma {:induction false} WhileAccepted(e: State, s: Stmt, p: Place)
    requires s.While? && Ready(e, Labels(s)) && Distinct(s) && Matches(e, p)
    ensures EmitWhile(e, s).errors == 0 <==> Legal(s, p)
    decreases s, 2
  {
    hide Ready, EmitBlock, Matches, Stage, Appends, LegalBlock, State.Emit, State.AddBlocks, State.BrUnlessTerminated, PopLoop;
    var n, names, body := |e.blocks|, Labels(s), WhileBody(e);
    MatchesFields(e, p);
    WhileBegins(e, s);
    StageReady(e, body, names, names, {n + 2}, names);
    MatchesLoop(e, body, WhileTargets(e), p);
    BlockAccepted(body, s.body, p.Looping());
    PopKeepsErrors(EmitBlock(body, s.body).BrUnlessTerminated(n));
  }

  lemma {:induction false} TryAccepted(e: State, s: Stmt, p: Place)
    requires s.TryCatch? && Ready(e, Labels(s)) && Distinct(s) && Matches(e, p)
    ensures EmitTryCatch(e, s).errors == 0 <==> Legal(s, p)
    decreases s, 2
  {
    hide Ready, EmitBlock, Matches, Stage, Appends, LegalBlock, State.Emit, State.AddBlocks, State.BrUnlessTerminated, PopCatch;
    var n, names, start, handler := |e.blocks|, Labels(s), TryStart(e, s), CatchStart(e, s);
    MatchesFields(e, p);
    TryBegins(e, s);
    StageReady(e, start, names, names, {n + 1, n + 2}, LabelsOf(s.tryBlock));
    MatchesGuard(e, s, p);
    BlockAccepted(start, s.tryBlock, p.(handler := Some(s.errorByteLength)));
    PopKeepsErrors(EmitBlock(start, s.tryBlock));
    if EmitBlock(start, s.tryBlock).errors == 0 {
      CatchBegins(e, s);
      StageReady(e, handler, names, LabelsOf(s.catchBlock), {n + 2}, LabelsOf(s.catchBlock));
      MatchesOn(e, handler, p);
      BlockAccepted(handler, s.catchBlock, p);
    }
  }

  lemma MatchesGuard(e: State, s: Stmt, p: Place)
    requires s.TryCatch? && Matches(e, p)
    ensures Matches(TryStart(e, s), p.(handler := Some(s.errorByteLength)))
  {
    hide AddsAll;
  }

  lemma {:induction false} ThrowAccepted(e: State, s: Stmt, p: Place)
    requires s.Throw? && Ready(e, Labels(s)) && Distinct(s) && Matches(e, p)
    ensures EmitThrow(e, s).errors == 0 <==> Legal(s, p)
    decreases s, 2
  {
    hide Ready, EmitStmt, Matches, State.Emit, State.ExitTo;
    MatchesFields(e, p);
    if p.handler.Some? && s.delivery.Some? {
      StmtAccepted(e, s.delivery.value, p);
    }
  }

  lemma {:induction false} ForAccepted(e: State, s: Stmt, p: Place)
    requires s.For? && Ready(e, Labels(s)) && Distinct(s) && Matches(e, p)
    ensures EmitFor(e, s).errors == 0 <==> Legal(s, p)
    decreases s, 2
  {
    hide Ready, EmitBlock, EmitPost, EmitStmt, EmitForLoop, Matches, Stage, Appends, LegalBlock, LegalPost, State.Emit, State.AddBlocks;
    var n, x, scoped := |e.blocks|, ForStarted(e, s), ForScope(e);
    MatchesFields(e, p);
    ForBegins(e, s);
    MatchesSame(e, scoped, p);
    if s.init.Some? {
      StmtAccepted(scoped, s.init.value, p.Inside(1));
    }
    if x.errors == 0 {
      ForInit(e, s);
      MatchesSame(e, x, p);
      ForLoopAccepted(e, x, s, n, p.Inside(1));
    }
  }

  lemma {:induction false} ForLoopAccepted(base: State, x: State, s: Stmt, n: nat, p: Place)
    requires s.For? && Stage(base, x, Labels(s), ForLabels(s), {n, n + 1, n + 2, n + 3}) && Distinct(s) && Matches(x, p)
    ensures EmitForLoop(x, s, n).errors == 0 <==> LegalBlock(s.body, true, p.Inside(1).Looping()) && LegalPost(s.post, p.Looping())
    decreases s, 1
  {
    hide Ready, EmitBlock, EmitPost, EmitForLoop, Matches, Stage, Appends, LegalBlock, LegalPost, State.Emit, State.BrUnlessTerminated;
    var body, post := ForBody(x, s, n), ForPost(x, s, n);
    MatchesFields(x, p);
    ForBodyBegins(base, x, s, n);
    StageReady(base, body, Labels(s), ForLabels(s), {n + 2, n + 3}, LabelsOf(s.body));
    MatchesLoop(x, body, ForTargets(x, n), p);
    BlockAccepted(body, s.body, p.Looping());
    ForLoopErrors(x, s, n);
    if EmitBlock(body, s.body).errors == 0 {
      ForLoopShape(base, x, s, n);
      StageReady(base, post, Labels(s), LabelsOf(s.post), {n + 3}, LabelsOf(s.post));
      MatchesFields(body, p.Looping());
      MatchesOn(body, post, p.Looping());
      PostAccepted(post, s.post, p.Looping());
    }
  }

  lemma ForLoopErrors(x: State, s: Stmt, n: nat)
    requires s.For?
    ensures EmitForLoop(x, s, n).errors == EmitPost(ForPost(x, s, n), s.post).errors >= EmitBlock(ForBody(x, s, n), s.body).errors
  {
    hide EmitBlock, EmitPost, State.Emit, State.BrUnlessTerminated, PopLoop;
    var posted := EmitPost(ForPost(x, s, n), s.post);
    PopKeepsErrors(posted);
    PopKeepsErrors(posted.BrUnlessTerminated(n));
  }

  // --------------------------------------------------------- whole functions

  lemma StartMatches(f: Function)
    requires DistinctAll(f.body)
    ensures Ready(BeginFunction(f), LabelsOf(f.body)) && Matches(BeginFunction(f), Place(f.body, false, None, 0, false))
  {
    hide CollectStatements, AddsAll;
    var entry := State([[FrameEnter, Br(1)], []], 1, 0, [], [], map[], map[], false, 0);
    CollectAllCorrect(entry, f.body, 1);
    CollectAddsAll(entry, f.body, 1);
  }

  /** The emitter accepts a function exactly when it is legal. */
  lemma AcceptedExactly(f: Function)
    requires DistinctAll(f.body)
    ensures EmitFunction(f).errors == 0 <==> LegalFunction(f)
  {
    hide Ready, BeginFunction, EmitBlock, Matches, LegalBlock, FallsOff, State.Emit;
    StartMatches(f);
    BlockAccepted(BeginFunction(f), f.body, Place(f.body, false, None, 0, false));
  }
}
