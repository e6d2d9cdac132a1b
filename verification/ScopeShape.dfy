/**
  What emission does to the blocks: it only appends, and only to the block at the
  insertion point, to blocks of the statement's own labels, and to new blocks. Each
  construct's intermediate states are named, with the blocks they find empty.
 */
module ScopeShape {
  import opened ScopeHir
  import opened ScopeLabels
  import ScopeEmission

  ghost predicate Appends(e: State, r: State) {
    |e.blocks| <= |r.blocks| && forall b | 0 <= b < |e.blocks| :: e.blocks[b] <= r.blocks[b]
  }

  /** Labels have blocks of their own. */
  ghost predicate Sound(e: State) {
    && e.current < |e.blocks|
    && (forall l | l in e.labelBlocks :: e.labelBlocks[l] < |e.blocks|)
    && (forall l, m | l in e.labelBlocks && m in e.labelBlocks && l != m :: e.labelBlocks[l] != e.labelBlocks[m])
  }

  /** Same targets and flags; the depth does not matter here. */
  ghost predicate SameTargets(e: State, r: State) {
    && r.labelBlocks == e.labelBlocks && r.labelDepths == e.labelDepths
    && r.loops == e.loops && r.catches == e.catches && r.staticActive == e.staticActive
  }

  /** Old blocks other than `touched` are as they were. */
  ghost predicate Keeps(e: State, r: State, touched: set<nat>) {
    && Appends(e, r) && r.current < |r.blocks|
    && (forall b: nat | b < |e.blocks| && b !in touched :: r.blocks[b] == e.blocks[b])
    && (r.current in touched || r.current >= |e.blocks|)
    && r.labelBlocks == e.labelBlocks
  }

  function Touched(e: State, names: set<string>): set<nat> {
    {e.current} + ScopeEmission.LabelSet(e, names)
  }

  /** The effect of a whole statement with these labels. */
  ghost predicate Shape(e: State, r: State, names: set<string>) {
    Keeps(e, r, Touched(e, names)) && SameTargets(e, r)
  }

  /** The blocks of these labels are untouched so far. */
  ghost predicate Ready(e: State, names: set<string>) {
    Sound(e) && ScopeEmission.Pending(e, names)
  }

  /** The insertion point is the start of a block. */
  ghost predicate AtStart(e: State) {
    e.current < |e.blocks| && e.blocks[e.current] == []
  }

  lemma AppendsTrans(e: State, m: State, r: State)
    requires Appends(e, m) && Appends(m, r)
    ensures Appends(e, r)
  {
    forall b | 0 <= b < |e.blocks| ensures e.blocks[b] <= r.blocks[b] {
      assert e.blocks[b] <= m.blocks[b] <= r.blocks[b];
    }
  }

  // ----------------------------------------------- stages of one construct

  /**
    A moment inside the emission of a construct that began at e: the labels in `todo`
    are still to come, and the construct's own blocks in `spare` are still empty.
   */
  ghost predicate Stage(e: State, x: State, names: set<string>, todo: set<string>, spare: set<nat>) {
    && Sound(e) && Keeps(e, x, Touched(e, names)) && todo <= names && ScopeEmission.Pending(x, todo)
    && forall b | b in spare :: |e.blocks| <= b < |x.blocks| && x.blocks[b] == [] && b != x.current
  }

  lemma StageReady(e: State, x: State, names: set<string>, todo: set<string>, spare: set<nat>, sub: set<string>)
    requires Stage(e, x, names, todo, spare) && sub <= todo
    ensures Ready(x, sub)
  {
  }

  lemma Begin(e: State, names: set<string>)
    requires Ready(e, names)
    ensures Stage(e, e, names, names, {}) && SameTargets(e, e) && Appends(e, e)
  {
  }

  lemma Open(e: State, n: nat, names: set<string>, spare: set<nat>)
    requires Ready(e, names) && forall b | b in spare :: |e.blocks| <= b < |e.blocks| + n
    ensures var x := e.AddBlocks(n);
      && Stage(e, x, names, names, spare) && SameTargets(e, x) && Appends(e, x)
      && |x.blocks| == |e.blocks| + n && x.current == e.current && x.errors == e.errors && x.depth == e.depth
      && x.blocks[e.current] == e.blocks[e.current]
  {
  }

  /** A part with the labels `sub`, which leaves the labels `left`. */
  lemma Part(e: State, x: State, y: State, names: set<string>, todo: set<string>, spare: set<nat>, sub: set<string>, left: set<string>)
    requires Stage(e, x, names, todo, spare) && Shape(x, y, sub) && sub <= todo && left <= todo && left !! sub
    ensures Stage(e, y, names, left, spare) && SameTargets(x, y) && |x.blocks| <= |y.blocks| && Appends(x, y)
  {
    AppendsTrans(e, x, y);
    forall l | l in left && l in y.labelBlocks
      ensures y.labelBlocks[l] < |y.blocks| && y.blocks[y.labelBlocks[l]] == [] && y.labelBlocks[l] != y.current
    {
      assert x.labelBlocks[l] !in Touched(x, sub);
    }
    forall b | b in spare ensures y.blocks[b] == [] && b != y.current {
      assert b !in Touched(x, sub);
    }
  }

  /** Moving to one of the construct's own empty blocks, perhaps with a new context. */
  lemma Move(e: State, x: State, y: State, names: set<string>, todo: set<string>, spare: set<nat>, rest: set<nat>)
    requires Stage(e, x, names, todo, spare) && y.current in spare && rest <= spare && y.current !in rest
    requires y.blocks == x.blocks && y.labelBlocks == x.labelBlocks
    ensures Stage(e, y, names, todo, rest) && AtStart(y) && Appends(x, y)
  {
  }

  /** A new context at the same place. */
  lemma Stay(e: State, x: State, y: State, names: set<string>, todo: set<string>, spare: set<nat>)
    requires Stage(e, x, names, todo, spare) && y.current == x.current
    requires y.blocks == x.blocks && y.labelBlocks == x.labelBlocks
    ensures Stage(e, y, names, todo, spare) && Appends(x, y)
  {
  }

  lemma EmitShape(e: State, i: Instr)
    requires Sound(e)
    ensures var y := e.Emit(i);
      && Shape(e, y, {}) && y.current == e.current && |y.blocks| == |e.blocks| && y.errors == e.errors
      && y.blocks[e.current] == e.blocks[e.current] + [i]
  {
  }

  lemma Step(e: State, x: State, i: Instr, names: set<string>, todo: set<string>, spare: set<nat>)
    requires Stage(e, x, names, todo, spare)
    ensures var y := x.Emit(i);
      && Stage(e, y, names, todo, spare) && SameTargets(x, y) && y.current == x.current && |y.blocks| == |x.blocks|
      && y.errors == x.errors && Appends(x, y)
  {
    StageReady(e, x, names, todo, spare, {});
    EmitShape(x, i);
    Part(e, x, x.Emit(i), names, todo, spare, {}, todo);
  }

  lemma Join(e: State, x: State, block: nat, names: set<string>, todo: set<string>, spare: set<nat>)
    requires Stage(e, x, names, todo, spare)
    ensures var y := x.BrUnlessTerminated(block);
      && Stage(e, y, names, todo, spare) && SameTargets(x, y) && y.current == x.current && |y.blocks| == |x.blocks|
      && y.errors == x.errors && Appends(x, y)
  {
    if x.Terminated() {
      Stay(e, x, x, names, todo, spare);
    } else {
      Step(e, x, Br(block), names, todo, spare);
    }
  }

  lemma Leave(e: State, x: State, target: nat, names: set<string>, todo: set<string>, spare: set<nat>)
    requires Stage(e, x, names, todo, spare)
    ensures var y := x.ExitTo(target);
      && Stage(e, y, names, todo, spare) && SameTargets(x, y) && y.current == x.current && |y.blocks| == |x.blocks|
      && y.errors == x.errors && Appends(x, y)
  {
    if x.depth > target {
      Step(e, x, ScopeExitTo(target), names, todo, spare);
    } else {
      Stay(e, x, x, names, todo, spare);
    }
  }

  lemma Close(e: State, r: State, names: set<string>, todo: set<string>, spare: set<nat>)
    requires Stage(e, r, names, todo, spare) && SameTargets(e, r)
    ensures Shape(e, r, names)
  {
  }

  lemma SameErrors(x: State, target: nat, i: Instr)
    ensures x.Emit(i).errors == x.errors && x.ExitTo(target).errors == x.errors && x.ExitTo(target).Emit(i).errors == x.errors
  {
  }

  // --------------------------------------------------------------- sequences

  lemma {:induction false} StatementsShape(e: State, ss: seq<Stmt>)
    requires Ready(e, LabelsOf(ss)) && DistinctAll(ss) && EmitStatements(e, ss).errors == 0
    ensures Shape(e, EmitStatements(e, ss), LabelsOf(ss))
    decreases ss, 1
  {
    hide Stage, Shape, Ready, EmitStmt;
    var names := LabelsOf(ss);
    Begin(e, names);
    if ss == [] {
      Close(e, e, names, names, {});
    } else {
      var skipped := e.Terminated() && !ss[0].Label?;
      var first, rest := if skipped then e else EmitStmt(e, ss[0]), LabelsOf(ss[1..]);
      if skipped {
        Fewer(e, e, names, names, {}, rest);
      } else {
        FirstShape(e, ss);
      }
      StageReady(e, first, names, rest, {}, rest);
      StatementsShape(first, ss[1..]);
      Part(e, first, EmitStatements(e, ss), names, rest, {}, rest, {});
      Close(e, EmitStatements(e, ss), names, {}, {});
    }
  }

  lemma Fewer(e: State, x: State, names: set<string>, todo: set<string>, spare: set<nat>, left: set<string>)
    requires Stage(e, x, names, todo, spare) && left <= todo
    ensures Stage(e, x, names, left, spare)
  {
  }

  /** The first statement of a sequence leaves the labels of the others. */
  lemma {:induction false} FirstShape(e: State, ss: seq<Stmt>)
    requires ss != [] && Ready(e, LabelsOf(ss)) && DistinctAll(ss) && EmitStmt(e, ss[0]).errors == 0
    ensures Ready(e, Labels(ss[0])) && Stage(e, EmitStmt(e, ss[0]), LabelsOf(ss), LabelsOf(ss[1..]), {})
    ensures Ready(EmitStmt(e, ss[0]), LabelsOf(ss[1..])) && SameTargets(e, EmitStmt(e, ss[0])) && Appends(e, EmitStmt(e, ss[0]))
    decreases ss, 0
  {
    hide Stage, Shape, Ready, EmitStmt;
    var names, rest := LabelsOf(ss), LabelsOf(ss[1..]);
    Begin(e, names);
    StageReady(e, e, names, names, {}, Labels(ss[0]));
    StmtShape(e, ss[0]);
    Part(e, e, EmitStmt(e, ss[0]), names, names, {}, Labels(ss[0]), rest);
    StageReady(e, EmitStmt(e, ss[0]), names, rest, {}, rest);
  }

  lemma {:induction false} ListShape(e: State, ss: seq<Stmt>)
    requires Ready(e, LabelsOf(ss)) && DistinctAll(ss) && EmitList(e, ss).errors == 0
    ensures Shape(e, EmitList(e, ss), LabelsOf(ss))
    decreases ss, 1
  {
    hide Stage, Shape, Ready, EmitStmt;
    var names := LabelsOf(ss);
    Begin(e, names);
    if ss == [] {
      Close(e, e, names, names, {});
    } else {
      var first, rest := EmitStmt(e, ss[0]), LabelsOf(ss[1..]);
      FirstShape(e, ss);
      ListShape(first, ss[1..]);
      Part(e, first, EmitList(e, ss), names, rest, {}, rest, {});
      Close(e, EmitList(e, ss), names, {}, {});
    }
  }

  lemma {:induction false} PostShape(e: State, ss: seq<Stmt>)
    requires Ready(e, LabelsOf(ss)) && DistinctAll(ss) && EmitPost(e, ss).errors == 0
    ensures Shape(e, EmitPost(e, ss), LabelsOf(ss))
    decreases ss, 1
  {
    hide Stage, Shape, Ready, EmitStmt;
    var names := LabelsOf(ss);
    Begin(e, names);
    if ss == [] {
      Close(e, e, names, names, {});
    } else {
      var first, rest := EmitStmt(e, ss[0]), LabelsOf(ss[1..]);
      FirstShape(e, ss);
      if first.Terminated() {
        Close(e, first, names, rest, {});
      } else {
        PostShape(first, ss[1..]);
        Part(e, first, EmitPost(e, ss), names, rest, {}, rest, {});
        Close(e, EmitPost(e, ss), names, {}, {});
      }
    }
  }

  // ------------------------------------------------------------------ blocks

  function BlockStart(e: State): State {
    e.Emit(ScopeEnter).Deeper()
  }

  lemma BlockBegins(e: State, ss: seq<Stmt>)
    requires Ready(e, LabelsOf(ss))
    ensures Stage(e, BlockStart(e), LabelsOf(ss), LabelsOf(ss), {}) && SameTargets(e, BlockStart(e))
  {
    hide Stage, Shape, Ready, State.Emit;
    var names := LabelsOf(ss);
    Begin(e, names);
    Step(e, e, ScopeEnter, names, names, {});
    Stay(e, e.Emit(ScopeEnter), BlockStart(e), names, names, {});
  }

  lemma {:induction false} BlockShape(e: State, ss: seq<Stmt>)
    requires Ready(e, LabelsOf(ss)) && DistinctAll(ss) && EmitBlock(e, ss).errors == 0
    ensures Shape(e, EmitBlock(e, ss), LabelsOf(ss))
    ensures var filled := EmitStatements(BlockStart(e), ss);
      && Ready(BlockStart(e), LabelsOf(ss)) && SameTargets(e, BlockStart(e)) && filled.errors == 0
      && Appends(BlockStart(e), filled) && Appends(filled, EmitBlock(e, ss)) && Sound(filled)
    decreases ss, 2
  {
    hide Stage, Shape, Ready, EmitStatements, State.Emit;
    var names := LabelsOf(ss);
    BlockBegins(e, ss);
    var scoped := BlockStart(e);
    StageReady(e, scoped, names, names, {}, names);
    var filled := EmitStatements(scoped, ss);
    SameErrors(filled, 0, ScopeExit);
    StatementsShape(scoped, ss);
    Part(e, scoped, filled, names, names, {}, names, {});
    StageSound(e, filled, names, {}, {});
    var closed := if filled.Terminated() then filled else filled.Emit(ScopeExit);
    Stay(e, filled, filled, names, {}, {});
    Step(e, filled, ScopeExit, names, {}, {});
    Stay(e, closed, closed.Shallower(), names, {}, {});
    AppendsTrans(filled, closed, EmitBlock(e, ss));
    Close(e, EmitBlock(e, ss), names, {}, {});
  }

  lemma StageSound(e: State, x: State, names: set<string>, todo: set<string>, spare: set<nat>)
    requires Stage(e, x, names, todo, spare)
    ensures Sound(x) && x.labelBlocks == e.labelBlocks
  {
    StageReady(e, x, names, todo, spare, {});
  }

  lemma {:induction false} PartBlock(e: State, x: State, ss: seq<Stmt>, names: set<string>, todo: set<string>, spare: set<nat>, left: set<string>)
    requires Stage(e, x, names, todo, spare) && LabelsOf(ss) <= todo && left <= todo && left !! LabelsOf(ss)
    requires DistinctAll(ss) && EmitBlock(x, ss).errors == 0
    ensures Ready(x, LabelsOf(ss))
    ensures var y := EmitBlock(x, ss);
      Stage(e, y, names, left, spare) && SameTargets(x, y) && |x.blocks| <= |y.blocks| && Appends(x, y) && Sound(y)
    decreases ss, 3
  {
    hide Stage, SameTargets, EmitBlock, Shape, Ready, Sound;
    StageReady(e, x, names, todo, spare, LabelsOf(ss));
    BlockShape(x, ss);
    Part(e, x, EmitBlock(x, ss), names, todo, spare, LabelsOf(ss), left);
    StageSound(e, EmitBlock(x, ss), names, left, spare);
  }

  // -------------------------------------------------------- single statements

  lemma {:induction false} StmtShape(e: State, s: Stmt)
    requires Ready(e, Labels(s)) && Distinct(s) && EmitStmt(e, s).errors == 0
    ensures Shape(e, EmitStmt(e, s), Labels(s))
    decreases s, 3
  {
    hide Shape, Ready, EmitIf, EmitWhile, EmitFor, EmitThrow, EmitTryCatch, EmitList;
    match s
    case If(_, _, _) => IfShape(e, s);
    case While(_) => WhileShape(e, s);
    case For(_, _, _, _) => ForShape(e, s);
    case Throw(_, _, _) => ThrowShape(e, s);
    case TryCatch(_, _, _) => TryShape(e, s);
    case StatementList(ss) => ListShape(e, ss);
    case Label(_, _) => LabelShape(e, s);
    case StaticInit(statement) =>
      if e.staticActive {
        StmtShape(e, statement);
      } else {
        StaticShape(e, s);
      }
    case _ => SimpleShape(e, s);
  }

  lemma SimpleShape(e: State, s: Stmt)
    requires Ready(e, {}) && EmitStmt(e, s).errors == 0
    requires s.Plain? || s.Call? || s.Return? || s.Break? || s.Continue? || s.Goto?
    ensures Shape(e, EmitStmt(e, s), {})
  {
    hide Stage, State.Emit, State.ExitTo;
    Begin(e, {});
    match s
    case Plain(id) => Step(e, e, Op(id), {}, {}, {}); Close(e, EmitStmt(e, s), {}, {}, {});
    case Call(callee) => Step(e, e, CallFunction(callee), {}, {}, {}); Close(e, EmitStmt(e, s), {}, {}, {});
    case Return =>
      Leave(e, e, 0, {}, {}, {});
      Step(e, e.ExitTo(0), FrameExit, {}, {}, {});
      Step(e, e.LeaveFrame(), Ret, {}, {}, {});
      Close(e, EmitStmt(e, s), {}, {}, {});
    case Break => JumpShape(e, e.loops[|e.loops| - 1].breakDepth, e.loops[|e.loops| - 1].breakBlock);
    case Continue => JumpShape(e, e.loops[|e.loops| - 1].continueDepth, e.loops[|e.loops| - 1].continueBlock);
    case Goto(name) => JumpShape(e, e.labelDepths[name], e.labelBlocks[name]);
  }

  lemma JumpShape(e: State, depth: nat, block: nat)
    requires Ready(e, {})
    ensures Shape(e, e.ExitTo(depth).Emit(Br(block)), {})
  {
    hide Stage, State.Emit, State.ExitTo;
    Begin(e, {});
    Leave(e, e, depth, {}, {}, {});
    Step(e, e.ExitTo(depth), Br(block), {}, {}, {});
    Close(e, e.ExitTo(depth).Emit(Br(block)), {}, {}, {});
  }

  // ---------------------------------------------------------------------- if

  function IfThen(e: State): State {
    e.AddBlocks(3).Emit(CondBr(|e.blocks|, |e.blocks| + 1)).At(|e.blocks|)
  }

  function IfElse(e: State, s: Stmt): State
    requires s.If?
  {
    EmitBlock(IfThen(e), s.thenBlock).BrUnlessTerminated(|e.blocks| + 2).At(|e.blocks| + 1)
  }

  function IfDone(e: State, s: Stmt): State
    requires s.If?
  {
    if s.hasElse then EmitBlock(IfElse(e, s), s.elseBlock) else IfElse(e, s)
  }

  function ElseLabels(s: Stmt): set<string>
    requires s.If?
  {
    if s.hasElse then LabelsOf(s.elseBlock) else {}
  }

  lemma IfBegins(e: State, s: Stmt)
    requires s.If? && Ready(e, Labels(s))
    ensures Stage(e, IfThen(e), Labels(s), Labels(s), {|e.blocks| + 1, |e.blocks| + 2}) && AtStart(IfThen(e)) && SameTargets(e, IfThen(e))
    ensures Appends(e.AddBlocks(3).Emit(CondBr(|e.blocks|, |e.blocks| + 1)), IfThen(e))
  {
    hide Stage, Shape, Ready, State.Emit, State.AddBlocks, Sound, Appends, AtStart;
    var names, n := Labels(s), |e.blocks|;
    Open(e, 3, names, {n, n + 1, n + 2});
    Step(e, e.AddBlocks(3), CondBr(n, n + 1), names, names, {n, n + 1, n + 2});
    Move(e, e.AddBlocks(3).Emit(CondBr(n, n + 1)), IfThen(e), names, names, {n, n + 1, n + 2}, {n + 1, n + 2});
  }

  lemma {:induction false} ThenShape(e: State, s: Stmt)
    requires s.If? && Ready(e, Labels(s)) && Distinct(s) && EmitBlock(IfThen(e), s.thenBlock).errors == 0
    ensures Ready(IfThen(e), LabelsOf(s.thenBlock)) && AtStart(IfThen(e)) && SameTargets(e, IfThen(e))
    ensures Appends(e.AddBlocks(3).Emit(CondBr(|e.blocks|, |e.blocks| + 1)), IfThen(e))
    ensures var y := EmitBlock(IfThen(e), s.thenBlock);
      && Appends(IfThen(e), y) && Appends(y, y.BrUnlessTerminated(|e.blocks| + 2)) && Sound(y)
      && Appends(y.BrUnlessTerminated(|e.blocks| + 2), IfElse(e, s))
    ensures Stage(e, IfElse(e, s), Labels(s), ElseLabels(s), {|e.blocks| + 2})
    ensures AtStart(IfElse(e, s)) && SameTargets(e, IfElse(e, s)) && IfElse(e, s).errors == 0
    decreases s, 1
  {
    hide Stage, Shape, Ready, EmitBlock, State.Emit, State.BrUnlessTerminated, State.AddBlocks, Sound, Appends, AtStart;
    var names, n := Labels(s), |e.blocks|;
    IfBegins(e, s);
    var first, left := IfThen(e), ElseLabels(s);
    PartBlock(e, first, s.thenBlock, names, names, {n + 1, n + 2}, left);
    var thenDone := EmitBlock(first, s.thenBlock);
    Join(e, thenDone, n + 2, names, left, {n + 1, n + 2});
    Move(e, thenDone.BrUnlessTerminated(n + 2), IfElse(e, s), names, left, {n + 1, n + 2}, {n + 2});
  }

  lemma {:induction false} IfShape(e: State, s: Stmt)
    requires s.If? && Ready(e, Labels(s)) && Distinct(s) && EmitIf(e, s).errors == 0
    ensures Shape(e, EmitIf(e, s), Labels(s)) && EmitBlock(IfThen(e), s.thenBlock).errors == 0
    ensures s.hasElse ==> Ready(IfElse(e, s), LabelsOf(s.elseBlock))
    ensures Appends(IfElse(e, s), IfDone(e, s)) && Sound(IfDone(e, s)) && IfDone(e, s).errors == 0
    ensures Appends(IfDone(e, s).BrUnlessTerminated(|e.blocks| + 2), EmitIf(e, s)) && AtStart(EmitIf(e, s))
    ensures Appends(IfDone(e, s), IfDone(e, s).BrUnlessTerminated(|e.blocks| + 2))
    decreases s, 2
  {
    hide Stage, Shape, Ready, EmitBlock, State.Emit, State.BrUnlessTerminated, State.AddBlocks, Sound, Appends, AtStart;
    var names, n := Labels(s), |e.blocks|;
    var other, done, left := IfElse(e, s), IfDone(e, s), ElseLabels(s);
    ThenShape(e, s);
    if s.hasElse {
      PartBlock(e, other, s.elseBlock, names, left, {n + 2}, {});
    } else {
      Stay(e, other, other, names, left, {n + 2});
      StageSound(e, other, names, left, {n + 2});
    }
    Join(e, done, n + 2, names, {}, {n + 2});
    Move(e, done.BrUnlessTerminated(n + 2), EmitIf(e, s), names, {}, {n + 2}, {});
    Close(e, EmitIf(e, s), names, {}, {});
  }

  // ------------------------------------------------------------------- while

  function WhileTargets(e: State): LoopTargets {
    LoopTargets(|e.blocks| + 2, |e.blocks|, e.depth, e.depth)
  }

  function WhileHead(e: State): State {
    e.AddBlocks(3).Emit(Br(|e.blocks|)).At(|e.blocks|)
  }

  function WhileBody(e: State): State {
    WhileHead(e).Emit(CondBr(|e.blocks| + 1, |e.blocks| + 2)).(loops := e.loops + [WhileTargets(e)]).At(|e.blocks| + 1)
  }

  lemma WhileBegins(e: State, s: Stmt)
    requires s.While? && Ready(e, Labels(s))
    ensures Stage(e, WhileBody(e), Labels(s), Labels(s), {|e.blocks| + 2}) && AtStart(WhileBody(e)) && AtStart(WhileHead(e)) && Sound(WhileHead(e))
    ensures Appends(e.AddBlocks(3).Emit(Br(|e.blocks|)), WhileHead(e)) && Appends(WhileHead(e), WhileBody(e))
    ensures Appends(WhileHead(e).Emit(CondBr(|e.blocks| + 1, |e.blocks| + 2)), WhileBody(e))
  {
    hide Stage, Shape, Ready, State.Emit, State.AddBlocks, Sound, Appends, AtStart;
    var names, n := Labels(s), |e.blocks|;
    Open(e, 3, names, {n, n + 1, n + 2});
    Step(e, e.AddBlocks(3), Br(n), names, names, {n, n + 1, n + 2});
    var head := WhileHead(e);
    Move(e, e.AddBlocks(3).Emit(Br(n)), head, names, names, {n, n + 1, n + 2}, {n + 1, n + 2});
    StageSound(e, head, names, names, {n + 1, n + 2});
    Step(e, head, CondBr(n + 1, n + 2), names, names, {n + 1, n + 2});
    Move(e, head.Emit(CondBr(n + 1, n + 2)), WhileBody(e), names, names, {n + 1, n + 2}, {n + 2});
    AppendsTrans(head, head.Emit(CondBr(n + 1, n + 2)), WhileBody(e));
  }

  lemma {:induction false} WhileShape(e: State, s: Stmt)
    requires s.While? && Ready(e, Labels(s)) && Distinct(s) && EmitWhile(e, s).errors == 0
    ensures Shape(e, EmitWhile(e, s), Labels(s)) && AtStart(EmitWhile(e, s))
    ensures AtStart(WhileHead(e)) && Sound(WhileHead(e)) && Appends(e.AddBlocks(3).Emit(Br(|e.blocks|)), WhileHead(e))
    ensures AtStart(WhileBody(e)) && Ready(WhileBody(e), LabelsOf(s.body)) && WhileBody(e).labelBlocks == e.labelBlocks
    ensures Appends(WhileHead(e).Emit(CondBr(|e.blocks| + 1, |e.blocks| + 2)), WhileBody(e)) && Appends(WhileHead(e), WhileBody(e))
    ensures WhileBody(e).catches == e.catches && WhileBody(e).staticActive == e.staticActive
    ensures var y := EmitBlock(WhileBody(e), s.body);
      && y.errors == 0 && Sound(y) && Appends(WhileBody(e), y) && Appends(y, y.BrUnlessTerminated(|e.blocks|))
      && Appends(y.BrUnlessTerminated(|e.blocks|), EmitWhile(e, s))
    decreases s, 2
  {
    hide Stage, Shape, Ready, EmitBlock, State.Emit, State.BrUnlessTerminated, State.AddBlocks, Sound, Appends, AtStart;
    var names, n := Labels(s), |e.blocks|;
    WhileBegins(e, s);
    var looped := WhileBody(e);
    PartBlock(e, looped, s.body, names, names, {n + 2}, {});
    var filled := EmitBlock(looped, s.body);
    Join(e, filled, n, names, {}, {n + 2});
    var done := filled.BrUnlessTerminated(n);
    PopPushed(e, done, WhileTargets(e));
    Move(e, done, EmitWhile(e, s), names, {}, {n + 2}, {});
    Close(e, EmitWhile(e, s), names, {}, {});
  }

  lemma PopPushed(e: State, x: State, t: LoopTargets)
    requires x.loops == e.loops + [t]
    ensures PopLoop(x) == x.(loops := e.loops)
  {
  }

  lemma PopGuard(e: State, x: State, t: CatchTarget)
    requires x.catches == e.catches + [t]
    ensures PopCatch(x) == x.(catches := e.catches)
  {
  }

  // --------------------------------------------------------------- try, throw

  function TryTarget(e: State, s: Stmt): CatchTarget
    requires s.TryCatch?
  {
    CatchTarget(|e.blocks| + 1, s.errorByteLength, e.depth)
  }

  function TryStart(e: State, s: Stmt): State
    requires s.TryCatch?
  {
    e.AddBlocks(3).Emit(Br(|e.blocks|)).At(|e.blocks|).(catches := e.catches + [TryTarget(e, s)])
  }

  function CatchStart(e: State, s: Stmt): State
    requires s.TryCatch?
  {
    PopCatch(EmitBlock(TryStart(e, s), s.tryBlock)).BrUnlessTerminated(|e.blocks| + 2).At(|e.blocks| + 1)
  }

  lemma TryBegins(e: State, s: Stmt)
    requires s.TryCatch? && Ready(e, Labels(s))
    ensures Stage(e, TryStart(e, s), Labels(s), Labels(s), {|e.blocks| + 1, |e.blocks| + 2}) && AtStart(TryStart(e, s))
    ensures Appends(e.AddBlocks(3).Emit(Br(|e.blocks|)), TryStart(e, s))
  {
    hide Stage, Shape, Ready, State.Emit, State.AddBlocks, Sound, Appends, AtStart;
    var names, n := Labels(s), |e.blocks|;
    Open(e, 3, names, {n, n + 1, n + 2});
    Step(e, e.AddBlocks(3), Br(n), names, names, {n, n + 1, n + 2});
    Move(e, e.AddBlocks(3).Emit(Br(n)), TryStart(e, s), names, names, {n, n + 1, n + 2}, {n + 1, n + 2});
  }

  lemma {:induction false} CatchBegins(e: State, s: Stmt)
    requires s.TryCatch? && Ready(e, Labels(s)) && Distinct(s) && EmitBlock(TryStart(e, s), s.tryBlock).errors == 0
    ensures Ready(TryStart(e, s), LabelsOf(s.tryBlock))
    ensures var t := EmitBlock(TryStart(e, s), s.tryBlock);
      && Sound(t) && Appends(TryStart(e, s), t) && PopCatch(t) == t.(catches := e.catches)
      && Appends(t, PopCatch(t).BrUnlessTerminated(|e.blocks| + 2))
      && Appends(PopCatch(t).BrUnlessTerminated(|e.blocks| + 2), CatchStart(e, s))
    ensures AtStart(CatchStart(e, s)) && SameTargets(e, CatchStart(e, s))
    ensures Stage(e, CatchStart(e, s), Labels(s), LabelsOf(s.catchBlock), {|e.blocks| + 2})
    decreases s, 1
  {
    hide Stage, Shape, Ready, EmitBlock, State.Emit, State.BrUnlessTerminated, State.AddBlocks, Sound, Appends, AtStart, PopCatch;
    var names, n := Labels(s), |e.blocks|;
    var start, left := TryStart(e, s), LabelsOf(s.catchBlock);
    TryBegins(e, s);
    var tried := EmitBlock(start, s.tryBlock);
    PartBlock(e, start, s.tryBlock, names, names, {n + 1, n + 2}, left);
    PopGuard(e, tried, TryTarget(e, s));
    Stay(e, tried, PopCatch(tried), names, left, {n + 1, n + 2});
    Join(e, PopCatch(tried), n + 2, names, left, {n + 1, n + 2});
    AppendsTrans(tried, PopCatch(tried), PopCatch(tried).BrUnlessTerminated(n + 2));
    Move(e, PopCatch(tried).BrUnlessTerminated(n + 2), CatchStart(e, s), names, left, {n + 1, n + 2}, {n + 2});
  }

  lemma {:induction false} TryShape(e: State, s: Stmt)
    requires s.TryCatch? && Ready(e, Labels(s)) && Distinct(s) && EmitTryCatch(e, s).errors == 0
    ensures Shape(e, EmitTryCatch(e, s), Labels(s)) && AtStart(EmitTryCatch(e, s))
    ensures AtStart(TryStart(e, s)) && Ready(TryStart(e, s), LabelsOf(s.tryBlock)) && TryStart(e, s).labelBlocks == e.labelBlocks
    ensures TryStart(e, s).loops == e.loops && TryStart(e, s).staticActive == e.staticActive
    ensures Appends(e.AddBlocks(3).Emit(Br(|e.blocks|)), TryStart(e, s))
    ensures var t := EmitBlock(TryStart(e, s), s.tryBlock);
      && t.errors == 0 && Sound(t) && Appends(TryStart(e, s), t) && PopCatch(t) == t.(catches := e.catches)
      && Appends(t, PopCatch(t).BrUnlessTerminated(|e.blocks| + 2))
      && Appends(PopCatch(t).BrUnlessTerminated(|e.blocks| + 2), CatchStart(e, s))
    ensures AtStart(CatchStart(e, s)) && Ready(CatchStart(e, s), LabelsOf(s.catchBlock)) && SameTargets(e, CatchStart(e, s))
    ensures var y := EmitBlock(CatchStart(e, s), s.catchBlock);
      && y.errors == 0 && Sound(y) && Appends(CatchStart(e, s), y) && Appends(y, y.BrUnlessTerminated(|e.blocks| + 2))
      && Appends(y.BrUnlessTerminated(|e.blocks| + 2), EmitTryCatch(e, s))
    decreases s, 2
  {
    hide Stage, Shape, Ready, EmitBlock, State.Emit, State.BrUnlessTerminated, State.AddBlocks, Sound, Appends, AtStart, PopCatch;
    var names, n := Labels(s), |e.blocks|;
    TryBegins(e, s);
    PopKeepsErrors(EmitBlock(TryStart(e, s), s.tryBlock));
    CatchBegins(e, s);
    var handler, left := CatchStart(e, s), LabelsOf(s.catchBlock);
    PartBlock(e, handler, s.catchBlock, names, left, {n + 2}, {});
    var handled := EmitBlock(handler, s.catchBlock);
    Join(e, handled, n + 2, names, {}, {n + 2});
    Move(e, handled.BrUnlessTerminated(n + 2), EmitTryCatch(e, s), names, {}, {n + 2}, {});
    Close(e, EmitTryCatch(e, s), names, {}, {});
  }

  lemma PopKeepsErrors(x: State)
    ensures PopCatch(x).errors == x.errors && PopLoop(x).errors == x.errors && PopLoop(x).depth == x.depth
  {
  }

  lemma {:induction false} ThrowShape(e: State, s: Stmt)
    requires s.Throw? && Ready(e, Labels(s)) && Distinct(s) && EmitThrow(e, s).errors == 0
    ensures Shape(e, EmitThrow(e, s), Labels(s))
    decreases s, 2
  {
    hide Stage, Shape, Ready, EmitStmt, State.Emit, State.ExitTo;
    var names := Labels(s);
    Begin(e, names);
    if e.catches == [] {
      Leave(e, e, 0, names, names, {});
      Step(e, e.ExitTo(0), ExitProcess, names, names, {});
      Step(e, e.ExitTo(0).Emit(ExitProcess), Ret, names, names, {});
      Close(e, EmitThrow(e, s), names, names, {});
    } else {
      var target := e.catches[|e.catches| - 1];
      var delivered := EmitStmt(e, s.delivery.value);
      SameErrors(delivered, target.depth, Br(target.catchBlock));
      StmtShape(e, s.delivery.value);
      Part(e, e, delivered, names, names, {}, names, {});
      if !delivered.Terminated() {
        Leave(e, delivered, target.depth, names, {}, {});
        Step(e, delivered.ExitTo(target.depth), Br(target.catchBlock), names, {}, {});
      }
      Close(e, EmitThrow(e, s), names, {}, {});
    }
  }

  // ------------------------------------------------------------ labels, static

  function LabelStart(e: State, s: Stmt): State
    requires s.Label? && s.name in e.labelBlocks
  {
    e.BrUnlessTerminated(e.labelBlocks[s.name]).At(e.labelBlocks[s.name])
  }

  lemma LabelBegins(e: State, s: Stmt)
    requires s.Label? && Ready(e, Labels(s)) && Distinct(s) && s.name in e.labelBlocks
    ensures Stage(e, LabelStart(e, s), Labels(s), Labels(s.statement), {}) && AtStart(LabelStart(e, s)) && SameTargets(e, LabelStart(e, s))
    ensures Appends(e.BrUnlessTerminated(e.labelBlocks[s.name]), LabelStart(e, s))
  {
    hide Stage, Shape, Ready, State.BrUnlessTerminated;
    var names, block := Labels(s), e.labelBlocks[s.name];
    Begin(e, names);
    Join(e, e, block, names, names, {});
    MoveToLabel(e, e.BrUnlessTerminated(block), s.name, names, Labels(s.statement));
  }

  lemma {:induction false} LabelShape(e: State, s: Stmt)
    requires s.Label? && Ready(e, Labels(s)) && Distinct(s) && EmitStmt(e, s).errors == 0
    ensures Shape(e, EmitStmt(e, s), Labels(s)) && s.name in e.labelBlocks
    ensures AtStart(LabelStart(e, s)) && Ready(LabelStart(e, s), Labels(s.statement)) && SameTargets(e, LabelStart(e, s))
    ensures Appends(e.BrUnlessTerminated(e.labelBlocks[s.name]), LabelStart(e, s))
    decreases s, 2
  {
    hide Stage, Shape, Ready, State.BrUnlessTerminated;
    var names := Labels(s);
    LabelBegins(e, s);
    var moved := LabelStart(e, s);
    StageReady(e, moved, names, Labels(s.statement), {}, Labels(s.statement));
    StmtShape(moved, s.statement);
    Part(e, moved, EmitStmt(moved, s.statement), names, Labels(s.statement), {}, Labels(s.statement), {});
    Close(e, EmitStmt(e, s), names, {}, {});
  }

  lemma MoveToLabel(e: State, x: State, name: string, names: set<string>, left: set<string>)
    requires Stage(e, x, names, names, {}) && name in names && name in e.labelBlocks && left <= names && name !in left
    ensures var y := x.At(e.labelBlocks[name]); Stage(e, y, names, left, {}) && AtStart(y) && Appends(x, y)
  {
  }

  function StaticStart(e: State): State {
    e.AddBlocks(2).Emit(CondBr(|e.blocks| + 1, |e.blocks|)).At(|e.blocks|).(staticActive := true)
  }

  lemma StaticBegins(e: State, s: Stmt)
    requires s.StaticInit? && Ready(e, Labels(s))
    ensures Stage(e, StaticStart(e), Labels(s), Labels(s), {|e.blocks| + 1}) && AtStart(StaticStart(e))
    ensures Appends(e.AddBlocks(2).Emit(CondBr(|e.blocks| + 1, |e.blocks|)), StaticStart(e))
  {
    hide Stage, Shape, Ready, State.Emit, State.AddBlocks, Sound, Appends, AtStart;
    var names, n := Labels(s), |e.blocks|;
    Open(e, 2, names, {n, n + 1});
    Step(e, e.AddBlocks(2), CondBr(n + 1, n), names, names, {n, n + 1});
    Move(e, e.AddBlocks(2).Emit(CondBr(n + 1, n)), StaticStart(e), names, names, {n, n + 1}, {n + 1});
  }

  lemma {:induction false} StaticShape(e: State, s: Stmt)
    requires s.StaticInit? && !e.staticActive && Ready(e, Labels(s)) && Distinct(s) && EmitStmt(e, s).errors == 0
    ensures Shape(e, EmitStmt(e, s), Labels(s)) && AtStart(EmitStmt(e, s))
    ensures AtStart(StaticStart(e)) && Ready(StaticStart(e), Labels(s)) && StaticStart(e).labelBlocks == e.labelBlocks
    ensures StaticStart(e).loops == e.loops && StaticStart(e).catches == e.catches
    ensures Appends(e.AddBlocks(2).Emit(CondBr(|e.blocks| + 1, |e.blocks|)), StaticStart(e))
    ensures var y := EmitStmt(StaticStart(e), s.statement);
      && y.errors == 0 && Sound(y) && Appends(StaticStart(e), y)
      && Appends(y, y.(staticActive := false).BrUnlessTerminated(|e.blocks| + 1))
      && Appends(y.(staticActive := false).BrUnlessTerminated(|e.blocks| + 1), EmitStmt(e, s))
    decreases s, 2
  {
    hide Stage, Shape, Ready, State.Emit, State.BrUnlessTerminated, State.AddBlocks, Sound, Appends, AtStart;
    var names, n := Labels(s), |e.blocks|;
    StaticBegins(e, s);
    var active := StaticStart(e);
    StageReady(e, active, names, names, {n + 1}, names);
    var inner := EmitStmt(active, s.statement);
    StmtShape(active, s.statement);
    Part(e, active, inner, names, names, {n + 1}, names, {});
    StageSound(e, inner, names, {}, {n + 1});
    var idle := inner.(staticActive := false);
    Stay(e, inner, idle, names, {}, {n + 1});
    Join(e, idle, n + 1, names, {}, {n + 1});
    AppendsTrans(inner, idle, idle.BrUnlessTerminated(n + 1));
    Move(e, idle.BrUnlessTerminated(n + 1), EmitStmt(e, s), names, {}, {n + 1}, {});
    Close(e, EmitStmt(e, s), names, {}, {});
  }

  // --------------------------------------------------------------------- for

  function ForScope(e: State): State {
    e.AddBlocks(4).Emit(ScopeEnter).Deeper()
  }

  function ForStarted(e: State, s: Stmt): State
    requires s.For?
  {
    if s.init.Some? then EmitStmt(ForScope(e), s.init.value) else ForScope(e)
  }

  function ForHead(e: State, n: nat): State {
    e.BrUnlessTerminated(n).At(n)
  }

  function ForInstr(s: Stmt, n: nat): Instr
    requires s.For?
  {
    if s.conditional then CondBr(n + 1, n + 3) else Br(n + 1)
  }

  function ForTargets(e: State, n: nat): LoopTargets {
    LoopTargets(n + 3, n + 2, e.depth, e.depth)
  }

  function ForBody(e: State, s: Stmt, n: nat): State
    requires s.For?
  {
    ForHead(e, n).Emit(ForInstr(s, n)).(loops := e.loops + [ForTargets(e, n)]).At(n + 1)
  }

  function ForPost(e: State, s: Stmt, n: nat): State
    requires s.For?
  {
    EmitBlock(ForBody(e, s, n), s.body).BrUnlessTerminated(n + 2).At(n + 2)
  }

  function ForExit(e: State, s: Stmt, n: nat): State
    requires s.For?
  {
    PopLoop(EmitPost(ForPost(e, s, n), s.post).BrUnlessTerminated(n)).At(n + 3)
  }

  /** The labels of the loop itself, without those of its initialisation. */
  function ForLabels(s: Stmt): set<string>
    requires s.For?
  {
    LabelsOf(s.post) + LabelsOf(s.body)
  }

  lemma ForBegins(e: State, s: Stmt)
    requires s.For? && Ready(e, Labels(s))
    ensures Sound(e.AddBlocks(4)) && Appends(e.AddBlocks(4), e.AddBlocks(4).Emit(ScopeEnter)) && Appends(e.AddBlocks(4).Emit(ScopeEnter), ForScope(e))
    ensures Sound(ForScope(e)) && SameTargets(e, ForScope(e))
    ensures s.init.Some? ==> Ready(ForScope(e), Labels(s.init.value))
    ensures Stage(e, ForScope(e), Labels(s), Labels(s), {|e.blocks|, |e.blocks| + 1, |e.blocks| + 2, |e.blocks| + 3})
  {
    hide Stage, Shape, Ready, State.Emit, State.AddBlocks, Sound, Appends;
    var names, n := Labels(s), |e.blocks|;
    var own := {n, n + 1, n + 2, n + 3};
    Open(e, 4, names, own);
    var added := e.AddBlocks(4);
    StageSound(e, added, names, names, own);
    Step(e, added, ScopeEnter, names, names, own);
    Stay(e, added.Emit(ScopeEnter), ForScope(e), names, names, own);
    StageSound(e, ForScope(e), names, names, own);
    if s.init.Some? {
      StageReady(e, ForScope(e), names, names, own, Labels(s.init.value));
    }
  }

  lemma {:induction false} ForInit(e: State, s: Stmt)
    requires s.For? && Ready(e, Labels(s)) && Distinct(s) && ForStarted(e, s).errors == 0
    ensures Appends(ForScope(e), ForStarted(e, s)) && SameTargets(e, ForStarted(e, s))
    ensures Stage(e, ForStarted(e, s), Labels(s), ForLabels(s), {|e.blocks|, |e.blocks| + 1, |e.blocks| + 2, |e.blocks| + 3})
    decreases s, 1
  {
    hide Stage, Shape, Ready, ForScope, EmitStmt, Sound, Appends;
    var names, n := Labels(s), |e.blocks|;
    var own := {n, n + 1, n + 2, n + 3};
    var scoped, started, left := ForScope(e), ForStarted(e, s), ForLabels(s);
    ForBegins(e, s);
    if s.init.Some? {
      StmtShape(scoped, s.init.value);
      Part(e, scoped, started, names, names, own, Labels(s.init.value), left);
    } else {
      Stay(e, scoped, scoped, names, names, own);
      Fewer(e, scoped, names, names, own, left);
    }
  }

  lemma {:induction false} ForShape(e: State, s: Stmt)
    requires s.For? && Ready(e, Labels(s)) && Distinct(s) && EmitFor(e, s).errors == 0
    ensures Shape(e, EmitFor(e, s), Labels(s))
    decreases s, 2
  {
    hide *;
    var n, started := |e.blocks|, ForStarted(e, s);
    ForIsLoop(e, s);
    ForBegins(e, s);
    ForInit(e, s);
    ForErrors(started, s, n);
    ForLoopShape(e, started, s, n);
    ForExitShape(e, started, s, n);
    SameTrans(e, started, EmitFor(e, s));
    Close(e, EmitFor(e, s), Labels(s), {}, {});
  }

  lemma ForIsLoop(e: State, s: Stmt)
    requires s.For? && EmitFor(e, s).errors == 0
    ensures ForStarted(e, s).errors == 0 && EmitFor(e, s) == EmitForLoop(ForStarted(e, s), s, |e.blocks|)
  {
    hide EmitForLoop, EmitStmt, State.Emit, State.AddBlocks;
  }

  lemma SameTrans(e: State, x: State, r: State)
    requires SameTargets(e, x) && SameTargets(x, r)
    ensures SameTargets(e, r)
  {
  }

  lemma ForErrors(e: State, s: Stmt, n: nat)
    requires s.For? && EmitForLoop(e, s, n).errors == 0
    ensures EmitBlock(ForBody(e, s, n), s.body).errors == 0
  {
    hide EmitBlock, EmitPost, State.Emit, State.BrUnlessTerminated, PopLoop;
    var posted := EmitPost(ForPost(e, s, n), s.post);
    SameErrors(ForExit(e, s, n), 0, ScopeExit);
    PopKeepsErrors(posted.BrUnlessTerminated(n));
    PopKeepsErrors(posted);
  }

  lemma ForBodyBegins(base: State, e: State, s: Stmt, n: nat)
    requires s.For? && Stage(base, e, Labels(s), ForLabels(s), {n, n + 1, n + 2, n + 3})
    ensures Appends(e, e.BrUnlessTerminated(n)) && Appends(e.BrUnlessTerminated(n), ForHead(e, n)) && Sound(ForHead(e, n)) && AtStart(ForHead(e, n))
    ensures Appends(ForHead(e, n), ForHead(e, n).Emit(ForInstr(s, n))) && Appends(ForHead(e, n).Emit(ForInstr(s, n)), ForBody(e, s, n))
    ensures AtStart(ForBody(e, s, n)) && Stage(base, ForBody(e, s, n), Labels(s), ForLabels(s), {n + 2, n + 3})
  {
    hide Stage, Shape, Ready, State.Emit, State.BrUnlessTerminated, Sound, Appends, AtStart;
    var names, todo := Labels(s), ForLabels(s);
    Join(base, e, n, names, todo, {n, n + 1, n + 2, n + 3});
    var head := ForHead(e, n);
    Move(base, e.BrUnlessTerminated(n), head, names, todo, {n, n + 1, n + 2, n + 3}, {n + 1, n + 2, n + 3});
    StageSound(base, head, names, todo, {n + 1, n + 2, n + 3});
    Step(base, head, ForInstr(s, n), names, todo, {n + 1, n + 2, n + 3});
    Move(base, head.Emit(ForInstr(s, n)), ForBody(e, s, n), names, todo, {n + 1, n + 2, n + 3}, {n + 2, n + 3});
  }

  /** From the test to the start of the post statements. */
  lemma {:induction false} ForLoopShape(base: State, e: State, s: Stmt, n: nat)
    requires s.For? && Stage(base, e, Labels(s), ForLabels(s), {n, n + 1, n + 2, n + 3}) && Distinct(s)
    requires EmitBlock(ForBody(e, s, n), s.body).errors == 0
    ensures Appends(e, e.BrUnlessTerminated(n)) && Appends(e.BrUnlessTerminated(n), ForHead(e, n)) && Sound(ForHead(e, n)) && AtStart(ForHead(e, n))
    ensures Appends(ForHead(e, n), ForHead(e, n).Emit(ForInstr(s, n))) && Appends(ForHead(e, n).Emit(ForInstr(s, n)), ForBody(e, s, n))
    ensures AtStart(ForBody(e, s, n)) && Ready(ForBody(e, s, n), LabelsOf(s.body)) && ForBody(e, s, n).labelBlocks == e.labelBlocks
    ensures ForBody(e, s, n).catches == e.catches && ForBody(e, s, n).staticActive == e.staticActive
    ensures var y := EmitBlock(ForBody(e, s, n), s.body);
      && Sound(y) && Appends(ForBody(e, s, n), y) && Appends(y, y.BrUnlessTerminated(n + 2))
      && Appends(y.BrUnlessTerminated(n + 2), ForPost(e, s, n)) && SameTargets(ForBody(e, s, n), ForPost(e, s, n))
    ensures Stage(base, ForPost(e, s, n), Labels(s), LabelsOf(s.post), {n + 3}) && AtStart(ForPost(e, s, n)) && ForPost(e, s, n).errors == 0
    decreases s, 0
  {
    hide Stage, Shape, Ready, EmitBlock, State.Emit, State.BrUnlessTerminated, Sound, Appends, AtStart;
    var names, todo, left := Labels(s), ForLabels(s), LabelsOf(s.post);
    ForBodyBegins(base, e, s, n);
    var body := ForBody(e, s, n);
    PartBlock(base, body, s.body, names, todo, {n + 2, n + 3}, left);
    Join(base, EmitBlock(body, s.body), n + 2, names, left, {n + 2, n + 3});
    Move(base, EmitBlock(body, s.body).BrUnlessTerminated(n + 2), ForPost(e, s, n), names, left, {n + 2, n + 3}, {n + 3});
  }

  /** From the post statements to the end. */
  lemma {:induction false} ForExitShape(base: State, e: State, s: Stmt, n: nat)
    requires s.For? && Stage(base, ForPost(e, s, n), Labels(s), LabelsOf(s.post), {n + 3}) && Distinct(s)
    requires SameTargets(ForBody(e, s, n), ForPost(e, s, n)) && EmitForLoop(e, s, n).errors == 0
    requires ForBody(e, s, n).catches == e.catches && ForBody(e, s, n).staticActive == e.staticActive && ForBody(e, s, n).labelBlocks == e.labelBlocks
    ensures Ready(ForPost(e, s, n), LabelsOf(s.post))
    ensures var y := EmitPost(ForPost(e, s, n), s.post);
      && y.errors == 0 && Sound(y) && Appends(ForPost(e, s, n), y) && Appends(y, y.BrUnlessTerminated(n))
      && Appends(y.BrUnlessTerminated(n), ForExit(e, s, n))
    ensures AtStart(ForExit(e, s, n)) && Sound(ForExit(e, s, n)) && Appends(ForExit(e, s, n), ForExit(e, s, n).Emit(ScopeExit))
    ensures EmitForLoop(e, s, n) == ForExit(e, s, n).Emit(ScopeExit).Shallower()
    ensures Stage(base, EmitForLoop(e, s, n), Labels(s), {}, {}) && SameTargets(e, EmitForLoop(e, s, n))
    decreases s, 0
  {
    hide Stage, Shape, Ready, EmitBlock, EmitPost, State.Emit, State.BrUnlessTerminated, Sound, Appends, AtStart, PopLoop;
    var names, left, after := Labels(s), LabelsOf(s.post), ForPost(e, s, n);
    var posted, out := EmitPost(after, s.post), ForExit(e, s, n);
    SameErrors(out, 0, ScopeExit);
    PopKeepsErrors(posted.BrUnlessTerminated(n));
    PopKeepsErrors(posted);
    StageReady(base, after, names, left, {n + 3}, left);
    PostShape(after, s.post);
    Part(base, after, posted, names, left, {n + 3}, left, {});
    StageSound(base, posted, names, {}, {n + 3});
    Join(base, posted, n, names, {}, {n + 3});
    PopPushed(e, posted.BrUnlessTerminated(n), ForTargets(e, n));
    Move(base, posted.BrUnlessTerminated(n), out, names, {}, {n + 3}, {});
    StageSound(base, out, names, {}, {});
    Step(base, out, ScopeExit, names, {}, {});
    Stay(base, out.Emit(ScopeExit), EmitForLoop(e, s, n), names, {}, {});
  }
}
