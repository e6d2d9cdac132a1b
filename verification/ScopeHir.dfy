/**
  Structured statements, the control-flow graph they are emitted to, and the emitter
  of src/codegen/LLVMCodegenControlFlow.cpp as functions on the emitter's state.

  Conditions and straight-line statements are abstract: they do not touch the scope
  counters. A block is a sequence of instructions; as in LLVM, its terminator is its
  last instruction when that is a branch or a return.
 */
module ScopeHir {
  import opened Basics

  datatype Stmt =
    | Plain(id: nat)
    | Call(callee: string)
    | Return
    | If(thenBlock: seq<Stmt>, hasElse: bool, elseBlock: seq<Stmt>)
    | While(body: seq<Stmt>)
    | For(init: Option<Stmt>, conditional: bool, post: seq<Stmt>, body: seq<Stmt>)
    | Break
    | Continue
    | Goto(target: string)
    | Label(name: string, statement: Stmt)
    | Throw(targetByteLength: nat, sourceByteLength: nat, delivery: Option<Stmt>)
    | TryCatch(errorByteLength: nat, tryBlock: seq<Stmt>, catchBlock: seq<Stmt>)
    | StatementList(statements: seq<Stmt>)
    | StaticInit(statement: Stmt)

  datatype Function = Function(body: seq<Stmt>, returnsValue: bool)

  datatype Instr =
    | Op(id: nat)
    | CallFunction(callee: string)
    | FrameEnter
    | FrameExit
    | ScopeEnter
    | ScopeExit
    | ScopeExitTo(target: nat)
    | Br(block: nat)
    | CondBr(ifTrue: nat, ifFalse: nat)
    | Ret
    | ExitProcess

  predicate IsTerminator(i: Instr) {
    i.Br? || i.CondBr? || i.Ret?
  }

  type Code = seq<Instr>

  datatype LoopTargets = LoopTargets(breakBlock: nat, continueBlock: nat, breakDepth: nat, continueDepth: nat)

  datatype CatchTarget = CatchTarget(catchBlock: nat, errorByteLength: nat, depth: nat)

  /** The emitter's fields: the function's blocks, the insertion point and the bookkeeping. */
  datatype State = State(
    blocks: seq<Code>,
    current: nat,
    depth: nat,
    loops: seq<LoopTargets>,
    catches: seq<CatchTarget>,
    labelBlocks: map<string, nat>,
    labelDepths: map<string, nat>,
    staticActive: bool,
    errors: nat)
  {
    predicate Valid() {
      && current < |blocks|
      && forall l | l in labelBlocks :: labelBlocks[l] < |blocks|
    }

    predicate Terminated() {
      current < |blocks| && blocks[current] != [] && IsTerminator(blocks[current][|blocks[current]| - 1])
    }

    /** Append to the block at the insertion point. */
    function Emit(i: Instr): (r: State)
      ensures r == this.(blocks := r.blocks)
    {
      if current < |blocks| then this.(blocks := blocks[current := blocks[current] + [i]]) else this
    }

    function BrUnlessTerminated(block: nat): (r: State)
      ensures r == this.(blocks := r.blocks)
    {
      if Terminated() then this else Emit(Br(block))
    }

    /** emitRuntimeScopeExitTo: nothing when the depth is already there. */
    function ExitTo(target: nat): (r: State)
      ensures r == this.(blocks := r.blocks)
    {
      if depth > target then Emit(ScopeExitTo(target)) else this
    }

    /** emitRuntimeFrameExit. */
    function LeaveFrame(): State {
      ExitTo(0).Emit(FrameExit)
    }

    function AddBlocks(n: nat): (r: State)
      ensures r == this.(blocks := r.blocks)
    {
      this.(blocks := blocks + seq(n, _ => []))
    }

    function At(block: nat): State {
      this.(current := block)
    }

    function Deeper(): State {
      this.(depth := depth + 1)
    }

    /** The counter is never decremented at zero. */
    function Shallower(): State {
      if depth > 0 then this.(depth := depth - 1) else this
    }

    function Error(): State {
      this.(errors := errors + 1)
    }
  }

  // ------------------------------------------------------------ the emitter

  function EmitBlock(e: State, ss: seq<Stmt>): (r: State)
    ensures r.errors >= e.errors
    ensures r.labelDepths == e.labelDepths && (r.errors == 0 ==> r.depth == e.depth)
    decreases ss, 2
  {
    var scoped := e.Emit(ScopeEnter).Deeper();
    var filled := EmitStatements(scoped, ss);
    var closed := if filled.Terminated() then filled else filled.Emit(ScopeExit);
    closed.Shallower()
  }

  /** The statement loop of a block: after a terminator only labels are emitted. */
  function EmitStatements(e: State, ss: seq<Stmt>): (r: State)
    ensures r.errors >= e.errors
    ensures r.labelDepths == e.labelDepths && (r.errors == 0 ==> r.depth == e.depth)
    decreases ss, 1
  {
    if ss == [] then e
    else if e.Terminated() && !ss[0].Label? then EmitStatements(e, ss[1..])
    else EmitStatements(EmitStmt(e, ss[0]), ss[1..])
  }

  /** A statement list stops at the first diagnostic. */
  function EmitList(e: State, ss: seq<Stmt>): (r: State)
    ensures r.errors >= e.errors
    ensures r.labelDepths == e.labelDepths && (r.errors == 0 ==> r.depth == e.depth)
    decreases ss, 1
  {
    if ss == [] then e
    else
      var first := EmitStmt(e, ss[0]);
      if first.errors != 0 then first else EmitList(first, ss[1..])
  }

  /** The post statements of a for loop stop at a diagnostic or a terminator. */
  function EmitPost(e: State, ss: seq<Stmt>): (r: State)
    ensures r.errors >= e.errors
    ensures r.labelDepths == e.labelDepths && (r.errors == 0 ==> r.depth == e.depth)
    decreases ss, 1
  {
    if ss == [] then e
    else
      var first := EmitStmt(e, ss[0]);
      if first.errors != 0 || first.Terminated() then first else EmitPost(first, ss[1..])
  }

  function EmitStmt(e: State, s: Stmt): (r: State)
    ensures r.errors >= e.errors
    ensures r.labelDepths == e.labelDepths && (r.errors == 0 ==> r.depth == e.depth)
    decreases s, 3
  {
    match s
    case Plain(id) => e.Emit(Op(id))
    case Call(callee) => e.Emit(CallFunction(callee))
    case Return => e.LeaveFrame().Emit(Ret)
    case If(_, _, _) => EmitIf(e, s)
    case While(_) => EmitWhile(e, s)
    case For(_, _, _, _) => EmitFor(e, s)
    case Break =>
      if e.loops == [] then e.Error()
      else
        var target := e.loops[|e.loops| - 1];
        e.ExitTo(target.breakDepth).Emit(Br(target.breakBlock))
    case Continue =>
      if e.loops == [] then e.Error()
      else
        var target := e.loops[|e.loops| - 1];
        e.ExitTo(target.continueDepth).Emit(Br(target.continueBlock))
    case Goto(name) =>
      if name !in e.labelBlocks then e.Error()
      else if name !in e.labelDepths || e.labelDepths[name] > e.depth then e.Error()
      else e.ExitTo(e.labelDepths[name]).Emit(Br(e.labelBlocks[name]))
    case Label(name, statement) =>
      if name !in e.labelBlocks then e.Error()
      else
        var block := e.labelBlocks[name];
        EmitStmt(e.BrUnlessTerminated(block).At(block), statement)
    case Throw(_, _, _) => EmitThrow(e, s)
    case TryCatch(_, _, _) => EmitTryCatch(e, s)
    case StatementList(statements) => EmitList(e, statements)
    case StaticInit(statement) =>
      if e.staticActive then EmitStmt(e, statement)
      else
        var initialize, continue_ := |e.blocks|, |e.blocks| + 1;
        var branched := e.AddBlocks(2).Emit(CondBr(continue_, initialize));
        var inner := EmitStmt(branched.At(initialize).(staticActive := true), statement);
        inner.(staticActive := false).BrUnlessTerminated(continue_).At(continue_)
  }

  function EmitIf(e: State, s: Stmt): (r: State)
    requires s.If?
    ensures r.errors >= e.errors
    ensures r.labelDepths == e.labelDepths && (r.errors == 0 ==> r.depth == e.depth)
    decreases s, 2
  {
    var thenBlock, elseBlock, merge := |e.blocks|, |e.blocks| + 1, |e.blocks| + 2;
    var branched := e.AddBlocks(3).Emit(CondBr(thenBlock, elseBlock));
    var thenDone := EmitBlock(branched.At(thenBlock), s.thenBlock).BrUnlessTerminated(merge).At(elseBlock);
    var elseDone := if s.hasElse then EmitBlock(thenDone, s.elseBlock) else thenDone;
    elseDone.BrUnlessTerminated(merge).At(merge)
  }

  function EmitWhile(e: State, s: Stmt): (r: State)
    requires s.While?
    ensures r.errors >= e.errors
    ensures r.labelDepths == e.labelDepths && (r.errors == 0 ==> r.depth == e.depth)
    decreases s, 2
  {
    var condition, body, after := |e.blocks|, |e.blocks| + 1, |e.blocks| + 2;
    var branched := e.AddBlocks(3).Emit(Br(condition)).At(condition).Emit(CondBr(body, after));
    var looped := branched.(loops := e.loops + [LoopTargets(after, condition, e.depth, e.depth)]).At(body);
    var done := EmitBlock(looped, s.body).BrUnlessTerminated(condition);
    PopLoop(done).At(after)
  }

  function PopLoop(e: State): State {
    if e.loops == [] then e else e.(loops := e.loops[..|e.loops| - 1])
  }

  function PopCatch(e: State): State {
    if e.catches == [] then e else e.(catches := e.catches[..|e.catches| - 1])
  }

  function EmitFor(e: State, s: Stmt): (r: State)
    requires s.For?
    ensures r.errors >= e.errors
    ensures r.labelDepths == e.labelDepths && (r.errors == 0 ==> r.depth == e.depth)
    decreases s, 2
  {
    var scoped := e.AddBlocks(4).Emit(ScopeEnter).Deeper();
    var started := if s.init.Some? then EmitStmt(scoped, s.init.value) else scoped;
    if s.init.Some? && started.errors != 0 then started else EmitForLoop(started, s, |e.blocks|)
  }

  /** The four blocks from n are the condition, the body, the post statements and the exit. */
  function EmitForLoop(e: State, s: Stmt, n: nat): (r: State)
    requires s.For?
    ensures r.errors >= e.errors
    ensures r.labelDepths == e.labelDepths && (r.errors == 0 && e.depth > 0 ==> r.depth == e.depth - 1)
    decreases s, 1
  {
    var tested := e.BrUnlessTerminated(n).At(n).Emit(if s.conditional then CondBr(n + 1, n + 3) else Br(n + 1));
    var looped := tested.(loops := e.loops + [LoopTargets(n + 3, n + 2, e.depth, e.depth)]).At(n + 1);
    var posted := EmitPost(EmitBlock(looped, s.body).BrUnlessTerminated(n + 2).At(n + 2), s.post);
    if s.post != [] && posted.errors != 0 then PopLoop(posted)
    else PopLoop(posted.BrUnlessTerminated(n)).At(n + 3).Emit(ScopeExit).Shallower()
  }

  function EmitThrow(e: State, s: Stmt): (r: State)
    requires s.Throw?
    ensures r.errors >= e.errors
    ensures r.labelDepths == e.labelDepths && (r.errors == 0 ==> r.depth == e.depth)
    decreases s, 2
  {
    if e.catches == [] then e.ExitTo(0).Emit(ExitProcess).Emit(Ret)
    else
      var target := e.catches[|e.catches| - 1];
      if s.targetByteLength != target.errorByteLength || s.sourceByteLength != s.targetByteLength then e.Error()
      else if s.delivery.None? then e.Error()
      else
        var delivered := EmitStmt(e, s.delivery.value);
        if delivered.Terminated() then delivered
        else delivered.ExitTo(target.depth).Emit(Br(target.catchBlock))
  }

  function EmitTryCatch(e: State, s: Stmt): (r: State)
    requires s.TryCatch?
    ensures r.errors >= e.errors
    ensures r.labelDepths == e.labelDepths && (r.errors == 0 ==> r.depth == e.depth)
    decreases s, 2
  {
    var tryBlock, catchBlock, after := |e.blocks|, |e.blocks| + 1, |e.blocks| + 2;
    var entered := e.AddBlocks(3).Emit(Br(tryBlock)).At(tryBlock);
    var guarded := entered.(catches := e.catches + [CatchTarget(catchBlock, s.errorByteLength, e.depth)]);
    var tried := PopCatch(EmitBlock(guarded, s.tryBlock)).BrUnlessTerminated(after).At(catchBlock);
    EmitBlock(tried, s.catchBlock).BrUnlessTerminated(after).At(after)
  }

  // ------------------------------------------------------- label collection

  function CollectStatements(e: State, ss: seq<Stmt>, depth: nat): (r: State)
    decreases ss, 1
  {
    if ss == [] then e else CollectStatements(CollectLabels(e, ss[0], depth), ss[1..], depth)
  }

  /** The first occurrence of a label gets a block and records its depth. */
  function CollectLabels(e: State, s: Stmt, depth: nat): (r: State)
    decreases s, 2
  {
    match s
    case StatementList(statements) => CollectStatements(e, statements, depth)
    case If(thenBlock, hasElse, elseBlock) =>
      var r := CollectStatements(e, thenBlock, depth + 1);
      if hasElse then CollectStatements(r, elseBlock, depth + 1) else r
    case While(body) => CollectStatements(e, body, depth + 1)
    case For(init, _, post, body) =>
      var r := if init.Some? then CollectLabels(e, init.value, depth + 1) else e;
      CollectStatements(CollectStatements(r, post, depth + 1), body, depth + 2)
    case Label(name, statement) =>
      var r := if name in e.labelBlocks then e
               else e.AddBlocks(1).(labelBlocks := e.labelBlocks[name := |e.blocks|],
                                    labelDepths := e.labelDepths[name := depth]);
      CollectLabels(r, statement, depth)
    case TryCatch(_, tryBlock, catchBlock) =>
      CollectStatements(CollectStatements(e, tryBlock, depth + 1), catchBlock, depth + 1)
    case StaticInit(statement) => CollectLabels(e, statement, depth)
    case _ => e
  }

  /** Entry block, frame entry, label collection from depth 1. */
  function BeginFunction(f: Function): (r: State) {
    var entry := State([[FrameEnter, Br(1)], []], 1, 0, [], [], map[], map[], false, 0);
    CollectStatements(entry, f.body, 1)
  }

  function EmitFunction(f: Function): (r: State) {
    var done := EmitBlock(BeginFunction(f), f.body);
    if done.errors == 0 && !done.Terminated() then
      if f.returnsValue then done.LeaveFrame().Error() else done.LeaveFrame().Emit(Ret)
    else done
  }
}
