/**
  The emitter in the source's own form: an object whose methods move the insertion
  point, append instructions, push and pop targets and count the scope depth. Each
  method is proved to compute the corresponding function on the emitter's state.
 */
module ScopeEmitter {
  import opened ScopeHir

  class Emitter {
    var blocks: seq<Code>
    var current: nat
    var depth: nat
    var loops: seq<LoopTargets>
    var catches: seq<CatchTarget>
    var labelBlocks: map<string, nat>
    var labelDepths: map<string, nat>
    var staticActive: bool
    var errors: nat

    ghost function Value(): State
      reads this
    {
      State(blocks, current, depth, loops, catches, labelBlocks, labelDepths, staticActive, errors)
    }

    /** Entry block with the frame entry, body block, insertion point in the body. */
    constructor ()
      ensures Value() == State([[FrameEnter, Br(1)], []], 1, 0, [], [], map[], map[], false, 0)
    {
      blocks := [[FrameEnter, Br(1)], []];
      current := 1;
      depth := 0;
      loops := [];
      catches := [];
      labelBlocks := map[];
      labelDepths := map[];
      staticActive := false;
      errors := 0;
    }

    method Append(i: Instr)
      modifies this`blocks
      ensures Value() == old(Value()).Emit(i)
    {
      if current < |blocks| {
        blocks := blocks[current := blocks[current] + [i]];
      }
    }

    method HasTerminator() returns (t: bool)
      ensures t == Value().Terminated()
    {
      t := current < |blocks| && blocks[current] != [] && IsTerminator(blocks[current][|blocks[current]| - 1]);
    }

    method BranchIfOpen(block: nat)
      modifies this`blocks
      ensures Value() == old(Value()).BrUnlessTerminated(block)
    {
      var t := HasTerminator();
      if !t {
        Append(Br(block));
      }
    }

    method EmitScopeExitTo(target: nat)
      modifies this`blocks
      ensures Value() == old(Value()).ExitTo(target)
    {
      if depth > target {
        Append(ScopeExitTo(target));
      }
    }

    method EmitFrameExit()
      modifies this`blocks
      ensures Value() == old(Value()).LeaveFrame()
    {
      EmitScopeExitTo(0);
      Append(FrameExit);
    }

    method CreateBlocks(n: nat) returns (first: nat)
      modifies this`blocks
      ensures first == |old(blocks)| && Value() == old(Value()).AddBlocks(n)
    {
      first := |blocks|;
      blocks := blocks + seq(n, _ => []);
    }

    method AddDiagnostic()
      modifies this`errors
      ensures Value() == old(Value()).Error()
    {
      errors := errors + 1;
    }

    method EmitBlockStatement(ss: seq<Stmt>)
      modifies this
      ensures Value() == EmitBlock(old(Value()), ss)
      decreases ss, 2
    {
      hide EmitStmt, State.Emit, State.Terminated;
      Append(ScopeEnter);
      depth := depth + 1;
      ghost var scoped := Value();
      assert scoped == old(Value()).Emit(ScopeEnter).Deeper();
      var i := 0;
      while i < |ss|
        invariant 0 <= i <= |ss|
        invariant EmitStatements(Value(), ss[i..]) == EmitStatements(scoped, ss)
      {
        assert ss[i..][0] == ss[i] && ss[i..][1..] == ss[i + 1..];
        var t := HasTerminator();
        if !t || ss[i].Label? {
          EmitStatement(ss[i]);
        }
        i := i + 1;
      }
      assert ss[i..] == [];
      var t := HasTerminator();
      if !t {
        Append(ScopeExit);
      }
      LeaveScope();
    }

    method EmitStatement(s: Stmt)
      modifies this
      ensures Value() == EmitStmt(old(Value()), s)
      decreases s, 3
    {
      hide EmitIf, EmitWhile, EmitFor, EmitThrow, EmitTryCatch, EmitList, State.Emit, State.AddBlocks, State.BrUnlessTerminated;
      match s
      case Plain(id) => Append(Op(id));
      case Call(callee) => Append(CallFunction(callee));
      case Return =>
        EmitFrameExit();
        Append(Ret);
      case If(_, _, _) => EmitIfStatement(s);
      case While(_) => EmitWhileStatement(s);
      case For(_, _, _, _) => EmitForStatement(s);
      case Break => EmitBreak();
      case Continue => EmitContinue();
      case Goto(_) => EmitGoto(s);
      case Label(_, _) => EmitLabel(s);
      case Throw(_, _, _) => EmitThrowStatement(s);
      case TryCatch(_, _, _) => EmitTryCatchStatement(s);
      case StatementList(ss) => EmitStatementList(ss);
      case StaticInit(_) => EmitStaticInit(s);
    }

    method EmitLabel(s: Stmt)
      requires s.Label?
      modifies this
      ensures Value() == EmitStmt(old(Value()), s)
      decreases s, 2
    {
      hide State.BrUnlessTerminated;
      if s.name !in labelBlocks {
        AddDiagnostic();
      } else {
        BranchIfOpen(labelBlocks[s.name]);
        current := labelBlocks[s.name];
        EmitStatement(s.statement);
      }
    }

    /** The one-time guard around the initializer of a static local. */
    method EmitStaticInit(s: Stmt)
      requires s.StaticInit?
      modifies this
      ensures Value() == EmitStmt(old(Value()), s)
      decreases s, 2
    {
      hide State.Emit, State.AddBlocks, State.BrUnlessTerminated;
      if staticActive {
        EmitStatement(s.statement);
      } else {
        var first := CreateBlocks(2);
        Append(CondBr(first + 1, first));
        current := first;
        staticActive := true;
        EmitStatement(s.statement);
        staticActive := false;
        BranchIfOpen(first + 1);
        current := first + 1;
      }
    }

    method EmitStatementList(ss: seq<Stmt>)
      modifies this
      ensures Value() == EmitList(old(Value()), ss)
      decreases ss, 1
    {
      var i := 0;
      while i < |ss|
        invariant 0 <= i <= |ss|
        invariant EmitList(Value(), ss[i..]) == EmitList(old(Value()), ss)
      {
        assert ss[i..][0] == ss[i] && ss[i..][1..] == ss[i + 1..];
        EmitStatement(ss[i]);
        if errors != 0 {
          return;
        }
        i := i + 1;
      }
      assert ss[i..] == [];
    }

    method EmitPostStatements(ss: seq<Stmt>)
      modifies this
      ensures Value() == EmitPost(old(Value()), ss)
      decreases ss, 1
    {
      var i := 0;
      while i < |ss|
        invariant 0 <= i <= |ss|
        invariant EmitPost(Value(), ss[i..]) == EmitPost(old(Value()), ss)
      {
        assert ss[i..][0] == ss[i] && ss[i..][1..] == ss[i + 1..];
        EmitStatement(ss[i]);
        var t := HasTerminator();
        if errors != 0 || t {
          return;
        }
        i := i + 1;
      }
      assert ss[i..] == [];
    }

    method EmitIfStatement(s: Stmt)
      requires s.If?
      modifies this
      ensures Value() == EmitIf(old(Value()), s)
      decreases s, 2
    {
      hide EmitBlock, State.Emit, State.AddBlocks, State.BrUnlessTerminated;
      var first := CreateBlocks(3);
      Append(CondBr(first, first + 1));
      current := first;
      EmitBlockStatement(s.thenBlock);
      BranchIfOpen(first + 2);
      current := first + 1;
      if s.hasElse {
        EmitBlockStatement(s.elseBlock);
      }
      BranchIfOpen(first + 2);
      current := first + 2;
    }

    method EmitWhileStatement(s: Stmt)
      requires s.While?
      modifies this
      ensures Value() == EmitWhile(old(Value()), s)
      decreases s, 2
    {
      hide PopLoop, EmitBlock, State.Emit, State.AddBlocks, State.BrUnlessTerminated;
      var first := CreateBlocks(3);
      Append(Br(first));
      current := first;
      Append(CondBr(first + 1, first + 2));
      loops := loops + [LoopTargets(first + 2, first, depth, depth)];
      current := first + 1;
      EmitBlockStatement(s.body);
      BranchIfOpen(first);
      PopLoopTargets();
      current := first + 2;
    }

    method PopLoopTargets()
      modifies this`loops
      ensures Value() == PopLoop(old(Value()))
    {
      if loops != [] {
        loops := loops[..|loops| - 1];
      }
    }

    method EmitForStatement(s: Stmt)
      requires s.For?
      modifies this
      ensures Value() == EmitFor(old(Value()), s)
      decreases s, 2
    {
      hide EmitForLoop, EmitStmt, State.Emit, State.AddBlocks, State.BrUnlessTerminated;
      var first := CreateBlocks(4);
      Append(ScopeEnter);
      depth := depth + 1;
      if s.init.Some? {
        EmitStatement(s.init.value);
        if errors != 0 {
          return;
        }
      }
      EmitLoopOfFor(s, first);
    }

    method EmitLoopOfFor(s: Stmt, first: nat)
      requires s.For?
      modifies this
      ensures Value() == EmitForLoop(old(Value()), s, first)
      decreases s, 1
    {
      hide EmitBlock, EmitPost, State.Emit, State.AddBlocks, State.BrUnlessTerminated, State.Shallower, PopLoop;
      BranchIfOpen(first);
      current := first;
      Append(if s.conditional then CondBr(first + 1, first + 3) else Br(first + 1));
      loops := loops + [LoopTargets(first + 3, first + 2, depth, depth)];
      current := first + 1;
      ghost var e := old(Value());
      ghost var test := if s.conditional then CondBr(first + 1, first + 3) else Br(first + 1);
      ghost var looped := e.BrUnlessTerminated(first).At(first).Emit(test).(
        loops := e.loops + [LoopTargets(first + 3, first + 2, e.depth, e.depth)]).At(first + 1);
      assert Value() == looped;
      EmitBlockStatement(s.body);
      BranchIfOpen(first + 2);
      current := first + 2;
      assert Value() == EmitBlock(looped, s.body).BrUnlessTerminated(first + 2).At(first + 2);
      EmitPostStatements(s.post);
      if s.post != [] && errors != 0 {
        PopLoopTargets();
        return;
      }
      BranchIfOpen(first);
      PopLoopTargets();
      current := first + 3;
      Append(ScopeExit);
      LeaveScope();
    }

    method LeaveScope()
      modifies this`depth
      ensures Value() == old(Value()).Shallower()
    {
      if depth > 0 {
        depth := depth - 1;
      }
    }

    method EmitBreak()
      modifies this
      ensures Value() == EmitStmt(old(Value()), Break)
    {
      if loops == [] {
        AddDiagnostic();
      } else {
        var target := loops[|loops| - 1];
        EmitScopeExitTo(target.breakDepth);
        Append(Br(target.breakBlock));
      }
    }

    method EmitContinue()
      modifies this
      ensures Value() == EmitStmt(old(Value()), Continue)
    {
      if loops == [] {
        AddDiagnostic();
      } else {
        var target := loops[|loops| - 1];
        EmitScopeExitTo(target.continueDepth);
        Append(Br(target.continueBlock));
      }
    }

    method EmitGoto(s: Stmt)
      requires s.Goto?
      modifies this
      ensures Value() == EmitStmt(old(Value()), s)
    {
      var name := s.target;
      if name !in labelBlocks {
        AddDiagnostic();
        return;
      }
      if name !in labelDepths || labelDepths[name] > depth {
        AddDiagnostic();
        return;
      }
      EmitScopeExitTo(labelDepths[name]);
      Append(Br(labelBlocks[name]));
    }

    method EmitThrowStatement(s: Stmt)
      requires s.Throw?
      modifies this
      ensures Value() == EmitThrow(old(Value()), s)
      decreases s, 2
    {
      hide EmitStmt, State.Emit, State.AddBlocks, State.BrUnlessTerminated, State.Terminated;
      if catches == [] {
        EmitScopeExitTo(0);
        Append(ExitProcess);
        Append(Ret);
        return;
      }
      var target := catches[|catches| - 1];
      if s.targetByteLength != target.errorByteLength || s.sourceByteLength != s.targetByteLength {
        AddDiagnostic();
        return;
      }
      if s.delivery.None? {
        AddDiagnostic();
        return;
      }
      EmitStatement(s.delivery.value);
      var t := HasTerminator();
      if t {
        return;
      }
      EmitScopeExitTo(target.depth);
      Append(Br(target.catchBlock));
    }

    method EmitTryCatchStatement(s: Stmt)
      requires s.TryCatch?
      modifies this
      ensures Value() == EmitTryCatch(old(Value()), s)
      decreases s, 2
    {
      hide PopCatch, EmitBlock, State.Emit, State.AddBlocks, State.BrUnlessTerminated;
      var first := CreateBlocks(3);
      Append(Br(first));
      catches := catches + [CatchTarget(first + 1, s.errorByteLength, depth)];
      current := first;
      ghost var e := old(Value());
      assert Value() == e.AddBlocks(3).Emit(Br(first)).At(first).(catches := e.catches + [CatchTarget(first + 1, s.errorByteLength, e.depth)]);
      EmitBlockStatement(s.tryBlock);
      PopCatchTarget();
      BranchIfOpen(first + 2);
      current := first + 1;
      EmitBlockStatement(s.catchBlock);
      BranchIfOpen(first + 2);
      current := first + 2;
    }

    method PopCatchTarget()
      modifies this`catches
      ensures Value() == PopCatch(old(Value()))
    {
      if catches != [] {
        catches := catches[..|catches| - 1];
      }
    }

    method CollectFrom(ss: seq<Stmt>, scopeDepth: nat)
      modifies this
      ensures Value() == CollectStatements(old(Value()), ss, scopeDepth)
      decreases ss, 1
    {
      var i := 0;
      while i < |ss|
        invariant 0 <= i <= |ss|
        invariant CollectStatements(Value(), ss[i..], scopeDepth) == CollectStatements(old(Value()), ss, scopeDepth)
      {
        assert ss[i..][0] == ss[i] && ss[i..][1..] == ss[i + 1..];
        Collect(ss[i], scopeDepth);
        i := i + 1;
      }
      assert ss[i..] == [];
    }

    method Collect(s: Stmt, scopeDepth: nat)
      modifies this
      ensures Value() == CollectLabels(old(Value()), s, scopeDepth)
      decreases s, 2
    {
      hide CollectStatements, State.AddBlocks;
      match s
      case StatementList(ss) => CollectFrom(ss, scopeDepth);
      case If(thenBlock, hasElse, elseBlock) =>
        CollectFrom(thenBlock, scopeDepth + 1);
        if hasElse {
          CollectFrom(elseBlock, scopeDepth + 1);
        }
      case While(body) => CollectFrom(body, scopeDepth + 1);
      case For(init, _, post, body) =>
        if init.Some? {
          Collect(init.value, scopeDepth + 1);
        }
        CollectFrom(post, scopeDepth + 1);
        CollectFrom(body, scopeDepth + 2);
      case Label(name, statement) =>
        if name !in labelBlocks {
          var block := CreateBlocks(1);
          labelBlocks := labelBlocks[name := block];
          labelDepths := labelDepths[name := scopeDepth];
        }
        Collect(statement, scopeDepth);
      case TryCatch(_, tryBlock, catchBlock) =>
        CollectFrom(tryBlock, scopeDepth + 1);
        CollectFrom(catchBlock, scopeDepth + 1);
      case StaticInit(statement) => Collect(statement, scopeDepth);
      case _ =>
    }
  }

  /** A whole function, from a fresh emitter to its blocks and diagnostics. */
  method Emit(f: Function) returns (blocks: seq<Code>, errors: nat)
    ensures blocks == EmitFunction(f).blocks && errors == EmitFunction(f).errors
  {
    hide EmitBlock, CollectStatements;
    var emitter := new Emitter();
    emitter.CollectFrom(f.body, 1);
    emitter.EmitBlockStatement(f.body);
    var t := emitter.HasTerminator();
    if emitter.errors == 0 && !t {
      emitter.EmitFrameExit();
      if f.returnsValue {
        emitter.AddDiagnostic();
      } else {
        emitter.Append(Ret);
      }
    }
    blocks, errors := emitter.blocks, emitter.errors;
  }
}
