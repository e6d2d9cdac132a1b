/**
  Whole functions, whole programs and whole runs: the emitted code executed against
  the runtime's own frame and scope counters.
 */
module ScopeMachine {
  import opened RuntimeFrames
  import opened ScopeHir
  import opened ScopeLabels
  import opened ScopeTyping
  import opened ScopeEmission
  import opened ScopeInduction

  // ----------------------------------------------------- whole functions

  /** What the emitter accepts, under the label rule of semantic analysis. */
  ghost predicate Accepted(f: Function) {
    DistinctAll(f.body) && 1 + NestingOf(f.body) <= UINT64_MAX && EmitFunction(f).errors == 0
  }

  /** The depth of a block before any statement is emitted: its label's, or zero. */
  ghost function InitialDepth(e: State, block: nat): nat
    requires e.labelBlocks.Keys == e.labelDepths.Keys
  {
    if l :| l in e.labelBlocks && e.labelBlocks[l] == block then e.labelDepths[l] else 0
  }

  /** A static depth for every block that types the code and is the one recorded for labels. */
  ghost predicate FunctionDepths(f: Function, depths: seq<nat>) {
    var r := EmitFunction(f);
    && |r.blocks| > 1 && BlocksTyped(r.blocks, depths, UINT64_MAX)
    && forall l | l in r.labelBlocks :: l in r.labelDepths && IsTarget(r.labelBlocks[l], r.labelDepths[l], depths)
  }

  /** One static depth per block types the whole emitted function. */
  lemma FunctionTyped(f: Function) returns (depths: seq<nat>)
    requires Accepted(f)
    ensures FunctionDepths(f, depths)
  {
    hide EmitBlock, FlowOf, CollectStatements;
    var start := BeginFunction(f);
    var initial := BeginTyped(f);
    depths := BlockTyped(start, f.body, initial, UINT64_MAX);
    var done := EmitBlock(start, f.body);
    if !done.Terminated() {
      ReturnCode(done, depths, UINT64_MAX);
    }
  }

  lemma BeginTyped(f: Function) returns (depths: seq<nat>)
    requires DistinctAll(f.body)
    ensures var start := BeginFunction(f);
      && Ready(start, LabelsOf(f.body), depths, UINT64_MAX) && start.depth == 0 && start.errors == 0
      && DepthsAllOk(f.body, 1, start.labelDepths)
  {
    hide CollectStatements, FlowOf;
    var entry := State([[FrameEnter, Br(1)], []], 1, 0, [], [], map[], map[], false, 0);
    var start := BeginFunction(f);
    CollectAllCorrect(entry, f.body, 1);
    depths := seq(|start.blocks|, b requires 0 <= b < |start.blocks| => if b < 2 then 0 else InitialDepth(start, b));
    assert start.blocks[0] == start.blocks[..2][0] && start.blocks[1] == start.blocks[..2][1];
    forall b: nat | b < |start.blocks|
      ensures FlowOk(FlowOf(start.blocks[b], Start(b, depths), UINT64_MAX), depths)
    {
      if b == 0 {
        EntryFlow();
      } else {
        EmptyFlow(Start(b, depths), UINT64_MAX);
      }
    }
    EmptyFlow(Inside(0), UINT64_MAX);
  }

  lemma EntryFlow()
    ensures FlowOf([FrameEnter, Br(1)], Unentered, UINT64_MAX) == Jumps({1}, 0)
  {
    assert [FrameEnter, Br(1)] == [FrameEnter] + [Br(1)];
    FlowSnoc([FrameEnter], Br(1), Unentered, UINT64_MAX);
    assert [FrameEnter] == [] + [FrameEnter];
    FlowSnoc([], FrameEnter, Unentered, UINT64_MAX);
  }

  // ---------------------------------------------------------- the machine

  type Program = map<string, Function>

  function BlocksOf(p: Program, f: string): seq<Code>
    requires f in p
  {
    EmitFunction(p[f]).blocks
  }

  datatype Activation = Activation(function_: string, block: nat, pc: nat)

  datatype Machine = Machine(stack: seq<Activation>, frames: Frames)

  /** Stuck is a block that ends without a terminator, which LLVM's verifier rejects. */
  datatype Result = Running(m: Machine) | Finished | Exited | Aborted(fault: Fault) | Stuck

  function Top(m: Machine): Activation
    requires m.stack != []
  {
    m.stack[|m.stack| - 1]
  }

  function JumpTo(m: Machine, block: nat): Machine
    requires m.stack != []
  {
    m.(stack := m.stack[|m.stack| - 1 := Top(m).(block := block, pc := 0)])
  }

  function Advance(m: Machine): Machine
    requires m.stack != []
  {
    m.(stack := m.stack[|m.stack| - 1 := Top(m).(pc := Top(m).pc + 1)])
  }

  function AfterRuntime(m: Machine, r: Outcome<Frames>): Result
    requires m.stack != []
  {
    if r.Failed? then Aborted(r.fault) else Running(Advance(m).(frames := r.value))
  }

  predicate AtInstruction(p: Program, m: Machine) {
    && m.stack != [] && Top(m).function_ in p
    && Top(m).block < |BlocksOf(p, Top(m).function_)|
    && Top(m).pc < |BlocksOf(p, Top(m).function_)[Top(m).block]|
  }

  function Current(p: Program, m: Machine): Instr
    requires AtInstruction(p, m)
  {
    BlocksOf(p, Top(m).function_)[Top(m).block][Top(m).pc]
  }

  /** One instruction; `choice` resolves a condition. Unknown callees are external code. */
  function Step(p: Program, m: Machine, choice: bool): Result
    requires m.frames.Valid()
  {
    if m.stack == [] then Finished
    else if !AtInstruction(p, m) then Stuck
    else
      match Current(p, m)
      case Op(_) => Running(Advance(m))
      case CallFunction(f) =>
        if f !in p then Running(Advance(m))
        else Running(Advance(m).(stack := Advance(m).stack + [Activation(f, 0, 0)]))
      case FrameEnter => AfterRuntime(m, m.frames.FrameEnter())
      case FrameExit => AfterRuntime(m, m.frames.FrameExit())
      case ScopeEnter => AfterRuntime(m, m.frames.ScopeEnter())
      case ScopeExit => AfterRuntime(m, m.frames.ScopeExit())
      case ScopeExitTo(t) => AfterRuntime(m, m.frames.ScopeExitTo(t))
      case Br(b) => Running(JumpTo(m, b))
      case CondBr(t, f) => Running(JumpTo(m, if choice then t else f))
      case Ret => Running(m.(stack := m.stack[..|m.stack| - 1]))
      case ExitProcess => Exited
  }

  /** A run under a sequence of condition outcomes. */
  function Run(p: Program, m: Machine, choices: seq<bool>): (r: Result)
    requires m.frames.Valid()
    decreases |choices|
  {
    if choices == [] then Running(m)
    else
      var r := Step(p, m, choices[0]);
      if r.Running? && m.stack != [] then
        StepKeepsFrames(p, m, choices[0]);
        Run(p, r.m, choices[1..])
      else r
  }

  lemma StepKeepsFrames(p: Program, m: Machine, choice: bool)
    requires m.frames.Valid() && Step(p, m, choice).Running?
    ensures Step(p, m, choice).m.frames.Valid()
  {
    hide EmitFunction;
  }

  function Initial(entry: string): Machine {
    Machine([Activation(entry, 0, 0)], InitialFrames())
  }

  // --------------------------------------------------------- the invariant

  /** A typing for every function of the program. */
  ghost predicate ProgramTyped(p: Program, types: map<string, seq<nat>>) {
    forall f | f in p :: f in types && |BlocksOf(p, f)| > 1 && BlocksTyped(BlocksOf(p, f), types[f], UINT64_MAX)
  }

  ghost predicate Placed(p: Program, types: map<string, seq<nat>>, a: Activation) {
    && a.function_ in p && a.function_ in types && |types[a.function_]| == |BlocksOf(p, a.function_)|
    && a.block < |BlocksOf(p, a.function_)| && a.pc <= |BlocksOf(p, a.function_)[a.block]|
  }

  /** The static state of an activation: the flow of its block up to its pc. */
  ghost function StaticFlow(p: Program, types: map<string, seq<nat>>, a: Activation): Flow
    requires Placed(p, types, a)
  {
    FlowOf(BlocksOf(p, a.function_)[a.block][..a.pc], Start(a.block, types[a.function_]), UINT64_MAX)
  }

  /** An outer activation waits inside its frame, at the depth its counter holds. */
  ghost predicate Waits(p: Program, types: map<string, seq<nat>>, a: Activation, depth: nat) {
    Placed(p, types, a) && StaticFlow(p, types, a) == At(Inside(depth))
  }

  ghost predicate TopAgrees(p: Program, types: map<string, seq<nat>>, m: Machine)
    requires m.frames.Valid() && m.stack != []
  {
    && Placed(p, types, Top(m)) && StaticFlow(p, types, Top(m)).At?
    && match StaticFlow(p, types, Top(m)).phase
       case Inside(d) => m.frames.current == |m.stack| && m.frames.Depth() == d
       case _ => m.frames.current == |m.stack| - 1
  }

  ghost predicate OuterAgree(p: Program, types: map<string, seq<nat>>, m: Machine)
    requires m.frames.Valid()
  {
    && |m.stack| <= MAX_FRAMES
    && forall k | 0 <= k < |m.stack| - 1 :: Waits(p, types, m.stack[k], m.frames.scopes[k + 1])
  }

  /** Static and run-time depth agree in every activation. */
  ghost predicate Agrees(p: Program, types: map<string, seq<nat>>, m: Machine) {
    && m.frames.Valid() && OuterAgree(p, types, m)
    && (m.stack != [] ==> TopAgrees(p, types, m))
    && (m.stack == [] ==> m.frames.current == 0)
  }

  /** A fault the counters may report: only a call chain of more than 1023 frames. */
  predicate Expected(r: Result) {
    r.Aborted? ==> r.fault == FrameOverflow
  }

  lemma FlowPrefix(code: Code, k: nat, start: Phase, limit: nat)
    requires k <= |code|
    ensures !FlowOf(code[..k], start, limit).At? ==> FlowOf(code, start, limit) == FlowOf(code[..k], start, limit)
    ensures FlowOf(code, start, limit) != Wrong ==> FlowOf(code[..k], start, limit) != Wrong
    decreases |code|
  {
    if k == |code| {
      assert code[..k] == code;
    } else {
      var init := code[..|code| - 1];
      FlowPrefix(init, k, start, limit);
      assert init[..k] == code[..k];
    }
  }

  /** At an instruction, the static flow steps without going wrong. */
  lemma StaticStep(p: Program, types: map<string, seq<nat>>, a: Activation)
    requires ProgramTyped(p, types) && Placed(p, types, a) && StaticFlow(p, types, a).At?
    requires a.pc < |BlocksOf(p, a.function_)[a.block]|
    ensures var next := StepFlow(StaticFlow(p, types, a), BlocksOf(p, a.function_)[a.block][a.pc], UINT64_MAX);
      && FlowOk(next, types[a.function_])
      && Placed(p, types, a.(pc := a.pc + 1)) && StaticFlow(p, types, a.(pc := a.pc + 1)) == next
  {
    hide FlowOf, StepFlow, EmitFunction;
    var code, start := BlocksOf(p, a.function_)[a.block], Start(a.block, types[a.function_]);
    assert code[..a.pc + 1] == code[..a.pc] + [code[a.pc]];
    FlowSnoc(code[..a.pc], code[a.pc], start, UINT64_MAX);
    FlowPrefix(code, a.pc + 1, start, UINT64_MAX);
    assert FlowOk(FlowOf(code, start, UINT64_MAX), types[a.function_]);
  }

  /** A block is entered at its static depth. */
  lemma BlockStart(p: Program, types: map<string, seq<nat>>, f: string, block: nat)
    requires f in p && f in types && |types[f]| == |BlocksOf(p, f)| && block < |BlocksOf(p, f)|
    ensures Placed(p, types, Activation(f, block, 0))
    ensures StaticFlow(p, types, Activation(f, block, 0)) == At(Start(block, types[f]))
  {
    hide FlowOf, EmitFunction;
    assert BlocksOf(p, f)[block][..0] == [];
    EmptyFlow(Start(block, types[f]), UINT64_MAX);
  }

  /** A runtime call changes only the innermost counter. */
  lemma OuterKept(p: Program, types: map<string, seq<nat>>, m: Machine, r: Machine)
    requires m.frames.Valid() && r.frames.Valid() && OuterAgree(p, types, m)
    requires |r.stack| == |m.stack| && m.stack != [] && r.stack[..|m.stack| - 1] == m.stack[..|m.stack| - 1]
    requires forall k | 0 < k < |m.stack| :: r.frames.scopes[k] == m.frames.scopes[k]
    ensures OuterAgree(p, types, r)
  {
    hide Waits;
    forall k | 0 <= k < |r.stack| - 1 ensures Waits(p, types, r.stack[k], r.frames.scopes[k + 1]) {
      assert r.stack[k] == r.stack[..|m.stack| - 1][k] == m.stack[k];
    }
  }

  /** The runtime operations: the static step justifies the counter's own check. */
  lemma RuntimeStep(p: Program, types: map<string, seq<nat>>, m: Machine, choice: bool)
    requires ProgramTyped(p, types) && Agrees(p, types, m) && AtInstruction(p, m)
    requires var i := Current(p, m); i.FrameEnter? || i.FrameExit? || i.ScopeEnter? || i.ScopeExit? || i.ScopeExitTo?
    ensures Expected(Step(p, m, choice))
    ensures Step(p, m, choice).Running? ==> Agrees(p, types, Step(p, m, choice).m)
  {
    hide FlowOf, EmitFunction, StaticFlow, Placed, ProgramTyped, BlocksTyped;
    var r := Step(p, m, choice);
    StaticStep(p, types, Top(m));
    if r.Running? {
      OuterKept(p, types, m, r.m);
      assert Top(r.m) == Top(m).(pc := Top(m).pc + 1);
    }
  }

  /** Branches land on a block whose static depth is the counter's value. */
  lemma BranchStep(p: Program, types: map<string, seq<nat>>, m: Machine, choice: bool)
    requires ProgramTyped(p, types) && Agrees(p, types, m) && AtInstruction(p, m)
    requires Current(p, m).Br? || Current(p, m).CondBr?
    ensures Step(p, m, choice).Running? && Agrees(p, types, Step(p, m, choice).m)
  {
    hide FlowOf, EmitFunction, StaticFlow, BlocksTyped;
    var r := Step(p, m, choice).m;
    StaticStep(p, types, Top(m));
    BlockStart(p, types, Top(m).function_, Top(r).block);
    OuterKept(p, types, m, r);
  }

  lemma CallStep(p: Program, types: map<string, seq<nat>>, m: Machine, choice: bool)
    requires ProgramTyped(p, types) && Agrees(p, types, m) && AtInstruction(p, m)
    requires Current(p, m).CallFunction? && Current(p, m).callee in p
    ensures Step(p, m, choice).Running? && Agrees(p, types, Step(p, m, choice).m)
  {
    hide FlowOf, EmitFunction, StaticFlow, BlocksTyped, Placed;
    var f := Current(p, m).callee;
    var r := Step(p, m, choice).m;
    StaticStep(p, types, Top(m));
    assert BlocksTyped(BlocksOf(p, f), types[f], UINT64_MAX) && |types[f]| == |BlocksOf(p, f)| by {
      TypedSize(BlocksOf(p, f), types[f]);
    }
    BlockStart(p, types, f, 0);
    var d := m.frames.Depth();
    forall k | 0 <= k < |r.stack| - 1 ensures Waits(p, types, r.stack[k], r.frames.scopes[k + 1]) {
      if k < |m.stack| - 1 { assert r.stack[k] == m.stack[k]; }
    }
  }

  lemma TypedSize(blocks: seq<Code>, depths: seq<nat>)
    requires BlocksTyped(blocks, depths, UINT64_MAX)
    ensures |depths| == |blocks|
  {
  }

  lemma ReturnStep(p: Program, types: map<string, seq<nat>>, m: Machine, choice: bool)
    requires ProgramTyped(p, types) && Agrees(p, types, m) && AtInstruction(p, m) && Current(p, m).Ret?
    ensures Step(p, m, choice).Running? && Agrees(p, types, Step(p, m, choice).m)
  {
    hide FlowOf, EmitFunction, StaticFlow, BlocksTyped, Placed;
    var r := Step(p, m, choice).m;
    StaticStep(p, types, Top(m));
    assert StaticFlow(p, types, Top(m)).phase == Left;
    if r.stack != [] {
      assert Waits(p, types, m.stack[|m.stack| - 2], m.frames.scopes[|m.stack| - 1]);
    }
    forall k | 0 <= k < |r.stack| - 1 ensures Waits(p, types, r.stack[k], r.frames.scopes[k + 1]) {
      assert r.stack[k] == m.stack[k];
    }
  }

  /** One step of a typed program: no counter fault, and the agreement is kept. */
  lemma StepAgrees(p: Program, types: map<string, seq<nat>>, m: Machine, choice: bool)
    requires ProgramTyped(p, types) && Agrees(p, types, m)
    ensures Expected(Step(p, m, choice))
    ensures Step(p, m, choice).Running? ==> Agrees(p, types, Step(p, m, choice).m)
  {
    hide FlowOf, EmitFunction, StaticFlow, BlocksTyped, ProgramTyped;
    if m.stack != [] && AtInstruction(p, m) {
      match Current(p, m)
      case Br(_) => BranchStep(p, types, m, choice);
      case CondBr(_, _) => BranchStep(p, types, m, choice);
      case Ret => ReturnStep(p, types, m, choice);
      case CallFunction(f) =>
        if f in p {
          CallStep(p, types, m, choice);
        } else {
          StraightStep(p, types, m, choice);
        }
      case Op(_) => StraightStep(p, types, m, choice);
      case ExitProcess =>
      case _ => RuntimeStep(p, types, m, choice);
    }
  }

  lemma StraightStep(p: Program, types: map<string, seq<nat>>, m: Machine, choice: bool)
    requires ProgramTyped(p, types) && Agrees(p, types, m) && AtInstruction(p, m)
    requires Current(p, m).Op? || (Current(p, m).CallFunction? && Current(p, m).callee !in p)
    ensures Step(p, m, choice).Running? && Agrees(p, types, Step(p, m, choice).m)
  {
    hide FlowOf, EmitFunction, StaticFlow, BlocksTyped, ProgramTyped, Placed;
    var r := Step(p, m, choice).m;
    StaticStep(p, types, Top(m));
    OuterKept(p, types, m, r);
    assert Top(r) == Top(m).(pc := Top(m).pc + 1);
  }

  // ------------------------------------------------------------- theorems

  lemma {:induction false} RunAgrees(p: Program, types: map<string, seq<nat>>, m: Machine, choices: seq<bool>)
    requires ProgramTyped(p, types) && Agrees(p, types, m)
    ensures Expected(Run(p, m, choices))
    ensures Run(p, m, choices).Running? ==> Agrees(p, types, Run(p, m, choices).m)
    decreases |choices|
  {
    hide Step, Agrees, ProgramTyped;
    if choices != [] {
      assert m.frames.Valid() by { AgreesValid(p, types, m); }
      StepAgrees(p, types, m, choices[0]);
      var r := Step(p, m, choices[0]);
      if r.Running? && m.stack != [] {
        RunAgrees(p, types, r.m, choices[1..]);
      }
    }
  }

  lemma AgreesValid(p: Program, types: map<string, seq<nat>>, m: Machine)
    requires Agrees(p, types, m)
    ensures m.frames.Valid()
  {
  }

  /** The static depth of each block, for each function of an accepted program. */
  ghost function StaticDepths(p: Program): (types: map<string, seq<nat>>)
    requires forall f | f in p :: Accepted(p[f])
  {
    map f | f in p :: DepthsOfFunction(p[f])
  }

  lemma StaticDepthsTyped(p: Program)
    requires forall f | f in p :: Accepted(p[f])
    ensures StaticDepths(p).Keys == p.Keys && forall f | f in p :: FunctionDepths(p[f], StaticDepths(p)[f])
  {
    hide EmitFunction, FlowOf, Accepted, FunctionDepths;
  }

  ghost function DepthsOfFunction(f: Function): (depths: seq<nat>)
    requires Accepted(f)
    ensures FunctionDepths(f, depths)
  {
    assert exists ds :: FunctionDepths(f, ds) by {
      var ds := FunctionTyped(f);
    }
    var ds :| FunctionDepths(f, ds);
    ds
  }

  lemma InitialAgrees(p: Program, entry: string)
    requires entry in p && forall f | f in p :: Accepted(p[f])
    ensures ProgramTyped(p, StaticDepths(p)) && Agrees(p, StaticDepths(p), Initial(entry))
  {
    hide EmitFunction, FlowOf, Accepted, StaticFlow, BlocksTyped;
    var types := StaticDepths(p);
    StaticDepthsTyped(p);
    assert FunctionDepths(p[entry], types[entry]);
    TypedSize(BlocksOf(p, entry), types[entry]);
    BlockStart(p, types, entry, 0);
  }

  /**
    Every run of every accepted program: the counters never fault, except that a call
    chain may exhaust the frame table, and the agreement holds wherever the run stands.
   */
  lemma CountersNeverFault(p: Program, entry: string, choices: seq<bool>)
    requires entry in p && forall f | f in p :: Accepted(p[f])
    ensures Expected(Run(p, Initial(entry), choices))
    ensures Run(p, Initial(entry), choices).Running? ==>
      Agrees(p, StaticDepths(p), Run(p, Initial(entry), choices).m)
  {
    hide Run, Agrees, ProgramTyped, Accepted;
    InitialAgrees(p, entry);
    RunAgrees(p, StaticDepths(p), Initial(entry), choices);
  }

  /** Whenever a block is entered, the run-time counter is the block's static depth. */
  lemma DepthAtBlockEntry(p: Program, entry: string, choices: seq<bool>)
    requires entry in p && forall f | f in p :: Accepted(p[f])
    requires Run(p, Initial(entry), choices).Running?
    ensures var m := Run(p, Initial(entry), choices).m;
      m.stack != [] && Top(m).pc == 0 && Top(m).block > 0 ==>
        && Top(m).function_ in p && Top(m).block < |StaticDepths(p)[Top(m).function_]|
        && m.frames.Valid() && m.frames.current == |m.stack|
        && m.frames.Depth() == StaticDepths(p)[Top(m).function_][Top(m).block]
  {
    hide Run, EmitFunction, FlowOf, StaticFlow, Accepted;
    CountersNeverFault(p, entry, choices);
    var m := Run(p, Initial(entry), choices).m;
    if m.stack != [] && Top(m).pc == 0 && Top(m).block > 0 {
      BlockStart(p, StaticDepths(p), Top(m).function_, Top(m).block);
    }
  }

  /** Returning from a call restores the caller's frame number and every live depth. */
  lemma CallRestoresCounters(p: Program, types: map<string, seq<nat>>, m: Machine, after: Machine)
    requires ProgramTyped(p, types) && Agrees(p, types, m) && Agrees(p, types, after)
    requires AtInstruction(p, m) && Current(p, m).CallFunction? && after.stack == Advance(m).stack
    ensures after.frames.current == m.frames.current == |m.stack|
    ensures forall k | 0 < k <= |m.stack| :: after.frames.scopes[k] == m.frames.scopes[k]
  {
    hide EmitFunction, FlowOf, StaticFlow, ProgramTyped, BlocksTyped, Placed;
    StaticStep(p, types, Top(m));
    assert Top(after) == Top(m).(pc := Top(m).pc + 1);
    forall k | 0 < k <= |m.stack| ensures after.frames.scopes[k] == m.frames.scopes[k] {
      if k < |m.stack| {
        assert Waits(p, types, m.stack[k - 1], m.frames.scopes[k - 1 + 1]);
        assert Waits(p, types, after.stack[k - 1], after.frames.scopes[k - 1 + 1]);
        assert after.stack[k - 1] == m.stack[k - 1];
      }
    }
  }
}
