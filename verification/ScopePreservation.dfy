/**
  The emitted blocks do what the structured statements do: for every run of a statement
  that comes to an end, the code leads from its start, or from a label's block, to where
  that run leaves it, with the same events and the same choices consumed; and when a run
  uses up its iterations, the code has not ended after as many steps.
 */
module ScopePreservation {
  import opened Basics
  import opened ScopeHir
  import opened ScopeShape
  import opened ScopeMeaning
  import opened ScopeFalls

  // ---------------------------------------------------------- runs of code

  /** From p to q, consuming choices and adding events, whatever happened before. */
  ghost predicate Goes(code: seq<Code>, p: Point, choices: seq<bool>, q: Point, left: seq<bool>, events: seq<Event>) {
    forall past: seq<Event> :: Leads(code, Config(p, choices, past), Config(q, left, past + events))
  }

  /** The same with at least one instruction. */
  ghost predicate Moves(code: seq<Code>, p: Point, choices: seq<bool>, q: Point, left: seq<bool>, events: seq<Event>) {
    forall past: seq<Event> :: Advances(code, Config(p, choices, past), Config(q, left, past + events))
  }

  /** No end is reached from p within n steps. */
  ghost predicate Lasts(code: seq<Code>, p: Point, choices: seq<bool>, n: nat) {
    forall past: seq<Event>, m: nat | m <= n :: Running(code, Config(p, choices, past), m)
  }

  lemma MovesGo(code: seq<Code>, p: Point, a: seq<bool>, q: Point, b: seq<bool>, events: seq<Event>)
    requires Moves(code, p, a, q, b, events)
    ensures Goes(code, p, a, q, b, events)
  {
    hide Advances, Leads;
    forall past: seq<Event> ensures Leads(code, Config(p, a, past), Config(q, b, past + events)) {
      AdvancesLeads(code, Config(p, a, past), Config(q, b, past + events));
    }
  }

  /** Whatever lasts from q on lasts from p on. */
  lemma LastsAfter(code: seq<Code>, p: Point, a: seq<bool>, q: Point, b: seq<bool>, events: seq<Event>, n: nat)
    requires Goes(code, p, a, q, b, events) && Lasts(code, q, b, n)
    ensures Lasts(code, p, a, n)
  {
    hide Running, Walk;
    forall past: seq<Event>, m: nat | m <= n ensures Running(code, Config(p, a, past), m) {
      var k: nat :| Walk(code, Config(p, a, past), k) == Some(Config(q, b, past + events));
      RunningBefore(code, Config(p, a, past), k, Config(q, b, past + events), n, m);
    }
  }

  /** And one step longer when the way takes a step. */
  lemma LastsLonger(code: seq<Code>, p: Point, a: seq<bool>, q: Point, b: seq<bool>, events: seq<Event>, n: nat)
    requires Moves(code, p, a, q, b, events) && Lasts(code, q, b, n)
    ensures Lasts(code, p, a, n + 1)
  {
    hide Running, Walk;
    forall past: seq<Event>, m: nat | m <= n + 1 ensures Running(code, Config(p, a, past), m) {
      assert Advances(code, Config(p, a, past), Config(q, b, past + events));
      var k: nat :| k > 0 && Walk(code, Config(p, a, past), k) == Some(Config(q, b, past + events));
      RunningBefore(code, Config(p, a, past), k, Config(q, b, past + events), n, m);
    }
  }

  /** Nothing has ended yet where control is still at an instruction. */
  lemma LastsNow(code: seq<Code>, p: Point, a: seq<bool>, q: Point, b: seq<bool>, events: seq<Event>)
    requires Goes(code, p, a, q, b, events) && q.At?
    ensures Lasts(code, p, a, 0)
  {
    hide Goes;
    LastsAfter(code, p, a, q, b, events, 0);
  }

  lemma MovesStep(code: seq<Code>, p: Point, a: seq<bool>, q: Point, b: seq<bool>, events: seq<Event>)
    requires forall past: seq<Event> :: Next(code, Config(p, a, past)) == Some(Config(q, b, past + events))
    ensures Moves(code, p, a, q, b, events)
  {
    forall past: seq<Event> ensures Advances(code, Config(p, a, past), Config(q, b, past + events)) {
      assert Walk(code, Config(p, a, past), 1) == Some(Config(q, b, past + events));
    }
  }

  /** First a possibly empty way. */
  lemma MovesOn(code: seq<Code>, p: Point, a: seq<bool>, q: Point, b: seq<bool>, r: Point, c: seq<bool>, first: seq<Event>, second: seq<Event>)
    requires Goes(code, p, a, q, b, first) && Moves(code, q, b, r, c, second)
    ensures Moves(code, p, a, r, c, first + second)
  {
    hide Leads, Advances;
    forall past: seq<Event> ensures Advances(code, Config(p, a, past), Config(r, c, past + (first + second))) {
      assert past + first + second == past + (first + second);
      LeadsAdvances(code, Config(p, a, past), Config(q, b, past + first), Config(r, c, past + first + second));
    }
  }

  lemma MovesAfter(code: seq<Code>, p: Point, a: seq<bool>, q: Point, b: seq<bool>, r: Point, c: seq<bool>, events: seq<Event>)
    requires Goes(code, p, a, q, b, []) && Moves(code, q, b, r, c, events)
    ensures Moves(code, p, a, r, c, events)
  {
    hide Goes, Moves;
    MovesOn(code, p, a, q, b, r, c, [], events);
    assert [] + events == events;
  }

  lemma MovesBefore(code: seq<Code>, p: Point, a: seq<bool>, q: Point, b: seq<bool>, r: Point, events: seq<Event>)
    requires Goes(code, p, a, q, b, events) && Moves(code, q, b, r, b, [])
    ensures Moves(code, p, a, r, b, events)
  {
    hide Goes, Moves;
    MovesOn(code, p, a, q, b, r, b, events, []);
    assert events + [] == events;
  }

  lemma GoesNowhere(code: seq<Code>, p: Point, choices: seq<bool>)
    ensures Goes(code, p, choices, p, choices, [])
  {
    forall past: seq<Event> ensures Leads(code, Config(p, choices, past), Config(p, choices, past + [])) {
      assert past + [] == past;
      LeadsNowhere(code, Config(p, choices, past));
    }
  }

  lemma GoesOn(code: seq<Code>, p: Point, a: seq<bool>, q: Point, b: seq<bool>, r: Point, c: seq<bool>, first: seq<Event>, second: seq<Event>)
    requires Goes(code, p, a, q, b, first) && Goes(code, q, b, r, c, second)
    ensures Goes(code, p, a, r, c, first + second)
  {
    hide Leads;
    forall past: seq<Event> ensures Leads(code, Config(p, a, past), Config(r, c, past + (first + second))) {
      assert past + first + second == past + (first + second);
      LeadsTrans(code, Config(p, a, past), Config(q, b, past + first), Config(r, c, past + first + second));
    }
  }

  /** First a silent move. */
  lemma GoesAfter(code: seq<Code>, p: Point, a: seq<bool>, q: Point, b: seq<bool>, r: Point, c: seq<bool>, events: seq<Event>)
    requires Goes(code, p, a, q, b, []) && Goes(code, q, b, r, c, events)
    ensures Goes(code, p, a, r, c, events)
  {
    hide Goes;
    GoesOn(code, p, a, q, b, r, c, [], events);
    assert [] + events == events;
  }

  /** Then a silent move. */
  lemma GoesBefore(code: seq<Code>, p: Point, a: seq<bool>, q: Point, b: seq<bool>, r: Point, events: seq<Event>)
    requires Goes(code, p, a, q, b, events) && Goes(code, q, b, r, b, [])
    ensures Goes(code, p, a, r, b, events)
  {
    hide Goes;
    GoesOn(code, p, a, q, b, r, b, events, []);
    assert events + [] == events;
  }

  /** One instruction with a given effect. */
  lemma GoesStep(code: seq<Code>, p: Point, a: seq<bool>, q: Point, b: seq<bool>, events: seq<Event>)
    requires forall past: seq<Event> :: Next(code, Config(p, a, past)) == Some(Config(q, b, past + events))
    ensures Goes(code, p, a, q, b, events)
  {
    forall past: seq<Event> ensures Leads(code, Config(p, a, past), Config(q, b, past + events)) {
      LeadsNext(code, Config(p, a, past));
    }
  }

  // ------------------------------------------------------- emitted positions

  ghost predicate Within(e: State, code: seq<Code>) {
    |e.blocks| <= |code| && forall b | 0 <= b < |e.blocks| :: e.blocks[b] <= code[b]
  }

  lemma WithinBack(e: State, r: State, code: seq<Code>)
    requires Appends(e, r) && Within(r, code)
    ensures Within(e, code)
  {
    forall b | 0 <= b < |e.blocks| ensures e.blocks[b] <= code[b] {
      assert e.blocks[b] <= r.blocks[b] <= code[b];
    }
  }

  /** The insertion point, with the scope counter at `depth`. */
  function PointAt(e: State, depth: nat): Point
    requires e.current < |e.blocks|
  {
    At(e.current, |e.blocks[e.current]|, depth)
  }

  /** The insertion point, with the counter where the emitter takes it to be. */
  function PointOf(e: State): Point
    requires e.current < |e.blocks|
  {
    PointAt(e, e.depth)
  }

  lemma StartPoint(e: State)
    requires AtStart(e)
    ensures e.current < |e.blocks| && PointOf(e) == At(e.current, 0, e.depth)
  {
  }

  lemma InstrAt(e: State, i: Instr, code: seq<Code>)
    requires e.current < |e.blocks| && Within(e.Emit(i), code)
    ensures e.current < |code| && |e.blocks[e.current]| < |code[e.current]| && code[e.current][|e.blocks[e.current]|] == i
    ensures e.Emit(i).current == e.current < |e.Emit(i).blocks| && |e.Emit(i).blocks[e.current]| == |e.blocks[e.current]| + 1
  {
    assert e.Emit(i).blocks[e.current] == e.blocks[e.current] + [i];
    assert e.Emit(i).blocks[e.current][|e.blocks[e.current]|] == i;
  }

  predicate IsSilent(i: Instr) {
    i.FrameEnter? || i.FrameExit? || i.ScopeEnter? || i.ScopeExit? || i.ScopeExitTo?
  }

  /** Where a scope or frame call takes the counter. */
  function Moved(i: Instr, depth: nat): nat {
    match i
    case FrameEnter => 0
    case ScopeEnter => depth + 1
    case ScopeExit => if depth > 0 then depth - 1 else 0
    case ScopeExitTo(target) => target
    case _ => depth
  }

  lemma SilentStep(e: State, i: Instr, depth: nat, code: seq<Code>, choices: seq<bool>)
    requires e.current < |e.blocks| && Within(e.Emit(i), code) && IsSilent(i)
    ensures e.Emit(i).current < |e.Emit(i).blocks|
    ensures Goes(code, PointAt(e, depth), choices, PointAt(e.Emit(i), Moved(i, depth)), choices, [])
  {
    hide Goes, Within;
    InstrAt(e, i, code);
    var p, q := PointAt(e, depth), PointAt(e.Emit(i), Moved(i, depth));
    forall past: seq<Event> ensures Next(code, Config(p, choices, past)) == Some(Config(q, choices, past + [])) {
      assert past + [] == past;
    }
    GoesStep(code, p, choices, q, choices, []);
  }

  lemma EventStep(e: State, i: Instr, event: Event, code: seq<Code>, choices: seq<bool>)
    requires e.current < |e.blocks| && Within(e.Emit(i), code)
    requires (i.Op? && event == Did(i.id, e.depth)) || (i.CallFunction? && event == Called(i.callee, e.depth))
    ensures e.Emit(i).current < |e.Emit(i).blocks|
    ensures Goes(code, PointOf(e), choices, PointOf(e.Emit(i)), choices, [event])
  {
    hide Goes, Within;
    InstrAt(e, i, code);
    GoesStep(code, PointOf(e), choices, PointOf(e.Emit(i)), choices, [event]);
  }

  /** A branch, a return or the end of the process. */
  lemma LeaveStep(e: State, i: Instr, depth: nat, q: Point, code: seq<Code>, choices: seq<bool>)
    requires e.current < |e.blocks| && Within(e.Emit(i), code)
    requires (i.Br? && q == At(i.block, 0, depth)) || (i.Ret? && q == Done(depth)) || (i.ExitProcess? && q == Exited(depth))
    ensures Moves(code, PointAt(e, depth), choices, q, choices, []) && Goes(code, PointAt(e, depth), choices, q, choices, [])
  {
    hide Goes, Moves, Within;
    InstrAt(e, i, code);
    forall past: seq<Event>
      ensures Next(code, Config(PointAt(e, depth), choices, past)) == Some(Config(q, choices, past + []))
    {
      assert past + [] == past;
    }
    MovesStep(code, PointAt(e, depth), choices, q, choices, []);
    MovesGo(code, PointAt(e, depth), choices, q, choices, []);
  }

  /** A choice with no choices left ends nothing. */
  lemma ChoiceStops(e: State, yes: nat, no: nat, code: seq<Code>, n: nat)
    requires e.current < |e.blocks| && Within(e.Emit(CondBr(yes, no)), code)
    ensures Lasts(code, PointOf(e), [], n)
  {
    InstrAt(e, CondBr(yes, no), code);
  }

  lemma ChoiceStep(e: State, yes: nat, no: nat, code: seq<Code>, choices: seq<bool>)
    requires e.current < |e.blocks| && Within(e.Emit(CondBr(yes, no)), code) && choices != []
    ensures Goes(code, PointOf(e), choices, At(if choices[0] then yes else no, 0, e.depth), choices[1..], [])
  {
    hide Goes, Within;
    InstrAt(e, CondBr(yes, no), code);
    var q := At(if choices[0] then yes else no, 0, e.depth);
    forall past: seq<Event>
      ensures Next(code, Config(PointOf(e), choices, past)) == Some(Config(q, choices[1..], past + []))
    {
      assert past + [] == past;
    }
    GoesStep(code, PointOf(e), choices, q, choices[1..], []);
  }

  lemma JoinStep(e: State, block: nat, code: seq<Code>, choices: seq<bool>)
    requires e.current < |e.blocks| && !e.Terminated() && Within(e.BrUnlessTerminated(block), code)
    ensures Moves(code, PointOf(e), choices, At(block, 0, e.depth), choices, []) && Goes(code, PointOf(e), choices, At(block, 0, e.depth), choices, [])
  {
    hide Goes, Moves, Within;
    LeaveStep(e, Br(block), e.depth, At(block, 0, e.depth), code, choices);
  }

  /** Leaving scopes, if any are to be left, and then an instruction that leaves the block. */
  lemma ExitStep(e: State, target: nat, i: Instr, q: Point, code: seq<Code>, choices: seq<bool>)
    requires Sound(e) && Within(e.ExitTo(target).Emit(i), code) && target <= e.depth
    requires (i.Br? && q == At(i.block, 0, target)) || (i.Ret? && q == Done(target)) || (i.ExitProcess? && q == Exited(target))
    ensures Moves(code, PointOf(e), choices, q, choices, []) && Goes(code, PointOf(e), choices, q, choices, [])
  {
    hide Goes, Moves, Within, Appends;
    if e.depth > target {
      var left := e.Emit(ScopeExitTo(target));
      EmitShape(e, ScopeExitTo(target));
      ShapeSound(e, left, {});
      EmitShape(left, i);
      ShapeBounds(left, left.Emit(i), {});
      WithinBack(left, left.Emit(i), code);
      SilentStep(e, ScopeExitTo(target), e.depth, code, choices);
      LeaveStep(left, i, target, q, code, choices);
      MovesAfter(code, PointOf(e), choices, PointAt(left, target), choices, q, choices, []);
      MovesGo(code, PointOf(e), choices, q, choices, []);
    } else {
      LeaveStep(e, i, e.depth, q, code, choices);
    }
  }

  lemma ShapeSound(e: State, r: State, names: set<string>)
    requires Sound(e) && Shape(e, r, names)
    ensures Sound(r)
  {
  }

  // ---------------------------------------------------------------- the goal

  function ContextOf(e: State): Context {
    Context(e.catches != [], e.staticActive, e.depth)
  }

  /** The block of a label, at the depth recorded for it. */
  function LabelPoint(e: State, name: string): Point {
    At(if name in e.labelBlocks then e.labelBlocks[name] else 0, 0, if name in e.labelDepths then e.labelDepths[name] else 0)
  }

  function StartOf(e: State, mode: Mode): Point
    requires e.current < |e.blocks|
  {
    match mode
    case Enter => PointOf(e)
    case Seek(name) => LabelPoint(e, name)
  }

  /** Where control goes when a statement emitted from e to r is left this way. */
  function EndOf(e: State, r: State, exit: Exit): Point
    requires r.current < |r.blocks|
  {
    match exit
    case Fell => PointOf(r)
    case Broke => if e.loops == [] then Done(0) else At(e.loops[|e.loops| - 1].breakBlock, 0, e.loops[|e.loops| - 1].breakDepth)
    case Continued => if e.loops == [] then Done(0) else At(e.loops[|e.loops| - 1].continueBlock, 0, e.loops[|e.loops| - 1].continueDepth)
    case Jumped(name) => LabelPoint(e, name)
    case Thrown => if e.catches == [] then Done(0) else At(e.catches[|e.catches| - 1].catchBlock, 0, e.catches[|e.catches| - 1].depth)
    case Returned => Done(0)
    case Quit => Exited(0)
    case Spent => Done(0)
  }

  /** There is somewhere to break, continue, throw or jump to. */
  predicate Proper(e: State, exit: Exit) {
    && (exit.Broke? || exit.Continued? ==> e.loops != [])
    && (exit.Thrown? ==> e.catches != [])
    && (exit.Jumped? ==> exit.name in e.labelBlocks)
  }

  /**
    The code from p does what the run says, ending as after emission from e to r; when
    the run is spent, it reaches no end within as many steps as there was fuel.
   */
  ghost predicate Does(code: seq<Code>, p: Point, choices: seq<bool>, run: Run, e: State, r: State, fuel: nat) {
    if run.exit.Spent? then Lasts(code, p, choices, fuel)
    else
      && r.current < |r.blocks| && (run.exit.Fell? ==> !r.Terminated()) && Proper(e, run.exit)
      && Goes(code, p, choices, EndOf(e, r, run.exit), run.choices, run.events)
      && (!run.exit.Fell? ==> Moves(code, p, choices, EndOf(e, r, run.exit), run.choices, run.events))
  }

  /** Break, continue and throw lead outward, and every label has a recorded depth. */
  ghost predicate Placed(e: State) {
    && e.labelDepths.Keys == e.labelBlocks.Keys
    && (forall i | 0 <= i < |e.loops| :: e.loops[i].breakDepth <= e.depth && e.loops[i].continueDepth <= e.depth)
    && (forall i | 0 <= i < |e.catches| :: e.catches[i].depth <= e.depth)
  }

  lemma PlacedSame(e: State, x: State)
    requires Placed(e) && SameTargets(e, x) && e.depth <= x.depth
    ensures Placed(x)
  {
  }

  /** A run may begin here: at an open block, or at a label of the statement. */
  ghost predicate Startable(e: State, mode: Mode, names: set<string>) {
    match mode
    case Enter => !e.Terminated()
    case Seek(name) => name in names && name in e.labelBlocks
  }

  /** A silent move to the beginning. */
  lemma DoesAfter(code: seq<Code>, p: Point, a: seq<bool>, q: Point, b: seq<bool>, run: Run, e: State, r: State, fuel: nat)
    requires Goes(code, p, a, q, b, []) && Does(code, q, b, run, e, r, fuel)
    ensures Does(code, p, a, run, e, r, fuel)
  {
    hide Goes, Moves, Lasts;
    if run.exit.Spent? {
      LastsAfter(code, p, a, q, b, [], fuel);
    } else {
      var end := EndOf(e, r, run.exit);
      GoesAfter(code, p, a, q, b, end, run.choices, run.events);
      if !run.exit.Fell? {
        MovesAfter(code, p, a, q, b, end, run.choices, run.events);
      }
    }
  }

  /** A run that does not fall through ends the same way in an enclosing construct. */
  lemma DoesOutside(code: seq<Code>, p: Point, a: seq<bool>, run: Run, e: State, r: State, e': State, r': State, fuel: nat)
    requires Does(code, p, a, run, e, r, fuel) && !run.exit.Fell? && r.current < |r.blocks| && r'.current < |r'.blocks|
    requires Proper(e, run.exit) ==> Proper(e', run.exit) && EndOf(e, r, run.exit) == EndOf(e', r', run.exit)
    ensures Does(code, p, a, run, e', r', fuel)
  {
    hide Goes, Moves, Lasts;
  }

  /** A run that falls through, followed by a silent move to the end of the construct. */
  lemma DoesThrough(code: seq<Code>, p: Point, a: seq<bool>, run: Run, e: State, r: State, e': State, r': State, fuel: nat)
    requires Does(code, p, a, run, e, r, fuel) && run.exit.Fell? && r.current < |r.blocks| && r'.current < |r'.blocks| && !r'.Terminated()
    requires Goes(code, PointOf(r), run.choices, PointOf(r'), run.choices, [])
    ensures Does(code, p, a, run, e', r', fuel)
  {
    hide Goes, Moves;
    GoesBefore(code, p, a, PointOf(r), run.choices, PointOf(r'), run.events);
  }

  /** One run and then another from where it ends. */
  lemma DoesThen(code: seq<Code>, p: Point, a: seq<bool>, first: Run, q: Point, second: Run, e: State, r: State, fuel: nat)
    requires Goes(code, p, a, q, first.choices, first.events) && Does(code, q, first.choices, second, e, r, fuel)
    ensures Does(code, p, a, first.Then(second), e, r, fuel)
  {
    hide Goes, Moves, Lasts;
    if second.exit.Spent? {
      LastsAfter(code, p, a, q, first.choices, first.events, fuel);
    } else {
      var end := EndOf(e, r, second.exit);
      GoesOn(code, p, a, q, first.choices, end, second.choices, first.events, second.events);
      if !second.exit.Fell? {
        MovesOn(code, p, a, q, first.choices, end, second.choices, first.events, second.events);
      }
    }
  }

  /** One run and then, with less fuel, a repetition. */
  lemma DoesAgain(code: seq<Code>, p: Point, a: seq<bool>, first: Run, q: Point, second: Run, e: State, r: State, fuel: nat)
    requires Moves(code, p, a, q, first.choices, first.events) && Does(code, q, first.choices, second, e, r, fuel)
    ensures Does(code, p, a, first.Then(second), e, r, fuel + 1)
  {
    hide Goes, Moves, Lasts;
    if second.exit.Spent? {
      LastsLonger(code, p, a, q, first.choices, first.events, fuel);
    } else {
      MovesGo(code, p, a, q, first.choices, first.events);
      DoesThen(code, p, a, first, q, second, e, r, fuel);
    }
  }
}
