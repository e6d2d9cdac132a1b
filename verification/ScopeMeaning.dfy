/**
  What structured statements do, and what the emitted blocks do, as sequences of events.
  Conditions are choices; both sides consume them in the same order. Every event carries
  the scope depth it happens at: for statements the number of open blocks around it, for
  the code the counter that its scope calls move. That those calls never fail is the
  subject of ScopeMachine.
 */
module ScopeMeaning {
  import opened Basics
  import opened ScopeHir
  import opened ScopeLabels

  datatype Event = Did(id: nat, depth: nat) | Called(callee: string, depth: nat)

  // --------------------------------------------------- structured statements

  /** Run a statement from its start, or from a label inside it. */
  datatype Mode = Enter | Seek(name: string)

  /** How control leaves a statement; Spent means out of fuel or choices. */
  datatype Exit = Fell | Broke | Continued | Jumped(name: string) | Thrown | Returned | Quit | Spent

  datatype Run = Run(exit: Exit, choices: seq<bool>, events: seq<Event>) {
    /** The events of both, and the end of the second. */
    function Then(next: Run): Run {
      Run(next.exit, next.choices, events + next.events)
    }

    function With(e: Exit): Run {
      Run(e, choices, events)
    }
  }

  function Empty(exit: Exit, choices: seq<bool>): Run {
    Run(exit, choices, [])
  }

  /** Whether a throw has a handler, whether a static initialisation is under way, and the open scopes. */
  datatype Context = Context(guarded: bool, inStatic: bool, depth: nat) {
    function Inside(scopes: nat): Context {
      this.(depth := depth + scopes)
    }
  }

  function Exec(s: Stmt, mode: Mode, choices: seq<bool>, c: Context, fuel: nat): Run
    decreases fuel, s, 4
  {
    match s
    case Plain(id) => Run(Fell, choices, [Did(id, c.depth)])
    case Call(callee) => Run(Fell, choices, [Called(callee, c.depth)])
    case Return => Empty(Returned, choices)
    case Break => Empty(Broke, choices)
    case Continue => Empty(Continued, choices)
    case Goto(name) => Empty(Jumped(name), choices)
    case If(t, hasElse, f) =>
      if mode.Seek? then ExecAll(if mode.name in LabelsOf(t) then t else f, mode, choices, c.Inside(1), fuel)
      else if choices == [] then Empty(Spent, [])
      else if choices[0] then ExecAll(t, Enter, choices[1..], c.Inside(1), fuel)
      else if hasElse then ExecAll(f, Enter, choices[1..], c.Inside(1), fuel)
      else Empty(Fell, choices[1..])
    case While(body) =>
      if mode.Seek? then AfterWhile(s, ExecAll(body, mode, choices, c.Inside(1), fuel), c, fuel)
      else if choices == [] then Empty(Spent, [])
      else if !choices[0] then Empty(Fell, choices[1..])
      else AfterWhile(s, ExecAll(body, Enter, choices[1..], c.Inside(1), fuel), c, fuel)
    case For(init, _, post, body) =>
      if mode.Seek? && !(init.Some? && mode.name in Labels(init.value)) then
        if mode.name in LabelsOf(body) then ForAfterBody(s, ExecAll(body, mode, choices, c.Inside(2), fuel), c, fuel)
        else ForAfterPost(s, ExecAll(post, mode, choices, c.Inside(1), fuel), c, fuel)
      else
        var start := if init.Some? then Exec(init.value, mode, choices, c.Inside(1), fuel) else Empty(Fell, choices);
        if start.exit.Fell? then start.Then(ForTest(s, start.choices, c, fuel)) else start
    case Label(name, statement) => Exec(statement, if mode == Seek(name) then Enter else mode, choices, c, fuel)
    case Throw(_, _, delivery) =>
      if !c.guarded then Empty(Quit, choices)
      else if delivery.None? then Empty(Spent, [])
      else
        var delivered := Exec(delivery.value, Enter, choices, c, fuel);
        if delivered.exit.Fell? then delivered.With(Thrown) else delivered
    case TryCatch(_, t, handler) =>
      if mode.Seek? && mode.name !in LabelsOf(t) then ExecAll(handler, mode, choices, c.Inside(1), fuel)
      else
        var tried := ExecAll(t, mode, choices, c.(guarded := true).Inside(1), fuel);
        if tried.exit.Thrown? then tried.Then(ExecAll(handler, Enter, tried.choices, c.Inside(1), fuel)) else tried
    case StatementList(ss) => ExecAll(ss, mode, choices, c, fuel)
    case StaticInit(statement) =>
      if c.inStatic || mode.Seek? then Exec(statement, mode, choices, c.(inStatic := true), fuel)
      else if choices == [] then Empty(Spent, [])
      else if choices[0] then Empty(Fell, choices[1..])
      else Exec(statement, Enter, choices[1..], c.(inStatic := true), fuel)
  }

  function ExecAll(ss: seq<Stmt>, mode: Mode, choices: seq<bool>, c: Context, fuel: nat): Run
    decreases fuel, ss, 3
  {
    if ss == [] then (if mode.Enter? then Empty(Fell, choices) else Empty(Spent, []))
    else if mode.Seek? && mode.name !in Labels(ss[0]) then ExecAll(ss[1..], mode, choices, c, fuel)
    else
      var first := Exec(ss[0], mode, choices, c, fuel);
      if first.exit.Fell? then first.Then(ExecAll(ss[1..], Enter, first.choices, c, fuel)) else first
  }

  /** The body of a while loop has run once. */
  function AfterWhile(s: Stmt, body: Run, c: Context, fuel: nat): Run
    decreases fuel, s, 0
  {
    if body.exit.Fell? || body.exit.Continued? then
      if fuel == 0 then Empty(Spent, []) else body.Then(Exec(s, Enter, body.choices, c, fuel - 1))
    else if body.exit.Broke? then body.With(Fell)
    else body
  }

  function ForTest(s: Stmt, choices: seq<bool>, c: Context, fuel: nat): Run
    requires s.For?
    decreases fuel, s, 3
  {
    if !s.conditional then ForAfterBody(s, ExecAll(s.body, Enter, choices, c.Inside(2), fuel), c, fuel)
    else if choices == [] then Empty(Spent, [])
    else if !choices[0] then Empty(Fell, choices[1..])
    else ForAfterBody(s, ExecAll(s.body, Enter, choices[1..], c.Inside(2), fuel), c, fuel)
  }

  function ForAfterBody(s: Stmt, body: Run, c: Context, fuel: nat): Run
    requires s.For?
    decreases fuel, s, 2
  {
    if body.exit.Fell? || body.exit.Continued? then
      body.Then(ForAfterPost(s, ExecAll(s.post, Enter, body.choices, c.Inside(1), fuel), c, fuel))
    else if body.exit.Broke? then body.With(Fell)
    else body
  }

  /** A continue among the post statements starts them again. */
  function ForAfterPost(s: Stmt, post: Run, c: Context, fuel: nat): Run
    requires s.For?
    decreases fuel, s, 1
  {
    if post.exit.Broke? then post.With(Fell)
    else if !post.exit.Fell? && !post.exit.Continued? then post
    else if fuel == 0 then Empty(Spent, [])
    else if post.exit.Fell? then post.Then(ForTest(s, post.choices, c, fuel - 1))
    else post.Then(ForAfterPost(s, ExecAll(s.post, Enter, post.choices, c.Inside(1), fuel - 1), c, fuel - 1))
  }

  /** A function body: a jump restarts it at the label; falling off the end returns. */
  function ExecBody(body: seq<Stmt>, mode: Mode, choices: seq<bool>, fuel: nat): Run
    decreases fuel
  {
    var r := ExecAll(body, mode, choices, Context(false, false, 1), fuel);
    if r.exit.Fell? then r.With(Returned)
    else if !r.exit.Jumped? then r
    else if fuel == 0 then Empty(Spent, [])
    else r.Then(ExecBody(body, Seek(r.exit.name), r.choices, fuel - 1))
  }

  // ---------------------------------------------------------- emitted blocks

  /** An instruction, or the end of the function or the process, and the scope counter there. */
  datatype Point = At(block: nat, pc: nat, depth: nat) | Done(depth: nat) | Exited(depth: nat)

  datatype Config = Config(point: Point, choices: seq<bool>, events: seq<Event>)

  /** One instruction of the emitted code within its frame. */
  function Next(code: seq<Code>, c: Config): Option<Config> {
    if !c.point.At? || c.point.block >= |code| || c.point.pc >= |code[c.point.block]| then None
    else
      var depth := c.point.depth;
      var on := c.(point := At(c.point.block, c.point.pc + 1, depth));
      match code[c.point.block][c.point.pc]
      case Op(id) => Some(on.(events := c.events + [Did(id, depth)]))
      case CallFunction(callee) => Some(on.(events := c.events + [Called(callee, depth)]))
      case Br(block) => Some(c.(point := At(block, 0, depth)))
      case CondBr(yes, no) =>
        if c.choices == [] then None
        else Some(c.(point := At(if c.choices[0] then yes else no, 0, depth), choices := c.choices[1..]))
      case Ret => Some(c.(point := Done(depth)))
      case ExitProcess => Some(c.(point := Exited(depth)))
      case FrameEnter => Some(c.(point := At(c.point.block, c.point.pc + 1, 0)))
      case ScopeEnter => Some(c.(point := At(c.point.block, c.point.pc + 1, depth + 1)))
      case ScopeExit => Some(c.(point := At(c.point.block, c.point.pc + 1, if depth > 0 then depth - 1 else 0)))
      case ScopeExitTo(target) => Some(c.(point := At(c.point.block, c.point.pc + 1, target)))
      case FrameExit => Some(on)
  }

  function Walk(code: seq<Code>, c: Config, steps: nat): Option<Config>
    decreases steps
  {
    if steps == 0 then Some(c)
    else
      match Next(code, c)
      case None => None
      case Some(d) => Walk(code, d, steps - 1)
  }

  ghost predicate Leads(code: seq<Code>, a: Config, b: Config) {
    exists n: nat :: Walk(code, a, n) == Some(b)
  }

  /** With at least one instruction. */
  ghost predicate Advances(code: seq<Code>, a: Config, b: Config) {
    exists n: nat :: n > 0 && Walk(code, a, n) == Some(b)
  }

  /** No end has been reached after n steps. */
  ghost predicate Running(code: seq<Code>, a: Config, n: nat) {
    var b := Walk(code, a, n);
    b.Some? ==> b.value.point.At?
  }

  lemma LeadsNowhere(code: seq<Code>, a: Config)
    ensures Leads(code, a, a)
  {
    assert Walk(code, a, 0) == Some(a);
  }

  lemma LeadsNext(code: seq<Code>, a: Config)
    requires Next(code, a).Some?
    ensures Leads(code, a, Next(code, a).value)
  {
    assert Walk(code, a, 1) == Some(Next(code, a).value);
  }

  lemma {:induction false} WalkOn(code: seq<Code>, a: Config, m: nat, n: nat)
    requires Walk(code, a, m).Some?
    ensures Walk(code, a, m + n) == Walk(code, Walk(code, a, m).value, n)
    decreases m
  {
    hide Next;
    if m > 0 {
      WalkOn(code, Next(code, a).value, m - 1, n);
    }
  }

  lemma LeadsTrans(code: seq<Code>, a: Config, b: Config, c: Config)
    requires Leads(code, a, b) && Leads(code, b, c)
    ensures Leads(code, a, c)
  {
    hide Next;
    var m: nat :| Walk(code, a, m) == Some(b);
    var n: nat :| Walk(code, b, n) == Some(c);
    WalkOn(code, a, m, n);
  }

  lemma AdvancesLeads(code: seq<Code>, a: Config, b: Config)
    requires Advances(code, a, b)
    ensures Leads(code, a, b)
  {
    hide Walk;
    var n: nat :| Walk(code, a, n) == Some(b);
  }

  lemma LeadsAdvances(code: seq<Code>, a: Config, b: Config, c: Config)
    requires Leads(code, a, b) && Advances(code, b, c)
    ensures Advances(code, a, c)
  {
    hide Next;
    var m: nat :| Walk(code, a, m) == Some(b);
    var n: nat :| n > 0 && Walk(code, b, n) == Some(c);
    WalkOn(code, a, m, n);
  }

  /** No end lies before b, and none within n steps after it. */
  lemma RunningBefore(code: seq<Code>, a: Config, k: nat, b: Config, n: nat, m: nat)
    requires Walk(code, a, k) == Some(b) && m <= n + k && forall j: nat | j <= n :: Running(code, b, j)
    ensures Running(code, a, m)
  {
    hide Next;
    if k <= m {
      WalkOn(code, a, k, m - k);
      assert Running(code, b, m - k);
    } else if Walk(code, a, m).Some? {
      WalkOn(code, a, m, k - m);
      var c := Walk(code, a, m).value;
      if !c.point.At? {
        Ended(code, c, k - m);
      }
    }
  }

  /** The code determines its run: two finished runs from one start are the same. */
  lemma FinishedIsUnique(code: seq<Code>, a: Config, b: Config, c: Config)
    requires Leads(code, a, b) && Leads(code, a, c) && !b.point.At? && !c.point.At?
    ensures b == c
  {
    hide Next;
    var m: nat :| Walk(code, a, m) == Some(b);
    var n: nat :| Walk(code, a, n) == Some(c);
    if m <= n {
      WalkOn(code, a, m, n - m);
      Ended(code, b, n - m);
    } else {
      WalkOn(code, a, n, m - n);
      Ended(code, c, m - n);
    }
  }

  lemma Ended(code: seq<Code>, a: Config, n: nat)
    requires !a.point.At? && Walk(code, a, n).Some?
    ensures n == 0
  {
  }
}
