/**
  Labels of a statement, their static depths, and the agreement between the depths
  collectLabels records and the depths the emitter is at when it reaches a label.
 */
module ScopeLabels {
  import opened ScopeHir

  function Labels(s: Stmt): set<string>
    decreases s, 1
  {
    match s
    case If(t, hasElse, f) => LabelsOf(t) + (if hasElse then LabelsOf(f) else {})
    case While(body) => LabelsOf(body)
    case For(init, _, post, body) =>
      (if init.Some? then Labels(init.value) else {}) + LabelsOf(post) + LabelsOf(body)
    case Label(name, statement) => {name} + Labels(statement)
    case Throw(_, _, delivery) => if delivery.Some? then Labels(delivery.value) else {}
    case TryCatch(_, t, c) => LabelsOf(t) + LabelsOf(c)
    case StatementList(ss) => LabelsOf(ss)
    case StaticInit(statement) => Labels(statement)
    case _ => {}
  }

  function LabelsOf(ss: seq<Stmt>): set<string>
    decreases ss, 0
  {
    if ss == [] then {} else Labels(ss[0]) + LabelsOf(ss[1..])
  }

  /** No label is declared twice, which semantic analysis enforces per function. */
  predicate Distinct(s: Stmt)
    decreases s, 1
  {
    match s
    case If(t, hasElse, f) => DistinctAll(t) && (hasElse ==> DistinctAll(f) && LabelsOf(t) !! LabelsOf(f))
    case While(body) => DistinctAll(body)
    case For(init, _, post, body) =>
      && (init.Some? ==> Distinct(init.value) && Labels(init.value) !! LabelsOf(post) + LabelsOf(body))
      && DistinctAll(post) && DistinctAll(body) && LabelsOf(post) !! LabelsOf(body)
    case Label(name, statement) => name !in Labels(statement) && Distinct(statement)
    case Throw(_, _, delivery) => delivery.Some? ==> Distinct(delivery.value)
    case TryCatch(_, t, c) => DistinctAll(t) && DistinctAll(c) && LabelsOf(t) !! LabelsOf(c)
    case StatementList(ss) => DistinctAll(ss)
    case StaticInit(statement) => Distinct(statement)
    case _ => true
  }

  predicate DistinctAll(ss: seq<Stmt>)
    decreases ss, 0
  {
    ss == [] || (Distinct(ss[0]) && DistinctAll(ss[1..]) && Labels(ss[0]) !! LabelsOf(ss[1..]))
  }

  /** Every label of s that has a recorded depth has the depth it occurs at. */
  predicate DepthsOk(s: Stmt, d: nat, m: map<string, nat>)
    decreases s, 1
  {
    match s
    case If(t, hasElse, f) => DepthsAllOk(t, d + 1, m) && (hasElse ==> DepthsAllOk(f, d + 1, m))
    case While(body) => DepthsAllOk(body, d + 1, m)
    case For(init, _, post, body) =>
      && (init.Some? ==> DepthsOk(init.value, d + 1, m))
      && DepthsAllOk(post, d + 1, m) && DepthsAllOk(body, d + 2, m)
    case Label(name, statement) => (name in m ==> m[name] == d) && DepthsOk(statement, d, m)
    case Throw(_, _, delivery) => delivery.Some? ==> DepthsOk(delivery.value, d, m)
    case TryCatch(_, t, c) => DepthsAllOk(t, d + 1, m) && DepthsAllOk(c, d + 1, m)
    case StatementList(ss) => DepthsAllOk(ss, d, m)
    case StaticInit(statement) => DepthsOk(statement, d, m)
    case _ => true
  }

  predicate DepthsAllOk(ss: seq<Stmt>, d: nat, m: map<string, nat>)
    decreases ss, 0
  {
    ss == [] || (DepthsOk(ss[0], d, m) && DepthsAllOk(ss[1..], d, m))
  }

  /** How many scopes a statement opens at most on top of its own depth. */
  function Nesting(s: Stmt): nat
    decreases s, 1
  {
    match s
    case If(t, hasElse, f) => 1 + Max(NestingOf(t), if hasElse then NestingOf(f) else 0)
    case While(body) => 1 + NestingOf(body)
    case For(init, _, post, body) =>
      1 + Max(if init.Some? then Nesting(init.value) else 0, Max(NestingOf(post), 1 + NestingOf(body)))
    case Label(_, statement) => Nesting(statement)
    case Throw(_, _, delivery) => if delivery.Some? then Nesting(delivery.value) else 0
    case TryCatch(_, t, c) => 1 + Max(NestingOf(t), NestingOf(c))
    case StatementList(ss) => NestingOf(ss)
    case StaticInit(statement) => Nesting(statement)
    case _ => 0
  }

  function NestingOf(ss: seq<Stmt>): nat
    decreases ss, 0
  {
    if ss == [] then 0 else Max(Nesting(ss[0]), NestingOf(ss[1..]))
  }

  function Max(a: nat, b: nat): nat {
    if a >= b then a else b
  }

  // -------------------------------------------- DepthsOk sees only its labels

  /** Two depth maps that agree on a set of labels. */
  ghost predicate AgreeOn(names: set<string>, m: map<string, nat>, m': map<string, nat>) {
    forall l | l in names :: (l in m <==> l in m') && (l in m ==> m[l] == m'[l])
  }

  lemma {:induction false} DepthsOkAgree(s: Stmt, d: nat, m: map<string, nat>, m': map<string, nat>)
    requires DepthsOk(s, d, m) && AgreeOn(Labels(s), m, m')
    ensures DepthsOk(s, d, m')
    decreases s, 1
  {
    match s
    case If(t, hasElse, f) =>
      DepthsAllOkAgree(t, d + 1, m, m');
      if hasElse { DepthsAllOkAgree(f, d + 1, m, m'); }
    case While(body) => DepthsAllOkAgree(body, d + 1, m, m');
    case For(init, _, post, body) =>
      if init.Some? { DepthsOkAgree(init.value, d + 1, m, m'); }
      DepthsAllOkAgree(post, d + 1, m, m');
      DepthsAllOkAgree(body, d + 2, m, m');
    case Label(_, statement) => DepthsOkAgree(statement, d, m, m');
    case Throw(_, _, delivery) => if delivery.Some? { DepthsOkAgree(delivery.value, d, m, m'); }
    case TryCatch(_, t, c) =>
      DepthsAllOkAgree(t, d + 1, m, m');
      DepthsAllOkAgree(c, d + 1, m, m');
    case StatementList(ss) => DepthsAllOkAgree(ss, d, m, m');
    case StaticInit(statement) => DepthsOkAgree(statement, d, m, m');
    case _ =>
  }

  lemma {:induction false} DepthsAllOkAgree(ss: seq<Stmt>, d: nat, m: map<string, nat>, m': map<string, nat>)
    requires DepthsAllOk(ss, d, m) && AgreeOn(LabelsOf(ss), m, m')
    ensures DepthsAllOk(ss, d, m')
    decreases ss, 0
  {
    if ss != [] {
      DepthsOkAgree(ss[0], d, m, m');
      DepthsAllOkAgree(ss[1..], d, m, m');
    }
  }

  /** A statement none of whose labels is recorded has nothing to disagree with. */
  lemma {:induction false} UnrecordedOk(s: Stmt, d: nat, m: map<string, nat>)
    requires Labels(s) !! m.Keys
    ensures DepthsOk(s, d, m)
    decreases s, 1
  {
    match s
    case If(t, hasElse, f) =>
      UnrecordedAllOk(t, d + 1, m);
      if hasElse { UnrecordedAllOk(f, d + 1, m); }
    case While(body) => UnrecordedAllOk(body, d + 1, m);
    case For(init, _, post, body) =>
      if init.Some? { UnrecordedOk(init.value, d + 1, m); }
      UnrecordedAllOk(post, d + 1, m);
      UnrecordedAllOk(body, d + 2, m);
    case Label(_, statement) => UnrecordedOk(statement, d, m);
    case Throw(_, _, delivery) => if delivery.Some? { UnrecordedOk(delivery.value, d, m); }
    case TryCatch(_, t, c) =>
      UnrecordedAllOk(t, d + 1, m);
      UnrecordedAllOk(c, d + 1, m);
    case StatementList(ss) => UnrecordedAllOk(ss, d, m);
    case StaticInit(statement) => UnrecordedOk(statement, d, m);
    case _ =>
  }

  lemma {:induction false} UnrecordedAllOk(ss: seq<Stmt>, d: nat, m: map<string, nat>)
    requires LabelsOf(ss) !! m.Keys
    ensures DepthsAllOk(ss, d, m)
    decreases ss, 0
  {
    if ss != [] {
      UnrecordedOk(ss[0], d, m);
      UnrecordedAllOk(ss[1..], d, m);
    }
  }

  // ----------------------------------------------------- what is collected

  /** The emitter before any statement: only empty blocks have been added for labels. */
  ghost predicate Collected(e: State, r: State, names: set<string>) {
    && e.labelBlocks.Keys == e.labelDepths.Keys
    && (r == e.(blocks := r.blocks, labelBlocks := r.labelBlocks, labelDepths := r.labelDepths))
    && |r.blocks| >= |e.blocks| && r.blocks[..|e.blocks|] == e.blocks
    && (forall b | |e.blocks| <= b < |r.blocks| :: r.blocks[b] == [])
    && r.labelBlocks.Keys == r.labelDepths.Keys
    && e.labelBlocks.Keys <= r.labelBlocks.Keys <= e.labelBlocks.Keys + names
    && (forall l | l in e.labelBlocks :: r.labelBlocks[l] == e.labelBlocks[l] && r.labelDepths[l] == e.labelDepths[l])
    && LabelBlocksFresh(r, |e.blocks|, e.labelBlocks.Keys)
  }

  /** New labels have distinct new blocks. */
  ghost predicate LabelBlocksFresh(r: State, from: nat, old_: set<string>) {
    && (forall l | l in r.labelBlocks && l !in old_ :: from <= r.labelBlocks[l] < |r.blocks|)
    && (forall l, m | l in r.labelBlocks && m in r.labelBlocks && l !in old_ && m !in old_ && l != m ::
          r.labelBlocks[l] != r.labelBlocks[m])
  }

  lemma CollectedRefl(e: State)
    requires e.labelBlocks.Keys == e.labelDepths.Keys
    ensures Collected(e, e, {})
  {
  }

  lemma CollectedTrans(e: State, m: State, r: State, a: set<string>, b: set<string>)
    requires Collected(e, m, a) && Collected(m, r, b)
    ensures Collected(e, r, a + b)
  {
    assert r.blocks[..|e.blocks|] == m.blocks[..|e.blocks|];
    forall i | |e.blocks| <= i < |r.blocks| ensures r.blocks[i] == [] {
      if i < |m.blocks| { assert r.blocks[i] == r.blocks[..|m.blocks|][i]; }
    }
  }

  lemma {:induction false} CollectCorrect(e: State, s: Stmt, d: nat)
    requires e.labelBlocks.Keys == e.labelDepths.Keys
    requires Distinct(s) && Labels(s) !! e.labelBlocks.Keys
    ensures Collected(e, CollectLabels(e, s, d), Labels(s))
    ensures DepthsOk(s, d, CollectLabels(e, s, d).labelDepths)
    decreases s, 1
  {
    hide Collected;
    var r := CollectLabels(e, s, d);
    match s
    case If(t, hasElse, f) =>
      var m := CollectStatements(e, t, d + 1);
      CollectAllCorrect(e, t, d + 1);
      if hasElse {
        KeysOfCollected(e, m, LabelsOf(t));
        CollectAllCorrect(m, f, d + 1);
        CollectTwo(e, m, r, t, d + 1, f);
      } else {
        assert LabelsOf(t) + {} == LabelsOf(t);
      }
    case While(body) => CollectAllCorrect(e, body, d + 1);
    case For(init, conditional, post, body) =>
      var names := if init.Some? then Labels(init.value) else {};
      var m := if init.Some? then CollectLabels(e, init.value, d + 1) else e;
      var p := CollectStatements(m, post, d + 1);
      if init.Some? {
        CollectCorrect(e, init.value, d + 1);
      } else {
        CollectedRefl(e);
      }
      KeysOfCollected(e, m, names);
      CollectAllCorrect(m, post, d + 1);
      KeysOfCollected(m, p, LabelsOf(post));
      CollectAllCorrect(p, body, d + 2);
      CollectTwo(m, p, r, post, d + 1, body);
      CollectedTrans(e, m, r, names, LabelsOf(post) + LabelsOf(body));
      AgreeAfter(m, r, LabelsOf(post) + LabelsOf(body), names);
      if init.Some? {
        DepthsOkAgree(init.value, d + 1, m.labelDepths, r.labelDepths);
      }
      assert names + (LabelsOf(post) + LabelsOf(body)) == Labels(s);
    case Label(name, statement) =>
      var m := e.AddBlocks(1).(labelBlocks := e.labelBlocks[name := |e.blocks|],
                               labelDepths := e.labelDepths[name := d]);
      LabelAdded(e, name, d);
      CollectCorrect(m, statement, d);
      CollectedTrans(e, m, r, {name}, Labels(statement));
      KeepsRecorded(m, r, Labels(statement), name);
    case TryCatch(_, t, c) =>
      var m := CollectStatements(e, t, d + 1);
      CollectAllCorrect(e, t, d + 1);
      KeysOfCollected(e, m, LabelsOf(t));
      CollectAllCorrect(m, c, d + 1);
      CollectTwo(e, m, r, t, d + 1, c);
    case StatementList(ss) => CollectAllCorrect(e, ss, d);
    case StaticInit(statement) => CollectCorrect(e, statement, d);
    case Throw(_, _, _) =>
      UnrecordedOk(s, d, e.labelDepths);
      Nothing(e, Labels(s));
    case _ => CollectedRefl(e);
  }

  lemma Nothing(e: State, names: set<string>)
    requires e.labelBlocks.Keys == e.labelDepths.Keys
    ensures Collected(e, e, names)
  {
  }

  lemma LabelAdded(e: State, name: string, d: nat)
    requires e.labelBlocks.Keys == e.labelDepths.Keys && name !in e.labelBlocks
    ensures var m := e.AddBlocks(1).(labelBlocks := e.labelBlocks[name := |e.blocks|],
                                     labelDepths := e.labelDepths[name := d]);
      Collected(e, m, {name}) && m.labelBlocks.Keys == m.labelDepths.Keys == e.labelBlocks.Keys + {name}
  {
  }

  lemma KeysOfCollected(e: State, r: State, names: set<string>)
    requires Collected(e, r, names)
    ensures r.labelBlocks.Keys == r.labelDepths.Keys <= e.labelBlocks.Keys + names
    ensures e.labelBlocks.Keys <= r.labelBlocks.Keys
  {
  }

  lemma KeepsRecorded(e: State, r: State, names: set<string>, name: string)
    requires Collected(e, r, names) && name in e.labelBlocks && e.labelBlocks.Keys == e.labelDepths.Keys
    ensures name in r.labelDepths && r.labelDepths[name] == e.labelDepths[name]
  {
  }

  /** Collecting other labels does not change what is recorded for these. */
  lemma AgreeAfter(e: State, r: State, collected: set<string>, names: set<string>)
    requires Collected(e, r, collected) && names !! collected && e.labelBlocks.Keys == e.labelDepths.Keys
    ensures AgreeOn(names, e.labelDepths, r.labelDepths)
  {
  }

  lemma {:induction false} CollectAllCorrect(e: State, ss: seq<Stmt>, d: nat)
    requires e.labelBlocks.Keys == e.labelDepths.Keys
    requires DistinctAll(ss) && LabelsOf(ss) !! e.labelBlocks.Keys
    ensures Collected(e, CollectStatements(e, ss, d), LabelsOf(ss))
    ensures DepthsAllOk(ss, d, CollectStatements(e, ss, d).labelDepths)
    decreases ss, 0
  {
    hide Collected;
    if ss == [] {
      CollectedRefl(e);
    } else {
      var m, r := CollectLabels(e, ss[0], d), CollectStatements(e, ss, d);
      CollectCorrect(e, ss[0], d);
      KeysOfCollected(e, m, Labels(ss[0]));
      CollectAllCorrect(m, ss[1..], d);
      CollectedTrans(e, m, r, Labels(ss[0]), LabelsOf(ss[1..]));
      AgreeAfter(m, r, LabelsOf(ss[1..]), Labels(ss[0]));
      DepthsOkAgree(ss[0], d, m.labelDepths, r.labelDepths);
    }
  }

  /** Two consecutive collections, the second of different labels. */
  lemma CollectTwo(e: State, m: State, r: State, a: seq<Stmt>, da: nat, b: seq<Stmt>)
    requires Collected(e, m, LabelsOf(a)) && Collected(m, r, LabelsOf(b))
    requires LabelsOf(a) !! LabelsOf(b) && DepthsAllOk(a, da, m.labelDepths)
    ensures Collected(e, r, LabelsOf(a) + LabelsOf(b)) && DepthsAllOk(a, da, r.labelDepths)
  {
    hide Collected;
    KeysOfCollected(e, m, LabelsOf(a));
    CollectedTrans(e, m, r, LabelsOf(a), LabelsOf(b));
    AgreeAfter(m, r, LabelsOf(b), LabelsOf(a));
    DepthsAllOkAgree(a, da, m.labelDepths, r.labelDepths);
  }
}
