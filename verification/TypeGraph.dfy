/**
  A name has a meaning exactly when no cycle is reachable from it through by-value struct
  fields and typedef names, and no reachable declaration has an error of its own.
 */
module TypeGraph {
  import opened Basics
  import opened StructLayout
  import opened TypeMeaning

  /** By-value struct fields, and typedef names at any pointer depth. */
  function DeclDependency(d: Decl): Option<Node> {
    match d.ctype.base
    case TypedefName(name) => Some(AliasNode(name))
    case Struct(name) => if d.declarator.pointerDepth == 0 then Some(StructNode(name)) else None
    case _ => None
  }

  predicate DependsOn(u: Unit, n: Node, d: Node) {
    match n
    case AliasNode(name) => name in u.aliases && DeclDependency(u.aliases[name]) == Some(d)
    case StructNode(name) =>
      name in u.structs && exists i | 0 <= i < |u.structs[name]| :: DeclDependency(u.structs[name][i].decl) == Some(d)
  }

  predicate IsPath(u: Unit, path: seq<Node>) {
    path != [] && forall i | 0 <= i < |path| - 1 :: DependsOn(u, path[i], path[i + 1])
  }

  ghost predicate ReachesCycle(u: Unit, n: Node) {
    exists path: seq<Node> :: IsPath(u, path) && path[0] == n && Repeats(path)
  }

  ghost predicate Repeats(path: seq<Node>) {
    exists i, j | 0 <= i < j < |path| :: path[i] == path[j]
  }

  /** The declaration is rejected although every name it depends on has a meaning. */
  ghost predicate OwnError(u: Unit, n: Node) {
    && (forall d | DependsOn(u, n, d) :: Denotes(u, d))
    && forall f: nat | Supports(u, n, f) :: Eval(u, n, EnvAt(u, f)).None?
  }

  ghost predicate Supports(u: Unit, n: Node, f: nat) {
    forall d | DependsOn(u, n, d) :: d in EnvAt(u, f)
  }

  ghost predicate ReachesError(u: Unit, n: Node) {
    exists path: seq<Node> :: IsPath(u, path) && path[0] == n && OwnError(u, path[|path| - 1])
  }

  // ------------------------------------------------- dependencies are needed

  lemma {:induction false} FieldsNeed(u: Unit, fields: seq<FieldDecl>, env: Env, i: nat)
    requires i < |fields| && FieldObjects(u, fields, env).Some?
    ensures var d := DeclDependency(fields[i].decl); d.Some? ==> d.value in env
    decreases |fields|
  {
    hide Finish, Pointers;
    if i < |fields| - 1 {
      FieldsNeed(u, fields[..|fields| - 1], env, i);
    }
  }

  lemma EvalNeeds(u: Unit, n: Node, d: Node, env: Env)
    requires DependsOn(u, n, d) && Eval(u, n, env).Some?
    ensures d in env
  {
    hide Finish, Pointers, StructOf;
    if n.StructNode? {
      var i :| 0 <= i < |u.structs[n.name]| && DeclDependency(u.structs[n.name][i].decl) == Some(d);
      FieldsNeed(u, u.structs[n.name], env, i);
    }
  }

  /** n gets its meaning strictly before s does. */
  ghost predicate Below(u: Unit, n: Node, s: Node) {
    forall f: nat :: s in EnvAt(u, f) ==> f > 0 && n in EnvAt(u, f - 1)
  }

  lemma DependencyIsBelow(u: Unit, n: Node, d: Node)
    requires DependsOn(u, n, d)
    ensures Below(u, d, n)
  {
    hide Eval, DependsOn;
    forall f: nat | n in EnvAt(u, f) ensures f > 0 && d in EnvAt(u, f - 1) {
      EvalNeeds(u, n, d, EnvAt(u, f - 1));
    }
  }

  lemma BelowTrans(u: Unit, a: Node, b: Node, c: Node)
    requires Below(u, a, b) && Below(u, b, c)
    ensures Below(u, a, c)
  {
    hide EnvAt;
    forall f: nat | c in EnvAt(u, f) ensures f > 0 && a in EnvAt(u, f - 1) {
      assert b in EnvAt(u, f - 1);
      assert a in EnvAt(u, f - 2);
      EnvGrows(u, f - 2, f - 1);
    }
  }

  lemma BelowDenotes(u: Unit, n: Node, s: Node)
    requires Below(u, n, s) && Denotes(u, s)
    ensures Denotes(u, n)
  {
    hide EnvAt;
    var f: nat :| s in EnvAt(u, f);
    assert n in EnvAt(u, f - 1);
  }

  /** Nothing gets its meaning before itself. */
  lemma {:induction false} BelowItself(u: Unit, n: Node, f: nat)
    requires Below(u, n, n)
    ensures n !in EnvAt(u, f)
    decreases f
  {
    hide EnvAt;
    if n in EnvAt(u, f) {
      BelowItself(u, n, f - 1);
    }
  }

  lemma {:induction false} PathIsBelow(u: Unit, path: seq<Node>, i: nat, j: nat)
    requires IsPath(u, path) && i < j < |path|
    ensures Below(u, path[j], path[i])
    decreases j
  {
    hide Below, DependsOn;
    DependencyIsBelow(u, path[j - 1], path[j]);
    if i < j - 1 {
      PathIsBelow(u, path, i, j - 1);
      BelowTrans(u, path[j], path[j - 1], path[i]);
    }
  }

  // ------------------------------------------------------------ the theorem

  lemma MeaningfulIsClean(u: Unit, n: Node)
    requires Denotes(u, n)
    ensures !ReachesCycle(u, n) && !ReachesError(u, n)
  {
    hide Below, DependsOn, Eval;
    if ReachesCycle(u, n) {
      var path: seq<Node> :| IsPath(u, path) && path[0] == n && Repeats(path);
      var i, j :| 0 <= i < j < |path| && path[i] == path[j];
      ReachableDenotes(u, path, i);
      PathIsBelow(u, path, i, j);
      var f: nat :| path[i] in EnvAt(u, f);
      BelowItself(u, path[i], f);
    }
    if ReachesError(u, n) {
      var path: seq<Node> :| IsPath(u, path) && path[0] == n && OwnError(u, path[|path| - 1]);
      ReachableDenotes(u, path, |path| - 1);
      HasNoOwnError(u, path[|path| - 1]);
    }
  }

  lemma ReachableDenotes(u: Unit, path: seq<Node>, i: nat)
    requires IsPath(u, path) && Denotes(u, path[0]) && i < |path|
    ensures Denotes(u, path[i])
  {
    hide Below, DependsOn;
    if i > 0 {
      PathIsBelow(u, path, 0, i);
      BelowDenotes(u, path[i], path[0]);
    }
  }

  lemma HasNoOwnError(u: Unit, n: Node)
    requires Denotes(u, n)
    ensures !OwnError(u, n)
  {
    hide DependsOn, Eval;
    var f: nat :| n in EnvAt(u, f);
    forall d | DependsOn(u, n, d) ensures d in EnvAt(u, f - 1) {
      EvalNeeds(u, n, d, EnvAt(u, f - 1));
    }
    assert Supports(u, n, f - 1);
  }

  lemma EvalGivesMeaning(u: Unit, n: Node, f: nat)
    requires Eval(u, n, EnvAt(u, f)).Some?
    ensures Denotes(u, n)
  {
    assert n in Universe(u);
    assert n in EnvAt(u, f + 1);
  }

  /** A meaningless name without an error of its own depends on a meaningless name. */
  lemma MeaninglessDependency(u: Unit, n: Node) returns (d: Node)
    requires !Denotes(u, n) && !OwnError(u, n)
    ensures DependsOn(u, n, d) && !Denotes(u, d)
  {
    hide DependsOn;
    if forall d | DependsOn(u, n, d) :: Denotes(u, d) {
      var f: nat :| Supports(u, n, f) && Eval(u, n, EnvAt(u, f)).Some?;
      EvalGivesMeaning(u, n, f);
      assert false;
    }
    d :| DependsOn(u, n, d) && !Denotes(u, d);
  }

  lemma {:induction false} MeaninglessPath(u: Unit, n: Node, length: nat) returns (path: seq<Node>)
    requires !Denotes(u, n) && !ReachesError(u, n)
    ensures |path| == length + 1 && IsPath(u, path) && path[0] == n
    ensures !Denotes(u, path[length])
    decreases length
  {
    hide DependsOn, Denotes, OwnError;
    if length == 0 {
      path := [n];
    } else {
      var before := MeaninglessPath(u, n, length - 1);
      var last := before[length - 1];
      assert !OwnError(u, last) by {
        assert IsPath(u, before) && before[0] == n && before[|before| - 1] == last;
      }
      var d := MeaninglessDependency(u, last);
      path := before + [d];
    }
  }

  lemma {:induction false} LongPathRepeats(path: seq<Node>, all: set<Node>)
    requires forall i | 0 <= i < |path| :: path[i] in all
    requires |path| > |all|
    ensures Repeats(path)
    decreases |path|
  {
    var n := |path| - 1;
    var last, init := path[n], path[..n];
    if last in init {
      var i :| 0 <= i < n && init[i] == last;
      assert path[i] == path[n];
    } else {
      LongPathRepeats(init, all - {last});
      var i, j :| 0 <= i < j < |init| && init[i] == init[j];
      assert path[i] == path[j];
    }
  }

  /** Meaning, characterised by the dependency graph. */
  lemma DenotesExactly(u: Unit, n: Node)
    ensures Denotes(u, n) <==> !ReachesCycle(u, n) && !ReachesError(u, n)
  {
    hide Denotes, OwnError;
    if Denotes(u, n) {
      MeaningfulIsClean(u, n);
    } else if !ReachesError(u, n) {
      var all := Universe(u);
      var path := MeaninglessPath(u, n, |all| + 1);
      var known := path[..|all| + 1];
      forall i | 0 <= i < |known| ensures known[i] in all {
        assert DependsOn(u, path[i], path[i + 1]);
      }
      LongPathRepeats(known, all);
      var i, j :| 0 <= i < j < |known| && known[i] == known[j];
      assert path[i] == path[j];
      assert Repeats(path);
    }
  }

  // ------------------------------------------------- meanings are laid out

  lemma {:induction false} FieldsResolved(u: Unit, fields: seq<FieldDecl>, env: Env)
    requires EnvResolved(env) && FieldObjects(u, fields, env).Some?
    ensures forall i | 0 <= i < |fields| :: ObjectResolved(FieldObjects(u, fields, env).value[i])
    decreases |fields|
  {
    hide ObjectResolved, ObjectIn, EnvResolved;
    if fields != [] {
      var n := |fields| - 1;
      FieldsResolved(u, fields[..n], env);
      ObjectIsResolved(u, fields[n].decl, env);
      var init := FieldObjects(u, fields[..n], env).value;
      forall i | 0 <= i < |fields| ensures ObjectResolved(FieldObjects(u, fields, env).value[i]) {
        if i < n { assert ObjectResolved(init[i]); }
      }
    }
  }

  ghost predicate ObjectResolved(o: Object) {
    Resolved(o.Abi()) && o.Abi().elementCount >= 1
  }

  ghost predicate EnvResolved(env: Env) {
    forall n | n in env ::
      match env[n]
      case AliasEntry(o) => ObjectResolved(o)
      case StructEntry(_, abi) => Resolved(abi) && abi.elementCount == 1 && abi.kind.Aggregate?
  }

  /** Repetition does not matter to being resolved. */
  lemma ResolvedRepeats(t: AbiType, count: nat)
    requires Resolved(t)
    ensures Resolved(t.(elementCount := count))
  {
  }

  lemma {:induction false} PointersResolved(info: TypeInfo, depth: nat)
    requires depth > 0
    ensures IsScalar(Pointers(info, depth).abi)
    decreases depth
  {
  }

  lemma ObjectIsResolved(u: Unit, d: Decl, env: Env)
    requires EnvResolved(env) && ObjectIn(u, d, env).Some?
    ensures ObjectResolved(ObjectIn(u, d, env).value)
  {
    var o := ObjectIn(u, d, env).value;
    var depth := d.declarator.pointerDepth;
    match d.ctype.base
    case TypedefName(name) =>
      var aliased := env[AliasNode(name)].item;
      assert ObjectResolved(aliased);
      if !aliased.isArray && depth == 0 {
        ResolvedRepeats(aliased.info.abi, o.Abi().elementCount);
      } else if depth > 0 {
        PointersResolved(aliased.info, depth);
      }
    case Struct(name) =>
      if depth == 0 {
        ResolvedRepeats(env[StructNode(name)].abi, o.Abi().elementCount);
      } else {
        PointersResolved(IncompleteStruct(name), depth);
      }
    case base =>
      if depth > 0 {
        PointersResolved(TypeInfo(ScalarAbi(base), "", None), depth);
      }
  }

  lemma StructIsResolved(fields: seq<FieldDecl>, objects: seq<Object>)
    requires |fields| == |objects| && StructOf(fields, objects).Some?
    requires forall i | 0 <= i < |objects| :: ObjectResolved(objects[i])
    ensures var abi := StructOf(fields, objects).value.abi; Resolved(abi) && abi.elementCount == 1 && abi.kind.Aggregate?
  {
    var abi := StructOf(fields, objects).value.abi;
    assert abi.fields == Abis(objects);
    assert abi.(elementCount := 1) == abi;
    forall i | 0 <= i < |abi.fields| ensures Resolved(abi.fields[i]) && abi.fields[i].elementCount >= 1 {
      assert ObjectResolved(objects[i]);
    }
  }

  lemma {:induction false} EnvIsResolved(u: Unit, f: nat)
    ensures EnvResolved(EnvAt(u, f))
    decreases f
  {
    hide ObjectResolved, ObjectIn, FieldObjects, StructOf, Resolved;
    if f > 0 {
      var env := EnvAt(u, f - 1);
      EnvIsResolved(u, f - 1);
      forall n | n in EnvAt(u, f)
        ensures match EnvAt(u, f)[n]
          case AliasEntry(o) => ObjectResolved(o)
          case StructEntry(_, abi) => Resolved(abi) && abi.elementCount == 1 && abi.kind.Aggregate?
      {
        match n
        case AliasNode(name) => ObjectIsResolved(u, u.aliases[name], env);
        case StructNode(name) =>
          FieldsResolved(u, u.structs[name], env);
          var objects := FieldObjects(u, u.structs[name], env).value;
          StructIsResolved(u.structs[name], objects);
          IsStructEntry(u.structs[name], objects);
      }
    }
  }

  /** Every struct a name can mean is one the layout and ABI theorems speak about. */
  lemma MeaningIsResolved(u: Unit, name: string, e: Entry)
    requires Means(u, StructNode(name), e)
    ensures e.StructEntry? && Resolved(e.abi) && e.abi.kind.Aggregate? && e.abi.elementCount == 1
  {
    hide Resolved, ObjectResolved, StructOf, ObjectIn, FieldObjects;
    var f: nat :| StructNode(name) in EnvAt(u, f) && EnvAt(u, f)[StructNode(name)] == e;
    EnvIsResolved(u, f);
    assert f > 0;
    var env := EnvAt(u, f - 1);
    assert Eval(u, StructNode(name), env) == Some(e);
    IsStructEntry(u.structs[name], FieldObjects(u, u.structs[name], env).value);
  }

  lemma IsStructEntry(fields: seq<FieldDecl>, objects: seq<Object>)
    requires |fields| == |objects|
    ensures StructOf(fields, objects).Some? ==> StructOf(fields, objects).value.StructEntry?
  {
  }
}
