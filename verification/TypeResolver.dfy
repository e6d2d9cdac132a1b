/**
  resolveAliasObject, resolveStruct and resolveObject of src/compat/CCompatLowering.cpp,
  with their resolving and resolved flags, proved against the order-free meaning of names.
 */
module TypeResolver {
  import opened Basics
  import opened StructLayout
  import opened TypeMeaning
  import opened TypeGraph

  datatype AliasState = AliasState(resolving: bool, resolved: bool, item: Option<Object>)

  datatype StructState = StructState(resolving: bool, resolved: bool, fields: seq<FieldInfo>, abi: AbiType)

  type Aliases = map<string, AliasState>
  type Structs = map<string, StructState>

  // ------------------------------------------------------------- invariants

  ghost predicate AliasOk(u: Unit, name: string, a: AliasState, structs: Structs) {
    a.resolved ==>
      && !a.resolving && a.item.Some? && Means(u, AliasNode(name), AliasEntry(a.item.value))
      && Completed(a.item.value.info, structs)
  }

  /** The struct behind an aggregate type is resolved. */
  ghost predicate Completed(info: TypeInfo, structs: Structs) {
    info.abi.kind.Aggregate? ==> info.aggregate in structs && structs[info.aggregate].resolved
  }

  /** Failed attempts may leave fields behind, but only under names that mean nothing. */
  ghost predicate StructOk(u: Unit, name: string, s: StructState) {
    && (s.resolved ==> !s.resolving && Means(u, StructNode(name), StructEntry(s.fields, s.abi)))
    && (!s.resolved && !s.resolving && Denotes(u, StructNode(name)) ==> s.fields == [])
  }

  ghost predicate StateOk(u: Unit, aliases: Aliases, structs: Structs) {
    && aliases.Keys == u.aliases.Keys && structs.Keys == u.structs.Keys
    && (forall x | x in aliases :: AliasOk(u, x, aliases[x], structs))
    && (forall x | x in structs :: StructOk(u, x, structs[x]))
  }

  ghost function Pending(aliases: Aliases, structs: Structs): set<Node> {
    (set x | x in aliases && aliases[x].resolving :: AliasNode(x)) +
    (set x | x in structs && structs[x].resolving :: StructNode(x))
  }

  /** n is a strict dependency of everything being resolved. */
  ghost predicate Placed(u: Unit, n: Node, pending: set<Node>) {
    forall s | s in pending :: Below(u, n, s)
  }

  ghost predicate DeclPlaced(u: Unit, d: Decl, pending: set<Node>) {
    var dep := DeclDependency(d); dep.Some? ==> Placed(u, dep.value, pending)
  }

  /** What a nested call may not disturb. */
  ghost predicate Kept(a: Aliases, s: Structs, a': Aliases, s': Structs) {
    && a'.Keys == a.Keys && s'.Keys == s.Keys
    && (forall x | x in a :: a'[x].resolving == a[x].resolving && (a[x].resolving || a[x].resolved ==> a'[x] == a[x]))
    && (forall x | x in s :: s'[x].resolving == s[x].resolving && (s[x].resolving || s[x].resolved ==> s'[x] == s[x]))
  }

  lemma KeptTrans(a: Aliases, s: Structs, a': Aliases, s': Structs, a'': Aliases, s'': Structs)
    requires Kept(a, s, a', s') && Kept(a', s', a'', s'')
    ensures Kept(a, s, a'', s'')
  {
  }

  lemma KeptPending(a: Aliases, s: Structs, a': Aliases, s': Structs)
    requires Kept(a, s, a', s')
    ensures Pending(a', s') == Pending(a, s)
  {
  }

  lemma FewerLeft(all: set<Node>, pending: set<Node>, n: Node)
    requires n in all && n !in pending
    ensures |all - (pending + {n})| < |all - pending|
  {
    assert all - (pending + {n}) == (all - pending) - {n};
  }

  lemma PlacedBelow(u: Unit, n: Node, d: Node, pending: set<Node>)
    requires Placed(u, n, pending) && DependsOn(u, n, d)
    ensures Placed(u, d, pending + {n})
  {
    hide Below, DependsOn;
    DependencyIsBelow(u, n, d);
    forall s | s in pending + {n} ensures Below(u, d, s) {
      if s != n { BelowTrans(u, d, n, s); }
    }
  }

  lemma PendingIsCyclic(u: Unit, n: Node, pending: set<Node>)
    requires Placed(u, n, pending) && n in pending
    ensures !Denotes(u, n)
  {
    hide Below, EnvAt;
    assert Below(u, n, n);
    if Denotes(u, n) {
      var f: nat :| n in EnvAt(u, f);
      BelowItself(u, n, f);
    }
  }

  // --------------------------------------------- objects from dependencies

  lemma ObjectFromDependency(u: Unit, d: Decl, dep: Node, e: Entry, o: Object)
    requires DeclDependency(d) == Some(dep) && Means(u, dep, e)
    ensures ObjectMeans(u, d, o) <==> ObjectIn(u, d, map[dep := e]) == Some(o)
  {
    hide EnvAt, Finish, Pointers;
    var f: nat :| dep in EnvAt(u, f) && EnvAt(u, f)[dep] == e;
    assert ObjectIn(u, d, EnvAt(u, f)) == ObjectIn(u, d, map[dep := e]);
    if ObjectMeans(u, d, o) {
      var g: nat :| ObjectIn(u, d, EnvAt(u, g)) == Some(o);
      ObjectGrows(u, d, g, Max(f, g));
      EnvGrows(u, f, Max(f, g));
      assert ObjectIn(u, d, EnvAt(u, Max(f, g))) == ObjectIn(u, d, map[dep := e]);
    }
  }

  lemma ObjectAlone(u: Unit, d: Decl, o: Object)
    requires DeclDependency(d).None?
    ensures ObjectMeans(u, d, o) <==> ObjectIn(u, d, map[]) == Some(o)
  {
    hide EnvAt, Finish, Pointers;
    assert forall f: nat :: ObjectIn(u, d, EnvAt(u, f)) == ObjectIn(u, d, map[]);
    assert ObjectIn(u, d, EnvAt(u, 0)) == ObjectIn(u, d, map[]);
  }

  lemma ObjectNeeds(u: Unit, d: Decl, dep: Node, o: Object)
    requires DeclDependency(d) == Some(dep) && !Denotes(u, dep)
    ensures !ObjectMeans(u, d, o)
  {
    hide EnvAt, Finish, Pointers;
  }

  lemma AliasAt(u: Unit, name: string, f: nat)
    requires AliasNode(name) in EnvAt(u, f)
    ensures f > 0 && name in u.aliases && EnvAt(u, f)[AliasNode(name)].AliasEntry?
    ensures ObjectIn(u, u.aliases[name], EnvAt(u, f - 1)) == Some(EnvAt(u, f)[AliasNode(name)].item)
  {
    hide ObjectIn, FieldObjects, StructOf;
  }

  /** An object of aggregate type carries the ABI its struct's name means. */
  lemma {:induction false} AggregateObject(u: Unit, d: Decl, f: nat) returns (e: Entry)
    requires ObjectIn(u, d, EnvAt(u, f)).Some?
    requires ObjectIn(u, d, EnvAt(u, f)).value.info.abi.kind.Aggregate?
    ensures var info := ObjectIn(u, d, EnvAt(u, f)).value.info;
      Means(u, StructNode(info.aggregate), e) && e.StructEntry? && e.abi == info.abi
    decreases f
  {
    hide EnvAt, Eval;
    var env := EnvAt(u, f);
    match d.ctype.base
    case TypedefName(name) =>
      AliasAt(u, name, f);
      e := AggregateObject(u, u.aliases[name], f - 1);
    case Struct(name) => e := env[StructNode(name)];
    case _ =>
  }

  lemma AggregateAlias(u: Unit, name: string, o: Object) returns (e: Entry)
    requires Means(u, AliasNode(name), AliasEntry(o)) && o.info.abi.kind.Aggregate?
    ensures Means(u, StructNode(o.info.aggregate), e) && e.StructEntry? && e.abi == o.info.abi
  {
    hide ObjectIn, EnvAt;
    var f: nat :| AliasNode(name) in EnvAt(u, f) && EnvAt(u, f)[AliasNode(name)] == AliasEntry(o);
    AliasAt(u, name, f);
    e := AggregateObject(u, u.aliases[name], f - 1);
  }

  // ------------------------------------------------------------ field lists

  ghost predicate HasObject(u: Unit, d: Decl) {
    exists o :: ObjectMeans(u, d, o)
  }

  lemma AliasDenotes(u: Unit, name: string)
    requires name in u.aliases
    ensures Denotes(u, AliasNode(name)) <==> HasObject(u, u.aliases[name])
  {
    hide ObjectMeans, EnvAt;
    if Denotes(u, AliasNode(name)) {
      var e := DenotesMeans(u, AliasNode(name));
      AliasMeaning(u, name, e.item);
    }
    if HasObject(u, u.aliases[name]) {
      var o :| ObjectMeans(u, u.aliases[name], o);
      AliasMeaning(u, name, o);
      assert Means(u, AliasNode(name), AliasEntry(o));
    }
  }

  lemma MissingField(u: Unit, name: string, i: nat)
    requires name in u.structs && i < |u.structs[name]| && !HasObject(u, u.structs[name][i].decl)
    ensures !Denotes(u, StructNode(name))
  {
    hide ObjectMeans, EnvAt, FieldsMean, StructOf;
    if Denotes(u, StructNode(name)) {
      var e := DenotesMeans(u, StructNode(name));
      var objects := StructMeaning(u, name, e);
      FieldsPrefix(u, u.structs[name], objects, 0);
    }
  }

  /** The objects found so far are the only ones the first fields can mean. */
  lemma StructPrefix(u: Unit, name: string, found: seq<Object>, e: Entry) returns (objects: seq<Object>)
    requires name in u.structs && |found| <= |u.structs[name]| && FieldsMean(u, u.structs[name][..|found|], found)
    requires Means(u, StructNode(name), e)
    ensures StructMeans(u, name, objects, e) && objects[..|found|] == found
    ensures |found| == |u.structs[name]| ==> objects == found
  {
    hide FieldsMean, StructOf, Means;
    objects := StructMeaning(u, name, e);
    FieldsPrefix(u, u.structs[name], objects, |found|);
    FieldsUnique(u, u.structs[name][..|found|], objects[..|found|], found);
  }

  lemma MisplacedField(u: Unit, name: string, found: seq<Object>)
    requires name in u.structs && |found| <= |u.structs[name]| && FieldsMean(u, u.structs[name][..|found|], found)
    requires LayoutFields(Abis(found)).None?
    ensures !Denotes(u, StructNode(name))
  {
    hide EnvAt, FieldsMean, LayoutFields;
    if Denotes(u, StructNode(name)) {
      var e := DenotesMeans(u, StructNode(name));
      var objects := StructPrefix(u, name, found, e);
      assert Abis(objects)[..|found|] == Abis(found);
      FailedPrefix(Abis(objects), |found|);
    }
  }

  lemma OversizedStruct(u: Unit, name: string, found: seq<Object>)
    requires name in u.structs && |found| == |u.structs[name]| && FieldsMean(u, u.structs[name], found)
    requires StructOf(u.structs[name], found).None?
    ensures !Denotes(u, StructNode(name))
  {
    hide EnvAt, FieldsMean, StructOf;
    if Denotes(u, StructNode(name)) {
      var e := DenotesMeans(u, StructNode(name));
      assert u.structs[name][..|found|] == u.structs[name];
      var objects := StructPrefix(u, name, found, e);
    }
  }

  lemma KeptItself(a: Aliases, s: Structs)
    ensures Kept(a, s, a, s)
  {
  }

  lemma NoObject(u: Unit, d: Decl)
    requires u.rejectQualifiers && d.ctype.qualified
    ensures !HasObject(u, d)
  {
  }

  lemma NothingFrom(u: Unit, d: Decl, dep: Node)
    requires DeclDependency(d) == Some(dep) && !Denotes(u, dep)
    ensures !HasObject(u, d)
  {
    hide ObjectMeans, Denotes;
    forall o ensures !ObjectMeans(u, d, o) {
      ObjectNeeds(u, d, dep, o);
    }
  }

  lemma DependencyExactly(u: Unit, d: Decl, dep: Node, e: Entry, r: Option<Object>)
    requires DeclDependency(d) == Some(dep) && Means(u, dep, e) && r == ObjectIn(u, d, map[dep := e])
    ensures r.Some? <==> HasObject(u, d)
    ensures r.Some? ==> ObjectMeans(u, d, r.value)
  {
    hide ObjectMeans, Means, ObjectIn;
    forall o ensures ObjectMeans(u, d, o) <==> r == Some(o) {
      ObjectFromDependency(u, d, dep, e, o);
    }
  }

  lemma AloneExactly(u: Unit, d: Decl, r: Option<Object>)
    requires DeclDependency(d).None? && r == ObjectIn(u, d, map[])
    ensures r.Some? <==> HasObject(u, d)
    ensures r.Some? ==> ObjectMeans(u, d, r.value)
  {
    hide ObjectMeans, ObjectIn;
    forall o ensures ObjectMeans(u, d, o) <==> r == Some(o) {
      ObjectAlone(u, d, o);
    }
  }

  lemma PointersShape(info: TypeInfo, depth: nat)
    ensures depth == 0 ==> Pointers(info, depth) == info
    ensures depth > 0 ==> Pointers(info, depth).abi.kind.Pointer?
  {
  }

  lemma ThroughAlias(u: Unit, d: Decl, name: string, aliased: Object)
    requires d.ctype.base == TypedefName(name) && !(u.rejectQualifiers && d.ctype.qualified)
    ensures ObjectIn(u, d, map[AliasNode(name) := AliasEntry(aliased)]) ==
      if aliased.isArray then
        if d.declarator.pointerDepth != 0 || d.declarator.arrayCount.Some? then None else Some(aliased)
      else Finish(Pointers(aliased.info, d.declarator.pointerDepth), d.declarator.arrayCount)
  {
  }

  lemma FinishKeepsType(info: TypeInfo, count: Option<nat>)
    ensures Finish(info, count).Some? ==> Finish(info, count).value.info == info
  {
  }

  lemma ResolvedMeans(u: Unit, aliases: Aliases, structs: Structs, name: string)
    requires StateOk(u, aliases, structs) && name in structs && structs[name].resolved
    ensures Means(u, StructNode(name), StructEntry(structs[name].fields, structs[name].abi))
  {
    hide Means;
  }

  lemma Unknown(u: Unit, n: Node)
    requires n !in Universe(u)
    ensures !Denotes(u, n)
  {
    hide Eval;
  }

  lemma MeansDenotes(u: Unit, n: Node, e: Entry)
    requires Means(u, n, e)
    ensures Denotes(u, n)
  {
    hide EnvAt;
  }

  lemma AliasDependencyPlaced(u: Unit, name: string, pending: set<Node>)
    requires name in u.aliases && Placed(u, AliasNode(name), pending)
    ensures DeclPlaced(u, u.aliases[name], pending + {AliasNode(name)})
  {
    hide Placed;
    var d := DeclDependency(u.aliases[name]);
    if d.Some? {
      PlacedBelow(u, AliasNode(name), d.value, pending);
    }
  }

  lemma FieldDependencyPlaced(u: Unit, name: string, i: nat, pending: set<Node>)
    requires name in u.structs && i < |u.structs[name]| && Placed(u, StructNode(name), pending)
    ensures DeclPlaced(u, u.structs[name][i].decl, pending + {StructNode(name)})
  {
    hide Placed;
    var d := DeclDependency(u.structs[name][i].decl);
    if d.Some? {
      assert DependsOn(u, StructNode(name), d.value);
      PlacedBelow(u, StructNode(name), d.value, pending);
    }
  }

  // ------------------------------------------ steps of ResolveAliasObject

  /** The three cases that need no work. */
  lemma AliasSettled(u: Unit, a: Aliases, s: Structs, name: string)
    requires StateOk(u, a, s) && Placed(u, AliasNode(name), Pending(a, s))
    ensures name !in a ==> !Denotes(u, AliasNode(name))
    ensures name in a && a[name].resolved ==>
      && a[name].item.Some? && Denotes(u, AliasNode(name)) && Completed(a[name].item.value.info, s)
      && Means(u, AliasNode(name), AliasEntry(a[name].item.value))
    ensures name in a && a[name].resolving ==> !Denotes(u, AliasNode(name))
  {
    hide Means, Denotes, Placed, Completed;
    if name !in a {
      Unknown(u, AliasNode(name));
    } else if a[name].resolved {
      MeansDenotes(u, AliasNode(name), AliasEntry(a[name].item.value));
    } else if a[name].resolving {
      PendingIsCyclic(u, AliasNode(name), Pending(a, s));
    }
  }

  lemma AliasStarted(u: Unit, a: Aliases, s: Structs, name: string)
    requires StateOk(u, a, s) && name in a && !a[name].resolved && !a[name].resolving
    ensures var a' := a[name := a[name].(resolving := true)];
      StateOk(u, a', s) && Pending(a', s) == Pending(a, s) + {AliasNode(name)}
    ensures name in u.aliases && AliasNode(name) in Universe(u) && AliasNode(name) !in Pending(a, s)
  {
    hide Means, Denotes;
  }

  lemma AliasReturned(a0: Aliases, s0: Structs, a: Aliases, a': Aliases, s': Structs, name: string)
    requires name in a0 && a == a0[name := a0[name].(resolving := true)] && Kept(a, s0, a', s')
    ensures name in a' && a'[name] == a[name] && Kept(a0, s0, a'[name := a0[name]], s')
  {
  }

  lemma AliasClosed(u: Unit, a0: Aliases, s0: Structs, a: Aliases, s: Structs, name: string, last: AliasState)
    requires StateOk(u, a, s) && name in a0 && name in a && Kept(a0, s0, a[name := a0[name]], s)
    requires !a0[name].resolving && !a0[name].resolved && !last.resolving
    requires last.resolved ==> last.item.Some? && Means(u, AliasNode(name), AliasEntry(last.item.value)) && Completed(last.item.value.info, s)
    ensures StateOk(u, a[name := last], s) && Kept(a0, s0, a[name := last], s)
  {
    hide Means, Denotes, Completed;
  }

  // -------------------------------------------------- steps of LayOutStruct

  lemma Started(u: Unit, a: Aliases, s: Structs, name: string)
    requires StateOk(u, a, s) && name in s && !s[name].resolved && !s[name].resolving
    ensures var s' := s[name := s[name].(resolving := true)];
      StateOk(u, a, s') && Pending(a, s') == Pending(a, s) + {StructNode(name)} && Kept(a, s, a, s'[name := s[name]])
    ensures name in u.structs && StructNode(name) in Universe(u) && StructNode(name) !in Pending(a, s)
    ensures Denotes(u, StructNode(name)) ==> s[name].fields == []
  {
    hide Means, Denotes;
  }

  /** While a struct is being resolved its field list is nobody else's business. */
  lemma Pushed(u: Unit, a: Aliases, s: Structs, name: string, fields: seq<FieldInfo>)
    requires StateOk(u, a, s) && name in s && s[name].resolving
    ensures var s' := s[name := s[name].(fields := fields)]; StateOk(u, a, s') && Pending(a, s') == Pending(a, s)
  {
    hide Means, Denotes;
  }

  lemma AcrossField(a0: Aliases, s0: Structs, a: Aliases, s: Structs, a': Aliases, s': Structs, name: string)
    requires name in s0 && name in s && Kept(a0, s0, a, s[name := s0[name]]) && Kept(a, s, a', s')
    requires s[name].resolving && !s0[name].resolving && !s0[name].resolved
    ensures Kept(a0, s0, a', s'[name := s0[name]]) && name in s' && s'[name] == s[name] && Pending(a', s') == Pending(a, s)
  {
    KeptPending(a, s, a', s');
  }

  /** Leaving: either the name means nothing, or its entry is complete. */
  lemma Closed(u: Unit, a0: Aliases, s0: Structs, a: Aliases, s: Structs, name: string, last: StructState)
    requires StateOk(u, a, s) && name in s0 && name in s && Kept(a0, s0, a, s[name := s0[name]])
    requires s[name].resolving && !s0[name].resolving && !s0[name].resolved && !last.resolving
    requires if last.resolved then Means(u, StructNode(name), StructEntry(last.fields, last.abi)) else !Denotes(u, StructNode(name))
    ensures StateOk(u, a, s[name := last]) && Kept(a0, s0, a, s[name := last])
  {
    hide Means, Denotes;
  }

  lemma NoFieldsYet(u: Unit, declared: seq<FieldDecl>)
    ensures FieldsMean(u, declared[..0], []) && LayoutFields(Abis([])) == Some(Layout([], 0, 1))
    ensures Infos(declared[..0], [], []) == []
  {
    assert declared[..0] == [];
    assert FieldObjects(u, [], EnvAt(u, 0)) == Some([]);
    assert Abis([]) == [];
  }

  lemma OneMoreField(objects: seq<Object>, o: Object, l: Layout)
    requires LayoutFields(Abis(objects)) == Some(l)
    ensures LayoutFields(Abis(objects + [o])) == AddField(l, o.Abi())
  {
    assert Abis(objects + [o])[..|objects|] == Abis(objects);
  }

  lemma MoreInfos(declared: seq<FieldDecl>, i: nat, objects: seq<Object>, offsets: seq<nat>, o: Object, offset: nat)
    requires i < |declared| && |objects| == |offsets| == i
    ensures Infos(declared[..i + 1], objects + [o], offsets + [offset]) ==
      Infos(declared[..i], objects, offsets) + [FieldInfo(declared[i].name, o, offset)]
  {
  }

  lemma WholeStruct(declared: seq<FieldDecl>, objects: seq<Object>, l: Layout)
    requires |declared| == |objects| == |l.offsets| && LayoutFields(Abis(objects)) == Some(l)
    ensures StructOf(declared, objects) ==
      match AlignUp(l.end, l.alignment)
      case None => None
      case Some(bytes) =>
        Some(StructEntry(Infos(declared, objects, l.offsets), AbiType(Aggregate, bytes, l.alignment, 1, Abis(objects), l.offsets)))
  {
    hide LayoutFields, AlignUp;
  }

  // --------------------------------------------------------- any order

  ghost predicate FlagSet(aliases: Aliases, structs: Structs, n: Node) {
    match n
    case AliasNode(name) => name in aliases && aliases[name].resolved
    case StructNode(name) => name in structs && structs[name].resolved
  }

  lemma ResolvedDenotes(u: Unit, a: Aliases, s: Structs, n: Node)
    requires StateOk(u, a, s) && FlagSet(a, s, n)
    ensures Denotes(u, n)
  {
    hide Means, Denotes;
    match n
    case AliasNode(name) => MeansDenotes(u, n, AliasEntry(a[name].item.value));
    case StructNode(name) => MeansDenotes(u, n, StructEntry(s[name].fields, s[name].abi));
  }

  lemma StaysResolved(u: Unit, a: Aliases, s: Structs, a': Aliases, s': Structs, n: Node)
    requires Kept(a, s, a', s') && StateOk(u, a', s') && (FlagSet(a, s, n) <==> Denotes(u, n))
    ensures FlagSet(a', s', n) <==> Denotes(u, n)
  {
    hide Means, Denotes, StateOk;
    if FlagSet(a', s', n) {
      ResolvedDenotes(u, a', s', n);
    }
  }

  /** A resolved struct's fields are its declaration's, one for one, at their ABI offsets. */
  lemma FieldsAreDeclared(u: Unit, name: string, fields: seq<FieldInfo>, abi: AbiType)
    requires Means(u, StructNode(name), StructEntry(fields, abi)) && name in u.structs
    ensures |fields| == |u.structs[name]| == |abi.fields| == |abi.offsets|
    ensures forall i | 0 <= i < |fields| ::
      && fields[i].name == u.structs[name][i].name && ObjectMeans(u, u.structs[name][i].decl, fields[i].item)
      && fields[i].offset == abi.offsets[i] && fields[i].item.Abi() == abi.fields[i]
  {
    hide Means, ObjectMeans, LayoutFields, FieldsMean;
    var objects := StructMeaning(u, name, StructEntry(fields, abi));
    FieldsPrefix(u, u.structs[name], objects, 0);
  }

  /** Stricter than C: a pointer to the struct's own typedef counts as a dependency. */
  lemma OwnTypedefPointerIsRejected(u: Unit, s: string, t: string, i: nat)
    requires t in u.aliases && u.aliases[t].ctype.base == Struct(s) && u.aliases[t].declarator.pointerDepth == 0
    requires s in u.structs && i < |u.structs[s]| && u.structs[s][i].decl.ctype.base == TypedefName(t)
    ensures !Denotes(u, StructNode(s)) && !Denotes(u, AliasNode(t))
  {
    hide Denotes;
    var there, back := [StructNode(s), AliasNode(t), StructNode(s)], [AliasNode(t), StructNode(s), AliasNode(t)];
    assert DependsOn(u, StructNode(s), AliasNode(t)) && DependsOn(u, AliasNode(t), StructNode(s));
    assert IsPath(u, there) && there[0] == there[2] && Repeats(there);
    assert IsPath(u, back) && back[0] == back[2] && Repeats(back);
    DenotesExactly(u, StructNode(s));
    DenotesExactly(u, AliasNode(t));
  }

  // ---------------------------------------------------------------- the class

  class Lowerer {
    const unit: Unit
    var aliases: Aliases
    var structs: Structs

    ghost predicate Valid()
      reads this
    {
      StateOk(unit, aliases, structs)
    }

    ghost function Left(): nat
      reads this
    {
      |Universe(unit) - Pending(aliases, structs)|
    }

    /** collectDeclarations enters every name unresolved. */
    constructor (unit: Unit)
      ensures this.unit == unit && Valid() && Pending(aliases, structs) == {}
    {
      this.unit := unit;
      aliases := map x | x in unit.aliases :: AliasState(false, false, None);
      structs := map x | x in unit.structs :: StructState(false, false, [], AbiType(Aggregate, 0, 1, 1, [], []));
    }

    method ResolveAliasObject(name: string) returns (r: Option<Object>)
      requires Valid() && Placed(unit, AliasNode(name), Pending(aliases, structs))
      modifies this
      ensures Valid() && Kept(old(aliases), old(structs), aliases, structs)
      ensures r.Some? <==> Denotes(unit, AliasNode(name))
      ensures r.Some? ==> Means(unit, AliasNode(name), AliasEntry(r.value)) && Completed(r.value.info, structs)
      ensures r.Some? ==> name in aliases && aliases[name].resolved
      decreases Left(), 0
    {
      hide EnvAt, ObjectMeans, Below, DependsOn, Means, Denotes, HasObject, Completed, StateOk, Kept, Pending, Placed, Universe;
      ghost var n := AliasNode(name);
      AliasSettled(unit, aliases, structs, name);
      KeptItself(aliases, structs);
      if name !in aliases {
        return None;
      }
      if aliases[name].resolved {
        return aliases[name].item;
      }
      if aliases[name].resolving {
        return None;
      }
      ghost var pending := Pending(aliases, structs);
      ghost var a0, s0 := aliases, structs;
      AliasStarted(unit, aliases, structs, name);
      FewerLeft(Universe(unit), pending, n);
      AliasDependencyPlaced(unit, name, pending);
      aliases := aliases[name := aliases[name].(resolving := true)];
      ghost var a := aliases;
      r := ResolveObject(unit.aliases[name]);
      AliasReturned(a0, s0, a, aliases, structs, name);
      AliasDenotes(unit, name);
      if r.None? {
        AliasClosed(unit, a0, s0, aliases, structs, name, aliases[name].(resolving := false));
        aliases := aliases[name := aliases[name].(resolving := false)];
        return;
      }
      AliasMeaning(unit, name, r.value);
      AliasClosed(unit, a0, s0, aliases, structs, name, AliasState(false, true, r));
      aliases := aliases[name := AliasState(false, true, r)];
    }

    method ResolveObject(d: Decl) returns (r: Option<Object>)
      requires Valid() && DeclPlaced(unit, d, Pending(aliases, structs))
      modifies this
      ensures Valid() && Kept(old(aliases), old(structs), aliases, structs)
      ensures r.Some? <==> HasObject(unit, d)
      ensures r.Some? ==> ObjectMeans(unit, d, r.value) && Completed(r.value.info, structs)
      decreases Left(), 1
    {
      hide EnvAt, ObjectMeans, Below, Pointers, Denotes, Means, StateOk, Kept;
      KeptItself(aliases, structs);
      if unit.rejectQualifiers && d.ctype.qualified {
        NoObject(unit, d);
        return None;
      }
      match d.ctype.base {
        case TypedefName(name) =>
          r := ResolveThroughAlias(d, name);
        case Struct(name) =>
          if d.declarator.pointerDepth > 0 {
            r := Finish(Pointers(IncompleteStruct(name), d.declarator.pointerDepth), d.declarator.arrayCount);
            PointersShape(IncompleteStruct(name), d.declarator.pointerDepth);
            AloneExactly(unit, d, r);
          } else {
            r := ResolveByValue(d, name);
          }
        case base =>
          var info := Pointers(TypeInfo(ScalarAbi(base), "", None), d.declarator.pointerDepth);
          r := Finish(info, d.declarator.arrayCount);
          PointersShape(TypeInfo(ScalarAbi(base), "", None), d.declarator.pointerDepth);
          AloneExactly(unit, d, r);
      }
    }

    /** A declaration through a typedef name: array aliases pass unchanged or not at all. */
    method ResolveThroughAlias(d: Decl, name: string) returns (r: Option<Object>)
      requires Valid() && DeclPlaced(unit, d, Pending(aliases, structs))
      requires d.ctype.base == TypedefName(name) && !(unit.rejectQualifiers && d.ctype.qualified)
      modifies this
      ensures Valid() && Kept(old(aliases), old(structs), aliases, structs)
      ensures r.Some? <==> HasObject(unit, d)
      ensures r.Some? ==> ObjectMeans(unit, d, r.value) && Completed(r.value.info, structs)
      decreases Left(), 1, 0
    {
      hide EnvAt, ObjectMeans, Below, Denotes, Means, StateOk, Kept, Pointers, ObjectIn, Finish, Placed, Pending, HasObject, Universe;
      ghost var dep := AliasNode(name);
      var aliased := ResolveAliasObject(name);
      if aliased.None? {
        NothingFrom(unit, d, dep);
        return None;
      }
      ghost var e := AliasEntry(aliased.value);
      ghost var a, s := aliases, structs;
      ThroughAlias(unit, d, name, aliased.value);
      if aliased.value.isArray {
        r := if d.declarator.pointerDepth != 0 || d.declarator.arrayCount.Some? then None else aliased;
        DependencyExactly(unit, d, dep, e, r);
        return;
      }
      var info := Pointers(aliased.value.info, d.declarator.pointerDepth);
      PointersShape(aliased.value.info, d.declarator.pointerDepth);
      if info.abi.kind.Aggregate? {
        ghost var behind := AggregateAlias(unit, name, aliased.value);
        MeansDenotes(unit, StructNode(info.aggregate), behind);
        KeptPending(old(aliases), old(structs), aliases, structs);
        var ok := ResolveStruct(info.aggregate);
        KeptTrans(old(aliases), old(structs), a, s, aliases, structs);
        ResolvedMeans(unit, aliases, structs, info.aggregate);
        MeansUnique(unit, StructNode(info.aggregate), behind, StructEntry(structs[info.aggregate].fields, structs[info.aggregate].abi));
        info := info.(abi := structs[info.aggregate].abi);
      }
      r := Finish(info, d.declarator.arrayCount);
      FinishKeepsType(info, d.declarator.arrayCount);
      DependencyExactly(unit, d, dep, e, r);
    }

    /** A struct by value must be complete. */
    method ResolveByValue(d: Decl, name: string) returns (r: Option<Object>)
      requires Valid() && DeclPlaced(unit, d, Pending(aliases, structs))
      requires d.ctype.base == Struct(name) && d.declarator.pointerDepth == 0 && !(unit.rejectQualifiers && d.ctype.qualified)
      modifies this
      ensures Valid() && Kept(old(aliases), old(structs), aliases, structs)
      ensures r.Some? <==> HasObject(unit, d)
      ensures r.Some? ==> ObjectMeans(unit, d, r.value) && Completed(r.value.info, structs)
      decreases Left(), 1, 0
    {
      hide EnvAt, ObjectMeans, Below, Denotes, Means, StateOk, Kept, Pointers;
      ghost var dep := StructNode(name);
      var ok := ResolveStruct(name);
      if !ok {
        NothingFrom(unit, d, dep);
        return None;
      }
      ResolvedMeans(unit, aliases, structs, name);
      r := Finish(TypeInfo(structs[name].abi, name, None), d.declarator.arrayCount);
      DependencyExactly(unit, d, dep, StructEntry(structs[name].fields, structs[name].abi), r);
    }

    method ResolveStruct(name: string) returns (ok: bool)
      requires Valid()
      requires Placed(unit, StructNode(name), Pending(aliases, structs)) || (name in structs && structs[name].resolved)
      modifies this
      ensures Valid() && Kept(old(aliases), old(structs), aliases, structs)
      ensures ok <==> Denotes(unit, StructNode(name))
      ensures ok ==> name in structs && structs[name].resolved
      decreases Left(), 0
    {
      hide EnvAt, FieldsMean, Below, DependsOn, ObjectMeans, StructOf, LayoutFields, AddField, AlignUp;
      ghost var n := StructNode(name);
      if name !in structs {
        Unknown(unit, n);
        return false;
      }
      if structs[name].resolved {
        MeansDenotes(unit, n, StructEntry(structs[name].fields, structs[name].abi));
        return true;
      }
      ghost var pending := Pending(aliases, structs);
      if structs[name].resolving {
        PendingIsCyclic(unit, n, pending);
        return false;
      }
      ok := LayOutStruct(name);
    }

    /** The field loop, between setting and clearing the resolving flag. */
    method LayOutStruct(name: string) returns (ok: bool)
      requires Valid() && Placed(unit, StructNode(name), Pending(aliases, structs))
      requires name in structs && !structs[name].resolved && !structs[name].resolving
      modifies this
      ensures Valid() && Kept(old(aliases), old(structs), aliases, structs)
      ensures ok <==> Denotes(unit, StructNode(name))
      ensures ok ==> name in structs && structs[name].resolved
      decreases Left(), 0, 0
    {
      hide EnvAt, FieldsMean, Below, DependsOn, ObjectMeans, StructOf, LayoutFields, AlignUp, Denotes, Means, StateOk, Kept, Placed,
        HasObject, Pending, Universe, CheckedBytes, Infos, Abis, DeclPlaced, Completed;
      ghost var pending, n := Pending(aliases, structs), StructNode(name);
      ghost var a0, s0 := aliases, structs;
      Started(unit, aliases, structs, name);
      FewerLeft(Universe(unit), pending, n);
      structs := structs[name := structs[name].(resolving := true)];
      var declared := unit.structs[name];
      var offset: nat, alignment: nat, objects: seq<Object>, offsets: seq<nat> := 0, 1, [], [];
      NoFieldsYet(unit, declared);
      for i := 0 to |declared|
        invariant Valid() && Pending(aliases, structs) == pending + {n} && name in structs
        invariant Kept(a0, s0, aliases, structs[name := s0[name]])
        invariant |objects| == |offsets| == i && FieldsMean(unit, declared[..i], objects)
        invariant LayoutFields(Abis(objects)) == Some(Layout(offsets, offset, alignment))
        invariant structs[name] == s0[name].(resolving := true, fields := s0[name].fields + Infos(declared[..i], objects, offsets))
      {
        ghost var a, s := aliases, structs;
        FieldDependencyPlaced(unit, name, i, pending);
        var item := ResolveObject(declared[i].decl);
        AcrossField(a0, s0, a, s, aliases, structs, name);
        if item.None? {
          MissingField(unit, name, i);
          Closed(unit, a0, s0, aliases, structs, name, structs[name].(resolving := false));
          structs := structs[name := structs[name].(resolving := false)];
          return false;
        }
        var field := item.value.Abi();
        FieldsSnoc(unit, declared[..i], objects, declared[i], item.value);
        assert declared[..i] + [declared[i]] == declared[..i + 1];
        OneMoreField(objects, item.value, Layout(offsets, offset, alignment));
        var bytes, aligned := CheckedBytes(field), AlignUp(offset, field.alignment);
        if bytes == 0 || field.alignment == 0 || aligned.None? || aligned.value > SIZE_MAX - bytes {
          MisplacedField(unit, name, objects + [item.value]);
          Closed(unit, a0, s0, aliases, structs, name, structs[name].(resolving := false));
          structs := structs[name := structs[name].(resolving := false)];
          return false;
        }
        offset := aligned.value;
        var more := structs[name].fields + [FieldInfo(declared[i].name, item.value, offset)];
        Pushed(unit, aliases, structs, name, more);
        MoreInfos(declared, i, objects, offsets, item.value, offset);
        assert structs[name := structs[name].(fields := more)][name := s0[name]] == structs[name := s0[name]];
        structs := structs[name := structs[name].(fields := more)];
        objects, offsets := objects + [item.value], offsets + [offset];
        alignment := Max(alignment, field.alignment);
        offset := offset + bytes;
      }
      assert declared[..|declared|] == declared;
      WholeStruct(declared, objects, Layout(offsets, offset, alignment));
      var size := AlignUp(offset, alignment);
      if size.None? {
        OversizedStruct(unit, name, objects);
        Closed(unit, a0, s0, aliases, structs, name, structs[name].(resolving := false));
        structs := structs[name := structs[name].(resolving := false)];
        return false;
      }
      var abi := AbiType(Aggregate, size.value, alignment, 1, Abis(objects), offsets);
      ghost var e := StructEntry(Infos(declared, objects, offsets), abi);
      StructHasMeaning(unit, name, objects, e);
      MeansDenotes(unit, n, e);
      assert structs[name].fields == Infos(declared, objects, offsets);
      Closed(unit, a0, s0, aliases, structs, name, StructState(false, true, structs[name].fields, abi));
      structs := structs[name := StructState(false, true, structs[name].fields, abi)];
      ok := true;
    }

    /** Names resolved in any order, failures in between included. */
    method ResolveNames(order: seq<Node>)
      requires Valid() && Pending(aliases, structs) == {}
      modifies this
      ensures Valid() && Pending(aliases, structs) == {}
      ensures forall n | n in order :: IsResolved(n) <==> !ReachesCycle(unit, n) && !ReachesError(unit, n)
    {
      hide EnvAt, Denotes, Means, StateOk, Kept, Pending, ReachesCycle, ReachesError;
      for i := 0 to |order|
        invariant Valid() && Pending(aliases, structs) == {}
        invariant forall n | n in order[..i] :: IsResolved(n) <==> Denotes(unit, n)
      {
        ghost var a, s := aliases, structs;
        match order[i] {
          case AliasNode(name) =>
            var r := ResolveAliasObject(name);
          case StructNode(name) =>
            var ok := ResolveStruct(name);
        }
        KeptPending(a, s, aliases, structs);
        forall n | n in order[..i + 1] ensures IsResolved(n) <==> Denotes(unit, n) {
          if n in order[..i] {
            StaysResolved(unit, a, s, aliases, structs, n);
          } else if IsResolved(n) {
            ResolvedDenotes(unit, aliases, structs, n);
          }
        }
      }
      assert order[..|order|] == order;
      forall n | n in order ensures Denotes(unit, n) <==> !ReachesCycle(unit, n) && !ReachesError(unit, n) {
        DenotesExactly(unit, n);
      }
    }

    ghost predicate IsResolved(n: Node)
      reads this
    {
      FlagSet(aliases, structs, n)
    }
  }
}
