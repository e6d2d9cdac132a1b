/**
  What a C typedef or struct name means, independently of any resolution order: the
  least fixed point of evaluating each declaration from the meanings of the names it
  depends on.
 */
module TypeMeaning {
  import opened Basics
  import opened StructLayout

  datatype Base =
    | Char | SignedChar | UnsignedChar | Short | UnsignedShort | Int | UnsignedInt
    | Long | UnsignedLong | LongLong | UnsignedLongLong | Float | Double
    | Void | Struct(name: string) | TypedefName(name: string)

  datatype CType = CType(base: Base, qualified: bool)

  datatype Declarator = Declarator(pointerDepth: nat, arrayCount: Option<nat>)

  datatype Decl = Decl(ctype: CType, declarator: Declarator)

  datatype FieldDecl = FieldDecl(name: string, decl: Decl)

  /** The declarations collected from a translation unit. */
  datatype Unit = Unit(aliases: map<string, Decl>, structs: map<string, seq<FieldDecl>>, rejectQualifiers: bool)

  datatype Node = AliasNode(name: string) | StructNode(name: string)

  /** A type: its ABI form, the struct name of an aggregate, the pointee of a pointer. */
  datatype TypeInfo = TypeInfo(abi: AbiType, aggregate: string, pointee: Option<TypeInfo>)

  datatype Object = Object(info: TypeInfo, isArray: bool, arrayCount: nat) {
    function Abi(): AbiType {
      info.abi.(elementCount := if isArray then arrayCount else 1)
    }
  }

  datatype FieldInfo = FieldInfo(name: string, item: Object, offset: nat)

  datatype Entry = AliasEntry(item: Object) | StructEntry(fields: seq<FieldInfo>, abi: AbiType)

  type Env = map<Node, Entry>

  // ------------------------------------------------- evaluating a declaration

  const ADDRESS_BYTES: nat := 8

  function Scalar(kind: Kind, bytes: nat): AbiType {
    AbiType(kind, bytes, bytes, 1, [], [])
  }

  function ScalarAbi(base: Base): AbiType
    requires !base.Struct? && !base.TypedefName?
  {
    match base
    case Char | SignedChar | UnsignedChar => Scalar(Integer, 1)
    case Short | UnsignedShort => Scalar(Integer, 2)
    case Int | UnsignedInt => Scalar(Integer, 4)
    case Long | UnsignedLong | LongLong | UnsignedLongLong => Scalar(Integer, 8)
    case Float => Scalar(Floating, 4)
    case Double => Scalar(Floating, 8)
    case Void => Scalar(Kind.Void, 0)
  }

  /** Pointers to an incomplete struct are fine; its ABI is filled in only by value. */
  function IncompleteStruct(name: string): TypeInfo {
    TypeInfo(AbiType(Aggregate, 0, 1, 1, [], []), name, None)
  }

  function Pointers(info: TypeInfo, depth: nat): TypeInfo {
    if depth == 0 then info
    else TypeInfo(Scalar(Pointer, ADDRESS_BYTES), "", Some(Pointers(info, depth - 1)))
  }

  /** The checks every object passes once its type is complete. */
  function Finish(info: TypeInfo, arrayCount: Option<nat>): Option<Object> {
    var item := Object(info, arrayCount.Some?, if arrayCount.Some? then arrayCount.value else 0);
    if info.abi.kind.Void? then None
    else if item.isArray && item.arrayCount == 0 then None
    else if CheckedBytes(item.Abi()) == 0 then None
    else Some(item)
  }

  function ObjectIn(u: Unit, d: Decl, env: Env): Option<Object> {
    var depth, count := d.declarator.pointerDepth, d.declarator.arrayCount;
    if u.rejectQualifiers && d.ctype.qualified then None
    else
      match d.ctype.base
      case TypedefName(name) =>
        if AliasNode(name) !in env || !env[AliasNode(name)].AliasEntry? then None
        else
          var aliased := env[AliasNode(name)].item;
          if aliased.isArray then
            if depth != 0 || count.Some? then None else Some(aliased)
          else Finish(Pointers(aliased.info, depth), count)
      case Struct(name) =>
        if depth > 0 then Finish(Pointers(IncompleteStruct(name), depth), count)
        else if StructNode(name) !in env || !env[StructNode(name)].StructEntry? then None
        else Finish(TypeInfo(env[StructNode(name)].abi, name, None), count)
      case base => Finish(Pointers(TypeInfo(ScalarAbi(base), "", None), depth), count)
  }

  function FieldObjects(u: Unit, fields: seq<FieldDecl>, env: Env): (r: Option<seq<Object>>)
    ensures r.Some? ==> |r.value| == |fields|
  {
    if fields == [] then Some([])
    else
      var n := |fields| - 1;
      match FieldObjects(u, fields[..n], env)
      case None => None
      case Some(objects) =>
        match ObjectIn(u, fields[n].decl, env)
        case None => None
        case Some(item) => Some(objects + [item])
  }

  function Abis(objects: seq<Object>): (r: seq<AbiType>)
    ensures |r| == |objects|
  {
    seq(|objects|, i requires 0 <= i < |objects| => objects[i].Abi())
  }

  function Infos(fields: seq<FieldDecl>, objects: seq<Object>, offsets: seq<nat>): seq<FieldInfo>
    requires |fields| == |objects| == |offsets|
  {
    seq(|fields|, i requires 0 <= i < |fields| => FieldInfo(fields[i].name, objects[i], offsets[i]))
  }

  function StructOf(fields: seq<FieldDecl>, objects: seq<Object>): Option<Entry>
    requires |fields| == |objects|
  {
    match ResolveLayout(Abis(objects))
    case None => None
    case Some(abi) =>
      if |abi.offsets| != |fields| then None else Some(StructEntry(Infos(fields, objects, abi.offsets), abi))
  }

  /** One declaration, given the meanings of the names it depends on. */
  function Eval(u: Unit, n: Node, env: Env): Option<Entry> {
    match n
    case AliasNode(name) =>
      if name !in u.aliases then None
      else
        (match ObjectIn(u, u.aliases[name], env)
         case None => None
         case Some(item) => Some(AliasEntry(item)))
    case StructNode(name) =>
      if name !in u.structs then None
      else
        match FieldObjects(u, u.structs[name], env)
        case None => None
        case Some(objects) => StructOf(u.structs[name], objects)
  }

  // --------------------------------------------------- what an object is

  /** So many pointers to the target, each an address. */
  predicate PointsTo(info: TypeInfo, depth: nat, target: TypeInfo)
    decreases depth
  {
    if depth == 0 then info == target
    else
      && info.abi.kind.Pointer? && info.abi.byteLength == info.abi.alignment == 8 && info.abi.elementCount == 1
      && info.abi.fields == [] && info.abi.offsets == [] && info.aggregate == ""
      && info.pointee.Some? && PointsTo(info.pointee.value, depth - 1, target)
  }

  /** The LP64 sizes of figure 3.1 of the psABI; every scalar is aligned to its size. */
  predicate IsBase(base: Base, info: TypeInfo) {
    && info.aggregate == "" && info.pointee.None? && info.abi.elementCount == 1 && info.abi.fields == [] && info.abi.offsets == []
    && info.abi.alignment == info.abi.byteLength
    && (base in {Char, SignedChar, UnsignedChar} ==> info.abi.byteLength == 1)
    && (base in {Short, UnsignedShort} ==> info.abi.byteLength == 2)
    && (base in {Int, UnsignedInt, Float} ==> info.abi.byteLength == 4)
    && (base in {Long, UnsignedLong, LongLong, UnsignedLongLong, Double} ==> info.abi.byteLength == 8)
    && (base == Base.Void <==> info.abi.kind.Void?) && (info.abi.kind.Void? ==> info.abi.byteLength == 0)
    && (base in {Float, Double} <==> info.abi.kind.Floating?)
    && !info.abi.kind.Pointer? && !info.abi.kind.Aggregate?
  }

  /** The type behind all the pointers of a declaration; a struct may be incomplete there. */
  predicate StartsFrom(d: Decl, env: Env, info: TypeInfo) {
    match d.ctype.base
    case TypedefName(name) =>
      AliasNode(name) in env && env[AliasNode(name)].AliasEntry? && !env[AliasNode(name)].item.isArray && info == env[AliasNode(name)].item.info
    case Struct(name) =>
      if d.declarator.pointerDepth > 0 then info == IncompleteStruct(name)
      else StructNode(name) in env && env[StructNode(name)].StructEntry? && info == TypeInfo(env[StructNode(name)].abi, name, None)
    case base => IsBase(base, info)
  }

  /** A typedef of an array stands for it only without further pointers or dimensions. */
  predicate NamesArray(d: Decl, env: Env, o: Object) {
    && d.ctype.base.TypedefName? && d.declarator == Declarator(0, None)
    && var n := AliasNode(d.ctype.base.name);
       n in env && env[n].AliasEntry? && env[n].item.isArray && o == env[n].item
  }

  /** An element of some size, so often that the whole has a size too. */
  predicate HasElements(o: Object, count: Option<nat>) {
    && !o.info.abi.kind.Void? && o.isArray == count.Some? && o.arrayCount == (if count.Some? then count.value else 0)
    && 0 < o.info.abi.byteLength * (if count.Some? then count.value else 1) <= SIZE_MAX
  }

  lemma {:induction false} PointersPoint(info: TypeInfo, depth: nat, target: TypeInfo)
    ensures info == Pointers(target, depth) <==> PointsTo(info, depth, target)
    decreases depth
  {
    if depth > 0 && info.pointee.Some? {
      PointersPoint(info.pointee.value, depth - 1, target);
    }
  }

  lemma BaseIsScalar(base: Base, info: TypeInfo)
    requires !base.Struct? && !base.TypedefName?
    ensures IsBase(base, info) <==> info == TypeInfo(ScalarAbi(base), "", None)
  {
  }

  lemma FinishExactly(info: TypeInfo, count: Option<nat>, o: Object)
    ensures Finish(info, count) == Some(o) <==> o.info == info && HasElements(o, count)
  {
    var abi := Object(info, count.Some?, if count.Some? then count.value else 0).Abi();
    assert TotalBytes(abi) == info.abi.byteLength * (if count.Some? then count.value else 1);
  }

  /** Some type behind the pointers, and their object. */
  ghost predicate IsPointerChain(d: Decl, env: Env, o: Object) {
    exists info :: StartsFrom(d, env, info) && PointsTo(o.info, d.declarator.pointerDepth, info)
  }

  lemma ChainFrom(d: Decl, env: Env, o: Object, start: TypeInfo)
    requires forall info :: StartsFrom(d, env, info) <==> info == start
    ensures Finish(Pointers(start, d.declarator.pointerDepth), d.declarator.arrayCount) == Some(o) <==>
      HasElements(o, d.declarator.arrayCount) && IsPointerChain(d, env, o)
  {
    hide Pointers, PointsTo, Finish, HasElements, StartsFrom;
    FinishExactly(Pointers(start, d.declarator.pointerDepth), d.declarator.arrayCount, o);
    PointersPoint(o.info, d.declarator.pointerDepth, start);
    assert StartsFrom(d, env, start);
  }

  /** Exactly which object a declaration denotes, given the meanings of other names. */
  lemma ObjectExactly(u: Unit, d: Decl, env: Env, o: Object)
    ensures ObjectIn(u, d, env) == Some(o) <==>
      && !(u.rejectQualifiers && d.ctype.qualified)
      && (NamesArray(d, env, o) || (HasElements(o, d.declarator.arrayCount) && IsPointerChain(d, env, o)))
  {
    hide Pointers, PointsTo, Finish, HasElements, IsBase, ScalarAbi;
    match d.ctype.base
    case TypedefName(name) =>
      if AliasNode(name) in env && env[AliasNode(name)].AliasEntry? && !env[AliasNode(name)].item.isArray {
        ChainFrom(d, env, o, env[AliasNode(name)].item.info);
      }
    case Struct(name) =>
      if d.declarator.pointerDepth > 0 {
        ChainFrom(d, env, o, IncompleteStruct(name));
      } else if StructNode(name) in env && env[StructNode(name)].StructEntry? {
        ChainFrom(d, env, o, TypeInfo(env[StructNode(name)].abi, name, None));
        assert Pointers(TypeInfo(env[StructNode(name)].abi, name, None), 0) == TypeInfo(env[StructNode(name)].abi, name, None) by { NoPointers(TypeInfo(env[StructNode(name)].abi, name, None)); }
      }
    case base =>
      forall info ensures IsBase(base, info) <==> info == TypeInfo(ScalarAbi(base), "", None) {
        BaseIsScalar(base, info);
      }
      ChainFrom(d, env, o, TypeInfo(ScalarAbi(base), "", None));
  }

  lemma NoPointers(info: TypeInfo)
    ensures Pointers(info, 0) == info
  {
  }

  // ------------------------------------------------------- the fixed point

  function Universe(u: Unit): set<Node> {
    (set x | x in u.aliases :: AliasNode(x)) + (set x | x in u.structs :: StructNode(x))
  }

  function EnvAt(u: Unit, rounds: nat): Env {
    if rounds == 0 then map[]
    else
      var env := EnvAt(u, rounds - 1);
      map n | n in Universe(u) && Eval(u, n, env).Some? :: Eval(u, n, env).value
  }

  ghost predicate Means(u: Unit, n: Node, e: Entry) {
    exists f: nat :: n in EnvAt(u, f) && EnvAt(u, f)[n] == e
  }

  ghost predicate Denotes(u: Unit, n: Node) {
    exists f: nat :: n in EnvAt(u, f)
  }

  ghost predicate ObjectMeans(u: Unit, d: Decl, o: Object) {
    exists f: nat :: ObjectIn(u, d, EnvAt(u, f)) == Some(o)
  }

  ghost predicate FieldsMean(u: Unit, fields: seq<FieldDecl>, objects: seq<Object>) {
    exists f: nat :: FieldObjects(u, fields, EnvAt(u, f)) == Some(objects)
  }

  ghost predicate Within(small: Env, large: Env) {
    forall n | n in small :: n in large && large[n] == small[n]
  }

  lemma {:induction false} FieldObjectsGrow(u: Unit, fields: seq<FieldDecl>, small: Env, large: Env)
    requires Within(small, large) && FieldObjects(u, fields, small).Some?
    ensures FieldObjects(u, fields, large) == FieldObjects(u, fields, small)
    decreases |fields|
  {
    hide Finish, Pointers;
    if fields != [] {
      FieldObjectsGrow(u, fields[..|fields| - 1], small, large);
    }
  }

  lemma EvalGrows(u: Unit, n: Node, small: Env, large: Env)
    requires Within(small, large) && Eval(u, n, small).Some?
    ensures Eval(u, n, large) == Eval(u, n, small)
  {
    hide Finish, Pointers, StructOf;
    if n.StructNode? {
      FieldObjectsGrow(u, u.structs[n.name], small, large);
    }
  }

  lemma {:induction false} EnvGrows(u: Unit, f: nat, g: nat)
    requires f <= g
    ensures Within(EnvAt(u, f), EnvAt(u, g))
    decreases g
  {
    hide Eval, Universe;
    if f > 0 && f < g {
      EnvGrows(u, f - 1, g - 1);
      forall n | n in EnvAt(u, f) ensures n in EnvAt(u, g) && EnvAt(u, g)[n] == EnvAt(u, f)[n] {
        EvalGrows(u, n, EnvAt(u, f - 1), EnvAt(u, g - 1));
      }
    }
  }

  /** A name means at most one thing. */
  lemma MeansUnique(u: Unit, n: Node, d: Entry, e: Entry)
    requires Means(u, n, d) && Means(u, n, e)
    ensures d == e
  {
    hide EnvAt;
    var f: nat :| n in EnvAt(u, f) && EnvAt(u, f)[n] == d;
    var g: nat :| n in EnvAt(u, g) && EnvAt(u, g)[n] == e;
    EnvGrows(u, f, Max(f, g));
    EnvGrows(u, g, Max(f, g));
  }

  lemma ObjectGrows(u: Unit, d: Decl, f: nat, g: nat)
    requires f <= g && ObjectIn(u, d, EnvAt(u, f)).Some?
    ensures ObjectIn(u, d, EnvAt(u, g)) == ObjectIn(u, d, EnvAt(u, f))
  {
    hide EnvAt, Finish, Pointers;
    EnvGrows(u, f, g);
  }

  /** Fields that mean objects one by one mean them together. */
  lemma FieldsSnoc(u: Unit, fields: seq<FieldDecl>, objects: seq<Object>, field: FieldDecl, o: Object)
    requires FieldsMean(u, fields, objects) && ObjectMeans(u, field.decl, o)
    ensures FieldsMean(u, fields + [field], objects + [o])
  {
    hide EnvAt, ObjectIn;
    var f: nat :| FieldObjects(u, fields, EnvAt(u, f)) == Some(objects);
    var g: nat :| ObjectIn(u, field.decl, EnvAt(u, g)) == Some(o);
    var h := Max(f, g);
    EnvGrows(u, f, h);
    FieldObjectsGrow(u, fields, EnvAt(u, f), EnvAt(u, h));
    ObjectGrows(u, field.decl, g, h);
    assert (fields + [field])[..|fields|] == fields;
    assert FieldObjects(u, fields + [field], EnvAt(u, h)) == Some(objects + [o]);
  }

  lemma FieldsUnique(u: Unit, fields: seq<FieldDecl>, a: seq<Object>, b: seq<Object>)
    requires FieldsMean(u, fields, a) && FieldsMean(u, fields, b)
    ensures a == b
  {
    hide EnvAt;
    var f: nat :| FieldObjects(u, fields, EnvAt(u, f)) == Some(a);
    var g: nat :| FieldObjects(u, fields, EnvAt(u, g)) == Some(b);
    EnvGrows(u, f, Max(f, g));
    EnvGrows(u, g, Max(f, g));
    FieldObjectsGrow(u, fields, EnvAt(u, f), EnvAt(u, Max(f, g)));
    FieldObjectsGrow(u, fields, EnvAt(u, g), EnvAt(u, Max(f, g)));
  }

  lemma {:induction false} FieldsPrefix(u: Unit, fields: seq<FieldDecl>, objects: seq<Object>, i: nat)
    requires FieldsMean(u, fields, objects) && i <= |fields|
    ensures |objects| == |fields| && FieldsMean(u, fields[..i], objects[..i])
    ensures forall k | 0 <= k < |fields| :: ObjectMeans(u, fields[k].decl, objects[k])
    decreases |fields|
  {
    hide EnvAt, ObjectIn;
    var f: nat :| FieldObjects(u, fields, EnvAt(u, f)) == Some(objects);
    if fields != [] {
      var n := |fields| - 1;
      var init := FieldObjects(u, fields[..n], EnvAt(u, f)).value;
      assert objects[..n] == init && ObjectIn(u, fields[n].decl, EnvAt(u, f)) == Some(objects[n]);
      assert FieldsMean(u, fields[..n], init);
      FieldsPrefix(u, fields[..n], init, if i < n then i else n);
      forall k | 0 <= k < |fields| ensures ObjectMeans(u, fields[k].decl, objects[k]) {
        if k < n { assert fields[..n][k] == fields[k] && init[k] == objects[k]; }
      }
      if i == |fields| {
        assert fields[..i] == fields && objects[..i] == objects;
      } else {
        assert fields[..n][..i] == fields[..i] && init[..i] == objects[..i];
      }
    } else {
      assert fields[..i] == fields && objects[..i] == objects;
    }
  }

  // --------------------------------------------- meaning of one declaration

  lemma AliasMeaning(u: Unit, name: string, o: Object)
    requires name in u.aliases
    ensures Means(u, AliasNode(name), AliasEntry(o)) <==> ObjectMeans(u, u.aliases[name], o)
  {
    hide ObjectIn;
    var n := AliasNode(name);
    if Means(u, n, AliasEntry(o)) {
      var f: nat :| n in EnvAt(u, f) && EnvAt(u, f)[n] == AliasEntry(o);
      assert ObjectIn(u, u.aliases[name], EnvAt(u, f - 1)) == Some(o);
    }
    if ObjectMeans(u, u.aliases[name], o) {
      var f: nat :| ObjectIn(u, u.aliases[name], EnvAt(u, f)) == Some(o);
      assert Eval(u, n, EnvAt(u, f)) == Some(AliasEntry(o));
      assert n in EnvAt(u, f + 1) && EnvAt(u, f + 1)[n] == AliasEntry(o);
    }
  }

  ghost predicate StructMeans(u: Unit, name: string, objects: seq<Object>, e: Entry)
    requires name in u.structs
  {
    |objects| == |u.structs[name]| && FieldsMean(u, u.structs[name], objects) && StructOf(u.structs[name], objects) == Some(e)
  }

  lemma StructMeaning(u: Unit, name: string, e: Entry) returns (objects: seq<Object>)
    requires name in u.structs && Means(u, StructNode(name), e)
    ensures StructMeans(u, name, objects, e)
  {
    hide StructOf, FieldObjects;
    var n := StructNode(name);
    var f: nat :| n in EnvAt(u, f) && EnvAt(u, f)[n] == e;
    objects := FieldObjects(u, u.structs[name], EnvAt(u, f - 1)).value;
    assert FieldObjects(u, u.structs[name], EnvAt(u, f - 1)) == Some(objects);
  }

  lemma StructHasMeaning(u: Unit, name: string, objects: seq<Object>, e: Entry)
    requires name in u.structs && StructMeans(u, name, objects, e)
    ensures Means(u, StructNode(name), e)
  {
    hide StructOf, FieldObjects;
    var n := StructNode(name);
    var f: nat :| FieldObjects(u, u.structs[name], EnvAt(u, f)) == Some(objects);
    assert Eval(u, n, EnvAt(u, f)) == Some(e);
    assert n in EnvAt(u, f + 1) && EnvAt(u, f + 1)[n] == e;
  }

  lemma DenotesMeans(u: Unit, n: Node) returns (e: Entry)
    requires Denotes(u, n)
    ensures Means(u, n, e) && n in Universe(u)
    ensures n.AliasNode? <==> e.AliasEntry?
  {
    var f: nat :| n in EnvAt(u, f);
    e := EnvAt(u, f)[n];
  }
}
