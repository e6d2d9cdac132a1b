/**
  Physical argument positions of C-compatible functions. The function type builder, the
  attribute passes, the two call emitters and the callee prologue walk the parameters
  separately; each is proved against one list of physical slots.
 */
module ArgumentPositions {
  import opened Basics
  import opened StructLayout
  import opened CAbiDirect
  import opened CAbiClasses
  import opened CAbiPlan
  import opened CAbiPieces

  datatype Signature = Signature(parameters: seq<AbiType>, results: seq<AbiType>)

  predicate Indirect(t: AbiType) {
    t.kind.Aggregate? && t.byteLength > 16
  }

  // -------------------------------------------------------- the side tables

  datatype MemoryPlan = MemoryPlan(sret: bool, indirect: seq<bool>)

  predicate ReturnsIndirectly(sig: Signature) {
    |sig.results| == 1 && Indirect(sig.results[0])
  }

  /** cAbiMemoryPlanFor: absent when nothing is passed through memory. */
  function MemoryPlanFor(sig: Signature): Option<MemoryPlan> {
    var indirect := seq(|sig.parameters|, i requires 0 <= i < |sig.parameters| => Indirect(sig.parameters[i]));
    if !ReturnsIndirectly(sig) && true !in indirect then None
    else Some(MemoryPlan(ReturnsIndirectly(sig), indirect))
  }

  predicate Direct(t: AbiType) {
    t.kind.Aggregate? && !Indirect(t) && PlanOf(t).Some?
  }

  /** rememberCAbiDirectAggregatePlans: absent when no parameter is a direct aggregate. */
  function DirectTable(sig: Signature): Option<seq<Option<AbiType>>> {
    var entries := seq(|sig.parameters|, i requires 0 <= i < |sig.parameters| =>
      if Direct(sig.parameters[i]) then Some(sig.parameters[i]) else None);
    if forall i | 0 <= i < |entries| :: entries[i].None? then None else Some(entries)
  }

  function ScalarType(t: AbiType): Option<PieceType> {
    if t.elementCount != 1 || t.byteLength == 0 then None
    else
      match t.kind
      case Integer => Some(IntegerPiece(8 * t.byteLength))
      case Floating => Some(FloatPiece(t.byteLength))
      case Pointer => if t.byteLength == 8 then Some(PointerPiece) else None
      case _ => None
  }

  // ----------------------------------------------------- the reference list

  datatype Slot = ResultSlot | ByvalSlot(index: nat) | PieceSlot(index: nat, piece: nat) | ValueSlot(index: nat)

  /** What one logical parameter occupies. */
  function ParameterSlots(t: AbiType, i: nat): seq<Slot> {
    if Indirect(t) then [ByvalSlot(i)]
    else if t.kind.Aggregate? then
      match PlanOf(t)
      case None => []
      case Some(plan) => seq(|plan|, j requires 0 <= j < |plan| => PieceSlot(i, j))
    else [ValueSlot(i)]
  }

  /** The slots before parameter n: the result pointer, then the earlier parameters. */
  function SlotsBefore(sig: Signature, n: nat): seq<Slot>
    requires n <= |sig.parameters|
  {
    if n == 0 then (if ReturnsIndirectly(sig) then [ResultSlot] else [])
    else SlotsBefore(sig, n - 1) + ParameterSlots(sig.parameters[n - 1], n - 1)
  }

  function Slots(sig: Signature): seq<Slot> {
    SlotsBefore(sig, |sig.parameters|)
  }

  /** The first physical argument of parameter i. */
  function Position(sig: Signature, i: nat): nat
    requires i <= |sig.parameters|
  {
    |SlotsBefore(sig, i)|
  }

  predicate TypedParameter(t: AbiType) {
    Indirect(t) || (if t.kind.Aggregate? then PlanOf(t).Some? else ScalarType(t).Some?)
  }

  predicate TypedReturn(sig: Signature) {
    sig.results == [] || (|sig.results| == 1 && TypedParameter(sig.results[0]))
  }

  predicate Typed(sig: Signature) {
    TypedReturn(sig) && forall i | 0 <= i < |sig.parameters| :: TypedParameter(sig.parameters[i])
  }

  function ParameterTypes(t: AbiType): seq<PieceType>
    requires TypedParameter(t)
  {
    if Indirect(t) then [PointerPiece]
    else if t.kind.Aggregate? then
      var plan := PlanOf(t).value; seq(|plan|, j requires 0 <= j < |plan| => plan[j].kind)
    else [ScalarType(t).value]
  }

  ghost predicate MatchesSlots(types: seq<PieceType>, sig: Signature, n: nat)
    requires n <= |sig.parameters| && forall i | 0 <= i < n :: TypedParameter(sig.parameters[i])
  {
    && |types| == Position(sig, n)
    && (ReturnsIndirectly(sig) ==> |types| > 0 && types[0] == PointerPiece)
    && forall i | 0 <= i < n :: Lies(types, sig, i)
  }

  /** The types of parameter i stand at its position. */
  ghost predicate Lies(types: seq<PieceType>, sig: Signature, i: nat)
    requires i < |sig.parameters| && TypedParameter(sig.parameters[i])
  {
    var t := ParameterTypes(sig.parameters[i]);
    Position(sig, i) + |t| <= |types| && types[Position(sig, i)..][..|t|] == t
  }

  // --------------------------------------------------------------- results

  /** The physical type of a result; several pieces form a struct. */
  datatype ResultType = NoResult | OneResult(piece: PieceType) | StructResult(pieces: seq<PieceType>)

  datatype FunctionType = FunctionType(result: ResultType, parameters: seq<PieceType>)

  function Carried(result: ResultType): seq<PieceType> {
    match result
    case NoResult => []
    case OneResult(piece) => [piece]
    case StructResult(pieces) => pieces
  }

  /** CAbiDirectPlan's physicalType. */
  function PhysicalType(plan: seq<Piece>): (r: ResultType)
    ensures Carried(r) == seq(|plan|, j requires 0 <= j < |plan| => plan[j].kind)
    ensures r.StructResult? <==> |plan| != 1
  {
    if |plan| == 1 then OneResult(plan[0].kind)
    else StructResult(seq(|plan|, j requires 0 <= j < |plan| => plan[j].kind))
  }

  /** A direct result is carried in the types a parameter of its type would occupy. */
  ghost predicate MatchesResult(result: ResultType, sig: Signature)
    requires TypedReturn(sig)
  {
    if sig.results == [] || ReturnsIndirectly(sig) then result == NoResult
    else Carried(result) == ParameterTypes(sig.results[0]) && (result.StructResult? <==> |Carried(result)| != 1)
  }

  ghost predicate MatchesType(callee: FunctionType, sig: Signature)
    requires Typed(sig)
  {
    MatchesSlots(callee.parameters, sig, |sig.parameters|) && MatchesResult(callee.result, sig)
  }

  /** The entry of rememberCAbiDirectAggregatePlans for the result. */
  function DirectReturn(sig: Signature): Option<AbiType> {
    if |sig.results| == 1 && Direct(sig.results[0]) then Some(sig.results[0]) else None
  }

  /** How a result travels: through the caller's memory, packed in pieces, or as one value. */
  datatype ResultPath = ThroughMemory | InPieces(plan: seq<Piece>) | InOneValue

  function PathOf(sig: Signature): ResultPath {
    if ReturnsIndirectly(sig) then ThroughMemory
    else if DirectReturn(sig).Some? then InPieces(PlanOf(sig.results[0]).value)
    else InOneValue
  }

  lemma ResultOfPlan(result: ResultType, sig: Signature)
    requires TypedReturn(sig) && MatchesResult(result, sig) && !ReturnsIndirectly(sig) && DirectReturn(sig).Some?
    ensures PlanOf(sig.results[0]).Some? && result == PhysicalType(PlanOf(sig.results[0]).value)
  {
    hide PlanOf, ScalarType;
    var plan := PlanOf(sig.results[0]).value;
    assert Carried(result) == Carried(PhysicalType(plan));
  }

  // ---------------------------------------------------- cAbiFunctionType

  method BuildFunctionType(sig: Signature) returns (r: Option<FunctionType>)
    ensures r.Some? <==> Typed(sig)
    ensures r.Some? ==> MatchesType(r.value, sig)
  {
    hide PlanOf, ScalarType;
    var plan := MemoryPlanFor(sig);
    PlanMeaning(sig);
    var types: seq<PieceType> := [];
    if plan.Some? && plan.value.sret {
      types := [PointerPiece];
    }
    for i := 0 to |sig.parameters|
      invariant forall k | 0 <= k < i :: TypedParameter(sig.parameters[k])
      invariant MatchesSlots(types, sig, i)
    {
      var t := sig.parameters[i];
      ghost var before := types;
      if plan.Some? && plan.value.indirect[i] {
        types := types + [PointerPiece];
      } else if t.kind.Aggregate? {
        var direct := DirectPlan(t);
        if direct.None? {
          return None;
        }
        types := types + seq(|direct.value|, j requires 0 <= j < |direct.value| => direct.value[j].kind);
      } else {
        var scalar := ScalarType(t);
        if scalar.None? {
          return None;
        }
        types := types + [scalar.value];
      }
      assert types == before + ParameterTypes(t);
      AppendTypes(before, sig, i);
    }
    var result := ReturnType(sig, plan);
    if result.None? {
      return None;
    }
    r := Some(FunctionType(result.value, types));
  }

  method ReturnType(sig: Signature, plan: Option<MemoryPlan>) returns (r: Option<ResultType>)
    requires ReturnsIndirectly(sig) <==> plan.Some? && plan.value.sret
    ensures r.Some? <==> TypedReturn(sig)
    ensures r.Some? ==> MatchesResult(r.value, sig)
  {
    hide PlanOf, ScalarType, PhysicalType;
    if (plan.Some? && plan.value.sret) || |sig.results| == 0 {
      return Some(NoResult);
    }
    if |sig.results| > 1 {
      return None;
    }
    var t := sig.results[0];
    if t.kind.Aggregate? {
      var direct := DirectPlan(t);
      return if direct.None? then None else Some(PhysicalType(direct.value));
    }
    var scalar := ScalarType(t);
    return if scalar.None? then None else Some(OneResult(scalar.value));
  }

  lemma AppendTypes(types: seq<PieceType>, sig: Signature, n: nat)
    requires n < |sig.parameters| && forall i | 0 <= i <= n :: TypedParameter(sig.parameters[i])
    requires MatchesSlots(types, sig, n)
    ensures MatchesSlots(types + ParameterTypes(sig.parameters[n]), sig, n + 1)
  {
    hide ParameterTypes, ParameterSlots, TypedParameter;
    var t := sig.parameters[n];
    var all := types + ParameterTypes(t);
    ParameterForms(t, n);
    assert |all| == Position(sig, n + 1);
    forall i | 0 <= i < n + 1 ensures Lies(all, sig, i) {
      var mine := ParameterTypes(sig.parameters[i]);
      if i == n {
        assert all[Position(sig, n)..] == mine;
      } else {
        assert Lies(types, sig, i);
        assert all[Position(sig, i)..][..|mine|] == types[Position(sig, i)..][..|mine|];
      }
    }
  }

  lemma PlanMeaning(sig: Signature)
    ensures var plan := MemoryPlanFor(sig);
      && (ReturnsIndirectly(sig) <==> plan.Some? && plan.value.sret)
      && (plan.Some? ==> |plan.value.indirect| == |sig.parameters|)
      && (forall i | 0 <= i < |sig.parameters| :: Indirect(sig.parameters[i]) <==> plan.Some? && plan.value.indirect[i])
  {
    hide Indirect;
    var indirect := seq(|sig.parameters|, i requires 0 <= i < |sig.parameters| => Indirect(sig.parameters[i]));
    assert forall i | 0 <= i < |indirect| :: indirect[i] ==> true in indirect;
  }

  lemma TableMeaning(sig: Signature)
    ensures var table := DirectTable(sig);
      && (table.Some? ==> |table.value| == |sig.parameters|)
      && forall i | 0 <= i < |sig.parameters| ::
           (if table.Some? then table.value[i] else None) == if Direct(sig.parameters[i]) then Some(sig.parameters[i]) else None
  {
    hide Direct;
    var entries := seq(|sig.parameters|, i requires 0 <= i < |sig.parameters| =>
      if Direct(sig.parameters[i]) then Some(sig.parameters[i]) else None);
    assert DirectTable(sig) == if forall i | 0 <= i < |entries| :: entries[i].None? then None else Some(entries);
    forall i | 0 <= i < |sig.parameters|
      ensures entries[i] == if Direct(sig.parameters[i]) then Some(sig.parameters[i]) else None
    {
    }
  }

  /** The three forms of a parameter, in terms of the side tables' conditions. */
  lemma ParameterForms(t: AbiType, i: nat)
    requires TypedParameter(t)
    ensures Indirect(t) ==> !Direct(t) && ParameterSlots(t, i) == [ByvalSlot(i)]
    ensures Direct(t) ==> PlanOf(t).Some? && |ParameterSlots(t, i)| == |PlanOf(t).value| >= 1
    ensures Direct(t) ==> forall j | 0 <= j < |ParameterSlots(t, i)| :: SlotAttribute(ParameterSlots(t, i)[j]).None?
    ensures !Indirect(t) && !Direct(t) ==> ParameterSlots(t, i) == [ValueSlot(i)]
    ensures |ParameterSlots(t, i)| == |ParameterTypes(t)|
  {
    hide ScalarType, PiecesOf;
  }

  // --------------------------------------------- applyCAbiMemoryAttributes

  datatype Attribute = StructReturn | Byval(index: nat)

  function SlotAttribute(slot: Slot): Option<Attribute> {
    match slot
    case ResultSlot => Some(StructReturn)
    case ByvalSlot(i) => Some(Byval(i))
    case _ => None
  }

  /** The attributes stand exactly on the pointers to memory. */
  ghost predicate AttributesOf(attributes: map<nat, Attribute>, slots: seq<Slot>) {
    && (forall j | j in attributes :: j < |slots| && SlotAttribute(slots[j]) == Some(attributes[j]))
    && (forall j | 0 <= j < |slots| && SlotAttribute(slots[j]).Some? :: j in attributes)
  }

  method ApplyAttributes(sig: Signature, plan: MemoryPlan, table: Option<seq<Option<AbiType>>>) returns (attributes: map<nat, Attribute>)
    requires Typed(sig) && MemoryPlanFor(sig) == Some(plan) && DirectTable(sig) == table
    ensures AttributesOf(attributes, Slots(sig))
  {
    hide PlanOf, ScalarType, MemoryPlanFor, DirectTable, Indirect, Direct, ReturnsIndirectly, ParameterSlots, AttributesOf, TypedParameter;
    PlanMeaning(sig);
    TableMeaning(sig);
    attributes := map[];
    var argument: nat := 0;
    NoAttributes();
    if plan.sret {
      attributes := attributes[argument := StructReturn];
      argument := argument + 1;
      OneMore(map[], [], ResultSlot);
      assert [] + [ResultSlot] == SlotsBefore(sig, 0);
    }
    for i := 0 to |plan.indirect|
      invariant argument == Position(sig, i) && AttributesOf(attributes, SlotsBefore(sig, i))
    {
      ghost var slots, more := SlotsBefore(sig, i), ParameterSlots(sig.parameters[i], i);
      ParameterForms(sig.parameters[i], i);
      assert SlotsBefore(sig, i + 1) == slots + more;
      ghost var before := attributes;
      if plan.indirect[i] {
        attributes := attributes[argument := Byval(i)];
        OneMore(before, slots, ByvalSlot(i));
      } else {
        OnlyPlain(attributes, slots, more);
      }
      if table.Some? && i < |table.value| && table.value[i].Some? {
        var direct := DirectPlan(table.value[i].value);
        argument := argument + |direct.value|;
      } else {
        argument := argument + 1;
      }
    }
  }

  lemma NoAttributes()
    ensures AttributesOf(map[], [])
  {
  }

  lemma OneMore(attributes: map<nat, Attribute>, slots: seq<Slot>, slot: Slot)
    requires AttributesOf(attributes, slots) && SlotAttribute(slot).Some?
    ensures AttributesOf(attributes[|slots| := SlotAttribute(slot).value], slots + [slot])
  {
  }

  lemma OnlyPlain(attributes: map<nat, Attribute>, slots: seq<Slot>, more: seq<Slot>)
    requires AttributesOf(attributes, slots)
    requires forall j | 0 <= j < |more| :: SlotAttribute(more[j]).None?
    ensures AttributesOf(attributes, slots + more)
  {
  }

  // ------------------------------------------------------- the call emitters

  /** The slots, in order, of the emitted argument list, and what becomes of the result. */
  datatype Emitted = Emitted(slots: seq<Slot>, result: ResultPath)

  /** The end of both emitters: the result as the side tables say. */
  method TakeResult(sig: Signature, callee: FunctionType, sret: bool) returns (r: Option<ResultPath>)
    requires Typed(sig) && MatchesType(callee, sig) && (sret <==> ReturnsIndirectly(sig))
    ensures r == Some(PathOf(sig))
  {
    hide PlanOf, ScalarType, PhysicalType, TypedParameter;
    if sret {
      return Some(ThroughMemory);
    }
    var direct := DirectReturn(sig);
    if direct.None? {
      return Some(InOneValue);
    }
    ResultOfPlan(callee.result, sig);
    var plan := DirectPlan(direct.value);
    if plan.None? || callee.result != PhysicalType(plan.value) {
      return None;
    }
    r := Some(InPieces(plan.value));
  }

  /** emitCAbiMemoryCall. */
  method EmitMemoryCall(sig: Signature, arguments: nat, callee: FunctionType, plan: MemoryPlan, table: Option<seq<Option<AbiType>>>)
      returns (r: Option<Emitted>)
    requires Typed(sig) && MemoryPlanFor(sig) == Some(plan) && DirectTable(sig) == table && MatchesType(callee, sig)
    ensures r == if arguments == |sig.parameters| then Some(Emitted(Slots(sig), PathOf(sig))) else None
  {
    hide MatchesResult, PathOf, PlanOf, ScalarType, MemoryPlanFor, DirectTable, ReturnsIndirectly, ParameterSlots, ParameterTypes, TypedParameter, Indirect, Direct;
    PlanMeaning(sig);
    TableMeaning(sig);
    if arguments != |plan.indirect| {
      return None;
    }
    var emitted: seq<Slot> := [];
    if plan.sret {
      emitted := [ResultSlot];
    }
    var physical: nat := if plan.sret then 1 else 0;
    for i := 0 to arguments
      invariant emitted == SlotsBefore(sig, i) && physical == |emitted|
    {
      ghost var t := sig.parameters[i];
      assert Lies(callee.parameters, sig, i);
      ParameterForms(t, i);
      assert SlotsBefore(sig, i + 1) == emitted + ParameterSlots(t, i);
      if plan.indirect[i] {
        emitted := emitted + [ByvalSlot(i)];
      } else if table.Some? && table.value[i].Some? {
        var pieces := MatchPieces(table.value[i].value, i, callee.parameters, physical);
        if pieces.None? {
          return None;
        }
        emitted := emitted + pieces.value;
        physical := physical + |pieces.value|;
        continue;
      } else {
        if physical >= |callee.parameters| {
          return None;
        }
        emitted := emitted + [ValueSlot(i)];
      }
      physical := physical + 1;
    }
    if physical != |callee.parameters| {
      return None;
    }
    var result := TakeResult(sig, callee, plan.sret);
    if result.None? {
      return None;
    }
    r := Some(Emitted(emitted, result.value));
  }

  /** One direct aggregate argument, checked piece by piece against the callee's type. */
  method MatchPieces(t: AbiType, i: nat, callee: seq<PieceType>, physical: nat) returns (r: Option<seq<Slot>>)
    requires Direct(t) && physical <= |callee|
    ensures |callee[physical..]| >= |ParameterTypes(t)| && callee[physical..][..|ParameterTypes(t)|] == ParameterTypes(t)
      ==> r == Some(ParameterSlots(t, i))
  {
    hide PlanOf;
    var plan := DirectPlan(t);
    if plan.None? || physical + |plan.value| > |callee| {
      return None;
    }
    ghost var types := ParameterTypes(t);
    var emitted: seq<Slot> := [];
    for j := 0 to |plan.value|
      invariant |emitted| == j && forall k | 0 <= k < j :: emitted[k] == PieceSlot(i, k)
    {
      if callee[physical + j] != plan.value[j].kind {
        assert callee[physical..][..|types|][j] == callee[physical + j] && types[j] == plan.value[j].kind;
        return None;
      }
      emitted := emitted + [PieceSlot(i, j)];
    }
    assert emitted == ParameterSlots(t, i);
    r := Some(emitted);
  }

  /** emitCAbiDirectCall: the emitter used when nothing goes through memory. */
  method EmitDirectCall(sig: Signature, arguments: nat, callee: FunctionType, table: Option<seq<Option<AbiType>>>) returns (r: Option<Emitted>)
    requires Typed(sig) && MemoryPlanFor(sig) == None && DirectTable(sig) == table && MatchesType(callee, sig)
    ensures r == if arguments == |sig.parameters| then Some(Emitted(Slots(sig), PathOf(sig))) else None
  {
    hide MatchesResult, PathOf, PlanOf, ScalarType, MemoryPlanFor, DirectTable, ReturnsIndirectly, ParameterSlots, ParameterTypes, TypedParameter, Indirect, Direct;
    PlanMeaning(sig);
    TableMeaning(sig);
    if table.Some? && |table.value| != arguments {
      return None;
    }
    var emitted: seq<Slot> := [];
    var physical: nat := 0;
    for i := 0 to arguments
      invariant i <= |sig.parameters| && emitted == SlotsBefore(sig, i) && physical == |emitted|
    {
      if i < |sig.parameters| {
        ArgumentStands(callee.parameters, sig, i);
      }
      if table.Some? && table.value[i].Some? {
        var pieces := MatchPieces(table.value[i].value, i, callee.parameters, physical);
        if pieces.None? {
          return None;
        }
        emitted := emitted + pieces.value;
        physical := physical + |pieces.value|;
        continue;
      }
      if physical >= |callee.parameters| {
        return None;
      }
      physical := physical + 1;
      emitted := emitted + [ValueSlot(i)];
    }
    if arguments < |sig.parameters| {
      ArgumentStands(callee.parameters, sig, arguments);
    }
    if physical != |callee.parameters| {
      return None;
    }
    var result := TakeResult(sig, callee, false);
    if result.None? {
      return None;
    }
    r := Some(Emitted(emitted, result.value));
  }

  /** What the next parameter adds to the slots, and that there is room for it in the type. */
  lemma ArgumentStands(types: seq<PieceType>, sig: Signature, i: nat)
    requires Typed(sig) && MatchesSlots(types, sig, |sig.parameters|) && i < |sig.parameters|
    ensures var t := sig.parameters[i];
      && Lies(types, sig, i) && Position(sig, i) < |types|
      && SlotsBefore(sig, i + 1) == SlotsBefore(sig, i) + ParameterSlots(t, i)
      && (Direct(t) ==> |ParameterSlots(t, i)| >= 1)
      && (!Indirect(t) && !Direct(t) ==> ParameterSlots(t, i) == [ValueSlot(i)])
  {
    hide PlanOf, ScalarType, ParameterSlots, ParameterTypes, TypedParameter, Indirect, Direct;
    ParameterForms(sig.parameters[i], i);
  }

  // ------------------------------------------------------ the callee prologue

  /** Which physical arguments hold one parameter. */
  datatype Binding = Binding(first: nat, count: nat)

  lemma ParameterStands(types: seq<PieceType>, sig: Signature, i: nat)
    requires Typed(sig) && MatchesSlots(types, sig, |sig.parameters|) && i < |sig.parameters|
    ensures var t, at := sig.parameters[i], Position(sig, i);
      && Lies(types, sig, i) && at + |ParameterTypes(t)| <= |types|
      && Position(sig, i + 1) == at + |ParameterSlots(t, i)| && |ParameterSlots(t, i)| == |ParameterTypes(t)|
  {
    hide ParameterSlots, ParameterTypes, TypedParameter;
    ParameterForms(sig.parameters[i], i);
  }

  lemma PositionEnds(types: seq<PieceType>, sig: Signature)
    requires Typed(sig) && MatchesSlots(types, sig, |sig.parameters|)
    ensures Position(sig, 0) == (if ReturnsIndirectly(sig) then 1 else 0) && Position(sig, |sig.parameters|) == |types|
    ensures ReturnsIndirectly(sig) ==> |types| > 0
  {
  }

  method Prologue(sig: Signature, callee: FunctionType, plan: Option<MemoryPlan>, table: Option<seq<Option<AbiType>>>)
      returns (r: Option<seq<Binding>>)
    requires Typed(sig) && MemoryPlanFor(sig) == plan && DirectTable(sig) == table && MatchesType(callee, sig)
    ensures r.Some? && |r.value| == |sig.parameters|
    ensures forall i | 0 <= i < |sig.parameters| ::
      r.value[i] == Binding(Position(sig, i), |ParameterSlots(sig.parameters[i], i)|)
  {
    hide MatchesResult, MatchesSlots, SlotsBefore, Position, PlanOf, ScalarType, MemoryPlanFor, DirectTable, ReturnsIndirectly, ParameterSlots, ParameterTypes, TypedParameter, Indirect, Direct;
    PlanMeaning(sig);
    TableMeaning(sig);
    PositionEnds(callee.parameters, sig);
    var argument: nat := 0;
    if plan.Some? && plan.value.sret {
      if argument == |callee.parameters| {
        return None;
      }
      argument := argument + 1;
    }
    var bindings: seq<Binding> := [];
    for i := 0 to |sig.parameters|
      invariant argument == Position(sig, i) && |bindings| == i
      invariant forall k | 0 <= k < i :: bindings[k] == Binding(Position(sig, k), |ParameterSlots(sig.parameters[k], k)|)
    {
      ghost var t := sig.parameters[i];
      ParameterStands(callee.parameters, sig, i);
      ParameterForms(t, i);
      if argument == |callee.parameters| {
        return None;
      }
      var first := argument;
      if plan.Some? && plan.value.indirect[i] {
        argument := argument + 1;
      } else if table.Some? && table.value[i].Some? {
        var pieces := MatchPieces(table.value[i].value, i, callee.parameters, argument);
        if pieces.None? {
          return None;
        }
        argument := argument + |pieces.value|;
      } else {
        argument := argument + 1;
      }
      bindings := bindings + [Binding(first, argument - first)];
    }
    if argument != |callee.parameters| {
      return None;
    }
    r := Some(bindings);
  }

  // ------------------------------------------------------ the callee's return

  /** A return statement with so many values; main, which may omit its value, aside. */
  method EmitReturn(sig: Signature, callee: FunctionType, plan: Option<MemoryPlan>, values: nat) returns (r: Option<ResultPath>)
    requires Typed(sig) && MemoryPlanFor(sig) == plan && MatchesType(callee, sig)
    ensures r == if values == |sig.results| then Some(PathOf(sig)) else None
  {
    hide PlanOf, ScalarType, PhysicalType, MemoryPlanFor, MatchesSlots;
    PlanMeaning(sig);
    if plan.Some? && plan.value.sret {
      return if values != 1 then None else Some(ThroughMemory);
    }
    var direct := DirectReturn(sig);
    if direct.Some? {
      ResultOfPlan(callee.result, sig);
      var pieces := DirectPlan(direct.value);
      if values != 1 || pieces.None? || callee.result != PhysicalType(pieces.value) {
        return None;
      }
      return Some(InPieces(pieces.value));
    }
    if values > 1 || (values == 0) != callee.result.NoResult? {
      return None;
    }
    r := Some(InOneValue);
  }

  // --------------------------------------------------------------- agreement

  /** What the caller puts at a parameter's position is what that parameter occupies. */
  lemma {:induction false} SlotsAtPosition(sig: Signature, i: nat, n: nat)
    requires i < n <= |sig.parameters|
    ensures var mine := ParameterSlots(sig.parameters[i], i);
      && Position(sig, i) + |mine| <= Position(sig, n)
      && SlotsBefore(sig, n)[Position(sig, i)..Position(sig, i) + |mine|] == mine
    decreases n
  {
    hide ParameterSlots;
    if i < n - 1 {
      SlotsAtPosition(sig, i, n - 1);
    }
  }

  predicate PassableType(t: AbiType) {
    Resolved(t) && t.elementCount == 1 && t.byteLength > 0
  }

  /** Every signature of resolved, nonempty types has a function type. */
  lemma ResolvedSignatureIsTyped(sig: Signature)
    requires |sig.results| <= 1
    requires forall t | t in sig.parameters + sig.results :: PassableType(t)
    ensures Typed(sig)
  {
    forall t | t in sig.parameters + sig.results ensures TypedParameter(t) {
      hide PlanOf;
      if t.kind.Aggregate? && !Indirect(t) {
        DirectPlanExists(t);
      }
    }
    hide TypedParameter;
    assert forall i | 0 <= i < |sig.parameters| :: sig.parameters[i] in sig.parameters + sig.results;
    assert |sig.results| == 1 ==> sig.results[0] in sig.parameters + sig.results;
  }

  /**
    Section 3.2.3 of the psABI: an aggregate of more than two eightbytes goes through
    memory, a smaller one in one register for each eightbyte, a scalar as itself.
   */
  lemma PassedAs(t: AbiType, i: nat)
    requires PassableType(t)
    ensures TypedParameter(t)
    ensures t.kind.Aggregate? && t.byteLength > 16 ==> ParameterSlots(t, i) == [ByvalSlot(i)] && ParameterTypes(t) == [PointerPiece]
    ensures t.kind.Aggregate? && t.byteLength <= 16 ==>
      && |ParameterSlots(t, i)| == |ParameterTypes(t)| == (if t.byteLength > 8 then 2 else 1)
      && forall k | 0 <= k < |ParameterSlots(t, i)| ::
           ParameterSlots(t, i)[k] == PieceSlot(i, k) && CarriedIn(ParameterTypes(t)[k], Leaves(t, 0), k, t.byteLength)
    ensures !t.kind.Aggregate? ==> ParameterSlots(t, i) == [ValueSlot(i)] && ParameterTypes(t) == [RegisterOf(Leaf(t.kind, 0, t.byteLength))]
  {
    hide PlanOf, Leaves, CarriedIn, GoodPiece;
    if t.kind.Aggregate? && t.byteLength <= 16 {
      DirectPlanExists(t);
      PieceTypesExactly(t, 0);
      if t.byteLength > 8 {
        PieceTypesExactly(t, 1);
      }
    }
  }

  /** And a result likewise. */
  lemma ReturnedAs(sig: Signature)
    requires |sig.results| == 1 && PassableType(sig.results[0])
    ensures var t, path := sig.results[0], PathOf(sig);
      && (path.ThroughMemory? <==> t.kind.Aggregate? && t.byteLength > 16)
      && (path.InPieces? <==> t.kind.Aggregate? && t.byteLength <= 16)
      && (path.InPieces? ==> Some(path.plan) == PlanOf(t))
  {
    hide PlanOf, Leaves, GoodPiece;
    var t := sig.results[0];
    if t.kind.Aggregate? && t.byteLength <= 16 {
      DirectPlanExists(t);
    }
  }
}
