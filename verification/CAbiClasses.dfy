/**
  System V eightbyte classification of src/codegen/LLVMCodegenCAbi.cpp: the recursive
  classifier, and its meaning as a fold over the scalar leaves of a type.
 */
module CAbiClasses {
  import opened Basics
  import opened Powers
  import opened StructLayout

  datatype Class = NoClass | IntegerClass | Sse | Memory

  function MergeClass(left: Class, right: Class): Class {
    if left.NoClass? then right
    else if right.NoClass? || left == right then left
    else if left.Memory? || right.Memory? then Memory
    else IntegerClass
  }

  datatype Leaf = Leaf(kind: Kind, offset: nat, bytes: nat)

  datatype Classification = Classification(first: Class, second: Class, floats: seq<Leaf>, leaves: seq<Leaf>, byteLength: nat) {
    function At(i: nat): Class
      requires i < 2
    {
      if i == 0 then first else second
    }
  }

  function ClassOf(kind: Kind): Class {
    if kind.Floating? then Sse else IntegerClass
  }

  /** Record one scalar: merge its class into each eightbyte it touches. */
  function AddLeaf(c: Classification, leaf: Leaf): Classification {
    var from, to := leaf.offset / 8, (leaf.offset + leaf.bytes - 1) / 8;
    Classification(
      if from == 0 then MergeClass(c.first, ClassOf(leaf.kind)) else c.first,
      if from <= 1 <= to then MergeClass(c.second, ClassOf(leaf.kind)) else c.second,
      if leaf.kind.Floating? then c.floats + [leaf] else c.floats,
      c.leaves + [leaf],
      c.byteLength)
  }

  // --------------------------------------------------------- the classifier

  function Classify(t: AbiType, offset: nat, c: Classification): (r: Option<Classification>)
    ensures r.Some? ==> r.value.byteLength == c.byteLength
    decreases t, 2, 0
  {
    if t.elementCount == 0 || t.byteLength == 0 || t.byteLength > SIZE_MAX / t.elementCount then None
    else if t.elementCount != 1 then ClassifyElements(t, offset, c, 0)
    else ClassifyOne(t, offset, c)
  }

  function ElementAt(t: AbiType, base: nat, index: nat): nat {
    base + index * t.byteLength
  }

  function ClassifyElements(t: AbiType, offset: nat, c: Classification, index: nat): (r: Option<Classification>)
    ensures r.Some? ==> r.value.byteLength == c.byteLength
    decreases t, 1, t.elementCount - index
  {
    if index >= t.elementCount then Some(c)
    else if ElementAt(t, offset, index) > SIZE_MAX then None
    else
      match ClassifyOne(t, ElementAt(t, offset, index), c)
      case None => None
      case Some(next) => ClassifyElements(t, offset, next, index + 1)
  }

  /** One element: a scalar, or the fields of an aggregate. */
  function ClassifyOne(t: AbiType, offset: nat, c: Classification): (r: Option<Classification>)
    ensures r.Some? ==> r.value.byteLength == c.byteLength
    decreases t, 0, 0
  {
    if t.alignment == 0 || offset % t.alignment != 0 || offset > c.byteLength || t.byteLength > c.byteLength - offset then None
    else if t.kind.Aggregate? then
      if t.fields == [] || |t.fields| != |t.offsets| then None
      else ClassifyFields(t.fields, t.offsets, t.byteLength, offset, c)
    else if t.kind.Void? then None
    else if offset + t.byteLength == 0 || (offset + t.byteLength - 1) / 8 >= 2 then None
    else Some(AddLeaf(c, Leaf(t.kind, offset, t.byteLength)))
  }

  function ClassifyFields(fields: seq<AbiType>, offsets: seq<nat>, bytes: nat, base: nat, c: Classification): (r: Option<Classification>)
    requires |fields| == |offsets|
    ensures r.Some? ==> r.value.byteLength == c.byteLength
    decreases fields, 3, 0
  {
    if fields == [] then Some(c)
    else if offsets[0] > bytes || base > SIZE_MAX - offsets[0] then None
    else
      match Classify(fields[0], base + offsets[0], c)
      case None => None
      case Some(next) => ClassifyFields(fields[1..], offsets[1..], bytes, base, next)
  }

  // --------------------------------------------------------------- leaves

  function Leaves(t: AbiType, base: nat): seq<Leaf>
    decreases t, 2, 0
  {
    ElementLeaves(t, base, 0)
  }

  function ElementLeaves(t: AbiType, base: nat, index: nat): seq<Leaf>
    decreases t, 1, t.elementCount - index
  {
    if index >= t.elementCount then []
    else OneLeaves(t, ElementAt(t, base, index)) + ElementLeaves(t, base, index + 1)
  }

  function OneLeaves(t: AbiType, base: nat): seq<Leaf>
    decreases t, 0, 0
  {
    if t.kind.Aggregate? then
      if |t.fields| == |t.offsets| then FieldLeaves(t.fields, t.offsets, base) else []
    else [Leaf(t.kind, base, t.byteLength)]
  }

  function FieldLeaves(fields: seq<AbiType>, offsets: seq<nat>, base: nat): seq<Leaf>
    requires |fields| == |offsets|
    decreases fields, 3, 0
  {
    if fields == [] then []
    else Leaves(fields[0], base + offsets[0]) + FieldLeaves(fields[1..], offsets[1..], base)
  }

  function AddLeaves(c: Classification, leaves: seq<Leaf>): Classification
    decreases |leaves|
  {
    if leaves == [] then c else AddLeaves(AddLeaf(c, leaves[0]), leaves[1..])
  }

  lemma {:induction false} AddLeavesConcat(c: Classification, a: seq<Leaf>, b: seq<Leaf>)
    ensures AddLeaves(c, a + b) == AddLeaves(AddLeaves(c, a), b)
    decreases |a|
  {
    if a == [] {
      assert a + b == b;
    } else {
      assert (a + b)[1..] == a[1..] + b;
      AddLeavesConcat(AddLeaf(c, a[0]), a[1..], b);
    }
  }

  lemma {:induction false} AddLeavesRecords(c: Classification, leaves: seq<Leaf>)
    ensures AddLeaves(c, leaves).leaves == c.leaves + leaves
    ensures AddLeaves(c, leaves).byteLength == c.byteLength
    decreases |leaves|
  {
    if leaves != [] {
      AddLeavesRecords(AddLeaf(c, leaves[0]), leaves[1..]);
    }
  }

  // ---------------------------------------- the classifier flattens and folds

  /** A placed type: resolved, aligned, nonempty and inside the classified value. */
  ghost predicate Placed(t: AbiType, base: nat, limit: nat) {
    && Resolved(t) && t.elementCount >= 1 && t.byteLength > 0 && PowerAlign(t.alignment)
    && base % t.alignment == 0 && base + TotalBytes(t) <= limit
  }

  lemma ElementSteps(t: AbiType, base: nat, index: nat)
    ensures ElementAt(t, base, 0) == base
    ensures ElementAt(t, base, index + 1) == ElementAt(t, base, index) + t.byteLength
    ensures ElementAt(t, base, t.elementCount) == base + TotalBytes(t)
    ensures index < t.elementCount ==> ElementAt(t, base, index) + t.byteLength <= base + TotalBytes(t)
    ensures base <= ElementAt(t, base, index)
  {
    assert (index + 1) * t.byteLength == index * t.byteLength + t.byteLength;
    if index < t.elementCount {
      MulMono(index + 1, t.elementCount, t.byteLength);
    }
  }

  lemma ElementPlaced(t: AbiType, base: nat, index: nat, limit: nat)
    requires Placed(t, base, limit) && index < t.elementCount
    ensures var at := ElementAt(t, base, index);
      at % t.alignment == 0 && at + t.byteLength <= base + TotalBytes(t) <= limit
  {
    hide TotalBytes, Resolved;
    ResolvedFacts(t);
    ElementSteps(t, base, index);
    ProductMod(t.byteLength, index, t.alignment);
    SumMod(base, index * t.byteLength, t.alignment);
  }

  lemma FieldPlacedAt(t: AbiType, base: nat, i: nat)
    requires Resolved(t) && t.kind.Aggregate? && PowerAlign(t.alignment) && base % t.alignment == 0
    requires i < |t.fields|
    ensures |t.offsets| == |t.fields|
    ensures Placed(t.fields[i], base + t.offsets[i], base + t.byteLength)
  {
    FieldInside(t, i);
    FieldAligned(t, base, i);
    hide Resolved, PowerAlign;
    PositiveProduct(t.fields[i]);
  }

  lemma FieldInside(t: AbiType, i: nat)
    requires Resolved(t) && t.kind.Aggregate? && i < |t.fields|
    ensures |t.offsets| == |t.fields| && Resolved(t.fields[i])
    ensures TotalBytes(t.fields[i]) > 0 && t.offsets[i] + TotalBytes(t.fields[i]) <= t.byteLength
  {
    assert Resolved(t.fields[i]);
    hide TotalBytes, Resolved;
    StructOffsets(t);
  }

  lemma FieldAligned(t: AbiType, base: nat, i: nat)
    requires Resolved(t) && t.kind.Aggregate? && PowerAlign(t.alignment) && base % t.alignment == 0
    requires i < |t.fields|
    ensures |t.offsets| == |t.fields| && PowerAlign(t.fields[i].alignment)
    ensures (base + t.offsets[i]) % t.fields[i].alignment == 0
  {
    assert Resolved(t.fields[i]);
    hide TotalBytes, Resolved, PowerAlign;
    StructOffsets(t);
    AlignmentsNest(t, i);
    ResolvedFacts(t.fields[i]);
    AlignedInside(t.fields[i].alignment, t.alignment, base, t.offsets[i]);
  }

  lemma AlignedInside(inner: nat, outer: nat, base: nat, offset: nat)
    requires PowerAlign(inner) && PowerAlign(outer) && inner <= outer && base % outer == 0 && offset % inner == 0
    ensures (base + offset) % inner == 0
  {
    AlignDivides(inner, outer, base);
    hide PowerAlign;
    SumMod(base, offset, inner);
  }

  lemma AlignmentsNest(t: AbiType, i: nat)
    requires Resolved(t) && t.kind.Aggregate? && i < |t.fields|
    ensures t.fields[i].alignment <= t.alignment
  {
    hide TotalBytes, Resolved, AlignUp;
    ResolvedFacts(t);
  }

  lemma PositiveProduct(t: AbiType)
    requires TotalBytes(t) > 0
    ensures t.byteLength > 0 && t.elementCount > 0
  {
    assert t.byteLength == 0 || t.elementCount == 0 ==> t.byteLength * t.elementCount == 0;
  }

  lemma FitsInWord(t: AbiType)
    requires t.elementCount >= 1 && TotalBytes(t) <= SIZE_MAX
    ensures t.byteLength <= SIZE_MAX / t.elementCount
  {
    var q, r := SIZE_MAX / t.elementCount, SIZE_MAX % t.elementCount;
    assert SIZE_MAX == q * t.elementCount + r;
    assert (q + 1) * t.elementCount == q * t.elementCount + t.elementCount;
    MulStrict(t.byteLength, q + 1, t.elementCount);
  }

  lemma {:induction false} ClassifyIsFold(t: AbiType, base: nat, c: Classification)
    requires Placed(t, base, c.byteLength) && c.byteLength <= 16
    ensures Classify(t, base, c) == Some(AddLeaves(c, Leaves(t, base)))
    decreases t, 2, 0
  {
    hide AddLeaf, Resolved, ElementAt, TotalBytes;
    FitsInWord(t);
    ElementSteps(t, base, 0);
    if t.elementCount != 1 {
      ClassifyElementsIsFold(t, base, c, 0);
    } else {
      ElementPlaced(t, base, 0, c.byteLength);
      ClassifyOneIsFold(t, base, c);
      assert ElementLeaves(t, base, 1) == [];
      assert OneLeaves(t, base) + [] == OneLeaves(t, base);
    }
  }

  lemma {:induction false} ClassifyElementsIsFold(t: AbiType, base: nat, c: Classification, index: nat)
    requires Placed(t, base, c.byteLength) && c.byteLength <= 16 && index <= t.elementCount
    ensures ClassifyElements(t, base, c, index) == Some(AddLeaves(c, ElementLeaves(t, base, index)))
    decreases t, 1, t.elementCount - index
  {
    hide AddLeaf, ClassifyOne, Resolved, ElementAt, TotalBytes;
    if index < t.elementCount {
      ElementPlaced(t, base, index, c.byteLength);
      var at := ElementAt(t, base, index);
      ClassifyOneIsFold(t, at, c);
      AddLeavesRecords(c, OneLeaves(t, at));
      ClassifyElementsIsFold(t, base, AddLeaves(c, OneLeaves(t, at)), index + 1);
      AddLeavesConcat(c, OneLeaves(t, at), ElementLeaves(t, base, index + 1));
    }
  }

  lemma {:induction false} ClassifyOneIsFold(t: AbiType, base: nat, c: Classification)
    requires Resolved(t) && t.byteLength > 0 && PowerAlign(t.alignment) && base % t.alignment == 0
    requires base + t.byteLength <= c.byteLength <= 16
    ensures ClassifyOne(t, base, c) == Some(AddLeaves(c, OneLeaves(t, base)))
    decreases t, 0, 0
  {
    hide AddLeaf;
    if t.kind.Aggregate? {
      EmptyStruct(t);
      StructOffsets(t);
      forall i | 0 <= i < |t.fields| ensures Placed(t.fields[i], base + t.offsets[i], c.byteLength) {
        FieldPlacedAt(t, base, i);
      }
      hide TotalBytes;
      assert forall i | 0 <= i < |t.fields| :: t.offsets[i] <= t.byteLength;
      ClassifyFieldsIsFold(t.fields, t.offsets, t.byteLength, base, c);
    } else {
      var leaf := Leaf(t.kind, base, t.byteLength);
      assert AddLeaves(c, [leaf]) == AddLeaves(AddLeaf(c, leaf), []);
    }
  }

  lemma {:induction false} ClassifyFieldsIsFold(fields: seq<AbiType>, offsets: seq<nat>, bytes: nat, base: nat, c: Classification)
    requires |fields| == |offsets| && c.byteLength <= 16 && base <= 16
    requires forall i | 0 <= i < |fields| :: Placed(fields[i], base + offsets[i], c.byteLength) && offsets[i] <= bytes
    ensures ClassifyFields(fields, offsets, bytes, base, c) == Some(AddLeaves(c, FieldLeaves(fields, offsets, base)))
    decreases fields, 3, 0
  {
    hide AddLeaf, Classify, Leaves;
    if fields != [] {
      var at := base + offsets[0];
      assert Placed(fields[0], at, c.byteLength);
      ClassifyIsFold(fields[0], at, c);
      AddLeavesRecords(c, Leaves(fields[0], at));
      ClassifyFieldsIsFold(fields[1..], offsets[1..], bytes, base, AddLeaves(c, Leaves(fields[0], at)));
      AddLeavesConcat(c, Leaves(fields[0], at), FieldLeaves(fields[1..], offsets[1..], base));
    }
  }

  // ---------------------------------------------------- where leaves stand

  /** A leaf of [from, to): aligned to its own size, of a size that fits a register. */
  ghost predicate LeafOk(leaf: Leaf, from: nat, to: nat) {
    && IsScalar(AbiType(leaf.kind, leaf.bytes, leaf.bytes, 1, [], []))
    && leaf.offset % leaf.bytes == 0 && from <= leaf.offset && leaf.offset + leaf.bytes <= to
  }

  /** Leaves in address order, without overlap, all inside [from, to). */
  ghost predicate LeavesOk(leaves: seq<Leaf>, from: nat, to: nat) {
    && (forall i | 0 <= i < |leaves| :: LeafOk(leaves[i], from, to))
    && (forall i, j | 0 <= i < j < |leaves| :: leaves[i].offset + leaves[i].bytes <= leaves[j].offset)
  }

  lemma LeavesConcat(a: seq<Leaf>, b: seq<Leaf>, from: nat, mid: nat, to: nat)
    requires LeavesOk(a, from, mid) && LeavesOk(b, mid, to) && from <= mid <= to
    ensures LeavesOk(a + b, from, to)
  {
    hide IsScalar;
  }

  lemma LeavesWiden(a: seq<Leaf>, from: nat, to: nat, from': nat, to': nat)
    requires LeavesOk(a, from, to) && from' <= from && to <= to'
    ensures LeavesOk(a, from', to')
  {
    hide IsScalar;
  }

  lemma {:induction false} LeavesAreOk(t: AbiType, base: nat)
    requires Placed(t, base, base + TotalBytes(t))
    ensures LeavesOk(Leaves(t, base), base, base + TotalBytes(t))
    decreases t, 2, 0
  {
    hide LeavesOk, Resolved, ElementAt, TotalBytes;
    ElementSteps(t, base, 0);
    ElementLeavesAreOk(t, base, 0);
  }

  lemma {:induction false} ElementLeavesAreOk(t: AbiType, base: nat, index: nat)
    requires Placed(t, base, base + TotalBytes(t)) && index <= t.elementCount
    ensures LeavesOk(ElementLeaves(t, base, index), ElementAt(t, base, index), base + TotalBytes(t))
    decreases t, 1, t.elementCount - index
  {
    hide OneLeaves, LeavesOk, Resolved, ElementAt, TotalBytes;
    ElementSteps(t, base, index);
    if index < t.elementCount {
      var at := ElementAt(t, base, index);
      ElementPlaced(t, base, index, base + TotalBytes(t));
      OneLeavesAreOk(t, at);
      ElementLeavesAreOk(t, base, index + 1);
      LeavesConcat(OneLeaves(t, at), ElementLeaves(t, base, index + 1), at, at + t.byteLength, base + TotalBytes(t));
    } else {
      NoLeaves(base + TotalBytes(t));
    }
  }

  lemma NoLeaves(at: nat)
    ensures LeavesOk([], at, at)
  {
  }

  lemma {:induction false} OneLeavesAreOk(t: AbiType, base: nat)
    requires Resolved(t) && t.byteLength > 0 && PowerAlign(t.alignment) && base % t.alignment == 0
    ensures LeavesOk(OneLeaves(t, base), base, base + t.byteLength)
    decreases t, 0, 0
  {
    if t.kind.Aggregate? {
      StructOffsets(t);
      forall i | 0 <= i < |t.fields| ensures Placed(t.fields[i], base + t.offsets[i], base + t.byteLength) {
        FieldPlacedAt(t, base, i);
      }
      hide LeavesOk, TotalBytes, Resolved;
      FieldLeavesAreOk(t.fields, t.offsets, base, base, base + t.byteLength);
    }
  }

  lemma {:induction false} FieldLeavesAreOk(fields: seq<AbiType>, offsets: seq<nat>, base: nat, from: nat, to: nat)
    requires |fields| == |offsets| && from <= to
    requires forall i | 0 <= i < |fields| :: Placed(fields[i], base + offsets[i], to) && from <= base + offsets[i]
    requires forall i, j | 0 <= i < j < |fields| :: offsets[i] + TotalBytes(fields[i]) <= offsets[j]
    ensures LeavesOk(FieldLeaves(fields, offsets, base), from, to)
    decreases fields, 3, 0
  {
    hide TotalBytes, Leaves, Resolved;
    if fields != [] {
      var at := base + offsets[0];
      var mid := at + TotalBytes(fields[0]);
      assert Placed(fields[0], at, to);
      LeavesAreOk(fields[0], at);
      LeavesWiden(Leaves(fields[0], at), at, mid, from, mid);
      forall i | 0 <= i < |fields[1..]| ensures Placed(fields[1..][i], base + offsets[1..][i], to) && mid <= base + offsets[1..][i] {
        assert fields[1..][i] == fields[i + 1] && offsets[1..][i] == offsets[i + 1];
        assert offsets[0] + TotalBytes(fields[0]) <= offsets[i + 1];
      }
      FieldLeavesAreOk(fields[1..], offsets[1..], base, mid, to);
      LeavesConcat(Leaves(fields[0], at), FieldLeaves(fields[1..], offsets[1..], base), from, mid, to);
    }
  }

  // --------------------------------------- a leaf at every aligned position

  ghost predicate StartsAt(leaves: seq<Leaf>, m: nat) {
    exists i | 0 <= i < |leaves| :: leaves[i].offset == m
  }

  lemma StartsInConcat(a: seq<Leaf>, b: seq<Leaf>, m: nat)
    requires StartsAt(a, m) || StartsAt(b, m)
    ensures StartsAt(a + b, m)
  {
    if StartsAt(a, m) {
      var i :| 0 <= i < |a| && a[i].offset == m;
      assert (a + b)[i].offset == m;
    } else {
      var i :| 0 <= i < |b| && b[i].offset == m;
      assert (a + b)[|a| + i].offset == m;
    }
  }

  /** In every resolved layout a scalar starts at every multiple of the alignment. */
  lemma {:induction false} LeafAtEveryMultiple(t: AbiType, base: nat, m: nat)
    requires Placed(t, base, base + TotalBytes(t))
    requires m % t.alignment == 0 && base <= m < base + TotalBytes(t)
    ensures StartsAt(Leaves(t, base), m)
    decreases t, 2, 0
  {
    hide StartsAt, Resolved, ElementAt, TotalBytes;
    ElementSteps(t, base, 0);
    LeafInElements(t, base, 0, m);
  }

  lemma {:induction false} LeafInElements(t: AbiType, base: nat, index: nat, m: nat)
    requires Placed(t, base, base + TotalBytes(t)) && index <= t.elementCount
    requires m % t.alignment == 0 && ElementAt(t, base, index) <= m < base + TotalBytes(t)
    ensures StartsAt(ElementLeaves(t, base, index), m)
    decreases t, 1, t.elementCount - index
  {
    hide StartsAt, OneLeaves, Resolved, ElementAt, TotalBytes;
    ElementSteps(t, base, index);
    assert index < t.elementCount;
    var at := ElementAt(t, base, index);
    ElementPlaced(t, base, index, base + TotalBytes(t));
    if m < at + t.byteLength {
      LeafInOne(t, at, m);
    } else {
      LeafInElements(t, base, index + 1, m);
    }
    StartsInConcat(OneLeaves(t, at), ElementLeaves(t, base, index + 1), m);
  }

  lemma {:induction false} LeafInOne(t: AbiType, base: nat, m: nat)
    requires Resolved(t) && t.byteLength > 0 && PowerAlign(t.alignment) && base % t.alignment == 0
    requires m % t.alignment == 0 && base <= m < base + t.byteLength
    ensures StartsAt(OneLeaves(t, base), m)
    decreases t, 0, 0
  {
    if t.kind.Aggregate? {
      hide TotalBytes, Resolved, StartsAt;
      var i := FieldAtMultiple(t, base, m);
      FieldPlacedAt(t, base, i);
      AlignmentsNest(t, i);
      AlignDivides(t.fields[i].alignment, t.alignment, m);
      LeafAtEveryMultiple(t.fields[i], base + t.offsets[i], m);
      InFieldLeaves(t.fields, t.offsets, base, i, m);
    } else {
      SumMod(m, base, t.alignment);
      SmallMultiple(m - base, t.alignment);
      assert OneLeaves(t, base)[0].offset == m;
    }
  }

  lemma FieldAtMultiple(t: AbiType, base: nat, m: nat) returns (i: nat)
    requires Resolved(t) && t.kind.Aggregate? && t.alignment > 0 && base % t.alignment == 0
    requires m % t.alignment == 0 && base <= m < base + t.byteLength
    ensures i < |t.fields| == |t.offsets|
    ensures base + t.offsets[i] <= m < base + t.offsets[i] + TotalBytes(t.fields[i])
  {
    hide TotalBytes, Resolved, AlignUp;
    ResolvedFacts(t);
    SumMod(m, base, t.alignment);
    BelowSizeIsBelowEnd(LayoutFields(t.fields).value.end, t.alignment, m - base);
    i := NoGapAtMultiple(t.fields, t.alignment, m - base);
  }

  lemma SmallMultiple(x: nat, a: nat)
    requires a > 0 && x % a == 0 && x < a
    ensures x == 0
  {
  }

  lemma {:induction false} InFieldLeaves(fields: seq<AbiType>, offsets: seq<nat>, base: nat, i: nat, m: nat)
    requires |fields| == |offsets| && i < |fields| && StartsAt(Leaves(fields[i], base + offsets[i]), m)
    ensures StartsAt(FieldLeaves(fields, offsets, base), m)
    decreases i
  {
    hide StartsAt, Leaves;
    if i > 0 {
      InFieldLeaves(fields[1..], offsets[1..], base, i - 1, m);
    }
    StartsInConcat(Leaves(fields[0], base + offsets[0]), FieldLeaves(fields[1..], offsets[1..], base), m);
  }
}
