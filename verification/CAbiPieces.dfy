/**
  Which register type each eightbyte of a small struct travels in, in terms of the struct's
  own scalars: section 3.2.3 of the System V psABI for x86-64.
 */
module CAbiPieces {
  import opened Basics
  import opened StructLayout
  import opened CAbiClasses
  import opened CAbiDirect
  import opened CAbiPlan

  /** A scalar that is alone in its eightbyte. */
  function RegisterOf(leaf: Leaf): PieceType {
    match leaf.kind
    case Floating => FloatPiece(leaf.bytes)
    case Pointer => PointerPiece
    case _ => IntegerPiece(8 * leaf.bytes)
  }

  predicate Only(leaves: seq<Leaf>, i: nat, k: nat)
    requires i < |leaves|
  {
    leaves[i].offset / 8 == k && forall j | 0 <= j < |leaves| && leaves[j].offset / 8 == k :: j == i
  }

  predicate AllFloating(leaves: seq<Leaf>, k: nat) {
    forall i | 0 <= i < |leaves| && leaves[i].offset / 8 == k :: leaves[i].kind.Floating?
  }

  /** The register type of eightbyte k of a struct with these scalars. */
  ghost predicate CarriedIn(kind: PieceType, leaves: seq<Leaf>, k: nat, bytes: nat)
    requires 8 * k < bytes
  {
    && (forall i | 0 <= i < |leaves| && Only(leaves, i, k) :: kind == RegisterOf(leaves[i]))
    && ((forall i | 0 <= i < |leaves| :: !Only(leaves, i, k)) ==>
          kind == if AllFloating(leaves, k) then VectorPiece(4, 2) else IntegerPiece(8 * PieceBytes(bytes, k)))
  }

  /** The scalars of one eightbyte, however they were collected. */
  ghost predicate Collects(found: seq<Leaf>, leaves: seq<Leaf>, k: nat) {
    && Increasing(found)
    && (forall i | 0 <= i < |found| :: found[i] in leaves && found[i].offset / 8 == k)
    && (forall i | 0 <= i < |leaves| && leaves[i].offset / 8 == k :: leaves[i] in found)
  }

  lemma TwoDiffer(found: seq<Leaf>)
    requires Increasing(found) && |found| > 1
    ensures found[0] != found[1]
  {
  }

  lemma OnlyOne(found: seq<Leaf>, leaves: seq<Leaf>, bytes: nat, k: nat)
    requires LeavesOk(leaves, 0, bytes) && Collects(found, leaves, k)
    ensures forall i | 0 <= i < |leaves| && Only(leaves, i, k) :: found == [leaves[i]]
    ensures |found| == 1 ==> exists i | 0 <= i < |leaves| :: Only(leaves, i, k)
  {
    hide IsScalar;
    forall i | 0 <= i < |leaves| && Only(leaves, i, k) ensures found == [leaves[i]] {
      assert forall j | 0 <= j < |found| :: found[j] == leaves[i];
      if |found| > 1 {
        TwoDiffer(found);
      }
    }
    if |found| == 1 {
      var i :| 0 <= i < |leaves| && leaves[i] == found[0];
      forall j | 0 <= j < |leaves| && leaves[j].offset / 8 == k ensures j == i {
        assert leaves[j] in found && leaves[j] == leaves[i];
        LeafSize(leaves[i], bytes);
      }
      assert Only(leaves, i, k);
    }
  }

  lemma {:induction false} MeetingIncreases(leaves: seq<Leaf>, from: nat, to: nat)
    requires Increasing(leaves) && Meeting(leaves, from, to).Some?
    ensures Increasing(Meeting(leaves, from, to).value)
    ensures forall i | 0 <= i < |Meeting(leaves, from, to).value| :: Meeting(leaves, from, to).value[i] in leaves
    decreases |leaves|
  {
    if leaves != [] {
      MeetingIncreases(leaves[..|leaves| - 1], from, to);
    }
  }

  lemma LeavesIncrease(leaves: seq<Leaf>, bytes: nat)
    requires LeavesOk(leaves, 0, bytes)
    ensures Increasing(leaves)
  {
  }

  lemma IntegerPieceExactly(c: Classification, k: nat)
    requires LeavesOk(c.leaves, 0, c.byteLength) && 8 * k < c.byteLength <= 16 && StartsAt(c.leaves, 8 * k) && !AllFloating(c.leaves, k)
    ensures var kind := IntegerPieceType(c.leaves, 8 * k, PieceBytes(c.byteLength, k));
      kind.Some? && CarriedIn(kind.value, c.leaves, k, c.byteLength)
  {
    hide Meeting, LeavesOk, Increasing, LeafOk, StartsAt, AllFloating, Only, CarriedIn, Collects;
    var bytes := PieceBytes(c.byteLength, k);
    var found := Meeting(c.leaves, 8 * k, 8 * k + bytes);
    MeetingIsInside(c.leaves, c.byteLength, k);
    LeavesIncrease(c.leaves, c.byteLength);
    MeetingIncreases(c.leaves, 8 * k, 8 * k + bytes);
    assert Collects(found.value, c.leaves, k) by { MeetingCollects(found.value, c.leaves, k); }
    OnlyOne(found.value, c.leaves, c.byteLength, k);
    IntegerKind(found.value, c, k);
  }

  lemma MeetingCollects(found: seq<Leaf>, leaves: seq<Leaf>, k: nat)
    requires Increasing(found) && (forall i | 0 <= i < |found| :: found[i] in leaves && found[i].offset / 8 == k)
    requires forall i | 0 <= i < |leaves| && leaves[i].offset / 8 == k :: leaves[i] in found
    ensures Collects(found, leaves, k)
  {
  }

  /** A lone scalar that is no float stands at the start of its eightbyte. */
  lemma LoneLeaf(found: seq<Leaf>, leaves: seq<Leaf>, bytes: nat, k: nat)
    requires LeavesOk(leaves, 0, bytes) && StartsAt(leaves, 8 * k) && !AllFloating(leaves, k) && Collects(found, leaves, k)
    ensures found != []
    ensures |found| == 1 ==>
      && found[0].offset == 8 * k && !found[0].kind.Floating? && found[0].bytes <= 8
      && (found[0].kind.Integer? || (found[0].kind.Pointer? && found[0].bytes == 8))
  {
    hide LeavesOk, LeafOk, Increasing;
    var i :| 0 <= i < |leaves| && leaves[i].offset == 8 * k;
    var j :| 0 <= j < |leaves| && leaves[j].offset / 8 == k && !leaves[j].kind.Floating?;
    assert leaves[i] in found && leaves[j] in found;
    OneLeaf(leaves, bytes, i);
    LeafSize(leaves[i], bytes);
  }

  lemma IntegerKind(found: seq<Leaf>, c: Classification, k: nat)
    requires 8 * k < c.byteLength <= 16 && LeavesOk(c.leaves, 0, c.byteLength) && StartsAt(c.leaves, 8 * k) && !AllFloating(c.leaves, k)
    requires Collects(found, c.leaves, k)
    requires forall i | 0 <= i < |c.leaves| && Only(c.leaves, i, k) :: found == [c.leaves[i]]
    requires |found| == 1 ==> exists i | 0 <= i < |c.leaves| :: Only(c.leaves, i, k)
    ensures var kind := IntegerPieceFrom(found, 8 * k, PieceBytes(c.byteLength, k));
      kind.Some? && CarriedIn(kind.value, c.leaves, k, c.byteLength)
  {
    hide LeavesOk, StartsAt, Collects, Only, AllFloating;
    LoneLeaf(found, c.leaves, c.byteLength, k);
  }

  lemma OneLeaf(leaves: seq<Leaf>, bytes: nat, i: nat)
    requires LeavesOk(leaves, 0, bytes) && i < |leaves|
    ensures LeafOk(leaves[i], 0, bytes)
  {
  }

  lemma LeafSize(leaf: Leaf, bytes: nat)
    requires LeafOk(leaf, 0, bytes)
    ensures leaf.bytes in {1, 2, 4, 8} && (leaf.kind.Integer? || leaf.kind.Floating? || leaf.kind.Pointer?)
    ensures leaf.kind.Pointer? ==> leaf.bytes == 8
    ensures leaf.kind.Floating? ==> leaf.bytes in {4, 8}
  {
  }

  lemma SsePieceExactly(c: Classification, k: nat)
    requires Faithful(c) && LeavesOk(c.leaves, 0, c.byteLength) && 8 * k < c.byteLength <= 16
    requires AllFloating(c.leaves, k) && StartsAt(c.leaves, 8 * k)
    ensures var kind := SsePieceType(c.floats, 8 * k, PieceBytes(c.byteLength, k));
      kind.Some? && CarriedIn(kind.value, c.leaves, k, c.byteLength)
  {
    hide Faithful, LeafOk, Within, SortByOffset, Increasing, SsePieceFrom, LeavesOk, AllFloating, Only, CarriedIn, Collects, StartsAt;
    var to := 8 * k + PieceBytes(c.byteLength, k);
    var w := Within(c.floats, 8 * k, to);
    SelectedAre(c, k, w);
    SseShape(w, k, c.byteLength);
    OnlyOne(w, c.leaves, c.byteLength, k);
    SseKind(w, k, c.byteLength, to);
    CarriedInFloats(w, c, k);
  }

  /** The floats selected are the eightbyte's scalars, in order already. */
  lemma SelectedAre(c: Classification, k: nat, w: seq<Leaf>)
    requires 8 * k < c.byteLength <= 16 && Faithful(c) && LeavesOk(c.leaves, 0, c.byteLength)
    requires AllFloating(c.leaves, k) && StartsAt(c.leaves, 8 * k)
    requires w == Within(c.floats, 8 * k, 8 * k + PieceBytes(c.byteLength, k))
    ensures Collects(w, c.leaves, k) && SortByOffset(w) == w && exists i | 0 <= i < |w| :: w[i].offset == 8 * k
    ensures forall i | 0 <= i < |w| :: LeafOk(w[i], 0, c.byteLength) && w[i].kind.Floating? && w[i].offset / 8 == k
    ensures forall i | 0 <= i < |w| :: w[i].offset + w[i].bytes <= 8 * k + PieceBytes(c.byteLength, k)
    ensures Increasing(w)
  {
    hide Faithful, LeafOk, Within, SortByOffset, Increasing, LeavesOk;
    FloatsIncrease(c);
    WithinIncreases(c.floats, 8 * k, 8 * k + PieceBytes(c.byteLength, k));
    SortedStays(w);
    SelectedFloats(c, k, w);
    FromLeaves(c, k, w);
    var i :| 0 <= i < |c.leaves| && c.leaves[i].offset == 8 * k;
    assert c.leaves[i] in w;
  }

  lemma CarriedInFloats(w: seq<Leaf>, c: Classification, k: nat)
    requires 8 * k < c.byteLength && w != [] && AllFloating(c.leaves, k)
    requires forall i | 0 <= i < |c.leaves| && Only(c.leaves, i, k) :: w == [c.leaves[i]]
    requires |w| == 1 ==> exists i | 0 <= i < |c.leaves| :: Only(c.leaves, i, k)
    ensures CarriedIn(if |w| == 1 then RegisterOf(w[0]) else VectorPiece(4, 2), c.leaves, k, c.byteLength)
  {
    hide Only, AllFloating;
  }

  /** The floats selected are leaves. */
  lemma FromLeaves(c: Classification, k: nat, w: seq<Leaf>)
    requires 8 * k < c.byteLength <= 16 && Faithful(c) && w == Within(c.floats, 8 * k, 8 * k + PieceBytes(c.byteLength, k))
    ensures forall i | 0 <= i < |w| :: w[i] in c.leaves
  {
    hide ClassMeans, Within, Before;
    WithinFloats(c.floats, 8 * k, 8 * k + PieceBytes(c.byteLength, k));
    forall i | 0 <= i < |w| ensures w[i] in c.leaves {
      assert w[i] in c.floats;
    }
  }

  lemma SseKind(w: seq<Leaf>, k: nat, bytes: nat, to: nat)
    requires 1 <= |w| <= 2 && w[0].offset == 8 * k && to <= 8 * k + 8
    requires forall i | 0 <= i < |w| :: LeafOk(w[i], 0, bytes) && w[i].kind.Floating? && w[i].offset + w[i].bytes <= to
    requires |w| == 2 ==> w[0].bytes == w[1].bytes == 4 && w[1].offset == 8 * k + 4
    ensures SsePieceFrom(w, 8 * k, to) == Some(if |w| == 1 then RegisterOf(w[0]) else VectorPiece(4, 2))
  {
    assert |w| == 2 ==> w[1..][1..] == [];
    assert Contiguous(w[1..], w[0].bytes, 8 * k + w[0].bytes);
  }

  lemma PlanIsPieces(t: AbiType, k: nat)
    requires SmallStruct(t) && 8 * k < t.byteLength
    ensures var c := Classify(t, 0, EmptyClassification(t.byteLength));
      && PlanOf(t).Some? && k < |PlanOf(t).value| && c.Some? && c.value.byteLength == t.byteLength
      && PieceFor(c.value, k) == Some(PlanOf(t).value[k])
  {
    hide Resolved, Classify, Leaves, PieceFor, GoodPiece, Faithful, LeavesOk;
    SmallStructIsClassified(t);
    DirectPlanExists(t);
    var c := Classify(t, 0, EmptyClassification(t.byteLength)).value;
    assert PiecesOf(c, 0) == Some([]);
    assert PiecesOf(c, 1).Some? && PieceFor(c, 0).Some?;
  }

  /** Each eightbyte travels in the register its scalars call for. */
  lemma PieceTypesExactly(t: AbiType, k: nat)
    requires SmallStruct(t) && 8 * k < t.byteLength
    ensures PlanOf(t).Some? && k < |PlanOf(t).value|
    ensures PlanOf(t).value[k].offset == 8 * k && CarriedIn(PlanOf(t).value[k].kind, Leaves(t, 0), k, t.byteLength)
  {
    hide Resolved, Classify, Leaves, PlanOf, Faithful, LeavesOk, CarriedIn, StartsAt, IntegerPieceType, SsePieceType;
    PlanIsPieces(t, k);
    SmallStructIsClassified(t);
    var c := Classify(t, 0, EmptyClassification(t.byteLength)).value;
    OccupiedClass(c, k);
    if c.At(k).IntegerClass? {
      IntegerIsMixed(c, k);
      IntegerPieceExactly(c, k);
    } else {
      SsePieceExactly(c, k);
    }
  }

  lemma IntegerIsMixed(c: Classification, k: nat)
    requires Faithful(c) && LeavesOk(c.leaves, 0, c.byteLength) && k < 2 && c.At(k).IntegerClass?
    ensures !AllFloating(c.leaves, k)
  {
    assert ClassMeans(c.At(k), c.leaves, k);
    hide Faithful, LeavesOk, Touches;
    TouchesOwnEightbyte(c.leaves, c.byteLength, k);
  }
}
