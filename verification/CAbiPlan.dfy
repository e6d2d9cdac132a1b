/**
  Every resolved struct of at most 16 bytes has a direct plan whose pieces cover each
  leaf byte exactly once, so unpack after pack restores every leaf byte.
 */
module CAbiPlan {
  import opened Basics
  import opened StructLayout
  import opened CAbiClasses
  import opened CAbiDirect

  // ------------------------------------------- what a classification records

  predicate Touches(leaf: Leaf, k: nat) {
    leaf.offset / 8 <= k <= (leaf.offset + leaf.bytes - 1) / 8
  }

  /** psABI 3.2.3: INTEGER wins over SSE; an eightbyte no leaf touches has no class. */
  ghost predicate ClassMeans(cls: Class, leaves: seq<Leaf>, k: nat) {
    && !cls.Memory?
    && (cls.NoClass? <==> forall i | 0 <= i < |leaves| :: !Touches(leaves[i], k))
    && (cls.IntegerClass? <==> exists i | 0 <= i < |leaves| :: Touches(leaves[i], k) && !leaves[i].kind.Floating?)
  }

  ghost predicate Faithful(c: Classification) {
    && ClassMeans(c.first, c.leaves, 0) && ClassMeans(c.second, c.leaves, 1)
    && (forall i | 0 <= i < |c.leaves| && c.leaves[i].kind.Floating? :: c.leaves[i] in c.floats)
    && (forall i | 0 <= i < |c.floats| :: c.floats[i] in c.leaves && c.floats[i].kind.Floating?)
    && (forall i, j | 0 <= i < j < |c.floats| :: Before(c.leaves, c.floats[i], c.floats[j]))
  }

  ghost predicate Before(leaves: seq<Leaf>, a: Leaf, b: Leaf) {
    exists i, j | 0 <= i < j < |leaves| :: leaves[i] == a && leaves[j] == b
  }

  lemma MergeKeepsMeaning(cls: Class, leaves: seq<Leaf>, leaf: Leaf, k: nat)
    requires ClassMeans(cls, leaves, k)
    ensures ClassMeans(if Touches(leaf, k) then MergeClass(cls, ClassOf(leaf.kind)) else cls, leaves + [leaf], k)
  {
    hide Touches;
    var all := leaves + [leaf];
    assert all[|leaves|] == leaf;
    assert forall i | 0 <= i < |leaves| :: all[i] == leaves[i];
  }

  lemma BeforeGrows(leaves: seq<Leaf>, leaf: Leaf, a: Leaf, b: Leaf)
    requires Before(leaves, a, b) || (a in leaves && b == leaf)
    ensures Before(leaves + [leaf], a, b)
  {
    var all := leaves + [leaf];
    if Before(leaves, a, b) {
      var i, j :| 0 <= i < j < |leaves| && leaves[i] == a && leaves[j] == b;
      assert all[i] == a && all[j] == b;
    } else {
      var i :| 0 <= i < |leaves| && leaves[i] == a;
      assert all[i] == a && all[|leaves|] == b;
    }
  }

  lemma AddLeafIsFaithful(c: Classification, leaf: Leaf)
    requires Faithful(c) && leaf.bytes > 0
    ensures Faithful(AddLeaf(c, leaf))
  {
    hide ClassMeans, Before;
    var r := AddLeaf(c, leaf);
    MergeKeepsMeaning(c.first, c.leaves, leaf, 0);
    MergeKeepsMeaning(c.second, c.leaves, leaf, 1);
    assert Touches(leaf, 0) <==> leaf.offset / 8 == 0;
    assert r.leaves[|c.leaves|] == leaf;
    forall i, j | 0 <= i < j < |r.floats| ensures Before(r.leaves, r.floats[i], r.floats[j]) {
      BeforeGrows(c.leaves, leaf, r.floats[i], r.floats[j]);
    }
  }

  lemma {:induction false} FoldIsFaithful(c: Classification, leaves: seq<Leaf>)
    requires Faithful(c) && forall i | 0 <= i < |leaves| :: leaves[i].bytes > 0
    ensures Faithful(AddLeaves(c, leaves))
    decreases |leaves|
  {
    hide Faithful, AddLeaf;
    if leaves != [] {
      AddLeafIsFaithful(c, leaves[0]);
      FoldIsFaithful(AddLeaf(c, leaves[0]), leaves[1..]);
    }
  }

  // ------------------------------------------------------------- one piece

  ghost predicate Covered(piece: Piece, leaf: Leaf) {
    piece.offset <= leaf.offset && leaf.offset + leaf.bytes <= piece.offset + piece.kind.StoreSize()
  }

  /** The piece lies inside its own eightbyte and holds every leaf of it. */
  ghost predicate GoodPiece(piece: Piece, leaves: seq<Leaf>, k: nat, bytes: nat) {
    && piece.offset == 8 * k && 0 < piece.kind.StoreSize() <= 8 && piece.offset + piece.kind.StoreSize() <= bytes
    && forall i | 0 <= i < |leaves| && leaves[i].offset / 8 == k :: Covered(piece, leaves[i])
  }

  lemma AlignedInEight(offset: nat, bytes: nat)
    requires bytes == 1 || bytes == 2 || bytes == 4 || bytes == 8
    requires offset % bytes == 0
    ensures offset % 8 + bytes <= 8
    ensures bytes == 4 ==> offset % 8 == 0 || offset % 8 == 4
    ensures bytes == 8 ==> offset % 8 == 0
  {
    if bytes == 4 {
      HalfOfEight(offset);
    } else if bytes == 2 {
      QuarterOfEight(offset);
    }
  }

  lemma HalfOfEight(offset: nat)
    requires offset % 4 == 0
    ensures offset % 8 == 0 || offset % 8 == 4
  {
    var q := offset / 4;
    assert offset == 8 * (q / 2) + 4 * (q % 2);
  }

  lemma QuarterOfEight(offset: nat)
    requires offset % 2 == 0
    ensures offset % 8 <= 6
  {
    var q := offset / 2;
    assert offset == 8 * (q / 4) + 2 * (q % 4);
  }

  /** A naturally aligned leaf never crosses an eightbyte border. */
  lemma LeafStaysInEightbyte(leaf: Leaf, bytes: nat)
    requires LeafOk(leaf, 0, bytes)
    ensures var k := leaf.offset / 8; 8 * k <= leaf.offset && leaf.offset + leaf.bytes <= 8 * k + 8
    ensures forall k: nat :: Touches(leaf, k) <==> leaf.offset / 8 == k
    ensures leaf.bytes > 0
    ensures leaf.bytes == 4 ==> leaf.offset % 8 == 0 || leaf.offset % 8 == 4
    ensures leaf.bytes == 8 ==> leaf.offset % 8 == 0
  {
    AlignedInEight(leaf.offset, leaf.bytes);
    var k := leaf.offset / 8;
    assert leaf.offset == 8 * k + leaf.offset % 8;
    assert (leaf.offset + leaf.bytes - 1) / 8 == k;
  }

  lemma {:induction false} MeetingIsInside(leaves: seq<Leaf>, bytes: nat, k: nat)
    requires LeavesOk(leaves, 0, bytes) && bytes <= 16 && 8 * k < bytes
    ensures var m := Meeting(leaves, 8 * k, 8 * k + PieceBytes(bytes, k));
      && m.Some? && (forall i | 0 <= i < |m.value| :: m.value[i] in leaves && m.value[i].offset / 8 == k)
      && (forall i | 0 <= i < |leaves| && leaves[i].offset / 8 == k :: leaves[i] in m.value)
    decreases |leaves|
  {
    hide IsScalar, Touches;
    if leaves != [] {
      var n := |leaves| - 1;
      MeetingIsInside(leaves[..n], bytes, k);
      assert LeafOk(leaves[n], 0, bytes);
      MeetingLast(leaves[n], bytes, k);
      hide LeafOk, LeavesOk, PieceBytes;
      var m := Meeting(leaves, 8 * k, 8 * k + PieceBytes(bytes, k));
      forall i | 0 <= i < |leaves| && leaves[i].offset / 8 == k ensures leaves[i] in m.value {
        if i < n { assert leaves[..n][i] == leaves[i]; }
      }
    }
  }

  /** A leaf meets the piece of eightbyte k exactly when it starts there, and then lies inside it. */
  lemma MeetingLast(leaf: Leaf, bytes: nat, k: nat)
    requires LeafOk(leaf, 0, bytes) && bytes <= 16 && 8 * k < bytes
    ensures var from, to := 8 * k, 8 * k + PieceBytes(bytes, k);
      && leaf.offset + leaf.bytes <= SIZE_MAX
      && (leaf.offset / 8 == k ==> from <= leaf.offset < to && from < leaf.offset + leaf.bytes <= to)
      && (leaf.offset / 8 != k ==> leaf.offset + leaf.bytes <= from || leaf.offset >= to)
  {
    hide IsScalar, Touches;
    LeafStaysInEightbyte(leaf, bytes);
  }

  lemma IntegerPieceIsGood(leaves: seq<Leaf>, bytes: nat, k: nat)
    requires LeavesOk(leaves, 0, bytes) && bytes <= 16 && 8 * k < bytes
    requires exists i | 0 <= i < |leaves| :: leaves[i].offset / 8 == k
    ensures var kind := IntegerPieceType(leaves, 8 * k, PieceBytes(bytes, k));
      kind.Some? && GoodPiece(Piece(kind.value, 8 * k), leaves, k, bytes)
  {
    hide Meeting;
    MeetingIsInside(leaves, bytes, k);
    var found := Meeting(leaves, 8 * k, 8 * k + PieceBytes(bytes, k)).value;
    assert found != [];
    assert found[0] in leaves;
    var kind := IntegerPieceType(leaves, 8 * k, PieceBytes(bytes, k));
    forall i | 0 <= i < |leaves| && leaves[i].offset / 8 == k ensures Covered(Piece(kind.value, 8 * k), leaves[i]) {
      LeafStaysInEightbyte(leaves[i], bytes);
      assert leaves[i] in found;
    }
  }

  // ------------------------------------------------------------ SSE pieces

  lemma {:induction false} WithinFloats(floats: seq<Leaf>, from: nat, to: nat)
    requires to <= SIZE_MAX
    ensures var w := Within(floats, from, to);
      && (forall i | 0 <= i < |w| :: w[i] in floats && from <= w[i].offset && w[i].offset + w[i].bytes <= to)
      && (forall i | 0 <= i < |floats| && from <= floats[i].offset && floats[i].offset + floats[i].bytes <= to :: floats[i] in w)
    decreases |floats|
  {
    if floats != [] {
      var n := |floats| - 1;
      WithinFloats(floats[..n], from, to);
      var w := Within(floats, from, to);
      forall i | 0 <= i < |floats| && from <= floats[i].offset && floats[i].offset + floats[i].bytes <= to ensures floats[i] in w {
        if i < n { assert floats[..n][i] == floats[i]; }
      }
    }
  }

  ghost predicate Increasing(leaves: seq<Leaf>) {
    forall i, j | 0 <= i < j < |leaves| :: leaves[i].offset + leaves[i].bytes <= leaves[j].offset && leaves[i].bytes > 0
  }

  lemma {:induction false} WithinIncreases(floats: seq<Leaf>, from: nat, to: nat)
    requires Increasing(floats) && to <= SIZE_MAX
    ensures Increasing(Within(floats, from, to))
    decreases |floats|
  {
    if floats != [] {
      var n := |floats| - 1;
      WithinIncreases(floats[..n], from, to);
      WithinFloats(floats[..n], from, to);
    }
  }

  /** Sorting leaves that are already in address order changes nothing. */
  lemma {:induction false} SortedStays(leaves: seq<Leaf>)
    requires Increasing(leaves)
    ensures SortByOffset(leaves) == leaves
    decreases |leaves|
  {
    if leaves != [] {
      var n := |leaves| - 1;
      SortedStays(leaves[..n]);
      InsertLast(leaves[n], leaves[..n]);
      assert leaves[..n] + [leaves[n]] == leaves;
    }
  }

  lemma {:induction false} InsertLast(leaf: Leaf, sorted: seq<Leaf>)
    requires forall i | 0 <= i < |sorted| :: sorted[i].offset <= leaf.offset
    ensures Insert(leaf, sorted) == sorted + [leaf]
    decreases |sorted|
  {
    if sorted != [] {
      InsertLast(leaf, sorted[1..]);
    }
  }

  /** The floats of one eightbyte: a double, a float, or two floats. */
  lemma SseShape(w: seq<Leaf>, k: nat, bytes: nat)
    requires Increasing(w) && 8 * k < bytes <= 16
    requires forall i | 0 <= i < |w| :: LeafOk(w[i], 0, bytes) && w[i].kind.Floating? && w[i].offset / 8 == k
    requires exists i | 0 <= i < |w| :: w[i].offset == 8 * k
    ensures 1 <= |w| <= 2 && w[0].offset == 8 * k
    ensures |w| == 2 ==> w[0].bytes == w[1].bytes == 4 && w[1].offset == 8 * k + 4
  {
    var i :| 0 <= i < |w| && w[i].offset == 8 * k;
    assert |w| >= 3 ==> w[1].offset + w[1].bytes <= w[2].offset < 8 * k + 8;
    LeafStaysInEightbyte(w[0], bytes);
    assert i == 0;
    if |w| >= 2 {
      LeafStaysInEightbyte(w[1], bytes);
      assert w[0].offset + w[0].bytes <= w[1].offset;
    }
  }

  /** The float leaves selected for eightbyte k are exactly its leaves. */
  lemma SelectedFloats(c: Classification, k: nat, w: seq<Leaf>)
    requires Faithful(c) && LeavesOk(c.leaves, 0, c.byteLength) && 8 * k < c.byteLength <= 16
    requires forall i | 0 <= i < |c.leaves| && c.leaves[i].offset / 8 == k :: c.leaves[i].kind.Floating?
    requires w == Within(c.floats, 8 * k, 8 * k + PieceBytes(c.byteLength, k))
    ensures forall i | 0 <= i < |w| ::
      && LeafOk(w[i], 0, c.byteLength) && w[i].kind.Floating? && w[i].offset / 8 == k
      && w[i].offset + w[i].bytes <= 8 * k + PieceBytes(c.byteLength, k)
    ensures forall i | 0 <= i < |c.leaves| && c.leaves[i].offset / 8 == k :: c.leaves[i] in w
  {
    hide ClassMeans, IsScalar, Within, Before;
    WithinFloats(c.floats, 8 * k, 8 * k + PieceBytes(c.byteLength, k));
    forall i | 0 <= i < |w| ensures LeafOk(w[i], 0, c.byteLength) && w[i].kind.Floating? && w[i].offset / 8 == k {
      assert w[i] in c.floats;
      LeafStaysInEightbyte(w[i], c.byteLength);
    }
    forall i | 0 <= i < |c.leaves| && c.leaves[i].offset / 8 == k ensures c.leaves[i] in w {
      LeafStaysInEightbyte(c.leaves[i], c.byteLength);
      assert c.leaves[i] in c.floats;
    }
  }

  lemma SsePieceIsGood(c: Classification, k: nat)
    requires Faithful(c) && LeavesOk(c.leaves, 0, c.byteLength) && 8 * k < c.byteLength <= 16
    requires forall i | 0 <= i < |c.leaves| && c.leaves[i].offset / 8 == k :: c.leaves[i].kind.Floating?
    requires StartsAt(c.leaves, 8 * k)
    ensures var kind := SsePieceType(c.floats, 8 * k, PieceBytes(c.byteLength, k));
      kind.Some? && GoodPiece(Piece(kind.value, 8 * k), c.leaves, k, c.byteLength)
  {
    hide Faithful, LeafOk, Within, SortByOffset, Covered, Increasing, SsePieceFrom;
    var to := 8 * k + PieceBytes(c.byteLength, k);
    var w := Within(c.floats, 8 * k, to);
    FloatsIncrease(c);
    WithinIncreases(c.floats, 8 * k, to);
    SortedStays(w);
    SelectedFloats(c, k, w);
    var i :| 0 <= i < |c.leaves| && c.leaves[i].offset == 8 * k;
    assert c.leaves[i] in w;
    SseShape(w, k, c.byteLength);
    SsePieceFromShape(w, k, c.byteLength, to);
  }

  lemma FloatsIncrease(c: Classification)
    requires Faithful(c) && LeavesOk(c.leaves, 0, c.byteLength)
    ensures Increasing(c.floats)
  {
    hide ClassMeans;
    forall i, j | 0 <= i < j < |c.floats|
      ensures c.floats[i].offset + c.floats[i].bytes <= c.floats[j].offset && c.floats[i].bytes > 0
    {
      assert Before(c.leaves, c.floats[i], c.floats[j]);
    }
  }

  lemma SsePieceFromShape(w: seq<Leaf>, k: nat, bytes: nat, to: nat)
    requires 1 <= |w| <= 2 && w[0].offset == 8 * k && to <= 8 * k + 8
    requires forall i | 0 <= i < |w| :: LeafOk(w[i], 0, bytes) && w[i].kind.Floating? && w[i].offset + w[i].bytes <= to
    requires |w| == 2 ==> w[0].bytes == w[1].bytes == 4 && w[1].offset == 8 * k + 4
    ensures var kind := SsePieceFrom(w, 8 * k, to);
      && kind.Some? && 0 < kind.value.StoreSize() && 8 * k + kind.value.StoreSize() <= to
      && forall i | 0 <= i < |w| :: Covered(Piece(kind.value, 8 * k), w[i])
  {
    assert |w| == 2 ==> w[1..][1..] == [];
    assert Contiguous(w[1..], w[0].bytes, 8 * k + w[0].bytes);
  }

  // ------------------------------------------------------------- the theorem

  ghost predicate GoodPlan(plan: seq<Piece>, leaves: seq<Leaf>, bytes: nat) {
    && |plan| == PieceCount(bytes)
    && forall k | 0 <= k < |plan| :: GoodPiece(plan[k], leaves, k, bytes)
  }

  ghost predicate SmallStruct(t: AbiType) {
    Resolved(t) && t.kind.Aggregate? && t.elementCount == 1 && 0 < t.byteLength <= 16
  }

  /** The classifier accepts every small resolved struct and records exactly its leaves. */
  lemma SmallStructIsClassified(t: AbiType)
    requires SmallStruct(t)
    ensures var c := Classify(t, 0, EmptyClassification(t.byteLength));
      && c.Some? && c.value.leaves == Leaves(t, 0) && c.value.byteLength == t.byteLength
      && Faithful(c.value) && LeavesOk(c.value.leaves, 0, t.byteLength)
    ensures forall k: nat | 8 * k < t.byteLength :: StartsAt(Leaves(t, 0), 8 * k)
  {
    hide Resolved, LayoutFields, LaidOut, FieldsOk, AddLeaves, Leaves, Classify, LeavesOk, Faithful, StartsAt;
    ResolvedFacts(t);
    var c := EmptyClassification(t.byteLength);
    assert TotalBytes(t) == t.byteLength;
    ClassifyIsFold(t, 0, c);
    AddLeavesRecords(c, Leaves(t, 0));
    LeavesAreOk(t, 0);
    LeavesArePositive(Leaves(t, 0), t.byteLength);
    EmptyIsFaithful(t.byteLength);
    FoldIsFaithful(c, Leaves(t, 0));
    forall k: nat | 8 * k < t.byteLength ensures StartsAt(Leaves(t, 0), 8 * k) {
      AlignDivides(t.alignment, 8, 8 * k);
      LeafAtEveryMultiple(t, 0, 8 * k);
    }
  }

  lemma EmptyIsFaithful(bytes: nat)
    ensures Faithful(EmptyClassification(bytes))
  {
  }

  lemma LeavesArePositive(leaves: seq<Leaf>, bytes: nat)
    requires LeavesOk(leaves, 0, bytes)
    ensures forall i | 0 <= i < |leaves| :: leaves[i].bytes > 0
  {
  }

  lemma TouchesOwnEightbyte(leaves: seq<Leaf>, bytes: nat, k: nat)
    requires LeavesOk(leaves, 0, bytes)
    ensures forall i | 0 <= i < |leaves| :: Touches(leaves[i], k) <==> leaves[i].offset / 8 == k
  {
    forall i | 0 <= i < |leaves| ensures Touches(leaves[i], k) <==> leaves[i].offset / 8 == k {
      LeafStaysInEightbyte(leaves[i], bytes);
    }
  }

  /** An occupied eightbyte is INTEGER, or SSE with only floats in it. */
  lemma OccupiedClass(c: Classification, k: nat)
    requires Faithful(c) && LeavesOk(c.leaves, 0, c.byteLength) && k < 2 && StartsAt(c.leaves, 8 * k)
    ensures c.At(k).IntegerClass? || c.At(k).Sse?
    ensures exists i | 0 <= i < |c.leaves| :: c.leaves[i].offset / 8 == k
    ensures c.At(k).Sse? ==> forall i | 0 <= i < |c.leaves| && c.leaves[i].offset / 8 == k :: c.leaves[i].kind.Floating?
  {
    assert ClassMeans(c.At(k), c.leaves, k);
    hide Faithful, LeavesOk, Touches;
    TouchesOwnEightbyte(c.leaves, c.byteLength, k);
    var i :| 0 <= i < |c.leaves| && c.leaves[i].offset == 8 * k;
    assert Touches(c.leaves[i], k) && c.leaves[i].offset / 8 == k;
  }

  lemma PieceIsGood(c: Classification, k: nat)
    requires Faithful(c) && LeavesOk(c.leaves, 0, c.byteLength) && 8 * k < c.byteLength <= 16
    requires StartsAt(c.leaves, 8 * k)
    ensures PieceFor(c, k).Some? && GoodPiece(PieceFor(c, k).value, c.leaves, k, c.byteLength)
  {
    hide IntegerPieceType, SsePieceType, GoodPiece, PieceBytes, Faithful, LeavesOk, StartsAt;
    OccupiedClass(c, k);
    if c.At(k).IntegerClass? {
      IntegerPieceIsGood(c.leaves, c.byteLength, k);
    } else {
      SsePieceIsGood(c, k);
    }
  }

  /** Every resolved struct of at most 16 bytes has a plan that covers all its leaves. */
  lemma DirectPlanExists(t: AbiType)
    requires SmallStruct(t)
    ensures PlanOf(t).Some? && GoodPlan(PlanOf(t).value, Leaves(t, 0), t.byteLength)
  {
    hide Resolved, Classify, Leaves, PieceFor, GoodPiece, Faithful, LeavesOk, StartsAt;
    SmallStructIsClassified(t);
    var c := Classify(t, 0, EmptyClassification(t.byteLength)).value;
    PieceIsGood(c, 0);
    var first := PieceFor(c, 0).value;
    assert [] + [first] == [first];
    assert PiecesOf(c, 1) == Some([first]);
    if t.byteLength > 8 {
      PieceIsGood(c, 1);
      var second := PieceFor(c, 1).value;
      assert [first] + [second] == [first, second];
      assert PiecesOf(c, 2) == Some([first, second]);
    }
  }

  /** Byte b belongs to a scalar, not to padding. */
  ghost predicate LeafByte(leaves: seq<Leaf>, b: nat) {
    exists i | 0 <= i < |leaves| :: leaves[i].offset <= b < leaves[i].offset + leaves[i].bytes
  }

  /** Exactly one piece covers each leaf byte. */
  lemma ExactlyOnePiece(t: AbiType, b: nat)
    requires SmallStruct(t) && LeafByte(Leaves(t, 0), b)
    ensures PlanOf(t).Some?
    ensures var plan := PlanOf(t).value;
      && b / 8 < |plan| && plan[b / 8].Covers(b)
      && forall k | 0 <= k < |plan| && plan[k].Covers(b) :: k == b / 8
  {
    hide Resolved, Classify, Leaves, PlanOf, Faithful, IsScalar;
    DirectPlanExists(t);
    SmallStructIsClassified(t);
    var leaves, plan := Leaves(t, 0), PlanOf(t).value;
    var i :| 0 <= i < |leaves| && leaves[i].offset <= b < leaves[i].offset + leaves[i].bytes;
    LeafStaysInEightbyte(leaves[i], t.byteLength);
    assert leaves[i].offset / 8 == b / 8;
    assert Covered(plan[b / 8], leaves[i]);
  }
}
