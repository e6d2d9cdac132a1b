/**
  Direct plans of src/codegen/LLVMCodegenCAbi.cpp: register pieces for an aggregate of
  at most 16 bytes, and the pack and unpack loops over them.
 */
module CAbiDirect {
  import opened Basics
  import opened StructLayout
  import opened CAbiClasses

  datatype PieceType = IntegerPiece(bits: nat) | PointerPiece | FloatPiece(bytes: nat) | VectorPiece(bytes: nat, count: nat) {
    function StoreSize(): nat {
      match this
      case IntegerPiece(bits) => (bits + 7) / 8
      case PointerPiece => 8
      case FloatPiece(bytes) => bytes
      case VectorPiece(bytes, count) => bytes * count
    }
  }

  datatype Piece = Piece(kind: PieceType, offset: nat) {
    predicate Covers(b: nat) {
      offset <= b < offset + kind.StoreSize()
    }
  }

  // ------------------------------------------------------- integer pieces

  /** The leaves that meet [from, to); None when one straddles its border. */
  function Meeting(leaves: seq<Leaf>, from: nat, to: nat): Option<seq<Leaf>> {
    if leaves == [] then Some([])
    else
      var leaf := leaves[|leaves| - 1];
      match Meeting(leaves[..|leaves| - 1], from, to)
      case None => None
      case Some(found) =>
        if leaf.offset + leaf.bytes > SIZE_MAX then None
        else if leaf.offset + leaf.bytes <= from || leaf.offset >= to then Some(found)
        else if leaf.offset < from || leaf.offset + leaf.bytes > to then None
        else Some(found + [leaf])
  }

  const UINT_MAX: nat := 0xFFFF_FFFF

  function IntegerPieceFrom(found: seq<Leaf>, from: nat, bytes: nat): Option<PieceType> {
    if |found| == 1 && found[0].offset == from && found[0].kind.Integer? && found[0].bytes > UINT_MAX / 8 then None
    else if |found| == 1 && found[0].offset == from && found[0].kind.Integer? then Some(IntegerPiece(found[0].bytes * 8))
    else if |found| == 1 && found[0].offset == from && found[0].kind.Pointer? && found[0].bytes == 8 then Some(PointerPiece)
    else if found == [] || bytes > UINT_MAX / 8 then None
    else Some(IntegerPiece(bytes * 8))
  }

  function IntegerPieceType(leaves: seq<Leaf>, from: nat, bytes: nat): Option<PieceType> {
    if from + bytes > SIZE_MAX then None
    else
      match Meeting(leaves, from, from + bytes)
      case None => None
      case Some(found) => IntegerPieceFrom(found, from, bytes)
  }

  method FindIntegerPiece(leaves: seq<Leaf>, from: nat, bytes: nat) returns (r: Option<PieceType>)
    ensures r == IntegerPieceType(leaves, from, bytes)
  {
    if from + bytes > SIZE_MAX {
      return None;
    }
    var found: seq<Leaf> := [];
    for i := 0 to |leaves|
      invariant Meeting(leaves[..i], from, from + bytes) == Some(found)
    {
      var leaf := leaves[i];
      assert leaves[..i + 1][..i] == leaves[..i];
      if leaf.offset + leaf.bytes > SIZE_MAX {
        MeetingFails(leaves, i + 1, from, from + bytes);
        return None;
      }
      if leaf.offset + leaf.bytes <= from || leaf.offset >= from + bytes {
        continue;
      }
      if leaf.offset < from || leaf.offset + leaf.bytes > from + bytes {
        MeetingFails(leaves, i + 1, from, from + bytes);
        return None;
      }
      found := found + [leaf];
    }
    assert leaves[..|leaves|] == leaves;
    r := IntegerPieceFrom(found, from, bytes);
  }

  lemma {:induction false} MeetingFails(leaves: seq<Leaf>, n: nat, from: nat, to: nat)
    requires n <= |leaves| && Meeting(leaves[..n], from, to).None?
    ensures Meeting(leaves, from, to).None?
    decreases |leaves|
  {
    if n == |leaves| {
      assert leaves[..n] == leaves;
    } else {
      assert leaves[..|leaves| - 1][..n] == leaves[..n];
      MeetingFails(leaves[..|leaves| - 1], n, from, to);
    }
  }

  // ----------------------------------------------------------- SSE pieces

  function Within(floats: seq<Leaf>, from: nat, to: nat): seq<Leaf> {
    if floats == [] then []
    else
      var leaf := floats[|floats| - 1];
      Within(floats[..|floats| - 1], from, to) +
        (if leaf.offset >= from && leaf.offset + leaf.bytes <= SIZE_MAX && leaf.offset + leaf.bytes <= to then [leaf] else [])
  }

  function Insert(leaf: Leaf, sorted: seq<Leaf>): seq<Leaf> {
    if sorted == [] || leaf.offset < sorted[0].offset then [leaf] + sorted
    else [sorted[0]] + Insert(leaf, sorted[1..])
  }

  function SortByOffset(leaves: seq<Leaf>): seq<Leaf> {
    if leaves == [] then []
    else Insert(leaves[|leaves| - 1], SortByOffset(leaves[..|leaves| - 1]))
  }

  /** The leaves follow one another from `cursor` on, all of the same size. */
  predicate Contiguous(leaves: seq<Leaf>, bytes: nat, cursor: nat) {
    leaves == [] || (leaves[0].bytes == bytes && leaves[0].offset == cursor && Contiguous(leaves[1..], bytes, cursor + bytes))
  }

  function SsePieceFrom(leaves: seq<Leaf>, from: nat, to: nat): Option<PieceType> {
    if leaves == [] then None
    else
      var bytes := leaves[0].bytes;
      if !Contiguous(leaves, bytes, from) then None
      else if from + |leaves| * bytes > to then None
      else if bytes != 4 && bytes != 8 then None
      else if |leaves| == 1 then Some(FloatPiece(bytes))
      else if |leaves| > UINT_MAX then None
      else Some(VectorPiece(bytes, |leaves|))
  }

  function SsePieceType(floats: seq<Leaf>, from: nat, bytes: nat): Option<PieceType> {
    if from + bytes > SIZE_MAX then None
    else SsePieceFrom(SortByOffset(Within(floats, from, from + bytes)), from, from + bytes)
  }

  method SelectWithin(floats: seq<Leaf>, from: nat, to: nat) returns (found: seq<Leaf>)
    ensures found == Within(floats, from, to)
  {
    found := [];
    for i := 0 to |floats|
      invariant Within(floats[..i], from, to) == found
    {
      assert floats[..i + 1][..i] == floats[..i];
      var leaf := floats[i];
      if leaf.offset >= from && leaf.offset + leaf.bytes <= SIZE_MAX && leaf.offset + leaf.bytes <= to {
        found := found + [leaf];
      }
    }
    assert floats[..|floats|] == floats;
  }

  /** Whether the leaves follow one another, and where they end. */
  method FollowLeaves(leaves: seq<Leaf>, size: nat, from: nat) returns (ok: bool, cursor: nat)
    ensures ok == Contiguous(leaves, size, from)
    ensures ok ==> cursor == from + |leaves| * size
  {
    cursor := from;
    var i := 0;
    while i < |leaves|
      invariant i <= |leaves| && cursor == from + i * size
      invariant Contiguous(leaves, size, from) == Contiguous(leaves[i..], size, cursor)
    {
      if leaves[i].bytes != size || leaves[i].offset != cursor {
        return false, cursor;
      }
      assert leaves[i..][1..] == leaves[i + 1..];
      assert (i + 1) * size == i * size + size;
      cursor := cursor + size;
      i := i + 1;
    }
    ok := true;
  }

  method FindSsePiece(floats: seq<Leaf>, from: nat, bytes: nat) returns (r: Option<PieceType>)
    ensures r == SsePieceType(floats, from, bytes)
  {
    if from + bytes > SIZE_MAX {
      return None;
    }
    var to := from + bytes;
    var found := SelectWithin(floats, from, to);
    var leaves := SortByOffset(found);
    if leaves == [] {
      return None;
    }
    var size := leaves[0].bytes;
    var ok, cursor := FollowLeaves(leaves, size, from);
    if !ok {
      return None;
    }
    if cursor > to || (size != 4 && size != 8) {
      return None;
    }
    if |leaves| == 1 {
      return Some(FloatPiece(size));
    }
    if |leaves| > UINT_MAX {
      return None;
    }
    r := Some(VectorPiece(size, |leaves|));
  }

  // ----------------------------------------------------------- direct plan

  function PieceCount(bytes: nat): nat {
    (bytes + 7) / 8
  }

  function PieceBytes(bytes: nat, k: nat): nat
    requires 8 * k <= bytes
  {
    if bytes - 8 * k < 8 then bytes - 8 * k else 8
  }

  function PieceFor(c: Classification, k: nat): Option<Piece>
    requires k < 2 && 8 * k <= c.byteLength
  {
    var bytes := PieceBytes(c.byteLength, k);
    var kind := match c.At(k)
      case IntegerClass => IntegerPieceType(c.leaves, 8 * k, bytes)
      case Sse => SsePieceType(c.floats, 8 * k, bytes)
      case _ => None;
    match kind
    case None => None
    case Some(kind) => Some(Piece(kind, 8 * k))
  }

  function EmptyClassification(bytes: nat): Classification {
    Classification(NoClass, NoClass, [], [], bytes)
  }

  method DirectPlan(t: AbiType) returns (r: Option<seq<Piece>>)
    ensures r == PlanOf(t)
  {
    if !t.kind.Aggregate? || t.byteLength == 0 || t.byteLength > 16 || t.elementCount != 1 {
      return None;
    }
    var classified := Classify(t, 0, EmptyClassification(t.byteLength));
    if classified.None? {
      return None;
    }
    var c := classified.value;
    var pieces: seq<Piece> := [];
    for k := 0 to PieceCount(t.byteLength)
      invariant PiecesOf(c, k) == Some(pieces)
    {
      var kind: Option<PieceType> := None;
      match c.At(k) {
        case IntegerClass => kind := FindIntegerPiece(c.leaves, 8 * k, PieceBytes(t.byteLength, k));
        case Sse => kind := FindSsePiece(c.floats, 8 * k, PieceBytes(t.byteLength, k));
        case _ =>
      }
      if kind.None? {
        PiecesFail(c, k + 1, PieceCount(t.byteLength));
        return None;
      }
      pieces := pieces + [Piece(kind.value, 8 * k)];
    }
    r := Some(pieces);
  }

  function PiecesOf(c: Classification, n: nat): (r: Option<seq<Piece>>)
    requires c.byteLength <= 16 && n <= PieceCount(c.byteLength)
    ensures r.Some? ==> |r.value| == n
  {
    if n == 0 then Some([])
    else
      match PiecesOf(c, n - 1)
      case None => None
      case Some(pieces) =>
        match PieceFor(c, n - 1)
        case None => None
        case Some(piece) => Some(pieces + [piece])
  }

  lemma {:induction false} PiecesFail(c: Classification, k: nat, n: nat)
    requires c.byteLength <= 16 && k <= n <= PieceCount(c.byteLength) && PiecesOf(c, k).None?
    ensures PiecesOf(c, n).None?
    decreases n
  {
    if k < n {
      PiecesFail(c, k, n - 1);
    }
  }

  function PlanOf(t: AbiType): Option<seq<Piece>> {
    if !t.kind.Aggregate? || t.byteLength == 0 || t.byteLength > 16 || t.elementCount != 1 then None
    else
      match Classify(t, 0, EmptyClassification(t.byteLength))
      case None => None
      case Some(c) => PiecesOf(c, PieceCount(t.byteLength))
  }
}
