/**
  Packing an aggregate's storage into register pieces and storing them back
  (packCAbiDirectValue and unpackCAbiDirectValue of src/codegen/LLVMCodegenCAbi.cpp).
  The physical value is one byte string per piece.
 */
module CAbiTransfer {
  import opened Basics
  import opened StructLayout
  import opened CAbiClasses
  import opened CAbiDirect
  import opened CAbiPlan

  predicate Fits(piece: Piece, bytes: nat) {
    piece.offset + piece.kind.StoreSize() <= bytes
  }

  predicate AllFit(plan: seq<Piece>, bytes: nat) {
    forall k | 0 <= k < |plan| :: Fits(plan[k], bytes)
  }

  function Loaded(memory: seq<byte>, piece: Piece): seq<byte>
    requires Fits(piece, |memory|)
  {
    memory[piece.offset..piece.offset + piece.kind.StoreSize()]
  }

  function Stored(memory: seq<byte>, piece: Piece, value: seq<byte>): (r: seq<byte>)
    requires Fits(piece, |memory|) && |value| == piece.kind.StoreSize()
    ensures |r| == |memory|
    ensures forall b | 0 <= b < |r| :: r[b] == if piece.Covers(b) then value[b - piece.offset] else memory[b]
  {
    memory[..piece.offset] + value + memory[piece.offset + |value|..]
  }

  /** The value has the plan's physical type. */
  predicate HasType(value: seq<seq<byte>>, plan: seq<Piece>) {
    |value| == |plan| && forall k | 0 <= k < |plan| :: |value[k]| == plan[k].kind.StoreSize()
  }

  predicate Usable(t: AbiType, plan: seq<Piece>) {
    t.elementCount == 1 && t.byteLength > 0 && plan != []
  }

  method Pack(storage: array<byte>, t: AbiType, plan: seq<Piece>) returns (r: Option<seq<seq<byte>>>)
    requires t.byteLength == storage.Length
    ensures r.Some? <==> Usable(t, plan) && AllFit(plan, t.byteLength)
    ensures r.Some? ==> HasType(r.value, plan)
    ensures r.Some? ==> forall k | 0 <= k < |plan| :: r.value[k] == Loaded(storage[..], plan[k])
  {
    if !Usable(t, plan) {
      return None;
    }
    var physical: seq<seq<byte>> := [];
    for k := 0 to |plan|
      invariant |physical| == k && AllFit(plan[..k], t.byteLength)
      invariant forall j | 0 <= j < k :: physical[j] == Loaded(storage[..], plan[..k][j])
    {
      var piece := plan[k];
      if piece.offset > t.byteLength || piece.kind.StoreSize() > t.byteLength - piece.offset {
        assert !Fits(plan[k], t.byteLength);
        return None;
      }
      assert plan[..k + 1] == plan[..k] + [piece];
      physical := physical + [storage[piece.offset..piece.offset + piece.kind.StoreSize()]];
    }
    assert plan[..|plan|] == plan;
    r := Some(physical);
  }

  function Unpacked(memory: seq<byte>, plan: seq<Piece>, value: seq<seq<byte>>): (r: seq<byte>)
    requires HasType(value, plan) && AllFit(plan, |memory|)
    ensures |r| == |memory|
    decreases |plan|
  {
    if plan == [] then memory
    else
      var n := |plan| - 1;
      Stored(Unpacked(memory, plan[..n], value[..n]), plan[n], value[n])
  }

  method Unpack(value: seq<seq<byte>>, storage: array<byte>, t: AbiType, plan: seq<Piece>) returns (ok: bool)
    requires t.byteLength == storage.Length
    modifies storage
    ensures ok <==> Usable(t, plan) && HasType(value, plan) && AllFit(plan, t.byteLength)
    ensures ok ==> storage[..] == Unpacked(old(storage[..]), plan, value)
  {
    if !Usable(t, plan) || !HasType(value, plan) {
      return false;
    }
    ghost var before := storage[..];
    for k := 0 to |plan|
      invariant AllFit(plan[..k], t.byteLength) && HasType(value[..k], plan[..k])
      invariant storage[..] == Unpacked(before, plan[..k], value[..k])
    {
      var piece := plan[k];
      if piece.offset > t.byteLength || piece.kind.StoreSize() > t.byteLength - piece.offset {
        assert !Fits(plan[k], t.byteLength);
        return false;
      }
      assert plan[..k + 1] == plan[..k] + [piece] && value[..k + 1] == value[..k] + [value[k]];
      StoreBytes(storage, piece, value[k]);
    }
    assert plan[..|plan|] == plan && value[..|plan|] == value;
    ok := true;
  }

  method StoreBytes(storage: array<byte>, piece: Piece, value: seq<byte>)
    requires Fits(piece, storage.Length) && |value| == piece.kind.StoreSize()
    modifies storage
    ensures storage[..] == Stored(old(storage[..]), piece, value)
  {
    for b := 0 to |value|
      invariant forall i | 0 <= i < storage.Length ::
        storage[i] == if piece.offset <= i < piece.offset + b then value[i - piece.offset] else old(storage[i])
    {
      storage[piece.offset + b] := value[b];
    }
  }

  // ------------------------------------------------------------ round trip

  /** Pieces as GoodPlan places them: piece k inside eightbyte k. */
  ghost predicate Separate(plan: seq<Piece>) {
    forall k | 0 <= k < |plan| :: plan[k].offset == 8 * k && plan[k].kind.StoreSize() <= 8
  }

  lemma {:induction false} UnpackedAt(memory: seq<byte>, plan: seq<Piece>, value: seq<seq<byte>>, b: nat)
    requires HasType(value, plan) && AllFit(plan, |memory|) && Separate(plan) && b < |memory|
    ensures var k := b / 8;
      Unpacked(memory, plan, value)[b] ==
        if k < |plan| && plan[k].Covers(b) then value[k][b - plan[k].offset] else memory[b]
    decreases |plan|
  {
    if plan != [] {
      var n := |plan| - 1;
      UnpackedAt(memory, plan[..n], value[..n], b);
      assert plan[n].Covers(b) ==> b / 8 == n;
    }
  }

  /** Unpack after pack: every leaf byte is restored, and padding outside the pieces is not written. */
  lemma TransferRestoresLeaves(t: AbiType, plan: seq<Piece>, from: seq<byte>, to: seq<byte>, value: seq<seq<byte>>, b: nat)
    requires SmallStruct(t) && PlanOf(t) == Some(plan) && |from| == |to| == t.byteLength && b < t.byteLength
    requires HasType(value, plan) && AllFit(plan, t.byteLength)
    requires forall k | 0 <= k < |plan| :: value[k] == Loaded(from, plan[k])
    ensures Unpacked(to, plan, value)[b] == from[b] || Unpacked(to, plan, value)[b] == to[b]
    ensures LeafByte(Leaves(t, 0), b) ==> Unpacked(to, plan, value)[b] == from[b]
  {
    hide PlanOf, Resolved, Leaves, Unpacked, LeafByte;
    DirectPlanExists(t);
    UnpackedAt(to, plan, value, b);
    if LeafByte(Leaves(t, 0), b) {
      ExactlyOnePiece(t, b);
    }
  }

  /** The whole hand-over: the plan exists, both loops succeed, and no leaf byte is lost. */
  method HandOver(source: array<byte>, target: array<byte>, t: AbiType) returns (ok: bool)
    requires SmallStruct(t) && source.Length == target.Length == t.byteLength && source != target
    modifies target
    ensures ok
    ensures source[..] == old(source[..])
    ensures forall b: nat | b < t.byteLength && LeafByte(Leaves(t, 0), b) :: target[b] == source[b]
  {
    hide PlanOf, Resolved, Leaves, Unpacked, LeafByte;
    var plan := DirectPlan(t);
    DirectPlanExists(t);
    assert AllFit(plan.value, t.byteLength);
    var value := Pack(source, t, plan.value);
    ghost var before := target[..];
    ok := Unpack(value.value, target, t, plan.value);
    forall b: nat | b < t.byteLength && LeafByte(Leaves(t, 0), b) ensures target[b] == source[b] {
      TransferRestoresLeaves(t, plan.value, source[..], before, value.value, b);
      assert target[b] == target[..][b] && source[b] == source[..][b];
    }
  }
}
