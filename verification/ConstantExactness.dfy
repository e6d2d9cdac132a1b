/**
  Whole constant expressions: the folder agrees with exact integer evaluation unless a
  negative value is widened, a signed << overflows its width, or the least value of a
  32-bit type is negated.
 */
module ConstantExactness {
  import opened Basics
  import opened Powers
  import opened Bits
  import opened ConstantFolding
  import opened ConstantMeaning

  // ---------------------------------------------------------- one operation

  /** Unsigned results are exact modulo 2^width. */
  lemma UnsignedExact(symbol: Symbol, a: nat, b: nat, bytes: nat)
    requires Supported(bytes) && a < Pow2(8 * bytes) && b < Pow2(8 * bytes)
    requires symbol.Add? || symbol.Sub? || symbol.Mul? || symbol.Div? || symbol.Rem?
    ensures FoldUnsigned(symbol, a, b, bytes) ==
      if Exact(symbol, a, b).None? then None else Some(Encode(Exact(symbol, a, b).value, bytes, false))
  {
    hide Pow, Pow2, Bitwise, Wrap64;
    MaskWrapped(a + b, bytes);
    MaskWrapped(a - b, bytes);
    MaskWrapped(a * b, bytes);
    if b != 0 {
      AndMask(a / b, 8 * bytes);
      AndMask(a % b, 8 * bytes);
      assert a == b * (a / b) + a % b;
    }
  }

  lemma {:induction false} BitwiseBound(op: BitOp, a: nat, b: nat, w: nat)
    requires a < Pow2(w) && b < Pow2(w)
    ensures Bitwise(op, a, b) < Pow2(w)
    decreases w
  {
    hide Pow, Pow2;
    if w == 0 {
      Pow2Zero();
    } else {
      Pow2Step(w);
      BitwiseBound(op, a / 2, b / 2, w - 1);
    }
  }

  /** Signed >> is floor division by a power of two; so is unsigned >>. */
  lemma RightShiftIsFloor(c: ConstantInteger, count: nat)
    requires Ok(c) && count < 8 * c.bytes
    ensures FoldRight(c, c.bytes, c.signed, count) == Encode(Value(c) / Pow2(count), c.bytes, c.signed)
    ensures InRange(Value(c) / Pow2(count), c.bytes, c.signed)
  {
    hide Pow, Pow2, Bitwise;
    var w := 8 * c.bytes;
    var mask := Pow2(w) - 1;
    Halves(c.bytes);
    EncodeValue(c);
    AndBit(c.bits, w - 1);
    TopBit(c.bits, Pow2(w - 1));
    FloorShrinks(Value(c), Pow2(count));
    var shifted: int := c.bits / Pow2(count);
    FloorShrinks(c.bits, Pow2(count));
    if c.signed && c.bits >= Pow2(w - 1) {
      SignFill(c.bits, w, count);
      ModUnique(Value(c) / Pow2(count), Pow2(w), shifted + Pow2(w) - Pow2(w - count), -1);
      AndMask(shifted + Pow2(w) - Pow2(w - count), w);
      ModUnique(shifted + Pow2(w) - Pow2(w - count), Pow2(w), shifted + Pow2(w) - Pow2(w - count), 0);
    } else {
      AndMask(shifted, w);
    }
  }

  lemma FloorShrinks(x: int, p: int)
    requires p > 0
    ensures x >= 0 ==> 0 <= x / p <= x
    ensures x < 0 ==> x <= x / p < 0
  {
    if x >= 0 {
      QuotientBound(x, p);
    } else {
      NegativeFloor(x, p, x / p, x % p);
    }
  }

  lemma NegativeFloor(x: int, p: int, q: int, r: int)
    requires p > 0 && x < 0 && x == q * p + r && 0 <= r < p
    ensures x <= q < 0
  {
    MulStrict(q, 0, p);
    var k := -(q + 1);
    MulMono(1, p, k);
    assert p * k == -(q * p) - p;
  }

  /** The filled pattern of a negative value shifted right. */
  lemma SignFill(bits: nat, w: nat, count: nat)
    requires Pow2(w) <= 2 * bits < 2 * Pow2(w) && count < w
    ensures var shifted := bits / Pow2(count); var mask := Pow2(w) - 1;
      && (bits - Pow2(w)) / Pow2(count) == shifted - Pow2(w - count)
      && 0 <= shifted < Pow2(w - count) <= Pow2(w)
      && Bitwise(Or, shifted, Bitwise(Xor, mask, ShiftRight(mask, count))) == shifted + Pow2(w) - Pow2(w - count)
  {
    hide Pow, Bitwise;
    Pow2Add(w - count, count);
    hide Pow2;
    var p, q := Pow2(w - count), Pow2(count);
    var shifted := bits / q;
    ShiftedParts(bits, p, q);
    MaskShift(w, count);
    XorMasks(w, w - count);
    assert Pow2(w) - p == p * (q - 1) == (q - 1) * p;
    OrDisjoint(shifted, q - 1, w - count);
  }

  lemma ShiftedParts(bits: nat, p: nat, q: nat)
    requires p > 0 && q > 0 && bits < p * q
    ensures 0 <= bits / q < p && (bits - p * q) / q == bits / q - p
  {
    var s, r := bits / q, bits % q;
    assert bits == s * q + r;
    MulStrict(s, p, q);
    assert (s - p) * q == s * q - p * q;
    DivModUnique(bits - p * q, q, s - p, r);
  }

  /** The one family a signed << gets wrong: past the width but within 64 bits. */
  predicate ShiftOverflows(a: int, count: nat, bytes: nat)
    requires bytes > 0
  {
    Maximum(bytes) < a * Pow2(count) <= Maximum(8)
  }

  /** << is exact, or rejected where the result does not fit, exactly when it does not overflow in between. */
  lemma LeftShiftExact(c: ConstantInteger, count: nat)
    requires Ok(c) && count < 8 * c.bytes
    ensures !c.signed ==> FoldLeft(c, c.bytes, false, count) == Some(Encode(Value(c) * Pow2(count), c.bytes, false))
    ensures c.signed ==>
      (FoldLeft(c, c.bytes, true, count) ==
         (if Value(c) >= 0 && InRange(Value(c) * Pow2(count), c.bytes, true) then Some(Encode(Value(c) * Pow2(count), c.bytes, true)) else None)
       <==> !(Value(c) >= 0 && ShiftOverflows(Value(c), count, c.bytes)))
  {
    hide Pow, Pow2, Bitwise, Wrap64;
    Halves(c.bytes);
    ConvertWrapped(c.bits * Pow2(count), c.bytes, c.signed, c.bytes, c.signed);
    if c.signed {
      SignedValueIsValue(c);
      if Value(c) >= 0 {
        FloorBound(Value(c), Pow2(count), Maximum(8));
        Pow2Mono(8 * c.bytes - 1, WORD - 1);
        assert Value(c) * Pow2(count) >= 0;
      }
    }
  }

  // -------------------------------------------------- reference evaluation

  /** A typed integer value. */
  datatype Number = Number(value: int, bytes: nat, signed: bool)

  function Meaning(c: ConstantInteger): Number
    requires c.bytes > 0
  {
    Number(Value(c), c.bytes, c.signed)
  }

  function Flag(b: bool): Number {
    Number(if b then 1 else 0, 1, false)
  }

  /** Integer promotion. */
  function Promoted(n: Number): Number {
    if n.bytes < 4 then Number(n.value, 4, true) else n
  }

  function RefLiteral(m: nat): Option<Number> {
    if m >= Pow2(WORD) then None
    else Some(Number(m, if m <= Maximum(4) then 4 else 8, m <= Maximum(8)))
  }

  function RefUnary(op: UnaryOp, n: Number): Option<Number>
    requires n.bytes > 0
  {
    var p := Promoted(n);
    match op
    case Plus => Some(p)
    case Complement => Some(Number(Wrapped(-1 - p.value, p.bytes, p.signed), p.bytes, p.signed))
    case Minus =>
      if !p.signed then Some(Number(Wrapped(-p.value, p.bytes, false), p.bytes, false))
      else if InRange(-p.value, p.bytes, true) then Some(Number(-p.value, p.bytes, true)) else None
  }

  function RefShift(symbol: Symbol, a: int, count: int, bytes: nat, signed: bool): Option<Number>
    requires bytes > 0
  {
    if !(0 <= count < 8 * bytes) then None
    else if symbol.Shr? then Some(Number(a / Pow2(count), bytes, signed))
    else if !signed then Some(Number(Wrapped(a * Pow2(count), bytes, false), bytes, false))
    else if a >= 0 && InRange(a * Pow2(count), bytes, true) then Some(Number(a * Pow2(count), bytes, true))
    else None
  }

  datatype Order = Less | Equal | Greater

  function OrderOf(a: int, b: int): Order {
    var difference := a - b;
    if difference == 0 then Equal else if difference > 0 then Greater else Less
  }

  /** The orders for which a relational or equality operator yields 1. */
  predicate Holds(symbol: Symbol, order: Order)
    requires IsComparison(symbol)
  {
    match symbol
    case Eq => order.Equal?
    case Ne => !order.Equal?
    case Lt => order.Less?
    case Le => !order.Greater?
    case Gt => order.Greater?
    case Ge => !order.Less?
  }

  predicate IsBitOperator(symbol: Symbol) {
    symbol.AndBits? || symbol.OrBits? || symbol.XorBits?
  }

  /** Bit by bit: section 6.5.10 to 6.5.12 of C11. */
  predicate BitHolds(symbol: Symbol, a: bool, b: bool)
    requires IsBitOperator(symbol)
  {
    match symbol
    case AndBits => a && b
    case OrBits => a || b
    case XorBits => a != b
  }

  function RefBits(symbol: Symbol, a: nat, b: nat): nat
    requires IsBitOperator(symbol)
    decreases a + b
  {
    if a == 0 && b == 0 then 0
    else (if BitHolds(symbol, a % 2 == 1, b % 2 == 1) then 1 else 0) + 2 * RefBits(symbol, a / 2, b / 2)
  }

  /** It is the number with exactly those bits. */
  lemma BitsExactly(symbol: Symbol, a: nat, b: nat, r: nat)
    requires IsBitOperator(symbol)
    ensures r == RefBits(symbol, a, b) <==> forall k: nat :: BitAt(r, k) == 1 <==> BitHolds(symbol, BitAt(a, k) == 1, BitAt(b, k) == 1)
  {
    hide BitAt;
    RefBitsAre(symbol, a, b);
    forall k: nat
      ensures BitAt(RefBits(symbol, a, b), k) == 1 <==> BitHolds(symbol, BitAt(a, k) == 1, BitAt(b, k) == 1)
    {
      BitwiseMeans(a, b, k);
    }
    if forall k: nat :: BitAt(r, k) == 1 <==> BitHolds(symbol, BitAt(a, k) == 1, BitAt(b, k) == 1) {
      BitsDetermine(r, RefBits(symbol, a, b));
    }
  }

  /** The folder's operation. */
  lemma {:induction false} RefBitsAre(symbol: Symbol, a: nat, b: nat)
    requires IsBitOperator(symbol)
    ensures BitOpOf(symbol).Some? && RefBits(symbol, a, b) == Bitwise(BitOpOf(symbol).value, a, b)
    decreases a + b
  {
    if a + b > 0 {
      RefBitsAre(symbol, a / 2, b / 2);
    }
  }

  /** Both operands already converted to the operation's type. */
  function RefArithmetic(symbol: Symbol, a: int, b: int, bytes: nat, signed: bool): Option<Number>
    requires bytes > 0
  {
    if IsBitOperator(symbol) then
      var bits := RefBits(symbol, Encode(a, bytes, signed).bits, Encode(b, bytes, signed).bits);
      Some(Meaning(ConstantInteger(bits, bytes, signed)))
    else if IsComparison(symbol) then Some(Flag(Holds(symbol, OrderOf(a, b))))
    else if signed then
      if Defined(symbol, a, b, bytes) then Some(Number(if Exact(symbol, a, b).Some? then Exact(symbol, a, b).value else 0, bytes, true)) else None
    else
      match Exact(symbol, a, b)
      case None => None
      case Some(x) => Some(Number(Wrapped(x, bytes, false), bytes, false))
  }

  function RefBinary(symbol: Symbol, bytes: nat, signed: bool, l: Number, r: Number): Option<Number> {
    if symbol.LogicalAnd? || symbol.LogicalOr? || !Supported(bytes) then None
    else if symbol.Shl? || symbol.Shr? then RefShift(symbol, Wrapped(l.value, bytes, signed), r.value, bytes, signed)
    else RefArithmetic(symbol, Wrapped(l.value, bytes, signed), Wrapped(r.value, bytes, signed), bytes, signed)
  }

  function Ref(e: Expr): Option<Number> {
    match e
    case Literal(m) => RefLiteral(m)
    case Cast(bytes, signed, operand) =>
      if Ref(operand).None? || !Supported(bytes) then None
      else Some(Number(Wrapped(Ref(operand).value.value, bytes, signed), bytes, signed))
    case Not(operand) => if Ref(operand).None? then None else Some(Flag(Ref(operand).value.value == 0))
    case Unary(op, operand) =>
      if Ref(operand).None? || Ref(operand).value.bytes == 0 then None else RefUnary(op, Ref(operand).value)
    case Typed(bytes, signed, symbol, left, right) =>
      if Ref(left).None? || Ref(right).None? then None
      else RefBinary(symbol, bytes, signed, Ref(left).value, Ref(right).value)
    case Logical(isAnd, left, right) =>
      if Ref(left).None? then None
      else if isAnd != (Ref(left).value.value != 0) then Some(Flag(!isAnd))
      else if Ref(right).None? then None
      else Some(Flag(Ref(right).value.value != 0))
    case Ternary(condition, thenExpr, elseExpr) =>
      if Ref(condition).None? then None
      else if Ref(condition).value.value != 0 then Ref(thenExpr) else Ref(elseExpr)
  }

  // ----------------------------------------------------------- the provisos

  predicate CleanBinary(symbol: Symbol, bytes: nat, signed: bool, l: Number, r: Number) {
    Supported(bytes) ==>
      && !Widens(l.value, l.bytes, bytes)
      && (!symbol.Shl? && !symbol.Shr? ==> !Widens(r.value, r.bytes, bytes))
      && (symbol.Shl? && signed && 0 <= r.value < 8 * bytes && Wrapped(l.value, bytes, true) >= 0 ==>
            !ShiftOverflows(Wrapped(l.value, bytes, true), r.value, bytes))
  }

  /** Negating the least value of a type narrower than 64 bits. */
  predicate NegatesLeast(n: Number) {
    var p := Promoted(n); p.signed && 0 < p.bytes < 8 && p.value == Minimum(p.bytes)
  }

  /** No evaluated subexpression falls into one of the three families. */
  predicate Clean(e: Expr) {
    match e
    case Literal(_) => true
    case Cast(bytes, _, operand) => Clean(operand) && (Ref(operand).Some? ==> !Widens(Ref(operand).value.value, Ref(operand).value.bytes, bytes))
    case Not(operand) => Clean(operand)
    case Unary(op, operand) => Clean(operand) && (op.Minus? && Ref(operand).Some? ==> !NegatesLeast(Ref(operand).value))
    case Typed(bytes, signed, symbol, left, right) =>
      && Clean(left) && Clean(right)
      && (Ref(left).Some? && Ref(right).Some? ==> CleanBinary(symbol, bytes, signed, Ref(left).value, Ref(right).value))
    case Logical(isAnd, left, right) => Clean(left) && (Ref(left).Some? && isAnd == (Ref(left).value.value != 0) ==> Clean(right))
    case Ternary(condition, thenExpr, elseExpr) =>
      && Clean(condition)
      && (Ref(condition).Some? ==> if Ref(condition).value.value != 0 then Clean(thenExpr) else Clean(elseExpr))
  }
}
