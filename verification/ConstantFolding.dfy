/**
  The constant evaluator of src/compat/CCompatLoweringOperators.cpp, on 64-bit patterns.
  Unsigned 64-bit arithmetic wraps explicitly; signed intermediates stay exact.
 */
module ConstantFolding {
  import opened Basics
  import opened Powers
  import opened Bits

  const WORD: nat := 64

  datatype ConstantInteger = ConstantInteger(bits: nat, bytes: nat, signed: bool)

  datatype Symbol =
    | Add | Sub | Mul | Div | Rem | AndBits | OrBits | XorBits | Shl | Shr
    | Eq | Ne | Lt | Le | Gt | Ge | LogicalAnd | LogicalOr

  datatype UnaryOp = Plus | Minus | Complement

  datatype Expr =
    | Literal(magnitude: nat)
    | Cast(bytes: nat, signed: bool, operand: Expr)
    | Not(operand: Expr)
    | Unary(op: UnaryOp, operand: Expr)
    | Typed(bytes: nat, signed: bool, symbol: Symbol, left: Expr, right: Expr)
    | Logical(isAnd: bool, left: Expr, right: Expr)
    | Ternary(condition: Expr, thenExpr: Expr, elseExpr: Expr)

  // ----------------------------------------------------- 64-bit arithmetic

  /** static_cast to uint64_t, and the result of unsigned 64-bit arithmetic. */
  function Wrap64(x: int): nat {
    x % Pow2(WORD)
  }

  function ShiftRight(x: nat, count: nat): nat {
    x / Pow2(count)
  }

  predicate Supported(bytes: nat) {
    bytes == 1 || bytes == 2 || bytes == 4 || bytes == 8
  }

  function IntegerMask(bytes: nat): Option<nat> {
    if Supported(bytes) then Some(Pow2(8 * bytes) - 1) else None
  }

  function Minimum(bytes: nat): int
    requires bytes > 0
  {
    0 - Pow2(8 * bytes - 1)
  }

  function Maximum(bytes: nat): nat
    requires bytes > 0
  {
    Pow2(8 * bytes - 1) - 1
  }

  /** C division truncates toward zero. */
  function Quotient(a: int, b: int): int
    requires b != 0
  {
    if a >= 0 then (if b > 0 then a / b else -(a / -b))
    else if b > 0 then -((-a) / b) else (-a) / (-b)
  }

  function Remainder(a: int, b: int): int
    requires b != 0
  {
    a - b * Quotient(a, b)
  }

  // ----------------------------------------------------- the constant record

  function Convert(v: ConstantInteger, bytes: nat, signed: bool): Option<ConstantInteger> {
    match IntegerMask(bytes)
    case None => None
    case Some(mask) => Some(ConstantInteger(Bitwise(And, v.bits, mask), bytes, signed))
  }

  function SignedValue(v: ConstantInteger): Option<int> {
    if !v.signed then None
    else
      match IntegerMask(v.bytes)
      case None => None
      case Some(mask) =>
        var bits := Bitwise(And, v.bits, mask);
        if Bitwise(And, bits, Pow2(8 * v.bytes - 1)) == 0 then Some(bits)
        else if v.bytes == 8 then
          var magnitude := Wrap64(0 - bits);
          if magnitude == Pow2(WORD - 1) then Some(Minimum(8)) else Some(0 - magnitude)
        else Some(bits - Pow2(8 * v.bytes))
  }

  function Promote(v: ConstantInteger): Option<ConstantInteger> {
    if v.bytes >= 4 then Some(v)
    else if !v.signed then Convert(ConstantInteger(v.bits, 8, true), 4, true)
    else
      match SignedValue(v)
      case None => None
      case Some(x) => Convert(ConstantInteger(Wrap64(x), 8, true), 4, true)
  }

  function Truth(b: bool): ConstantInteger {
    ConstantInteger(if b then 1 else 0, 1, false)
  }

  // ------------------------------------------------------- binary operators

  function FoldShift(left: ConstantInteger, right: ConstantInteger, bytes: nat, signed: bool, toLeft: bool): Option<ConstantInteger>
    requires Supported(bytes)
  {
    match Promote(right)
    case None => None
    case Some(promoted) =>
      if promoted.signed && (SignedValue(promoted).None? || SignedValue(promoted).value < 0) then None
      else if IntegerMask(promoted.bytes).None? then None
      else
        var count := Bitwise(And, promoted.bits, IntegerMask(promoted.bytes).value);
        if count >= 8 * bytes then None
        else if toLeft then FoldLeft(left, bytes, signed, count)
        else Some(FoldRight(left, bytes, signed, count))
  }

  function FoldRight(left: ConstantInteger, bytes: nat, signed: bool, count: nat): ConstantInteger
    requires Supported(bytes)
  {
    var mask := IntegerMask(bytes).value;
    var shifted := ShiftRight(left.bits, count);
    var filled :=
      if signed && Bitwise(And, left.bits, Pow2(8 * bytes - 1)) != 0
      then Bitwise(Or, shifted, Bitwise(Xor, mask, ShiftRight(mask, count))) else shifted;
    ConstantInteger(Bitwise(And, filled, mask), bytes, signed)
  }

  function FoldLeft(left: ConstantInteger, bytes: nat, signed: bool, count: nat): Option<ConstantInteger>
    requires Supported(bytes)
  {
    if signed && (SignedValue(left).None? || SignedValue(left).value < 0 ||
        SignedValue(left).value > ShiftRight(Maximum(8), count)) then None
    else Convert(ConstantInteger(Wrap64(left.bits * Pow2(count)), bytes, signed), bytes, signed)
  }

  function Compare(symbol: Symbol, a: int, b: int): bool {
    match symbol
    case Eq => a == b
    case Ne => a != b
    case Lt => a < b
    case Le => a <= b
    case Gt => a > b
    case _ => a >= b
  }

  predicate IsComparison(symbol: Symbol) {
    symbol.Eq? || symbol.Ne? || symbol.Lt? || symbol.Le? || symbol.Gt? || symbol.Ge?
  }

  /** The overflow guards of signed arithmetic. */
  function SignedResult(symbol: Symbol, a: int, b: int, bytes: nat): Option<int>
    requires bytes > 0
  {
    var low, high := Minimum(bytes), Maximum(bytes);
    match symbol
    case Add => if (b > 0 && a > high - b) || (b < 0 && a < low - b) then None else Some(a + b)
    case Sub => if (b > 0 && a < low + b) || (b < 0 && a > high + b) then None else Some(a - b)
    case Mul =>
      if a == 0 || b == 0 then Some(0)
      else if (a == -1 && b == low) || (b == -1 && a == low) then None
      else if
        || (a > 0 && b > 0 && a > Quotient(high, b)) || (a > 0 && b < 0 && b < Quotient(low, a))
        || (a < 0 && b > 0 && a < Quotient(low, b)) || (a < 0 && b < 0 && a < Quotient(high, b)) then None
      else Some(a * b)
    case Div => if b == 0 || (a == low && b == -1) then None else Some(Quotient(a, b))
    case Rem => if b == 0 || (a == low && b == -1) then None else Some(Remainder(a, b))
    case _ => None
  }

  function FoldSigned(symbol: Symbol, left: ConstantInteger, right: ConstantInteger, bytes: nat): Option<ConstantInteger>
    requires Supported(bytes)
  {
    if SignedValue(left).None? || SignedValue(right).None? then None
    else
      var a, b := SignedValue(left).value, SignedValue(right).value;
      if IsComparison(symbol) then Some(Truth(Compare(symbol, a, b)))
      else
        match SignedResult(symbol, a, b, bytes)
        case None => None
        case Some(x) => Convert(ConstantInteger(Wrap64(x), bytes, true), bytes, true)
  }

  function FoldUnsigned(symbol: Symbol, a: nat, b: nat, bytes: nat): Option<ConstantInteger>
    requires Supported(bytes)
  {
    if IsComparison(symbol) then Some(Truth(Compare(symbol, a, b)))
    else if (symbol.Div? || symbol.Rem?) && b == 0 then None
    else
      var bits :=
        match symbol
        case Add => Some(Wrap64(a + b))
        case Sub => Some(Wrap64(a - b))
        case Mul => Some(Wrap64(a * b))
        case Div => Some(if b == 0 then 0 else a / b)
        case Rem => Some(if b == 0 then 0 else a % b)
        case _ => None;
      if bits.None? then None
      else Some(ConstantInteger(Bitwise(And, bits.value, IntegerMask(bytes).value), bytes, false))
  }

  function BitOpOf(symbol: Symbol): Option<BitOp> {
    match symbol
    case AndBits => Some(And)
    case OrBits => Some(Or)
    case XorBits => Some(Xor)
    case _ => None
  }

  function FoldBinary(symbol: Symbol, bytes: nat, signed: bool, left: ConstantInteger, right: ConstantInteger): Option<ConstantInteger> {
    if symbol.LogicalAnd? || symbol.LogicalOr? || !Supported(bytes) then None
    else
      var mask := IntegerMask(bytes).value;
      var l, r := Convert(left, bytes, signed).value, Convert(right, bytes, signed).value;
      if symbol.Shl? || symbol.Shr? then FoldShift(l, right, bytes, signed, symbol.Shl?)
      else
        var a, b := Bitwise(And, l.bits, mask), Bitwise(And, r.bits, mask);
        if BitOpOf(symbol).Some? then Some(ConstantInteger(Bitwise(BitOpOf(symbol).value, a, b), bytes, signed))
        else if signed then FoldSigned(symbol, l, r, bytes)
        else FoldUnsigned(symbol, a, b, bytes)
  }

  // ------------------------------------------------------------ expressions

  predicate IsTrue(v: ConstantInteger) {
    IntegerMask(v.bytes).Some? && Bitwise(And, v.bits, IntegerMask(v.bytes).value) != 0
  }

  function FoldUnary(op: UnaryOp, v: ConstantInteger): Option<ConstantInteger> {
    match Promote(v)
    case None => None
    case Some(p) =>
      if IntegerMask(p.bytes).None? then None
      else
        var mask := IntegerMask(p.bytes).value;
        match op
        case Plus => Some(p)
        case Complement => Some(ConstantInteger(Bitwise(And, Wrap64(-1 - p.bits), mask), p.bytes, p.signed))
        case Minus =>
          if !p.signed then Some(ConstantInteger(Bitwise(And, Wrap64(0 - p.bits), mask), p.bytes, false))
          else if SignedValue(p).None? || SignedValue(p).value == Minimum(8) then None
          else Convert(ConstantInteger(Wrap64(-SignedValue(p).value), p.bytes, true), p.bytes, true)
  }

  function FoldLiteral(magnitude: nat): Option<ConstantInteger> {
    if magnitude >= Pow2(WORD) then None
    else Some(ConstantInteger(magnitude, if magnitude > Maximum(4) then 8 else 4, magnitude <= Maximum(8)))
  }

  function Fold(e: Expr): Option<ConstantInteger> {
    match e
    case Literal(magnitude) => FoldLiteral(magnitude)
    case Cast(bytes, signed, operand) =>
      (match Fold(operand)
       case None => None
       case Some(v) => Convert(v, bytes, signed))
    case Not(operand) =>
      (match Fold(operand)
       case None => None
       case Some(v) => if IntegerMask(v.bytes).None? then None else Some(Truth(!IsTrue(v))))
    case Unary(op, operand) =>
      (match Fold(operand)
       case None => None
       case Some(v) => FoldUnary(op, v))
    case Typed(bytes, signed, symbol, left, right) =>
      if Fold(left).None? || Fold(right).None? then None
      else FoldBinary(symbol, bytes, signed, Fold(left).value, Fold(right).value)
    case Logical(isAnd, left, right) =>
      (match Fold(left)
       case None => None
       case Some(l) =>
         if IntegerMask(l.bytes).None? then None
         else if isAnd != IsTrue(l) then Some(Truth(!isAnd))
         else
           match Fold(right)
           case None => None
           case Some(r) => if IntegerMask(r.bytes).None? then None else Some(Truth(IsTrue(r))))
    case Ternary(condition, thenExpr, elseExpr) =>
      match Fold(condition)
      case None => None
      case Some(c) => if IntegerMask(c.bytes).None? then None else if IsTrue(c) then Fold(thenExpr) else Fold(elseExpr)
  }
}
