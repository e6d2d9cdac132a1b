/** Constant folding agrees with reference evaluation on every clean expression. */
module ConstantTheorem {
  import opened Basics
  import opened Powers
  import opened Bits
  import opened ConstantFolding
  import opened ConstantMeaning
  import opened ConstantExactness

  /** Both reject, or the pattern is well formed and stands for the same typed value. */
  ghost predicate Agree(c: Option<ConstantInteger>, n: Option<Number>) {
    && (c.Some? <==> n.Some?)
    && (c.Some? ==> Ok(c.value) && Meaning(c.value) == n.value)
  }

  lemma TruthAgrees(b: bool)
    ensures Ok(Truth(b)) && Meaning(Truth(b)) == Flag(b)
  {
    Pow2Mono(1, 8);
    Pow2Small();
  }

  lemma TrueIsNonzero(c: ConstantInteger)
    requires Ok(c)
    ensures IntegerMask(c.bytes).Some? && (IsTrue(c) <==> Value(c) != 0)
  {
    hide Pow, Pow2, Bitwise;
    ConvertToItself(c);
    Halves(c.bytes);
  }

  lemma LiteralAgrees(m: nat)
    ensures Agree(FoldLiteral(m), RefLiteral(m))
  {
    hide Pow, Pow2;
    Halves(4);
    Halves(8);
  }

  lemma ConvertAgrees(c: ConstantInteger, bytes: nat, signed: bool)
    requires Ok(c) && Supported(bytes) && !Widens(Value(c), c.bytes, bytes)
    ensures Convert(c, bytes, signed).Some? && Ok(Convert(c, bytes, signed).value)
    ensures Meaning(Convert(c, bytes, signed).value) == Number(Wrapped(Value(c), bytes, signed), bytes, signed)
  {
    hide Pow, Pow2, Bitwise;
    ConvertExact(c, bytes, signed);
  }

  // ----------------------------------------------------------------- unary

  lemma AddMultiple(x: int, p: int)
    requires p > 0
    ensures (x + p) % p == x % p
  {
    var q, r := x / p, x % p;
    assert x == q * p + r;
    assert (q + 1) * p == q * p + p;
    ModUnique(x + p, p, r, q + 1);
  }

  /** A pattern and its value are congruent, also after negation. */
  lemma NegatedPattern(c: ConstantInteger, k: int)
    requires Ok(c)
    ensures Encode(k - c.bits, c.bytes, c.signed) == Encode(k - Value(c), c.bytes, c.signed)
  {
    hide Pow, Pow2;
    if Value(c) != c.bits {
      AddMultiple(k - c.bits, Pow2(8 * c.bytes));
      assert k - Value(c) == k - c.bits + Pow2(8 * c.bytes);
    }
  }

  lemma PlusAndComplementAgree(op: UnaryOp, c: ConstantInteger)
    requires Ok(c) && !op.Minus?
    ensures Agree(FoldUnary(op, c), RefUnary(op, Meaning(c)))
  {
    hide Pow, Pow2, Bitwise, Wrap64, Promote;
    PromoteExact(c);
    var p := Promote(c).value;
    MaskWrapped(-1 - p.bits, p.bytes);
    NegatedPattern(p, -1);
    EncodeIsOk(-1 - Value(p), p.bytes, p.signed);
  }

  lemma NegateSignedExact(c: ConstantInteger, p: ConstantInteger)
    requires Ok(c) && Promote(c) == Some(p) && Ok(p) && Meaning(p) == Promoted(Meaning(c)) && p.signed
    ensures Agree(FoldUnary(Minus, c), RefUnary(Minus, Meaning(c))) <==> !NegatesLeast(Meaning(c))
  {
    hide Pow, Pow2, Bitwise, Wrap64, Promote, SignedValue, Convert;
    EncodeValue(p);
    SignedValueIsValue(p);
    Halves(p.bytes);
    ConvertWrapped(-Value(p), p.bytes, true, p.bytes, true);
    LeastIsLeast(p.bytes);
    if InRange(-Value(p), p.bytes, true) {
      ValueEncode(-Value(p), p.bytes, true);
    }
  }

  lemma NegateUnsignedExact(c: ConstantInteger, p: ConstantInteger)
    requires Ok(c) && Promote(c) == Some(p) && Ok(p) && Meaning(p) == Promoted(Meaning(c)) && !p.signed
    ensures Agree(FoldUnary(Minus, c), RefUnary(Minus, Meaning(c)))
  {
    hide Pow, Pow2, Bitwise, Wrap64, Promote, SignedValue, Convert;
    MaskWrapped(0 - p.bits, p.bytes);
    NegatedPattern(p, 0);
    EncodeIsOk(0 - Value(p), p.bytes, false);
  }

  /** Unary minus is exact except on the least value of a type narrower than 64 bits. */
  lemma NegateExact(c: ConstantInteger)
    requires Ok(c)
    ensures Agree(FoldUnary(Minus, c), RefUnary(Minus, Meaning(c))) <==> !NegatesLeast(Meaning(c))
  {
    hide Pow, Pow2, Promote, Agree, FoldUnary, RefUnary;
    PromoteExact(c);
    var p := Promote(c).value;
    if p.signed {
      NegateSignedExact(c, p);
    } else {
      NegateUnsignedExact(c, p);
    }
  }

  lemma LeastIsLeast(bytes: nat)
    requires Supported(bytes)
    ensures Minimum(8) <= Minimum(bytes) && (bytes < 8 ==> Minimum(8) < Minimum(bytes))
  {
    hide Pow, Pow2;
    if bytes < 8 {
      WiderIsTwice(bytes, 8);
    }
    Halves(bytes);
    Halves(8);
  }

  // ---------------------------------------------------------------- binary

  lemma ShiftAgrees(symbol: Symbol, l: ConstantInteger, right: ConstantInteger)
    requires Ok(l) && Ok(right) && (symbol.Shl? || symbol.Shr?)
    requires symbol.Shl? && l.signed && 0 <= Value(right) < 8 * l.bytes && Value(l) >= 0 ==>
      !ShiftOverflows(Value(l), Value(right), l.bytes)
    ensures Agree(FoldShift(l, right, l.bytes, l.signed, symbol.Shl?), RefShift(symbol, Value(l), Value(right), l.bytes, l.signed))
  {
    hide Pow, Pow2, Bitwise, Wrap64, Promote, SignedValue, FoldLeft, FoldRight, InRange;
    PromoteExact(right);
    var p := Promote(right).value;
    ConvertToItself(p);
    if p.signed {
      SignedValueIsValue(p);
    }
    CountIsValue(p);
    var count := Value(right);
    if 0 <= count < 8 * l.bytes {
      if symbol.Shr? {
        RightShiftIsFloor(l, count);
        ValueEncode(Value(l) / Pow2(count), l.bytes, l.signed);
      } else {
        LeftShiftExact(l, count);
        EncodeIsOk(Value(l) * Pow2(count), l.bytes, l.signed);
        if InRange(Value(l) * Pow2(count), l.bytes, l.signed) {
          ValueEncode(Value(l) * Pow2(count), l.bytes, l.signed);
        }
      }
    }
  }

  lemma CountIsValue(c: ConstantInteger)
    requires Ok(c)
    ensures Value(c) >= 0 ==> c.bits == Value(c)
    ensures !c.signed ==> c.bits == Value(c)
  {
    hide Pow, Pow2;
    Halves(c.bytes);
  }

  /** The operators on two operands of the operation's own type. */
  function FoldSame(symbol: Symbol, l: ConstantInteger, r: ConstantInteger): Option<ConstantInteger>
    requires Supported(l.bytes)
  {
    if BitOpOf(symbol).Some? then Some(ConstantInteger(Bitwise(BitOpOf(symbol).value, l.bits, r.bits), l.bytes, l.signed))
    else if l.signed then FoldSigned(symbol, l, r, l.bytes)
    else FoldUnsigned(symbol, l.bits, r.bits, l.bytes)
  }

  predicate IsArithmetic(symbol: Symbol) {
    symbol.Add? || symbol.Sub? || symbol.Mul? || symbol.Div? || symbol.Rem?
  }

  lemma SignedAgrees(symbol: Symbol, l: ConstantInteger, r: ConstantInteger)
    requires Ok(l) && Ok(r) && l.bytes == r.bytes && l.signed && r.signed && IsArithmetic(symbol)
    ensures Agree(FoldSigned(symbol, l, r, l.bytes), RefArithmetic(symbol, Value(l), Value(r), l.bytes, true))
  {
    hide Pow, Pow2, Bitwise, Wrap64, SignedValue, SignedResult, Exact, Defined, InRange, Convert;
    SignedValueIsValue(l);
    SignedValueIsValue(r);
    EncodeValue(l);
    EncodeValue(r);
    SignedGuardsExact(symbol, Value(l), Value(r), l.bytes);
    DefinedHasExact(symbol, Value(l), Value(r), l.bytes);
    if Defined(symbol, Value(l), Value(r), l.bytes) {
      var x := Exact(symbol, Value(l), Value(r)).value;
      ConvertWrapped(x, l.bytes, true, l.bytes, true);
      ValueEncode(x, l.bytes, true);
    }
  }

  lemma DefinedHasExact(symbol: Symbol, a: int, b: int, bytes: nat)
    requires bytes > 0
    ensures Defined(symbol, a, b, bytes) ==> Exact(symbol, a, b).Some?
  {
  }

  lemma CompareHolds(symbol: Symbol, a: int, b: int)
    requires IsComparison(symbol)
    ensures Compare(symbol, a, b) == Holds(symbol, OrderOf(a, b))
  {
  }

  lemma SameAgrees(symbol: Symbol, l: ConstantInteger, r: ConstantInteger)
    requires Ok(l) && Ok(r) && l.bytes == r.bytes && l.signed == r.signed
    requires !symbol.Shl? && !symbol.Shr? && !symbol.LogicalAnd? && !symbol.LogicalOr?
    ensures Agree(FoldSame(symbol, l, r), RefArithmetic(symbol, Value(l), Value(r), l.bytes, l.signed))
  {
    hide Pow, Pow2, Bitwise, Wrap64, SignedValue, Exact, Defined;
    EncodeValue(l);
    EncodeValue(r);
    CountIsValue(l);
    CountIsValue(r);
    if IsBitOperator(symbol) {
      RefBitsAre(symbol, l.bits, r.bits);
      BitwiseBound(BitOpOf(symbol).value, l.bits, r.bits, 8 * l.bytes);
    } else if IsComparison(symbol) {
      TruthAgrees(Compare(symbol, Value(l), Value(r)));
      CompareHolds(symbol, Value(l), Value(r));
      if l.signed {
        SignedValueIsValue(l);
        SignedValueIsValue(r);
      }
    } else if l.signed {
      SignedAgrees(symbol, l, r);
    } else {
      UnsignedExact(symbol, l.bits, r.bits, l.bytes);
      if Exact(symbol, l.bits, r.bits).Some? {
        EncodeIsOk(Exact(symbol, l.bits, r.bits).value, l.bytes, false);
      }
    }
  }

  lemma BinaryAgrees(symbol: Symbol, bytes: nat, signed: bool, left: ConstantInteger, right: ConstantInteger)
    requires Ok(left) && Ok(right) && CleanBinary(symbol, bytes, signed, Meaning(left), Meaning(right))
    ensures Agree(FoldBinary(symbol, bytes, signed, left, right), RefBinary(symbol, bytes, signed, Meaning(left), Meaning(right)))
  {
    hide Pow, Pow2, Bitwise, Value, Wrapped, FoldShift, RefShift, RefArithmetic, FoldSigned, FoldUnsigned, ShiftOverflows, Convert;
    if Supported(bytes) && !symbol.LogicalAnd? && !symbol.LogicalOr? {
      ConvertAgrees(left, bytes, signed);
      var l := Convert(left, bytes, signed).value;
      if symbol.Shl? || symbol.Shr? {
        ShiftAgrees(symbol, l, right);
      } else {
        ConvertAgrees(right, bytes, signed);
        var r := Convert(right, bytes, signed).value;
        ConvertToItself(l);
        ConvertToItself(r);
        SameAgrees(symbol, l, r);
      }
    }
  }

  // ----------------------------------------------------------- the theorem

  /** Folding is exact on every expression in which none of the three families occurs. */
  lemma {:induction false} FoldIsExact(e: Expr)
    requires Clean(e)
    ensures Agree(Fold(e), Ref(e))
    decreases e
  {
    hide Pow, Pow2, Bitwise, Value, Wrapped, FoldBinary, RefBinary, FoldUnary, RefUnary, FoldLiteral, RefLiteral, Convert,
      CleanBinary, NegatesLeast, IsTrue, Truth, IntegerMask, Widens;
    match e
    case Literal(m) => LiteralAgrees(m);
    case Cast(bytes, signed, operand) =>
      FoldIsExact(operand);
      if Fold(operand).Some? && Supported(bytes) {
        ConvertAgrees(Fold(operand).value, bytes, signed);
      } else if Fold(operand).Some? {
        ConvertNeedsWidth(Fold(operand).value, bytes, signed);
      }
    case Not(operand) =>
      FoldIsExact(operand);
      if Fold(operand).Some? {
        TrueIsNonzero(Fold(operand).value);
        TruthAgrees(Value(Fold(operand).value) == 0);
      }
    case Unary(op, operand) =>
      FoldIsExact(operand);
      if Fold(operand).Some? {
        UnaryAgrees(op, Fold(operand).value);
      }
    case Typed(bytes, signed, symbol, left, right) =>
      FoldIsExact(left);
      FoldIsExact(right);
      if Fold(left).Some? && Fold(right).Some? {
        BinaryAgrees(symbol, bytes, signed, Fold(left).value, Fold(right).value);
      }
    case Logical(isAnd, left, right) =>
      FoldIsExact(left);
      if Fold(left).Some? {
        TrueIsNonzero(Fold(left).value);
        TruthAgrees(!isAnd);
        if isAnd == (Ref(left).value.value != 0) {
          FoldIsExact(right);
          if Fold(right).Some? {
            TrueIsNonzero(Fold(right).value);
            TruthAgrees(Value(Fold(right).value) != 0);
          }
        }
      }
    case Ternary(condition, thenExpr, elseExpr) =>
      FoldIsExact(condition);
      if Fold(condition).Some? {
        TrueIsNonzero(Fold(condition).value);
        if Ref(condition).value.value != 0 {
          FoldIsExact(thenExpr);
        } else {
          FoldIsExact(elseExpr);
        }
      }
  }

  lemma ConvertNeedsWidth(c: ConstantInteger, bytes: nat, signed: bool)
    requires !Supported(bytes)
    ensures Convert(c, bytes, signed).None?
  {
  }

  lemma UnaryAgrees(op: UnaryOp, c: ConstantInteger)
    requires Ok(c) && (op.Minus? ==> !NegatesLeast(Meaning(c)))
    ensures Agree(FoldUnary(op, c), RefUnary(op, Meaning(c)))
  {
    hide FoldUnary, RefUnary, Value, NegatesLeast;
    if op.Minus? {
      NegateExact(c);
    } else {
      PlusAndComplementAgree(op, c);
    }
  }

  // --------------------------------------------------------------- sharpness

  /** On a clean operand, a cast is folded wrongly exactly when it widens a negative value. */
  lemma CastSharp(bytes: nat, signed: bool, operand: Expr)
    requires Clean(operand)
    ensures var e, n := Cast(bytes, signed, operand), Ref(operand);
      Agree(Fold(e), Ref(e)) <==> !(n.Some? && Supported(bytes) && Widens(n.value.value, n.value.bytes, bytes))
  {
    hide Pow, Pow2, Bitwise, Value, Wrapped, Clean;
    FoldIsExact(operand);
    if Fold(operand).Some? && Supported(bytes) {
      ConvertExact(Fold(operand).value, bytes, signed);
    } else if Fold(operand).Some? {
      ConvertNeedsWidth(Fold(operand).value, bytes, signed);
    }
  }

  /** On a clean operand, unary minus is folded wrongly exactly on the least value of a narrow type. */
  lemma NegateSharp(operand: Expr)
    requires Clean(operand)
    ensures var e := Unary(Minus, operand);
      Agree(Fold(e), Ref(e)) <==> !(Ref(operand).Some? && NegatesLeast(Ref(operand).value))
  {
    hide Pow, Pow2, Value, FoldUnary, RefUnary, Clean, NegatesLeast;
    FoldIsExact(operand);
    if Fold(operand).Some? {
      NegateExact(Fold(operand).value);
    }
  }

  /** On clean operands, a signed << is folded wrongly exactly when it overflows its width within 64 bits. */
  lemma ShiftSharp(bytes: nat, left: Expr, right: Expr)
    requires Clean(left) && Clean(right) && Supported(bytes) && Ref(left).Some? && Ref(right).Some?
    requires !Widens(Ref(left).value.value, Ref(left).value.bytes, bytes)
    ensures var e, a, count := Typed(bytes, true, Shl, left, right), Wrapped(Ref(left).value.value, bytes, true), Ref(right).value.value;
      Agree(Fold(e), Ref(e)) <==> !(0 <= count < 8 * bytes && a >= 0 && ShiftOverflows(a, count, bytes))
  {
    hide Pow, Pow2, Bitwise, Value, Wrapped, Clean, Convert, FoldShift, RefShift, ShiftOverflows;
    FoldIsExact(left);
    FoldIsExact(right);
    ConvertAgrees(Fold(left).value, bytes, true);
    ShiftExactly(Convert(Fold(left).value, bytes, true).value, Fold(right).value);
  }

  lemma ShiftExactly(l: ConstantInteger, right: ConstantInteger)
    requires Ok(l) && Ok(right) && l.signed
    ensures Agree(FoldShift(l, right, l.bytes, true, true), RefShift(Shl, Value(l), Value(right), l.bytes, true)) <==>
      !(0 <= Value(right) < 8 * l.bytes && Value(l) >= 0 && ShiftOverflows(Value(l), Value(right), l.bytes))
  {
    hide Pow, Pow2, Bitwise, Wrap64, Promote, SignedValue, FoldLeft, InRange;
    PromoteExact(right);
    var p := Promote(right).value;
    ConvertToItself(p);
    if p.signed {
      SignedValueIsValue(p);
    }
    CountIsValue(p);
    var count := Value(right);
    if 0 <= count < 8 * l.bytes {
      LeftShiftExact(l, count);
      var x := Value(l) * Pow2(count);
      EncodeIsOk(x, l.bytes, true);
      if InRange(x, l.bytes, true) {
        ValueEncode(x, l.bytes, true);
      }
    }
  }

  // -------------------------------------------------------- counterexamples

  /** (long)(-m) keeps the 32-bit pattern, for every int literal m > 0. */
  lemma WideningIsWrong(m: nat)
    requires 0 < m <= Maximum(4)
    ensures var e := Cast(8, true, Unary(Minus, Literal(m))); !Agree(Fold(e), Ref(e))
  {
    hide Pow, Pow2, Bitwise, Value, FoldUnary, RefUnary, Convert, FoldLiteral, RefLiteral;
    var inner := Unary(Minus, Literal(m));
    FoldIsExact(Literal(m));
    LiteralIsInt(m);
    UnaryAgrees(Minus, Fold(Literal(m)).value);
    NegatedLiteral(m);
    ConvertExact(Fold(inner).value, 8, true);
  }

  lemma LiteralIsInt(m: nat)
    requires 0 < m <= Maximum(4)
    ensures FoldLiteral(m).Some? && RefLiteral(m) == Some(Number(m, 4, true)) && !NegatesLeast(Number(m, 4, true))
  {
    hide Pow, Pow2;
    LeastIsLeast(4);
    Halves(4);
    Halves(8);
  }

  lemma NegatedLiteral(m: nat)
    requires 0 < m <= Maximum(4)
    ensures RefUnary(Minus, Number(m, 4, true)) == Some(Number(0 - m, 4, true))
  {
    hide Pow, Pow2;
    Halves(4);
  }

  /** (int)0x80000000. */
  function LeastInt(): Expr {
    Cast(4, true, Literal(Pow2(31)))
  }

  /** -(int)0x80000000 folds to (int)0x80000000 instead of being rejected. */
  lemma NegatingLeastIsWrong()
    ensures var e := Unary(Minus, LeastInt());
      Fold(e).Some? && Fold(e) == Fold(LeastInt()) && Value(Fold(e).value) == Minimum(4) && Ref(e).None?
  {
    hide Pow, Pow2, Bitwise, Wrap64, SignedValue, Convert, FoldUnary, RefUnary;
    LeastIntFolds();
    var c := Fold(LeastInt()).value;
    FoldIsExact(LeastInt());
    LeastIntIsClean();
    NegatedLeast(c);
  }

  lemma LeastIntIsClean()
    ensures Clean(LeastInt())
  {
    hide Pow, Pow2;
    Halves(4);
    Halves(8);
    WiderIsTwice(4, 8);
  }

  lemma LeastIntFolds()
    ensures Clean(LeastInt())
    ensures Fold(LeastInt()) == Some(ConstantInteger(Pow2(31), 4, true)) && Ok(Fold(LeastInt()).value)
    ensures Value(Fold(LeastInt()).value) == Minimum(4)
  {
    hide Pow, Pow2, Bitwise;
    LeastIntIsClean();
    Halves(4);
    Halves(8);
    WiderIsTwice(4, 8);
    assert Fold(Literal(Pow2(31))) == Some(ConstantInteger(Pow2(31), 8, true));
    ConvertIsEncode(ConstantInteger(Pow2(31), 8, true), 4, true);
    ModUnique(Pow2(31), Pow2(32), Pow2(31), 0);
  }

  lemma NegatedLeast(c: ConstantInteger)
    requires Ok(c) && c.bytes == 4 && c.signed && Value(c) == Minimum(4)
    ensures RefUnary(Minus, Meaning(c)).None? && FoldUnary(Minus, c) == Some(c)
  {
    hide Pow, Pow2, Bitwise, Wrap64, SignedValue, Convert;
    Halves(4);
    LeastIsLeast(4);
    SignedValueIsValue(c);
    ConvertWrapped(-Value(c), 4, true, 4, true);
    EncodeValue(c);
    AddMultiple(Value(c), Pow2(8 * 4));
  }

  /** m << n on int literals, past the width but within 64 bits, folds to a wrapped value. */
  lemma OverflowingShiftIsWrong(m: nat, n: nat)
    requires m <= Maximum(4) && n < 32 && ShiftOverflows(m, n, 4)
    ensures var e := Typed(4, true, Shl, Literal(m), Literal(n));
      Fold(e).Some? && Ref(e).None? && !Agree(Fold(e), Ref(e))
  {
    hide Pow, Pow2, Bitwise, Wrap64, SignedValue, FoldLeft, Promote, Convert;
    var l, r := ConstantInteger(m, 4, true), ConstantInteger(n, 4, true);
    SmallLiteral(m);
    SmallLiteral(n);
    ConvertToItself(l);
    PromoteExact(r);
    ConvertToItself(Promote(r).value);
    SignedValueIsValue(Promote(r).value);
    CountIsValue(Promote(r).value);
    LeftShiftExact(l, n);
    ValueEncode(m, 4, true);
  }

  lemma SmallLiteral(m: nat)
    requires m <= Maximum(4) || m < 32
    ensures Fold(Literal(m)) == Some(ConstantInteger(m, 4, true)) && Ref(Literal(m)) == Some(Number(m, 4, true))
    ensures Ok(ConstantInteger(m, 4, true)) && Value(ConstantInteger(m, 4, true)) == m && InRange(m, 4, true)
  {
    hide Pow;
    Pow2Mono(5, 31);
    ThirtyTwo();
    hide Pow2;
    Halves(4);
    Halves(8);
    WiderIsTwice(4, 8);
  }

  lemma ThirtyTwo()
    ensures Pow2(5) == 32
  {
  }

  /** 1 << 31. */
  lemma ShiftIntoTheSignIsWrong()
    ensures var e := Typed(4, true, Shl, Literal(1), Literal(31)); !Agree(Fold(e), Ref(e))
  {
    hide Pow, Pow2, Fold, Ref, Agree;
    Halves(4);
    Halves(8);
    WiderIsTwice(4, 8);
    OverflowingShiftIsWrong(1, 31);
  }

  function MinusOne(): Expr {
    Unary(Minus, Literal(1))
  }

  /** (int)0x80000000 % -1: the remainder 0 is representable, yet the fold is refused. */
  lemma LeastRemainderIsRefused()
    ensures var a, b := Fold(LeastInt()), Fold(MinusOne());
      && a.Some? && b.Some? && Value(a.value) == Minimum(4) && Value(b.value) == -1 && Remainder(Minimum(4), -1) == 0
    ensures Fold(Typed(4, true, Rem, LeastInt(), MinusOne())).None?
  {
    hide Pow, Pow2, Bitwise, Wrap64, SignedValue, Convert, FoldUnary, RefUnary;
    LeastIntFolds();
    FoldIsExact(Literal(1));
    Halves(4);
    LiteralIsInt(1);
    UnaryAgrees(Minus, Fold(Literal(1)).value);
    NegatedLiteral(1);
    ConvertToItself(Fold(LeastInt()).value);
    ConvertToItself(Fold(MinusOne()).value);
    SignedValueIsValue(Fold(LeastInt()).value);
    SignedValueIsValue(Fold(MinusOne()).value);
  }
}
