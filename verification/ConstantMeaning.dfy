/**
  What folded constants mean: two's complement values, and when each folding step equals
  exact integer arithmetic at the operation's width.
 */
module ConstantMeaning {
  import opened Basics
  import opened Powers
  import opened Bits
  import opened ConstantFolding

  predicate Ok(c: ConstantInteger) {
    Supported(c.bytes) && c.bits < Pow2(8 * c.bytes)
  }

  /** The integer a constant stands for. */
  function Value(c: ConstantInteger): int
    requires c.bytes > 0
  {
    if c.signed && c.bits >= Pow2(8 * c.bytes - 1) then c.bits - Pow2(8 * c.bytes) else c.bits
  }

  predicate InRange(x: int, bytes: nat, signed: bool)
    requires bytes > 0
  {
    if signed then Minimum(bytes) <= x <= Maximum(bytes) else 0 <= x < Pow2(8 * bytes)
  }

  function Encode(x: int, bytes: nat, signed: bool): ConstantInteger {
    ConstantInteger(x % Pow2(8 * bytes), bytes, signed)
  }

  /** Conversion in the sense of C: the congruent value of the target type. */
  function Wrapped(x: int, bytes: nat, signed: bool): int
    requires bytes > 0
  {
    Value(Encode(x, bytes, signed))
  }

  // ------------------------------------------------------------- encodings

  lemma Halves(bytes: nat)
    requires bytes > 0
    ensures Pow2(8 * bytes) == 2 * Pow2(8 * bytes - 1) && Minimum(bytes) == 0 - Pow2(8 * bytes - 1)
    ensures Pow2(8 * bytes - 1) >= 2
  {
    Pow2Mono(1, 8 * bytes - 1);
    Pow2Small();
    hide Pow;
    Pow2Step(8 * bytes);
  }

  lemma EncodeValue(c: ConstantInteger)
    requires Ok(c)
    ensures Encode(Value(c), c.bytes, c.signed) == c && InRange(Value(c), c.bytes, c.signed)
  {
    hide Pow, Pow2;
    Halves(c.bytes);
    var p: int := Pow2(8 * c.bytes);
    assert (-1) * p == 0 - p;
    ModUnique(Value(c), p, c.bits, if Value(c) == c.bits then 0 else -1);
  }

  lemma EncodeIsOk(x: int, bytes: nat, signed: bool)
    requires Supported(bytes)
    ensures Ok(Encode(x, bytes, signed))
  {
    hide Pow;
  }

  lemma ValueEncode(x: int, bytes: nat, signed: bool)
    requires Supported(bytes) && InRange(x, bytes, signed)
    ensures Ok(Encode(x, bytes, signed)) && Wrapped(x, bytes, signed) == x
  {
    hide Pow, Pow2;
    Halves(bytes);
    var p: int := Pow2(8 * bytes);
    assert 1 * p == p && (-1) * p == 0 - p;
    if x >= 0 {
      ModUnique(x, p, x, 0);
    } else {
      ModUnique(x, p, x + p, -1);
    }
  }

  lemma WordIsMultiple(bytes: nat)
    requires Supported(bytes)
    ensures Pow2(WORD) == Pow2(8 * bytes) * Pow2(WORD - 8 * bytes)
  {
    hide Pow;
    Pow2Add(8 * bytes, WORD - 8 * bytes);
  }

  /** Masking a wrapped 64-bit result leaves the result modulo the width. */
  lemma MaskWrapped(x: int, bytes: nat)
    requires Supported(bytes)
    ensures Bitwise(And, Wrap64(x), Pow2(8 * bytes) - 1) == x % Pow2(8 * bytes)
  {
    hide Pow, Pow2;
    WordIsMultiple(bytes);
    AndMask(Wrap64(x), 8 * bytes);
    ModOfMod(x, Pow2(8 * bytes), Pow2(WORD - 8 * bytes));
  }

  lemma ConvertWrapped(x: int, bytes: nat, signed: bool, from: nat, s: bool)
    requires Supported(bytes)
    ensures Convert(ConstantInteger(Wrap64(x), from, s), bytes, signed) == Some(Encode(x, bytes, signed))
  {
    hide Pow, Pow2, Wrap64, Bitwise;
    MaskWrapped(x, bytes);
  }

  lemma ConvertIsEncode(c: ConstantInteger, bytes: nat, signed: bool)
    requires Supported(bytes)
    ensures Convert(c, bytes, signed) == Some(Encode(c.bits, bytes, signed))
  {
    hide Pow, Pow2, Bitwise;
    AndMask(c.bits, 8 * bytes);
  }

  lemma ConvertToItself(c: ConstantInteger)
    requires Ok(c)
    ensures Convert(c, c.bytes, c.signed) == Some(c) && Bitwise(And, c.bits, Pow2(8 * c.bytes) - 1) == c.bits
  {
    hide Pow, Pow2, Bitwise;
    AndMask(c.bits, 8 * c.bytes);
    ModUnique(c.bits, Pow2(8 * c.bytes), c.bits, 0);
  }

  // ------------------------------------------------------------ conversions

  /** A negative value converted to a wider type: the one case masking gets wrong. */
  predicate Widens(x: int, from: nat, to: nat) {
    x < 0 && to > from
  }

  lemma WidthMultiple(small: nat, large: nat)
    requires 0 < small <= large
    ensures Pow2(8 * large) == Pow2(8 * small) * Pow2(8 * (large - small))
  {
    hide Pow;
    Pow2Add(8 * small, 8 * (large - small));
    assert 8 * small + 8 * (large - small) == 8 * large;
  }

  lemma WiderIsTwice(small: nat, large: nat)
    requires 0 < small < large
    ensures 2 * Pow2(8 * small) <= Pow2(8 * large)
  {
    hide Pow;
    Pow2Mono(8 * small + 1, 8 * large);
    Pow2Step(8 * small + 1);
  }

  /** convertConstantInteger is C conversion exactly when no negative value is widened. */
  lemma ConvertExact(c: ConstantInteger, bytes: nat, signed: bool)
    requires Ok(c) && Supported(bytes)
    ensures Convert(c, bytes, signed).Some? && Ok(Convert(c, bytes, signed).value)
    ensures Value(Convert(c, bytes, signed).value) == Wrapped(Value(c), bytes, signed) <==> !Widens(Value(c), c.bytes, bytes)
  {
    hide Pow, Pow2, Bitwise;
    ConvertIsEncode(c, bytes, signed);
    EncodeIsOk(c.bits, bytes, signed);
    if Value(c) < 0 {
      NegativeModulo(c.bits, c.bytes, bytes);
      if bytes > c.bytes {
        EncodingsDiffer(c.bits, Value(c), bytes, signed);
      }
    }
  }

  lemma NegativeModulo(bits: nat, from: nat, to: nat)
    requires from > 0 && to > 0 && bits < Pow2(8 * from)
    ensures (bits - Pow2(8 * from)) % Pow2(8 * to) == bits % Pow2(8 * to) <==> to <= from
  {
    hide Pow, Pow2;
    var p: int, target: int := Pow2(8 * from), Pow2(8 * to);
    if to <= from {
      WidthMultiple(to, from);
      SameModulo(bits, target, Pow2(8 * (from - to)));
    } else {
      WiderIsTwice(from, to);
      assert (-1) * target == 0 - target;
      ModUnique(bits, target, bits, 0);
      ModUnique(bits - p, target, bits - p + target, -1);
    }
  }

  lemma SameModulo(x: int, p: nat, k: nat)
    requires p > 0
    ensures (x - p * k) % p == x % p
  {
    var q, r := x / p, x % p;
    assert x == q * p + r;
    assert (q - k) * p == q * p - k * p;
    assert k * p == p * k;
    ModUnique(x - p * k, p, r, q - k);
  }

  lemma EncodingsDiffer(x: int, y: int, bytes: nat, signed: bool)
    requires Supported(bytes) && x % Pow2(8 * bytes) != y % Pow2(8 * bytes)
    ensures Wrapped(x, bytes, signed) != Wrapped(y, bytes, signed)
  {
    hide Pow, Pow2;
    EncodeIsOk(x, bytes, signed);
    EncodeIsOk(y, bytes, signed);
    EncodeValue(Encode(x, bytes, signed));
    EncodeValue(Encode(y, bytes, signed));
  }

  /** signedConstantValue reads two's complement. */
  lemma SignedValueIsValue(c: ConstantInteger)
    requires Ok(c) && c.signed
    ensures SignedValue(c) == Some(Value(c))
  {
    hide Pow, Pow2, Bitwise, Wrap64;
    var w := 8 * c.bytes;
    Halves(c.bytes);
    ConvertToItself(c);
    AndBit(c.bits, w - 1);
    TopBit(c.bits, Pow2(w - 1));
    if c.bytes == 8 && Value(c) < 0 {
      NegatedWord(c.bits);
    }
  }

  lemma NegatedWord(bits: nat)
    requires 0 < bits < Pow2(WORD)
    ensures Wrap64(0 - bits) == Pow2(WORD) - bits
  {
    hide Pow, Pow2;
    assert (-1) * Pow2(WORD) == 0 - Pow2(WORD);
    ModUnique(0 - bits, Pow2(WORD), Pow2(WORD) - bits, -1);
  }

  lemma TopBit(x: nat, half: nat)
    requires half > 0 && x < 2 * half
    ensures (x / half) % 2 == if x >= half then 1 else 0
    ensures 0 * half == 0 && 1 * half == half
  {
    if x >= half {
      DivModUnique(x, half, 1, x - half);
    } else {
      DivModUnique(x, half, 0, x);
    }
  }

  /** Promotion preserves values. */
  lemma PromoteExact(c: ConstantInteger)
    requires Ok(c)
    ensures Promote(c).Some? && Ok(Promote(c).value) && Value(Promote(c).value) == Value(c)
    ensures Promote(c).value.bytes == (if c.bytes < 4 then 4 else c.bytes) && Promote(c).value.signed == (c.bytes < 4 || c.signed)
  {
    hide Pow, Pow2, Bitwise, Wrap64;
    if c.bytes < 4 {
      EncodeValue(c);
      WiderIsTwice(c.bytes, 4);
      Halves(4);
      Halves(c.bytes);
      if c.signed {
        SignedValueIsValue(c);
        ConvertWrapped(Value(c), 4, true, 8, true);
      } else {
        ConvertIsEncode(ConstantInteger(c.bits, 8, true), 4, true);
      }
      ValueEncode(Value(c), 4, true);
    }
  }

  // ------------------------------------------------------ signed arithmetic

  function Exact(symbol: Symbol, a: int, b: int): Option<int> {
    match symbol
    case Add => Some(a + b)
    case Sub => Some(a - b)
    case Mul => Some(a * b)
    case Div => if b == 0 then None else Some(Quotient(a, b))
    case Rem => if b == 0 then None else Some(Remainder(a, b))
    case _ => None
  }

  function Magnitude(x: int): nat {
    if x >= 0 then x else -x
  }

  /** Section 6.5.5 of C11: the quotient with its fraction discarded, and the rest. */
  predicate IsDivision(a: int, b: int, q: int, r: int) {
    a == q * b + r && Magnitude(r) < Magnitude(b) && (r != 0 ==> (r > 0 <==> a > 0))
  }

  /** Quotient and Remainder are that division, and no other pair is. */
  lemma DivisionExactly(a: int, b: int, q: int, r: int)
    requires b != 0
    ensures IsDivision(a, b, q, r) <==> q == Quotient(a, b) && r == Remainder(a, b)
  {
    TruncationDivides(a, b, Magnitude(a) / Magnitude(b));
    if IsDivision(a, b, q, r) {
      assert (q - Quotient(a, b)) * b == Remainder(a, b) - r;
      if q != Quotient(a, b) {
        MultipleIsLarge(q - Quotient(a, b), b);
      }
    }
  }

  lemma TruncationDivides(a: int, b: int, k: int)
    requires b != 0 && k == Magnitude(a) / Magnitude(b)
    ensures IsDivision(a, b, Quotient(a, b), Remainder(a, b))
  {
    QuotientBound(Magnitude(a), Magnitude(b));
    SignedQuotient(a, b, k);
    SignedProduct(k, b);
    hide Quotient;
  }

  lemma SignedProduct(k: int, b: int)
    ensures k * b == b * k == (if b >= 0 then Magnitude(b) * k else -(Magnitude(b) * k))
    ensures (-k) * b == b * (-k) == -(k * b)
  {
  }

  lemma SignedQuotient(a: int, b: int, k: int)
    requires b != 0 && k == Magnitude(a) / Magnitude(b)
    ensures Quotient(a, b) == if (a >= 0) == (b > 0) then k else -k
  {
  }

  lemma MultipleIsLarge(x: int, b: int)
    requires x != 0
    ensures Magnitude(x * b) >= Magnitude(b)
  {
    MulMono(1, Magnitude(x), Magnitude(b));
    assert (-x) * b == -(x * b) && x * (-b) == -(x * b) && (-x) * (-b) == x * b;
  }

  /** Section 6.5.5 of C11: % is defined exactly where the quotient is representable. */
  predicate Defined(symbol: Symbol, a: int, b: int, bytes: nat)
    requires bytes > 0
  {
    match symbol
    case Rem => b != 0 && InRange(Quotient(a, b), bytes, true)
    case _ => Exact(symbol, a, b).Some? && InRange(Exact(symbol, a, b).value, bytes, true)
  }

  /** The overflow guards pass exactly where the operation is defined, and then the result is exact. */
  lemma SignedGuardsExact(symbol: Symbol, a: int, b: int, bytes: nat)
    requires Supported(bytes) && InRange(a, bytes, true) && InRange(b, bytes, true)
    ensures SignedResult(symbol, a, b, bytes) == if Defined(symbol, a, b, bytes) then Exact(symbol, a, b) else None
    ensures Defined(symbol, a, b, bytes) ==> InRange(Exact(symbol, a, b).value, bytes, true)
  {
    hide Pow, Pow2, Quotient, Remainder;
    Halves(bytes);
    if symbol.Mul? {
      ProductGuard(a, b, Minimum(bytes), Maximum(bytes));
    } else if (symbol.Div? || symbol.Rem?) && b != 0 {
      QuotientFits(a, b, Minimum(bytes), Maximum(bytes));
    }
  }

  lemma FloorBound(a: nat, b: nat, h: nat)
    requires b > 0
    ensures a > h / b <==> a * b > h
  {
    var q, r := h / b, h % b;
    assert h == q * b + r;
    MulStrict(a, q + 1, b);
    assert (q + 1) * b == q * b + b;
    MulStrict(a, q, b);
  }

  lemma ProductGuard(a: int, b: int, low: int, high: int)
    requires low == -high - 1 && high > 0 && low <= a <= high && low <= b <= high
    ensures low <= a * b <= high <==>
      || a == 0 || b == 0
      || !(|| (a == -1 && b == low) || (b == -1 && a == low)
           || (a > 0 && b > 0 && a > Quotient(high, b)) || (a > 0 && b < 0 && b < Quotient(low, a))
           || (a < 0 && b > 0 && a < Quotient(low, b)) || (a < 0 && b < 0 && a < Quotient(high, b)))
  {
    hide Quotient, Magnitude;
    ProductSign(a, b);
    if a > 0 && b > 0 {
      SignedQuotient(high, b, high / b) by { SameMagnitude(high, b); }
      FloorBound(a, b, high);
    } else if a > 0 && b < 0 {
      SignedQuotient(low, a, (-low) / a) by { SameMagnitude(low, a); }
      FloorBound(-b, a, -low);
    } else if a < 0 && b > 0 {
      SignedQuotient(low, b, (-low) / b) by { SameMagnitude(low, b); }
      FloorBound(-a, b, -low);
    } else if a < 0 && b < 0 {
      SignedQuotient(high, b, high / (-b)) by { SameMagnitude(high, b); }
      FloorBound(-a, -b, high);
    }
  }

  lemma SameMagnitude(a: int, b: int)
    ensures Magnitude(a) == (if a >= 0 then a else -a) && Magnitude(b) == (if b >= 0 then b else -b)
  {
  }

  lemma ProductSign(a: int, b: int)
    ensures a == 0 || b == 0 ==> a * b == 0
    ensures a > 0 && b > 0 ==> a * b > 0
    ensures a > 0 && b < 0 ==> a * b < 0 && (-b) * a == -(a * b)
    ensures a < 0 && b > 0 ==> a * b < 0 && (-a) * b == -(a * b)
    ensures a < 0 && b < 0 ==> a * b > 0 && (-a) * (-b) == a * b
  {
  }

  lemma QuotientBound(a: nat, b: nat)
    requires b > 0
    ensures 0 <= a / b <= a && (b >= 2 && a > 0 ==> a / b < a) && (b == 1 ==> a / b == a)
    ensures 0 <= a - b * (a / b) < b
  {
    var q := a / b;
    assert a == b * q + a % b;
    if b >= 2 {
      MulMono(2, b, q);
    }
  }

  lemma QuotientFits(a: int, b: int, low: int, high: int)
    requires low == -high - 1 && high > 0 && low <= a <= high && low <= b <= high && b != 0
    ensures low <= Quotient(a, b) <= high <==> !(a == low && b == -1)
    ensures low <= Remainder(a, b) <= high
  {
    var m, n := if a >= 0 then a else -a, if b > 0 then b else -b;
    QuotientBound(m, n);
    var q := m / n;
    assert b * Quotient(a, b) == if a >= 0 then n * q else -(n * q) by {
      assert (-n) * (-q) == n * q && n * (-q) == -(n * q) && (-n) * q == -(n * q);
    }
  }
}
