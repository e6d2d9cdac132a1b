/** Bitwise operations on naturals, and how masks, sign bits and shifts act on them. */
module Bits {
  import opened Powers

  datatype BitOp = And | Or | Xor {
    function OnBits(a: nat, b: nat): nat
      requires a < 2 && b < 2
    {
      match this
      case And => a * b
      case Or => if a + b > 0 then 1 else 0
      case Xor => (a + b) % 2
    }
  }

  function Bitwise(op: BitOp, a: nat, b: nat): nat
    decreases a + b
  {
    if a == 0 && b == 0 then 0 else op.OnBits(a % 2, b % 2) + 2 * Bitwise(op, a / 2, b / 2)
  }

  function BitAt(a: nat, k: nat): (r: nat)
    ensures r < 2
  {
    a / Pow2(k) % 2
  }

  lemma DivStep(a: nat, k: nat)
    requires k > 0
    ensures a / Pow2(k) == (a / 2) / Pow2(k - 1)
  {
    hide Pow, Pow2;
    Pow2Step(k);
    HalfStep(a, Pow2(k - 1));
  }

  lemma HalfStep(a: nat, p: nat)
    requires p > 0
    ensures a / (2 * p) == (a / 2) / p && a % (2 * p) == 2 * ((a / 2) % p) + a % 2
  {
    var q, r := (a / 2) / p, (a / 2) % p;
    assert a / 2 == q * p + r;
    assert a == 2 * (a / 2) + a % 2;
    assert 2 * (q * p) == q * (2 * p);
    DivModUnique(a, 2 * p, q, 2 * r + a % 2);
  }

  lemma Pow2Step(k: nat)
    requires k > 0
    ensures Pow2(k) == 2 * Pow2(k - 1)
  {
  }

  lemma Pow2Zero()
    ensures Pow2(0) == 1
  {
  }

  /** Bitwise operations act on each bit alone. */
  lemma {:induction false} BitwiseAt(op: BitOp, a: nat, b: nat, k: nat)
    ensures BitAt(Bitwise(op, a, b), k) == op.OnBits(BitAt(a, k), BitAt(b, k))
    decreases k
  {
    hide Pow, Pow2;
    if a == 0 && b == 0 {
      assert 0 / Pow2(k) == 0;
    } else {
      var low, high := op.OnBits(a % 2, b % 2), Bitwise(op, a / 2, b / 2);
      assert Bitwise(op, a, b) == low + 2 * high;
      assert (low + 2 * high) / 2 == high && (low + 2 * high) % 2 == low;
      if k == 0 {
        Pow2Zero();
      } else {
        DivStep(a, k);
        DivStep(b, k);
        DivStep(low + 2 * high, k);
        BitwiseAt(op, a / 2, b / 2, k - 1);
      }
    }
  }

  /** Which bits are set in the result. */
  lemma BitwiseMeans(a: nat, b: nat, k: nat)
    ensures BitAt(Bitwise(And, a, b), k) == 1 <==> BitAt(a, k) == 1 && BitAt(b, k) == 1
    ensures BitAt(Bitwise(Or, a, b), k) == 1 <==> BitAt(a, k) == 1 || BitAt(b, k) == 1
    ensures BitAt(Bitwise(Xor, a, b), k) == 1 <==> BitAt(a, k) != BitAt(b, k)
  {
    hide Bitwise, BitAt;
    BitwiseAt(And, a, b, k);
    BitwiseAt(Or, a, b, k);
    BitwiseAt(Xor, a, b, k);
  }

  /** A number is determined by its bits. */
  lemma {:induction false} BitsDetermine(a: nat, b: nat)
    requires forall k: nat :: BitAt(a, k) == BitAt(b, k)
    ensures a == b
    decreases a + b
  {
    hide Pow, Pow2;
    Pow2Zero();
    assert BitAt(a, 0) == BitAt(b, 0);
    if a + b > 0 {
      forall k: nat ensures BitAt(a / 2, k) == BitAt(b / 2, k) {
        DivStep(a, k + 1);
        DivStep(b, k + 1);
        assert BitAt(a, k + 1) == BitAt(b, k + 1);
      }
      BitsDetermine(a / 2, b / 2);
    }
  }

  /** x & (2^w - 1) is x modulo 2^w. */
  lemma {:induction false} AndMask(x: nat, w: nat)
    ensures Bitwise(And, x, Pow2(w) - 1) == x % Pow2(w)
    decreases w
  {
    hide Pow, Pow2;
    if w == 0 {
      Pow2Zero();
      AndZero(x);
    } else {
      Pow2Step(w);
      var p := Pow2(w - 1);
      assert (2 * p - 1) % 2 == 1 && (2 * p - 1) / 2 == p - 1;
      AndMask(x / 2, w - 1);
      HalfStep(x, p);
    }
  }

  lemma {:induction false} AndZero(x: nat)
    ensures Bitwise(And, x, 0) == 0
    decreases x
  {
    if x > 0 {
      AndZero(x / 2);
    }
  }

  /** x & 2^k picks out one bit. */
  lemma {:induction false} AndBit(x: nat, k: nat)
    ensures Bitwise(And, x, Pow2(k)) == BitAt(x, k) * Pow2(k)
    decreases k
  {
    hide Pow, Pow2;
    if k == 0 {
      Pow2Zero();
      AndZero(x / 2);
    } else {
      Pow2Step(k);
      var p := Pow2(k - 1);
      assert (2 * p) % 2 == 0 && (2 * p) / 2 == p;
      AndBit(x / 2, k - 1);
      DivStep(x, k);
      var b := BitAt(x, k);
      assert 2 * (b * p) == b * (2 * p);
    }
  }

  /** Disjoint bits: or-ing a multiple of 2^k with a number below 2^k adds them. */
  lemma {:induction false} OrDisjoint(low: nat, high: nat, k: nat)
    requires low < Pow2(k)
    ensures Bitwise(Or, low, high * Pow2(k)) == low + high * Pow2(k)
    decreases k
  {
    hide Pow, Pow2;
    if k == 0 {
      Pow2Zero();
      OrZero(high);
    } else {
      Pow2Step(k);
      var p := Pow2(k - 1);
      var top := high * p;
      assert high * (2 * p) == 2 * top;
      OrDisjoint(low / 2, high, k - 1);
      OrDouble(low, top);
    }
  }

  lemma OrDouble(low: nat, top: nat)
    ensures Bitwise(Or, low, 2 * top) == low % 2 + 2 * Bitwise(Or, low / 2, top)
  {
    assert (2 * top) % 2 == 0 && (2 * top) / 2 == top;
  }

  lemma {:induction false} OrZero(x: nat)
    ensures Bitwise(Or, 0, x) == x
    decreases x
  {
    if x > 0 {
      OrZero(x / 2);
    }
  }

  lemma {:induction false} XorZero(x: nat)
    ensures Bitwise(Xor, x, 0) == x
    decreases x
  {
    if x > 0 {
      XorZero(x / 2);
    }
  }

  /** (2^w - 1) ^ (2^(w-c) - 1) has exactly the top c of w bits set. */
  lemma {:induction false} XorMasks(w: nat, low: nat)
    requires low <= w
    ensures Pow2(low) <= Pow2(w)
    ensures Bitwise(Xor, Pow2(w) - 1, Pow2(low) - 1) == Pow2(w) - Pow2(low)
    decreases w
  {
    Pow2Mono(low, w);
    hide Pow, Pow2;
    if low == 0 {
      Pow2Zero();
      XorZero(Pow2(w) - 1);
    } else {
      Pow2Step(w);
      Pow2Step(low);
      var p, q := Pow2(w - 1), Pow2(low - 1);
      assert (2 * p - 1) % 2 == 1 && (2 * p - 1) / 2 == p - 1 && (2 * q - 1) % 2 == 1 && (2 * q - 1) / 2 == q - 1;
      XorMasks(w - 1, low - 1);
    }
  }

  /** Shifting a mask right. */
  lemma MaskShift(w: nat, c: nat)
    requires c <= w
    ensures (Pow2(w) - 1) / Pow2(c) == Pow2(w - c) - 1
  {
    hide Pow;
    Pow2Add(w - c, c);
    var p, q := Pow2(w - c), Pow2(c);
    assert p * q - 1 == (p - 1) * q + (q - 1);
    DivModUnique(p * q - 1, q, p - 1, q - 1);
  }
}
