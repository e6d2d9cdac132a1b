/** Powers, most significant bits and round-half-to-even division over the naturals. */
module Powers {

  function Pow(b: nat, e: nat): (r: nat)
    ensures b > 0 ==> r > 0
    decreases e
  {
    if e == 0 then 1 else b * Pow(b, e - 1)
  }

  function Pow2(e: nat): (r: nat)
    ensures r > 0
  {
    Pow(2, e)
  }

  lemma {:induction false} PowAdd(b: nat, a: nat, c: nat)
    ensures Pow(b, a + c) == Pow(b, a) * Pow(b, c)
    decreases a
  {
    if a == 0 {
    } else {
      PowAdd(b, a - 1, c);
      assert a + c - 1 == a - 1 + c;
      calc {
        Pow(b, a + c);
        b * (Pow(b, a - 1) * Pow(b, c));
        (b * Pow(b, a - 1)) * Pow(b, c);
      }
    }
  }

  lemma Pow2Small()
    ensures Pow2(0) == 1 && Pow2(1) == 2
  {
  }

  lemma Pow2Add(a: nat, c: nat)
    ensures Pow2(a + c) == Pow2(a) * Pow2(c)
  {
    PowAdd(2, a, c);
  }

  lemma {:induction false} PowMono(b: nat, a: nat, c: nat)
    requires b > 0 && a <= c
    ensures Pow(b, a) <= Pow(b, c)
    decreases c
  {
    if a < c {
      PowMono(b, a, c - 1);
      MulMono(1, b, Pow(b, c - 1));
    }
  }

  lemma Pow2Mono(a: nat, c: nat)
    requires a <= c
    ensures Pow2(a) <= Pow2(c)
  {
    PowMono(2, a, c);
  }

  lemma {:induction false} PowBaseMono(a: nat, b: nat, e: nat)
    requires a <= b
    ensures Pow(a, e) <= Pow(b, e)
    decreases e
  {
    if e > 0 {
      PowBaseMono(a, b, e - 1);
      MulMono(Pow(a, e - 1), Pow(b, e - 1), a);
      MulMono(a, b, Pow(b, e - 1));
    }
  }

  lemma {:induction false} PowPow(b: nat, a: nat, e: nat)
    ensures Pow(Pow(b, a), e) == Pow(b, a * e)
    decreases e
  {
    if e == 0 {
      assert a * e == 0;
    } else {
      PowPow(b, a, e - 1);
      PowAdd(b, a, a * (e - 1));
      assert a + a * (e - 1) == a * e;
    }
  }

  /** 10^k is at least 2^(3k). */
  lemma TenBeatsEight(k: nat)
    ensures Pow2(3 * k) <= Pow(10, k)
  {
    assert Pow(2, 3) == 8;
    PowPow(2, 3, k);
    PowBaseMono(8, 10, k);
  }

  lemma MulMono(a: nat, b: nat, k: nat)
    requires a <= b
    ensures a * k <= b * k
  {
  }

  lemma MulStrict(a: int, b: int, k: int)
    requires k > 0
    ensures a < b <==> a * k < b * k
    ensures a <= b <==> a * k <= b * k
    ensures a == b <==> a * k == b * k
  {
    if a < b { assert (b - a) * k > 0; }
    if a > b { assert (a - b) * k > 0; }
  }

  lemma MulAssoc(a: int, b: int, c: int)
    ensures (a * b) * c == a * (b * c) == (a * c) * b
  {
  }

  /** Multiplying an inequality a <= b < 2a through by k. */
  lemma ScaleRange(a: nat, b: nat, k: nat)
    requires a <= b < 2 * a && k > 0
    ensures a * k <= b * k < 2 * (a * k)
  {
    MulStrict(a, b, k);
    MulStrict(b, 2 * a, k);
    MulAssoc(2, a, k);
  }

  /** The index of the highest set bit. */
  function Msb(n: nat): (r: nat)
    requires n > 0
    ensures Pow2(r) <= n < Pow2(r + 1)
  {
    if n == 1 then 0 else 1 + Msb(n / 2)
  }

  lemma DivModUnique(a: int, m: int, q: int, r: int)
    requires m > 0 && 0 <= r < m && a == q * m + r
    ensures a / m == q && a % m == r
  {
    var q', r' := a / m, a % m;
    assert a == q' * m + r';
    assert (q - q') * m == r' - r;
    if q > q' { MulStrict(0, q - q', m); MulStrict(1, q - q', m); }
    if q < q' { MulStrict(q - q', 0, m); MulStrict(q - q', -1, m); }
  }

  /** Integer quotient rounded to nearest, ties to even (roundRationalToNearestEven). */
  function RoundDiv(n: nat, d: nat): (q: nat)
    requires d > 0
  {
    var q := n / d;
    var twice := 2 * (n % d);
    if twice > d || (twice == d && q % 2 == 1) then q + 1 else q
  }

  /** What "nearest, ties to even" means for an integer quotient. */
  ghost predicate IsRoundDiv(n: nat, d: nat, q: nat)
  {
    && (2 * q - 1) * d <= 2 * n <= (2 * q + 1) * d
    && (2 * n == (2 * q - 1) * d || 2 * n == (2 * q + 1) * d ==> q % 2 == 0)
  }

  lemma RoundDivCorrect(n: nat, d: nat)
    requires d > 0
    ensures IsRoundDiv(n, d, RoundDiv(n, d))
  {
    var q, r := n / d, n % d;
    assert n == q * d + r;
    assert 2 * n == 2 * (q * d) + 2 * r;
    assert (2 * q + 1) * d == 2 * (q * d) + d;
    assert (2 * q - 1) * d == 2 * (q * d) - d;
    assert (2 * (q + 1) - 1) * d == 2 * (q * d) + d;
    assert (2 * (q + 1) + 1) * d == 2 * (q * d) + 3 * d;
  }

  /** Only one integer satisfies the rounding specification. */
  lemma RoundDivUnique(n: nat, d: nat, a: nat, b: nat)
    requires d > 0 && IsRoundDiv(n, d, a) && IsRoundDiv(n, d, b)
    ensures a == b
  {
    RoundDivOrder(n, d, a, b);
    RoundDivOrder(n, d, b, a);
  }

  lemma RoundDivOrder(n: nat, d: nat, a: nat, b: nat)
    requires d > 0 && IsRoundDiv(n, d, a) && IsRoundDiv(n, d, b)
    ensures b <= a
  {
    MulStrict(2 * a + 1, 2 * b - 1, d);
  }

  lemma RoundDivScale(n: nat, d: nat, k: nat)
    requires d > 0 && k > 0
    ensures d * k > 0
    ensures RoundDiv(n * k, d * k) == RoundDiv(n, d)
  {
    assert d * k > 0;
    var q := RoundDiv(n, d);
    RoundDivCorrect(n, d);
    RoundDivCorrect(n * k, d * k);
    assert IsRoundDiv(n * k, d * k, q) by {
      MulAssoc(2 * q - 1, d, k);
      MulAssoc(2 * q + 1, d, k);
      MulAssoc(2, n, k);
      MulStrict((2 * q - 1) * d, 2 * n, k);
      MulStrict(2 * n, (2 * q + 1) * d, k);
    }
    RoundDivUnique(n * k, d * k, RoundDiv(n * k, d * k), q);
  }

  lemma RoundDivBounds(n: nat, d: nat, lo: nat, hi: nat)
    requires d > 0 && lo * d <= n <= hi * d
    ensures lo <= RoundDiv(n, d) <= hi
  {
    var q: int := RoundDiv(n, d);
    RoundDivCorrect(n, d);
    MulAssoc(2, lo, d);
    MulAssoc(2, hi, d);
    MulStrict(2 * lo, 2 * q + 1, d);
    MulStrict(2 * q - 1, 2 * hi, d);
  }

  lemma ModUnique(x: int, p: int, y: int, k: int)
    requires p > 0 && 0 <= y < p && x == y + k * p
    ensures x % p == y
  {
    DivModUnique(x, p, k, y);
  }

  lemma ModOfMod(x: int, p: nat, k: nat)
    requires p > 0 && k > 0
    ensures p * k > 0 && (x % (p * k)) % p == x % p
  {
    var m := p * k;
    assert m > 0;
    var q, r := x / m, x % m;
    assert x == q * m + r;
    MulAssoc(q, k, p);
    assert q * m == (q * k) * p;
    ModUnique(x, p, r % p, q * k + r / p);
  }
}
