/**
  The 128 bits of the interchange format binary128, read by the field positions of section
  3.4 of IEEE 754, and what the encoder and the parser put there.
 */
module Binary128Words {
  import opened Basics
  import opened Powers
  import opened Binary128
  import opened DecimalText
  import opened DecimalParser

  /** One sign bit, 15 exponent bits, 112 fraction bits. */
  datatype Word = Word(negative: bool, exponent: nat, fraction: nat) {
    predicate Valid() {
      exponent < 0x8000 && fraction < Pow2(112)
    }

    predicate IsFinite() {
      exponent < 0x7fff
    }

    predicate IsInfinite() {
      exponent == 0x7fff && fraction == 0
    }

    /** Section 6.2.1: a quiet NaN has the first fraction bit set. */
    predicate IsQuietNan() {
      exponent == 0x7fff && fraction >= Pow2(111)
    }

    /** The significand as an integer of 113 bits. */
    function Significand(): nat {
      if exponent == 0 then fraction else Pow2(112) + fraction
    }

    /** What the significand is multiplied by, as a power of two. */
    function Power(): int {
      (if exponent == 0 then 1 else exponent) - 16383 - 112
    }

    /** The magnitude is n / d. */
    predicate HasMagnitude(n: nat, d: nat) {
      if Power() >= 0 then n == d * Significand() * Pow2(Power()) else n * Pow2(-Power()) == d * Significand()
    }
  }

  function WordOf(bits: nat): Word {
    Word(bits / Pow2(127) % 2 == 1, bits / Pow2(112) % 0x8000, bits % Pow2(112))
  }

  lemma SignPosition()
    ensures Pow2(127) == 0x8000 * Pow2(112) && BINARY128.SignMask() == Pow2(127)
  {
    Pow2Add(15, 112);
    assert Pow2(15) == 0x8000 by {
      assert Pow(2, 5) == 32;
      PowAdd(2, 5, 5);
      PowAdd(2, 10, 5);
    }
  }

  /** A pattern without sign, and a sign. */
  lemma WordOfParts(negative: bool, m: nat)
    requires m < Pow2(127)
    ensures WordOf((if negative then BINARY128.SignMask() else 0) + m) == Word(negative, m / Pow2(112), m % Pow2(112))
  {
    SignPosition();
    hide Pow, Pow2;
    var h := Pow2(112);
    var q, r, s := m / h, m % h, if negative then 1 else 0;
    assert m == q * h + r;
    MulStrict(q, 0x8000, h);
    DivModUnique(s * Pow2(127) + m, Pow2(127), s, m);
    assert s * (0x8000 * h) + q * h == (s * 0x8000 + q) * h;
    DivModUnique(s * Pow2(127) + m, h, s * 0x8000 + q, r);
    DivModUnique(s * 0x8000 + q, 0x8000, s, q);
  }

  lemma PatternBits(exponent: nat, fraction: nat)
    requires exponent < 0x8000 && fraction < Pow2(112)
    ensures var m := exponent * Pow2(112) + fraction;
      m < Pow2(127) && m / Pow2(112) == exponent && m % Pow2(112) == fraction
  {
    SignPosition();
    hide Pow, Pow2;
    DivModUnique(exponent * Pow2(112) + fraction, Pow2(112), exponent, fraction);
    MulMono(exponent + 1, 0x8000, Pow2(112));
  }

  lemma WordOfPattern(negative: bool, exponent: nat, fraction: nat)
    requires Word(negative, exponent, fraction).Valid()
    ensures WordOf((if negative then BINARY128.SignMask() else 0) + (exponent * Pow2(112) + fraction)) == Word(negative, exponent, fraction)
  {
    hide Pow, Pow2, WordOf;
    PatternBits(exponent, fraction);
    WordOfParts(negative, exponent * Pow2(112) + fraction);
  }

  /** The words the parser knows: signed infinities and quiet NaNs, in any case of letters. */
  lemma ParsedWords(text: string)
    ensures var word, r := Lowered(AfterSign(text)), ParsedBits(BINARY128, text);
      && (word == "inf" || word == "infinity" ==>
            r.Some? && r.value >= 0 && WordOf(r.value).IsInfinite() && WordOf(r.value).negative == ReadSign(text).Minus?)
      && (word == "nan" ==>
            r.Some? && r.value >= 0 && WordOf(r.value).IsQuietNan() && WordOf(r.value).negative == ReadSign(text).Minus?)
  {
    var negative := ReadSign(text).Minus?;
    QuietBit();
    hide Pow, Pow2, Lowered, WordOf, CutMagnitude, DigitRun;
    WordOfPattern(negative, 0x7fff, 0);
    WordOfPattern(negative, 0x7fff, Pow2(111));
  }

  lemma QuietBit()
    ensures BINARY128.Infinity() == 0x7fff * Pow2(112) && BINARY128.Hidden() / 2 == Pow2(111) < Pow2(112)
  {
    Pow2Add(1, 111);
    assert Pow2(1) == 2;
  }

  lemma SameQuotient(n: nat, d: nat, s: nat, p: nat, scale: nat)
    requires if p >= scale then n == d * s * Pow2(p - scale) else n * Pow2(scale - p) == d * s
    ensures n * Pow2(scale) == s * Pow2(p) * d
  {
    hide Pow, Pow2;
    if p >= scale {
      Pow2Add(p - scale, scale);
      MulAssoc(d * s, Pow2(p - scale), Pow2(scale));
      MulAssoc(d, s, Pow2(p));
    } else {
      Pow2Add(scale - p, p);
      MulAssoc(n, Pow2(scale - p), Pow2(p));
      MulAssoc(d, s, Pow2(p));
    }
  }

  lemma MagOfWord(w: Word)
    requires w.Valid()
    ensures Mag(BINARY128, w.exponent * Pow2(112) + w.fraction) == w.Significand() * Pow2(if w.exponent == 0 then 0 else w.exponent - 1)
  {
    hide Pow, Pow2;
    PatternBits(w.exponent, w.fraction);
    Pow2Zero();
  }

  lemma Pow2Zero()
    ensures Pow2(0) == 1
  {
  }

  lemma FinitePattern(w: Word)
    requires w.Valid() && w.IsFinite()
    ensures w.exponent * Pow2(112) + w.fraction <= BINARY128.Infinity()
  {
    hide Pow, Pow2;
    MulMono(w.exponent + 1, 0x7fff, Pow2(112));
  }

  /** A quotient that a word denotes is encoded as that word. */
  lemma EncodesWords(w: Word, n: nat, d: nat)
    requires w.Valid() && w.IsFinite() && d > 0 && w.HasMagnitude(n, d)
    ensures var r := EncodeRational(BINARY128, n, d, w.negative); r >= 0 && WordOf(r) == w
  {
    hide Pow, Pow2, Mag, EncodeMagnitude, WordOf;
    var f, b := BINARY128, w.exponent * Pow2(112) + w.fraction;
    var p := if w.exponent == 0 then 0 else w.exponent - 1;
    FinitePattern(w);
    MagOfWord(w);
    EncodeInvertsMag(f, b);
    SameQuotient(n, d, w.Significand(), p, f.Scale());
    EncodeRespectsQuotient(f, n, d, Mag(f, b), Pow2(f.Scale()));
    WordOfPattern(w.negative, w.exponent, w.fraction);
  }

  /** In particular 2^k has exponent code 16383 + k and no fraction. */
  lemma EncodesPowersOfTwo(k: int, negative: bool)
    requires -16382 <= k <= 16383
    ensures var n, d := if k >= 0 then Pow2(k) else 1, if k >= 0 then 1 else Pow2(-k);
      EncodeRational(BINARY128, n, d, negative) >= 0 && WordOf(EncodeRational(BINARY128, n, d, negative)) == Word(negative, k + 16383, 0)
  {
    hide Pow, Pow2, Mag, EncodeMagnitude, WordOf;
    var w := Word(negative, k + 16383, 0);
    var n, d := if k >= 0 then Pow2(k) else 1, if k >= 0 then 1 else Pow2(-k);
    if k >= 112 {
      Pow2Add(112, k - 112);
    } else if k >= 0 {
      Pow2Add(k, 112 - k);
    } else {
      Pow2Add(-k, 112);
    }
    EncodesWords(w, n, d);
  }
}
