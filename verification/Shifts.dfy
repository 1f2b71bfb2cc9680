/**
 Shifts of words: how the bits that leave one word and the bits that enter the next
 fit together. Words are split by products and quotients of powers of two.
 */
module Shifts {
  import opened Words

  /** Moving x left by l splits at bit 32; w is the word of x, x itself may be signed. */
  lemma ShlSplit(x: int, w: Word, l: nat, r: nat)
    requires l + r == 32 && w == Wrap(x)
    ensures Double(x, l) == Halve(x, r) * WORD + Shl(w, l)
  {
    ShlLow(x, w, l, r);
    DoubleIs(x, l);
    HalveIs(x, r);
    SplitArith(x, Pow2(l), Pow2(r));
  }

  lemma ShlLow(x: int, w: Word, l: nat, r: nat)
    requires l + r == 32 && w == Wrap(x)
    ensures Pow2(l) * Pow2(r) == WORD
    ensures Shl(w, l) == (x % Pow2(r)) * Pow2(l) <= WORD - Pow2(l)
  {
    Pow2Word();
    Pow2Add(l, r);
    DoubleIs(w, l);
    SplitArith(x, Pow2(l), Pow2(r));
  }

  lemma SplitArith(x: int, p: int, c: int)
    requires 1 <= p && 1 <= c && p * c == WORD
    ensures x * p == (x / c) * WORD + (x % c) * p
    ensures (Wrap(x) * p) % WORD == (x % c) * p <= WORD - p
  {
    MulSplit(x, p, c);
    MulSplit(Wrap(x), p, c);
    ModMod(x, p, c);
    DivModUnique(Wrap(x) * p, WORD, Wrap(x) / c, (x % c) * p);
  }

  lemma JoinFits(x: Word, y: Word, l: nat, r: nat)
    requires l + r == 32
    ensures Shr(y, r) < Pow2(l)
    ensures Shl(x, l) + Shr(y, r) < WORD
    ensures Shl(x, l) % Pow2(l) == 0
  {
    ShlLow(x, x, l, r);
    HalveIs(y, r);
    JoinArith(x, y, Pow2(l), Pow2(r), Shl(x, l), Shr(y, r));
  }

  lemma JoinArith(x: int, y: Word, p: int, c: int, s: int, q: int)
    requires 1 <= p && 1 <= c && p * c == WORD
    requires s == (x % c) * p <= WORD - p && q == y / c
    ensures q < p && s + q < WORD && s % p == 0
  {
    QuotientBelow(y, p, c);
    DivModUnique(s, p, x % c, 0);
  }

  /** So `(x << l) | (y >> r)` adds the two parts. */
  lemma JoinIsSum(x: Word, y: Word, l: nat, r: nat)
    requires l + r == 32
    ensures BitOr(Shl(x, l), Shr(y, r)) == Shl(x, l) + Shr(y, r) < WORD
  {
    JoinFits(x, y, l, r);
    BitOrDisjoint(Shl(x, l), Shr(y, r), l);
  }

  lemma {:induction false} DoubleAdd(x: int, b: nat, c: nat)
    ensures Double(x, b + c) == Double(Double(x, b), c)
    decreases c
  {
    if c != 0 {
      DoubleAdd(x, b, c - 1);
    }
  }

  lemma {:induction false} HalveAdd(x: int, b: nat, c: nat)
    ensures Halve(x, b + c) == Halve(Halve(x, b), c)
    decreases b
  {
    if b != 0 {
      HalveAdd(x / 2, b - 1, c);
    }
  }

  /** Thirty-two places are one word. */
  lemma WholeWord(x: int)
    ensures Double(x, 32) == x * WORD
    ensures Halve(x, 32) == x / WORD
  {
    Pow2Word();
    DoubleIs(x, 32);
    HalveIs(x, 32);
  }
}
