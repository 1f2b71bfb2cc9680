/**
 The bit macros of prbit.h: logarithms, bitmaps over 32-bit longs, and rotates.
 */
module Bits {
  import opened Words
  import opened Shifts

  // --------------------------------------------------------------------- logarithms

  /** One line of the macro: if j >> step is not zero, count step and shift. */
  method Narrow(n: Word, j: Word, log2: nat, step: nat, ghost p: int) returns (j': Word, log2': nat)
    requires p == Pow2(step) && 0 < j < p * p && j == Halve(n, log2)
    ensures 0 < j' < p && j' == Halve(n, log2')
  {
    j', log2' := j, log2;
    HalveIs(j, step);
    NatDivMod(j, p);
    QuotientBelow(j, p, p);
    if Shr(j, step) != 0 {
      HalveAdd(n, log2, step);
      log2' := log2 + step;
      j' := Shr(j, step);
    }
  }

  /** PR_FLOOR_LOG2: the highest set bit. */
  method FloorLog2(n: Word) returns (log2: nat)
    ensures n == 0 ==> log2 == 0
    ensures n != 0 ==> Pow2(log2) <= n < Pow2(log2 + 1)
  {
    if n == 0 {
      return 0;
    }
    SmallPowers();
    var j := n;
    log2 := 0;
    j, log2 := Narrow(n, j, log2, 16, 65536);
    j, log2 := Narrow(n, j, log2, 8, 256);
    j, log2 := Narrow(n, j, log2, 4, 16);
    j, log2 := Narrow(n, j, log2, 2, 4);
    if j / 2 != 0 {
      HalveAdd(n, log2, 1);
      log2 := log2 + 1;
    }
    TopBit(n, log2);
  }

  lemma SmallPowers()
    ensures Pow2(2) == 4 && Pow2(4) == 16 && Pow2(8) == 256 && Pow2(16) == 65536
  {
    Pow2Word();
  }

  lemma TopBit(n: Word, k: nat)
    requires Halve(n, k) == 1
    ensures Pow2(k) <= n < Pow2(k + 1)
  {
    HalveIs(n, k);
    NatDivMod(n, Pow2(k));
  }

  /** n & (n - 1) clears the lowest set bit, so it is zero just for the powers of two. */
  lemma {:induction false} AndPredecessor(n: nat, k: nat)
    requires Pow2(k) <= n < Pow2(k + 1)
    ensures BitAnd(n, n - 1) == 0 <==> n == Pow2(k)
    decreases k
  {
    if k != 0 {
      var h := n / 2;
      AndPredecessor(h, k - 1);
      if n % 2 == 0 {
        assert (n - 1) / 2 == h - 1 && (n - 1) % 2 == 1;
        assert BitAnd(n, n - 1) == 2 * BitAnd(h, h - 1);
      } else {
        AndSelf(h);
        assert BitAnd(n, n - 1) == 2 * BitAnd(h, h);
      }
    }
  }

  /** PR_CEILING_LOG2: the least power of two that is not below n. */
  method CeilingLog2(n: Word) returns (log2: nat)
    ensures n <= Pow2(log2) && forall k: nat | n <= Pow2(k) :: log2 <= k
  {
    log2 := 0;
    if BitAnd(n, Wrap(n - 1)) != 0 {
      log2 := 1;
    }
    var floor := FloorLog2(n);
    if n != 0 {
      AndPredecessor(n, floor);
    }
    log2 := log2 + floor;
    forall k: nat | n <= Pow2(k)
      ensures log2 <= k
    {
      if k < log2 {
        Pow2Mono(k, log2 - 1);
        Pow2Mono(floor, log2);
      }
    }
  }

  // ------------------------------------------------------------------------ bitmaps

  /** Word `b >> 5` and mask `1L << (b & 31)` of bit b. */
  function WordOf(b: nat): nat {
    b / 32
  }

  function MaskOf(b: nat): (m: Word)
    ensures m == Pow2(b % 32)
  {
    Pow2Word();
    Pow2Mono(b % 32, 31);
    Pow2(b % 32)
  }

  /** The set of naturals a bitmap stands for. */
  ghost function Members(bitmap: seq<Word>): set<nat> {
    set b: nat | b < 32 * |bitmap| && Bit(bitmap[WordOf(b)], b % 32)
  }

  /** Number b is a member by bit b mod 32 of word b div 32, the lowest bit being bit 0. */
  lemma MembersAre(bitmap: seq<Word>, b: nat)
    ensures b in Members(bitmap) <==> b < 32 * |bitmap| && (bitmap[b / 32] / Pow2(b % 32)) % 2 == 1
  {
    if b < 32 * |bitmap| {
      BitIs(bitmap[b / 32], b % 32);
    }
  }

  lemma {:induction false} BitIs(x: nat, k: nat)
    ensures Bit(x, k) <==> (x / Pow2(k)) % 2 == 1
    decreases k
  {
    if k != 0 {
      BitIs(x / 2, k - 1);
      ModDouble(x, Pow2(k - 1));
    }
  }

  lemma {:induction false} AndPow2(x: nat, k: nat)
    ensures BitAnd(x, Pow2(k)) == if Bit(x, k) then Pow2(k) else 0
    decreases k
  {
    if x == 0 {
      BitOfZero(k);
    } else if k != 0 {
      AndPow2(x / 2, k - 1);
    } else {
      AndZero(x / 2);
    }
  }

  /** PR_TEST_BIT is non-zero exactly for the members. */
  method TestBit(bitmap: array<Word>, b: nat) returns (r: nat)
    requires b < 32 * bitmap.Length
    ensures r != 0 <==> b in Members(bitmap[..])
  {
    AndPow2(bitmap[WordOf(b)], b % 32);
    r := BitAnd(bitmap[WordOf(b)], MaskOf(b));
  }

  lemma OrBits(x: Word, k: nat)
    requires k < 32
    ensures BitOr(x, Pow2(k)) < WORD
    ensures forall j | 0 <= j < 32 :: Bit(BitOr(x, Pow2(k)), j) == (Bit(x, j) || j == k)
  {
    Pow2Word();
    Pow2Mono(k, 31);
    BitOpsBounded(x, Pow2(k), 32);
    forall j | 0 <= j < 32
      ensures Bit(BitOr(x, Pow2(k)), j) == (Bit(x, j) || j == k)
    {
      BitOfOr(x, Pow2(k), j);
      BitOfPow2(k, j);
    }
  }

  lemma AndNotBits(x: Word, k: nat)
    requires k < 32
    ensures Pow2(k) < WORD && BitAnd(x, WORD - 1 - Pow2(k)) < WORD
    ensures forall j | 0 <= j < 32 :: Bit(BitAnd(x, WORD - 1 - Pow2(k)), j) == (Bit(x, j) && j != k)
  {
    Pow2Word();
    Pow2Mono(k, 31);
    BitOpsBounded(x, WORD - 1 - Pow2(k), 32);
    forall j | 0 <= j < 32
      ensures Bit(BitAnd(x, WORD - 1 - Pow2(k)), j) == (Bit(x, j) && j != k)
    {
      BitOfAnd(x, WORD - 1 - Pow2(k), j);
      BitOfComplement(Pow2(k), 32, j);
      BitOfPow2(k, j);
    }
  }

  /** Changing one bit of one word changes the set by that number. */
  lemma OneBit(bitmap: seq<Word>, b: nat, k: nat, w: Word, on: bool)
    requires b < 32 * |bitmap| && k == b % 32
    requires forall j | 0 <= j < 32 :: Bit(w, j) == (if j == k then on else Bit(bitmap[WordOf(b)], j))
    ensures Members(bitmap[WordOf(b) := w]) == if on then Members(bitmap) + {b} else Members(bitmap) - {b}
  {
    var bitmap' := bitmap[WordOf(b) := w];
    forall c: nat
      ensures c in Members(bitmap') <==> (if c == b then on else c in Members(bitmap))
    {
      if c < 32 * |bitmap| {
        assert WordOf(c) == WordOf(b) && c % 32 == b % 32 ==> c == b;
      }
    }
  }

  /** PR_SET_BIT */
  method SetBit(bitmap: array<Word>, b: nat)
    requires b < 32 * bitmap.Length
    modifies bitmap
    ensures Members(bitmap[..]) == old(Members(bitmap[..])) + {b}
  {
    ghost var k := b % 32;
    OrBits(bitmap[WordOf(b)], k);
    OneBit(bitmap[..], b, k, BitOr(bitmap[WordOf(b)], MaskOf(b)), true);
    ghost var was := bitmap[..];
    bitmap[WordOf(b)] := BitOr(bitmap[WordOf(b)], MaskOf(b));
    assert bitmap[..] == was[WordOf(b) := bitmap[WordOf(b)]];
  }

  /** PR_CLEAR_BIT */
  method ClearBit(bitmap: array<Word>, b: nat)
    requires b < 32 * bitmap.Length
    modifies bitmap
    ensures Members(bitmap[..]) == old(Members(bitmap[..])) - {b}
  {
    ghost var k := b % 32;
    AndNotBits(bitmap[WordOf(b)], k);
    OneBit(bitmap[..], b, k, BitAnd(bitmap[WordOf(b)], WORD - 1 - MaskOf(b)), false);
    ghost var was := bitmap[..];
    bitmap[WordOf(b)] := BitAnd(bitmap[WordOf(b)], WORD - 1 - MaskOf(b));
    assert bitmap[..] == was[WordOf(b) := bitmap[WordOf(b)]];
  }

  datatype Op = Set(b: nat) | Clear(b: nat)

  ghost function Edited(s: set<nat>, ops: seq<Op>): set<nat>
    decreases |ops|
  {
    if ops == [] then s
    else Edited(if ops[0].Set? then s + {ops[0].b} else s - {ops[0].b}, ops[1..])
  }

  /** Any sequence of sets and clears leaves the bitmap standing for the set edited the same way. */
  method Run(bitmap: array<Word>, ops: seq<Op>)
    requires forall i | 0 <= i < |ops| :: ops[i].b < 32 * bitmap.Length
    modifies bitmap
    ensures Members(bitmap[..]) == Edited(old(Members(bitmap[..])), ops)
  {
    var i := 0;
    while i < |ops|
      invariant 0 <= i <= |ops|
      invariant Edited(Members(bitmap[..]), ops[i..]) == Edited(old(Members(bitmap[..])), ops)
    {
      assert ops[i..][0] == ops[i] && ops[i..][1..] == ops[i + 1..];
      match ops[i] {
        case Set(b) => SetBit(bitmap, b);
        case Clear(b) => ClearBit(bitmap, b);
      }
      i := i + 1;
    }
  }

  // ------------------------------------------------------------------------ rotates

  function RotateLeft(a: Word, bits: nat): Word
    requires 0 < bits < 32
  {
    JoinIsSum(a, a, bits, 32 - bits);
    BitOr(Shl(a, bits), Shr(a, 32 - bits))
  }

  function RotateRight(a: Word, bits: nat): Word
    requires 0 < bits < 32
  {
    JoinIsSum(a, a, 32 - bits, bits);
    BitOrCommutes(Shr(a, bits), Shl(a, 32 - bits));
    BitOr(Shr(a, bits), Shl(a, 32 - bits))
  }

  lemma {:induction false} BitOrCommutes(x: nat, y: nat)
    ensures BitOr(x, y) == BitOr(y, x)
    decreases x + y
  {
    if x != 0 || y != 0 {
      BitOrCommutes(x / 2, y / 2);
    }
  }

  /** A rotate to the right by some count is a rotate to the left by the rest of the word. */
  lemma RotateRightIsLeft(a: Word, bits: nat)
    requires 0 < bits < 32
    ensures RotateRight(a, bits) == RotateLeft(a, 32 - bits)
  {
    BitOrCommutes(Shr(a, bits), Shl(a, 32 - bits));
  }

  lemma RotateSum(a: Word, l: nat, r: nat)
    requires 0 < l && 0 < r && l + r == 32
    ensures RotateLeft(a, l) == Shl(a, l) + Shr(a, r)
  {
    JoinIsSum(a, a, l, r);
  }

  /** The shifts of two rotates in a row, by l and by r, as remainders and quotients. */
  lemma ShiftParts(a: Word, x: Word, l: nat, r: nat) returns (p: int, c: int)
    requires l + r == 32
    ensures p == Pow2(l) && c == Pow2(r) && p * c == WORD
    ensures Shl(a, l) == (a % c) * p && Shr(a, r) == a / c
    ensures Shl(x, r) == (x % p) * c && Shr(x, l) == x / p
  {
    p, c := Pow2(l), Pow2(r);
    ShlLow(a, a, l, r);
    ShlLow(x, x, r, l);
    HalveIs(a, r);
    HalveIs(x, l);
  }

  /** A left rotate moves the low bits up and brings the high ones round, a right rotate the other way. */
  lemma RotatesMove(a: Word, bits: nat)
    requires 0 < bits < 32
    ensures RotateLeft(a, bits) == (a % Pow2(32 - bits)) * Pow2(bits) + a / Pow2(32 - bits)
    ensures RotateRight(a, bits) == (a % Pow2(bits)) * Pow2(32 - bits) + a / Pow2(bits)
  {
    RotateRightIsLeft(a, bits);
    LeftParts(a, bits, 32 - bits, Pow2(bits), Pow2(32 - bits));
    LeftParts(a, 32 - bits, bits, Pow2(32 - bits), Pow2(bits));
  }

  lemma LeftParts(a: Word, l: nat, r: nat, p: int, c: int)
    requires 0 < l && 0 < r && l + r == 32 && p == Pow2(l) && c == Pow2(r)
    ensures RotateLeft(a, l) == (a % c) * p + a / c
  {
    RotateSum(a, l, r);
    var p', c' := ShiftParts(a, a, l, r);
  }

  lemma ExchangeParts(a: Word, x: Word, p: int, c: int)
    requires 1 <= p && 1 <= c && p * c == WORD && x == (a % c) * p + a / c
    ensures (x % p) * c + x / p == a
  {
    QuotientBelow(a, p, c);
    NatDivMod(a, c);
    DivModUnique(x, p, a % c, a / c);
  }

  /** Left and right rotates undo each other. */
  lemma RotatesUndo(a: Word, bits: nat)
    requires 0 < bits < 32
    ensures RotateRight(RotateLeft(a, bits), bits) == a
    ensures RotateLeft(RotateRight(a, bits), bits) == a
  {
    RotateRightIsLeft(RotateLeft(a, bits), bits);
    RotateRightIsLeft(a, bits);
    RotateBack(a, bits, 32 - bits);
    RotateBack(a, 32 - bits, bits);
  }

  lemma RotateBack(a: Word, l: nat, r: nat)
    requires 0 < l && 0 < r && l + r == 32
    ensures RotateLeft(RotateLeft(a, l), r) == a
  {
    var x := RotateLeft(a, l);
    RotateSum(a, l, r);
    RotateSum(x, r, l);
    var p, c := ShiftParts(a, x, l, r);
    ExchangeParts(a, x, p, c);
  }
}
