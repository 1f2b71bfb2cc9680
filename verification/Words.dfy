/**
 Machine words as natural numbers. The C operators `&`, `|`, `<<`, `>>` and the
 conversions between PRUint32 and PRInt32 are written out here, once, for every
 other module; the lemmas relate them to ordinary arithmetic.
 */
module Words {

  const WORD: int := 0x1_0000_0000

  /** A PRUint32. */
  type Word = w: int | 0 <= w < 0x1_0000_0000

  function Pow2(k: nat): (p: nat)
    ensures 1 <= p
  {
    if k == 0 then 1 else 2 * Pow2(k - 1)
  }

  /** The bitwise `&` of two unsigned values. */
  function BitAnd(x: nat, y: nat): nat
    decreases x
  {
    if x == 0 then 0
    else 2 * BitAnd(x / 2, y / 2) + (if x % 2 == 1 && y % 2 == 1 then 1 else 0)
  }

  /** The bitwise `|` of two unsigned values. */
  function BitOr(x: nat, y: nat): nat
    decreases x + y
  {
    if x == 0 && y == 0 then 0
    else 2 * BitOr(x / 2, y / 2) + (if x % 2 == 1 || y % 2 == 1 then 1 else 0)
  }

  /** Bit number k of x. */
  predicate Bit(x: nat, k: nat) {
    if k == 0 then x % 2 == 1 else Bit(x / 2, k - 1)
  }

  /** x moved k bits to the left, with no bit lost. */
  function Double(x: int, k: nat): int {
    if k == 0 then x else 2 * Double(x, k - 1)
  }

  /** x moved k bits to the right; the bits moved out are lost. */
  function Halve(x: int, k: nat): (h: int)
    ensures 0 <= x ==> 0 <= h <= x
    ensures x < 0 ==> x <= h < 0
    decreases k
  {
    if k == 0 then x else Halve(x / 2, k - 1)
  }

  /** `x << k` on a PRUint32. */
  function Shl(x: Word, k: nat): Word {
    Double(x, k) % WORD
  }

  /** `x >> k` on a PRUint32. */
  function Shr(x: Word, k: nat): Word {
    Halve(x, k)
  }

  /** `(PRInt32)x`: the two's complement reading of a word. */
  function Signed(x: Word): int {
    if x < 0x8000_0000 then x else x - WORD
  }

  /** `x & PR_BITMASK(k)`: the low k bits. */
  function LowBits(x: nat, k: nat): nat {
    BitAnd(x, Pow2(k) - 1)
  }

  /** The word a C conversion to PRUint32 leaves of any integer. */
  function Wrap(x: int): Word {
    x % WORD
  }

  /** A sum of two words wraps at most once. */
  lemma WrapOnce(x: int)
    requires -WORD <= x < 2 * WORD
    ensures Wrap(x) == if x < 0 then x + WORD else if x < WORD then x else x - WORD
  {
  }

  lemma MulMono(x: int, y: int, z: int)
    requires x <= y && 0 <= z
    ensures x * z <= y * z
  {
  }

  lemma {:induction false} Pow2Add(a: nat, b: nat)
    ensures Pow2(a + b) == Pow2(a) * Pow2(b)
  {
    if a != 0 {
      Pow2Add(a - 1, b);
    }
  }

  lemma {:induction false} Pow2Mono(a: nat, b: nat)
    requires a <= b
    ensures Pow2(a) <= Pow2(b)
  {
    if a < b {
      Pow2Mono(a, b - 1);
    }
  }

  lemma Pow2Word()
    ensures Pow2(5) == 32 && Pow2(16) == 65536
    ensures Pow2(31) == 0x8000_0000
    ensures Pow2(32) == WORD
  {
    assert Pow2(8) == 256;
    Pow2Add(8, 8);
    Pow2Add(16, 8);
    Pow2Add(24, 7);
    Pow2Add(16, 16);
  }

  lemma MulAssoc(x: int, y: int, z: int)
    ensures x * y * z == x * (y * z)
  {
  }

  lemma MulDistrib(x: int, y: int, z: int)
    ensures (x + y) * z == x * z + y * z
  {
  }

  /** Splitting x * p at p * c. */
  lemma MulSplit(x: int, p: int, c: int)
    requires 1 <= p && 1 <= c
    ensures x * p == (x / c) * (c * p) + (x % c) * p
    ensures 0 <= (x % c) * p <= c * p - p
  {
    var q, m := x / c, x % c;
    assert x == q * c + m;
    MulDistrib(q * c, m, p);
    MulAssoc(q, c, p);
    MulMono(m, c - 1, p);
    MulMono(0, m, p);
    MulDistrib(c - 1, 1, p);
  }

  /** Dividing twice is dividing by the product. */
  lemma DivDiv(x: int, p: int, q: int)
    requires 1 <= p && 1 <= q && 1 <= q * p
    ensures x / p / q == x / (q * p)
  {
    var y := x / p;
    MulSplit(y, p, q);
    assert x == p * y + x % p;
    DivModUnique(x, q * p, y / q, (y % q) * p + x % p);
  }

  /** The quotient of a value below p * c by c is below p. */
  lemma QuotientBelow(x: int, p: int, c: int)
    requires 1 <= c && x < p * c
    ensures x / c < p
  {
    var q := x / c;
    assert q * c <= x;
    if p <= q {
      MulMono(p, q, c);
    }
  }

  lemma NatDivMod(x: nat, d: nat)
    requires 1 <= d
    ensures x == (x / d) * d + x % d && 0 <= x % d < d
  {
  }

  /** A remainder by a multiple determines the remainder by the factor. */
  lemma ModMod(x: int, p: int, c: int)
    requires 1 <= c && 1 <= p * c
    ensures x % (p * c) % c == x % c
  {
    var k, y := x / (p * c), x % (p * c);
    var q, m := y / c, y % c;
    assert x == k * (p * c) + (q * c + m);
    MulAssoc(k, p, c);
    MulDistrib(k * p, q, c);
    DivModUnique(x, c, k * p + q, m);
  }

  /** Below d, a value is its own remainder. */
  lemma ModSmall(x: int, d: int)
    requires 0 <= x < d
    ensures x % d == x && x / d == 0
  {
  }

  /** A quotient and remainder are determined by the division equation. */
  lemma DivModUnique(x: int, d: int, q: int, r: int)
    requires 0 < d && 0 <= r < d && x == q * d + r
    ensures x / d == q && x % d == r
  {
    var q', r' := x / d, x % d;
    assert x == q' * d + r';
    assert (q - q') * d == r' - r;
    if q < q' {
      MulMono(q - q', -1, d);
    } else if q' < q {
      MulMono(1, q - q', d);
    }
  }

  lemma {:induction false} DoubleIs(x: int, k: nat)
    ensures Double(x, k) == x * Pow2(k)
  {
    if k != 0 {
      DoubleIs(x, k - 1);
      MulAssoc(x, Pow2(k - 1), 2);
    }
  }

  lemma {:induction false} HalveIs(x: int, k: nat)
    ensures Halve(x, k) == x / Pow2(k)
    decreases k
  {
    if k != 0 {
      HalveIs(x / 2, k - 1);
      DivDiv(x, 2, Pow2(k - 1));
    }
  }

  /** One binary digit more of `x % 2^k`. */
  lemma ModDouble(x: nat, p: nat)
    requires 1 <= p
    ensures x % (2 * p) == 2 * ((x / 2) % p) + x % 2
    ensures x / (2 * p) == (x / 2) / p
  {
    var h := x / 2;
    var q, r := h / p, h % p;
    assert h == q * p + r;
    assert q * (2 * p) == 2 * (q * p);
    DivModUnique(x, 2 * p, q, 2 * r + x % 2);
  }

  /** Or-ing into cleared low bits is addition. */
  lemma {:induction false} BitOrDisjoint(x: nat, y: nat, k: nat)
    requires y < Pow2(k) && x % Pow2(k) == 0
    ensures BitOr(x, y) == x + y
    decreases k
  {
    if k == 0 {
      BitOrZero(x);
    } else {
      ModDouble(x, Pow2(k - 1));
      BitOrDisjoint(x / 2, y / 2, k - 1);
    }
  }

  lemma {:induction false} BitOrZero(x: nat)
    ensures BitOr(x, 0) == x
  {
    if x != 0 {
      BitOrZero(x / 2);
    }
  }

  lemma AndOdd(x: nat, y: nat, m: nat)
    requires x != 0 && y == 2 * m + 1
    ensures BitAnd(x, y) == 2 * BitAnd(x / 2, m) + x % 2
  {
    assert y / 2 == m && y % 2 == 1;
  }

  /** Masking with 2^k - 1 keeps the remainder by 2^k. */
  lemma {:induction false} AndLowMask(x: nat, k: nat)
    ensures BitAnd(x, Pow2(k) - 1) == x % Pow2(k)
    decreases k
  {
    if k == 0 {
      AndZero(x);
    } else if x == 0 {
      ModSmall(0, Pow2(k));
    } else {
      var h := Pow2(k - 1);
      AndLowMask(x / 2, k - 1);
      AndOdd(x, Pow2(k) - 1, h - 1);
      ModDouble(x, h);
    }
  }

  lemma LowBitsIs(x: nat, k: nat, d: nat)
    requires d == Pow2(k)
    ensures LowBits(x, k) == x % d
  {
    AndLowMask(x, k);
  }

  lemma {:induction false} AndZero(x: nat)
    ensures BitAnd(x, 0) == 0
  {
    if x != 0 {
      AndZero(x / 2);
    }
  }

  lemma {:induction false} AndSelf(x: nat)
    ensures BitAnd(x, x) == x
  {
    if x != 0 {
      AndSelf(x / 2);
    }
  }

  /** A mask and its complement split a value in two. */
  lemma {:induction false} AndComplement(x: nat, y: nat, n: nat)
    requires x < Pow2(n) && y < Pow2(n)
    ensures BitAnd(x, y) + BitAnd(x, Pow2(n) - 1 - y) == x
    decreases n
  {
    if n != 0 && x != 0 {
      var h, z := Pow2(n - 1), Pow2(n) - 1 - y;
      assert z / 2 == h - 1 - y / 2 && z % 2 == 1 - y % 2;
      AndComplement(x / 2, y / 2, n - 1);
      assert BitAnd(x, z) == 2 * BitAnd(x / 2, h - 1 - y / 2) + (if x % 2 == 1 && y % 2 == 0 then 1 else 0);
    }
  }

  lemma {:induction false} BitOfOr(x: nat, y: nat, k: nat)
    ensures Bit(BitOr(x, y), k) == (Bit(x, k) || Bit(y, k))
    decreases k
  {
    BitOrHalf(x, y);
    if k != 0 {
      BitOfOr(x / 2, y / 2, k - 1);
    }
  }

  lemma BitOrHalf(x: nat, y: nat)
    ensures BitOr(x, y) / 2 == BitOr(x / 2, y / 2)
    ensures BitOr(x, y) % 2 == 1 <==> x % 2 == 1 || y % 2 == 1
  {
  }

  lemma {:induction false} BitOfAnd(x: nat, y: nat, k: nat)
    ensures Bit(BitAnd(x, y), k) == (Bit(x, k) && Bit(y, k))
    decreases k
  {
    if x == 0 {
      BitOfZero(k);
    } else if k != 0 {
      BitOfAnd(x / 2, y / 2, k - 1);
    }
  }

  lemma {:induction false} BitOfZero(k: nat)
    ensures !Bit(0, k)
  {
    if k != 0 {
      BitOfZero(k - 1);
    }
  }

  lemma {:induction false} BitOfPow2(j: nat, k: nat)
    ensures Bit(Pow2(j), k) == (j == k)
    decreases k
  {
    if k == 0 {
    } else if j == 0 {
      BitOfZero(k - 1);
    } else {
      BitOfPow2(j - 1, k - 1);
    }
  }

  lemma {:induction false} BitOfComplement(y: nat, n: nat, k: nat)
    requires y < Pow2(n) && k < n
    ensures Bit(Pow2(n) - 1 - y, k) == !Bit(y, k)
    decreases k
  {
    if k != 0 {
      assert (Pow2(n) - 1 - y) / 2 == Pow2(n - 1) - 1 - y / 2;
      BitOfComplement(y / 2, n - 1, k - 1);
    }
  }

  /** Neither `|` nor `&` of n-bit values needs more than n bits. */
  lemma {:induction false} BitOpsBounded(x: nat, y: nat, n: nat)
    requires x < Pow2(n) && y < Pow2(n)
    ensures BitOr(x, y) < Pow2(n) && BitAnd(x, y) < Pow2(n)
    decreases n
  {
    if n != 0 {
      BitOpsBounded(x / 2, y / 2, n - 1);
    }
  }
}
