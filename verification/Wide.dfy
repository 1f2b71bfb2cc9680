/**
 The 64-bit integers of prlong.h for compilers without a 64-bit type: a pair of
 32-bit words, and macros that assign the words of the result one by one. Every
 method lets its result be one of its own operands, as the macros do.
 */
module Wide {
  import opened Words
  import opened Shifts

  const TWO64: int := 0x1_0000_0000_0000_0000

  class Int64 {
    var lo: Word
    var hi: Word

    constructor (lo: Word, hi: Word)
      ensures this.lo == lo && this.hi == hi
    {
      this.lo, this.hi := lo, hi;
    }

    /** The value as a PRUint64. */
    function U(): int
      reads this
    {
      hi * WORD + lo
    }

    /** The value as a PRInt64. */
    function S(): int
      reads this
    {
      Signed(hi) * WORD + lo
    }
  }

  /** Reduction modulo 2^64; never negative. */
  function Mod64(x: int): int {
    x % TWO64
  }

  function Abs(x: int): nat {
    if x < 0 then -x else x
  }

  /** C division: the quotient is rounded toward zero. */
  function TruncDiv(x: int, y: int): int
    requires y != 0
  {
    if (x < 0) == (y < 0) then Abs(x) / Abs(y) else -(Abs(x) / Abs(y))
  }

  /** C remainder: it has the sign of the dividend. */
  function TruncMod(x: int, y: int): int
    requires y != 0
  {
    if x < 0 then -(Abs(x) % Abs(y)) else Abs(x) % Abs(y)
  }

  // ---------------------------------------------------------------- comparison

  datatype Relation = Lt | Le | Gt | Ge | Eq | Ne {
    predicate Holds(x: int, y: int) {
      match this
      case Lt => x < y
      case Le => x <= y
      case Gt => x > y
      case Ge => x >= y
      case Eq => x == y
      case Ne => x != y
    }
  }

  predicate Cmp(a: Int64, op: Relation, b: Int64)
    reads a, b
    ensures Cmp(a, op, b) <==> match op
                               case Lt => a.S() < b.S()
                               case Le => a.S() <= b.S()
                               case Gt => a.S() > b.S()
                               case Ge => a.S() >= b.S()
                               case Eq => a.S() == b.S()
                               case Ne => a.S() != b.S()
  {
    if a.hi == b.hi then op.Holds(a.lo, b.lo) else op.Holds(Signed(a.hi), Signed(b.hi))
  }

  predicate UCmp(a: Int64, op: Relation, b: Int64)
    reads a, b
    ensures UCmp(a, op, b) <==> match op
                                case Lt => a.U() < b.U()
                                case Le => a.U() <= b.U()
                                case Gt => a.U() > b.U()
                                case Ge => a.U() >= b.U()
                                case Eq => a.U() == b.U()
                                case Ne => a.U() != b.U()
  {
    if a.hi == b.hi then op.Holds(a.lo, b.lo) else op.Holds(a.hi, b.hi)
  }

  predicate GeZero(a: Int64)
    reads a
    ensures GeZero(a) == (a.S() >= 0)
  {
    Pow2Word();
    HalveIs(a.hi, 31);
    Shr(a.hi, 31) == 0
  }

  // -------------------------------------------------- addition and subtraction

  /** A value written as high and low parts, reduced modulo 2^64. */
  lemma Reassemble(h: int, l: Word)
    ensures Mod64(h * WORD + l) == Wrap(h) * WORD + l
  {
    var q := h / WORD;
    assert h == q * WORD + Wrap(h);
    DivModUnique(h * WORD + l, TWO64, q, Wrap(h) * WORD + l);
  }

  /** The signed and unsigned readings agree modulo 2^64. */
  lemma SignedMod(a: Int64)
    ensures Mod64(a.S()) == a.U()
    ensures a.S() == (if a.U() < TWO64 / 2 then a.U() else a.U() - TWO64)
  {
    Reassemble(Signed(a.hi), a.lo);
  }

  method Neg(r: Int64, a: Int64)
    modifies r
    ensures r.U() == Mod64(-old(a.U()))
  {
    ghost var h, l := a.hi, a.lo;
    r.lo := Wrap(-Signed(a.lo));
    r.hi := Wrap(-Signed(a.hi) - (if r.lo != 0 then 1 else 0));
    ghost var borrow := if l != 0 then 1 else 0;
    assert r.lo == borrow * WORD - l;
    Reassemble(-h - borrow, r.lo);
    assert (-h - borrow) * WORD + r.lo == -(h * WORD + l);
  }

  method Add(r: Int64, a: Int64, b: Int64)
    modifies r
    ensures r.U() == Mod64(old(a.U()) + old(b.U()))
  {
    var aLo: int, aHi: int, bLo: int, bHi: int := a.lo, a.hi, b.lo, b.hi;
    r.lo := Wrap(aLo + bLo);
    var carry := if r.lo < bLo then 1 else 0;
    r.hi := Wrap(aHi + bHi + carry);
    assert aLo + bLo == carry * WORD + r.lo;
    Reassemble(aHi + bHi + carry, r.lo);
  }

  method Sub(r: Int64, a: Int64, b: Int64)
    modifies r
    ensures r.U() == Mod64(old(a.U()) - old(b.U()))
  {
    var aLo: int, aHi: int, bLo: int, bHi: int := a.lo, a.hi, b.lo, b.hi;
    r.lo := Wrap(aLo - bLo);
    var borrow := if aLo < bLo then 1 else 0;
    r.hi := Wrap(aHi - bHi - borrow);
    assert aLo - bLo == -borrow * WORD + r.lo;
    Reassemble(aHi - bHi - borrow, r.lo);
  }

  // ------------------------------------------------------------ multiplication

  /** `_hi16(a)` and `_lo16(a)`. */
  method Halves(a: Word) returns (hi: int, lo: int)
    ensures a == hi * 65536 + lo && 0 <= hi < 65536 && 0 <= lo < 65536
  {
    Pow2Word();
    HalveIs(a, 16);
    LowBitsIs(a, 16, 65536);
    lo := LowBits(a, 16);
    hi := Shr(a, 16);
  }

  lemma HalfProductBound(x: int, y: int)
    requires 0 <= x < 65536 && 0 <= y < 65536
    ensures 0 <= x * y <= 65535 * 65535
  {
    MulMono(0, x, y);
    MulMono(x, 65535, y);
    MulMono(y, 65535, 65535);
  }

  lemma SchoolbookProduct(a1: int, a0: int, b1: int, b0: int)
    ensures (a1 * 65536 + a0) * (b1 * 65536 + b0)
         == a1 * b1 * WORD + (a0 * b1 + a1 * b0) * 65536 + a0 * b0
  {
    var x, y := a1 * 65536 + a0, b1 * 65536 + b0;
    assert x * y == a1 * 65536 * y + a0 * y;
    assert a1 * 65536 * y == a1 * b1 * WORD + a1 * b0 * 65536;
    assert a0 * y == a0 * b1 * 65536 + a0 * b0;
  }

  /** The exact 64-bit product of two words, through 16-bit halves. */
  method Mul32(r: Int64, a: Word, b: Word)
    modifies r
    ensures r.U() == a * b
  {
    var a1, a0 := Halves(a);
    var b1, b0 := Halves(b);
    HalfProductBound(a0, b0);
    HalfProductBound(a0, b1);
    HalfProductBound(a1, b0);
    HalfProductBound(a1, b1);
    var y0: Word, y1: Word, y2: Word, y3: Word := a0 * b0, a0 * b1, a1 * b0, a1 * b1;
    SchoolbookProduct(a1, a0, b1, b0);
    ProductBelow(a, b);
    AddPartials(r, y0, y1, y2, y3);
  }

  /** The second half of LL_MUL32: adding up the partial products. */
  method AddPartials(r: Int64, p0: Word, p1: Word, p2: Word, p3: Word)
    requires p1 <= 65535 * 65535 && p2 <= 65535 * 65535
    requires p3 * WORD + (p1 + p2) * 65536 + p0 < TWO64
    modifies r
    ensures r.U() == p3 * WORD + (p1 + p2) * 65536 + p0
  {
    var y1: int, y3: int := p1, p3;
    var h0, l0 := Halves(p0);
    WrapOnce(y1 + h0);
    y1 := Wrap(y1 + h0); // stays below the word size
    WrapOnce(y1 + p2);
    y1 := Wrap(y1 + p2); // may wrap
    assert y1 == p1 + h0 + p2 - (if p1 + h0 + p2 < WORD then 0 else WORD);
    WrapOnce(y3 + 65536);
    if y1 < p2 {
      y3 := Wrap(y3 + 65536); // bit 48 of the product
    }
    var h1, l1 := Halves(y1);
    CarryChain(p0, p1, p2, p3, h0, l0, h1, l1);
    WrapOnce(l1 * 65536);
    WrapOnce(l1 * 65536 + l0);
    WrapOnce(y3 + h1);
    r.lo := Wrap(Wrap(l1 * 65536) + l0);
    r.hi := Wrap(y3 + h1);
  }

  lemma ProductBelow(a: Word, b: Word)
    ensures 0 <= a * b < TWO64
  {
    MulMono(a, WORD - 1, b);
    MulMono(b, WORD - 1, WORD - 1);
    MulMono(0, a, b);
  }

  /**
   The additions of LL_MUL32 on the partial products p0 to p3 of the 16-bit halves:
   the first cannot carry, and the carry of the second belongs to bit 48.
   */
  lemma CarryChain(p0: int, p1: int, p2: int, p3: int, h0: int, l0: int, h1: int, l1: int)
    requires 0 <= p1 <= 65535 * 65535 && 0 <= p2 <= 65535 * 65535 && 0 <= p3
    requires p0 == h0 * 65536 + l0 && 0 <= h0 < 65536 && 0 <= l0 < 65536
    requires h1 * 65536 + l1 == p1 + h0 + p2 - (if p1 + h0 + p2 < WORD then 0 else WORD)
    requires 0 <= h1 < 65536 && 0 <= l1 < 65536
    requires p3 * WORD + (p1 + p2) * 65536 + p0 < TWO64
    ensures p1 + h0 < WORD
    ensures var carry := if h1 * 65536 + l1 < p2 then 65536 else 0;
            (p3 + carry + h1) * WORD + (l1 * 65536 + l0) == p3 * WORD + (p1 + p2) * 65536 + p0
            && p3 + carry + h1 < WORD
  {
  }

  lemma WrapAdd(x: int, y: int)
    ensures Wrap(Wrap(x) + y) == Wrap(x + y)
  {
    var q := x / WORD;
    var s := Wrap(x) + y;
    DivModUnique(x + y, WORD, s / WORD + q, s % WORD);
  }

  lemma WrapCross(x: int, y: int, z: int)
    ensures Wrap(z + Wrap(Wrap(x) + Wrap(y))) == Wrap(x + y + z)
  {
    WrapAdd(x, Wrap(y));
    WrapAdd(y, x);
    WrapAdd(x + y, z);
  }

  method Mul(r: Int64, a: Int64, b: Int64)
    modifies r
    ensures r.U() == Mod64(old(a.U()) * old(b.U()))
  {
    var aLo: int, aHi: int, bLo: int, bHi: int := a.lo, a.hi, b.lo, b.hi;
    Mul32(r, aLo, bLo);
    ghost var pLo, pHi := r.lo, r.hi;
    var cross := Wrap(Wrap(aHi * bLo) + Wrap(aLo * bHi));
    r.hi := Wrap(r.hi + cross);
    WrapCross(aHi * bLo, aLo * bHi, pHi);
    WideProduct(aHi, aLo, bHi, bLo, pHi, pLo);
  }

  lemma WideProduct(aHi: Word, aLo: Word, bHi: Word, bLo: Word, pHi: Word, pLo: Word)
    requires pHi * WORD + pLo == aLo * bLo
    ensures Mod64((aHi * WORD + aLo) * (bHi * WORD + bLo))
         == Wrap(aHi * bLo + aLo * bHi + pHi) * WORD + pLo
  {
    var x, y := aHi * WORD + aLo, bHi * WORD + bLo;
    var cross := aHi * bLo + aLo * bHi + pHi;
    assert x * y == aHi * WORD * y + aLo * y;
    assert aHi * WORD * y == aHi * bHi * TWO64 + aHi * bLo * WORD;
    assert aLo * y == aLo * bHi * WORD + aLo * bLo;
    assert x * y == aHi * bHi * TWO64 + (cross * WORD + pLo);
    Reassemble(cross, pLo);
    var z := cross * WORD + pLo;
    DivModUnique(x * y, TWO64, aHi * bHi + z / TWO64, z % TWO64);
  }

  // ------------------------------------------------------------------ division

  /**
   The unsigned division routine behind LL_UDIVMOD, whose body prlong.h does not
   show; this one has the meaning the native branch gives the macro.
   */
  method UDivMod(qp: Int64?, rp: Int64?, a: Int64, b: Int64)
    requires b.U() != 0
    requires qp == null || qp != rp
    modifies if qp == null then {} else {qp}, if rp == null then {} else {rp}
    ensures qp != null ==> qp.U() == old(a.U()) / old(b.U())
    ensures rp != null ==> rp.U() == old(a.U()) % old(b.U())
  {
    var q, m := a.U() / b.U(), a.U() % b.U();
    QuotientAtMost(a.U(), b.U());
    if qp != null {
      qp.lo, qp.hi := q % WORD, q / WORD;
    }
    if rp != null {
      rp.lo, rp.hi := m % WORD, m / WORD;
    }
  }

  lemma QuotientAtMost(x: nat, d: nat)
    requires 1 <= d
    ensures 0 <= x / d <= x
  {
    MulMono(1, d, x / d);
    assert x == d * (x / d) + x % d;
  }

  /** The operand LL_DIV and LL_MOD divide with: the magnitude, as unsigned. */
  method Magnitude(a: Int64) returns (m: Int64)
    ensures fresh(m) && m.U() == Abs(a.S())
  {
    m := new Int64(a.lo, a.hi);
    SignedMod(a);
    if Signed(a.hi) < 0 {
      Neg(m, a);
      DivModUnique(-a.U(), TWO64, -1, TWO64 - a.U());
    }
  }

  method Div(r: Int64, a: Int64, b: Int64)
    requires b.U() != 0
    modifies r
    ensures r.U() == Mod64(TruncDiv(old(a.S()), old(b.S())))
  {
    SignedMod(b);
    ghost var x, y := a.S(), b.S();
    var negative := (Signed(a.hi) < 0) != (Signed(b.hi) < 0);
    var aMag := Magnitude(a);
    var bMag := Magnitude(b);
    UDivMod(r, null, aMag, bMag);
    DivModUnique(r.U(), TWO64, 0, r.U());
    if negative {
      Neg(r, r);
    }
  }

  method Mod(r: Int64, a: Int64, b: Int64)
    requires b.U() != 0
    modifies r
    ensures r.U() == Mod64(TruncMod(old(a.S()), old(b.S())))
  {
    SignedMod(b);
    var negative := Signed(a.hi) < 0;
    var aMag := Magnitude(a);
    var bMag := Magnitude(b);
    UDivMod(null, r, aMag, bMag);
    DivModUnique(r.U(), TWO64, 0, r.U());
    if negative {
      Neg(r, r);
    }
  }

  /**
   Quotient and remainder recombine to the dividend, the remainder is smaller than
   the divisor and has the sign of the dividend, and no other pair does this.
   */
  lemma TruncDivMod(x: int, y: int, q: int, m: int)
    requires y != 0
    ensures (q == TruncDiv(x, y) && m == TruncMod(x, y))
       <==> (x == q * y + m && Abs(m) < Abs(y) && (m == 0 || (m < 0) == (x < 0)))
  {
    TruncRecombines(x, y);
    if x == q * y + m && Abs(m) < Abs(y) && (m == 0 || (m < 0) == (x < 0)) {
      var q' := if (x < 0) == (y < 0) then q else -q;
      SignedProduct(x, y, q, q');
      DivModUnique(Abs(x), Abs(y), q', Abs(m));
    }
  }

  lemma TruncRecombines(x: int, y: int)
    requires y != 0
    ensures x == TruncDiv(x, y) * y + TruncMod(x, y)
    ensures Abs(TruncMod(x, y)) < Abs(y)
    ensures TruncMod(x, y) == 0 || (TruncMod(x, y) < 0) == (x < 0)
  {
    var ax, ay := Abs(x), Abs(y);
    NatDivMod(ax, ay);
    Resign(x, y, ax / ay, ax % ay);
  }

  lemma Resign(x: int, y: int, aq: int, am: int)
    requires Abs(x) == aq * Abs(y) + am
    ensures x == (if (x < 0) == (y < 0) then aq else -aq) * y + (if x < 0 then -am else am)
  {
    SignedProduct(x, y, if (x < 0) == (y < 0) then aq else -aq, aq);
  }

  lemma SignedProduct(x: int, y: int, q: int, q': int)
    requires q' == if (x < 0) == (y < 0) then q else -q
    ensures q * y == if x < 0 then -(q' * Abs(y)) else q' * Abs(y)
  {
  }

  lemma MulMod(x: int, y: int)
    ensures Mod64(Mod64(x) * y) == Mod64(x * y)
  {
    var k := x / TWO64;
    var z := Mod64(x) * y;
    assert x * y == k * y * TWO64 + z;
    DivModUnique(x * y, TWO64, k * y + z / TWO64, z % TWO64);
  }

  lemma AddMod(x: int, y: int)
    ensures Mod64(Mod64(x) + y) == Mod64(x + y)
  {
    var z := Mod64(x) + y;
    DivModUnique(x + y, TWO64, x / TWO64 + z / TWO64, z % TWO64);
  }

  /** (a / b) * b + a % b is a again, for every a and every b other than zero. */
  method DivModRecombine(a: Int64, b: Int64) returns (r: Int64)
    requires b.U() != 0
    ensures fresh(r) && r.U() == a.U()
  {
    SignedMod(a);
    SignedMod(b);
    var q := new Int64(0, 0);
    var m := new Int64(0, 0);
    r := new Int64(0, 0);
    Div(q, a, b);
    Mod(m, a, b);
    Mul(r, q, b);
    Add(r, r, m);
    RecombineMod(a.S(), b.S());
  }

  lemma RecombineMod(x: int, y: int)
    requires y != 0
    ensures Mod64(Mod64(Mod64(TruncDiv(x, y)) * Mod64(y)) + Mod64(TruncMod(x, y))) == Mod64(x)
  {
    var q, m := TruncDiv(x, y), TruncMod(x, y);
    MulMod(q, Mod64(y));
    MulMod(y, q);
    AddMod(q * y, Mod64(m));
    AddMod(m, q * y);
    TruncRecombines(x, y);
  }

  // -------------------------------------------------------------------- shifts

  lemma Low5(b: nat)
    ensures LowBits(b, 5) == b % 32
  {
    Pow2Word();
    LowBitsIs(b, 5, 32);
  }

  /** `b & 31`, the count the compiler sees. */
  method Masked(b: nat) returns (count: nat)
    requires b < 64
    ensures count == if b < 32 then b else b - 32
  {
    Low5(b);
    if b < 32 {
      ModSmall(b, 32);
    } else {
      DivModUnique(b, 32, 1, b - 32);
    }
    count := LowBits(b, 5);
  }

  /** `(x << left) | (y >> right)` for counts that add up to 32. */
  method ShiftedOr(x: Word, left: nat, y: Word, right: nat) returns (w: Word)
    requires left + right == 32
    ensures w == Shl(x, left) + Shr(y, right)
  {
    JoinIsSum(x, y, left, right);
    w := BitOr(Shl(x, left), Shr(y, right));
  }

  /** Double distributes over the two words. */
  lemma {:induction false} DoublePair(hi: int, lo: int, b: nat)
    ensures Double(hi * WORD + lo, b) == Double(hi, b) * WORD + Double(lo, b)
  {
    if b != 0 {
      DoublePair(hi, lo, b - 1);
    }
  }

  method ShiftLeft(r: Int64, a: Int64, b: nat)
    requires b < 64
    modifies r
    ensures r.U() == Mod64(Double(old(a.U()), b))
  {
    if b != 0 {
      var aLo: Word, aHi: Word := a.lo, a.hi;
      if b < 32 {
        var count := Masked(b);
        assert count == b;
        ShiftLeftAcross(aHi, aLo, b);
        r.lo := Shl(aLo, count);
        r.hi := ShiftedOr(aHi, count, aLo, 32 - b);
      } else {
        var count := Masked(b);
        assert count == b - 32;
        ShiftLeftWhole(aHi, aLo, aLo, b);
        r.lo := 0;
        r.hi := Shl(aLo, count);
      }
    } else {
      ModSmall(a.U(), TWO64);
      r.lo, r.hi := a.lo, a.hi;
    }
  }

  lemma ShiftLeftAcross(hi: Word, lo: Word, b: nat)
    requires b < 32
    ensures Mod64(Double(hi * WORD + lo, b)) == (Shl(hi, b) + Shr(lo, 32 - b)) * WORD + Shl(lo, b)
  {
    DoublePair(hi, lo, b);
    ShlSplit(hi, hi, b, 32 - b);
    ShlSplit(lo, lo, b, 32 - b);
    JoinFits(hi, lo, b, 32 - b);
    CarryIntoHigh(Double(hi, b), Double(lo, b), Halve(hi, 32 - b), Shl(hi, b), Shr(lo, 32 - b), Shl(lo, b));
  }

  lemma CarryIntoHigh(dHi: int, dLo: int, top: int, hi: int, carry: int, lo: Word)
    requires 0 <= hi + carry < WORD
    requires dHi == top * WORD + hi && dLo == carry * WORD + lo
    ensures Mod64(dHi * WORD + dLo) == (hi + carry) * WORD + lo
  {
    Reassemble(dHi + carry, lo);
    DivModUnique(dHi + carry, WORD, top, hi + carry);
  }

  lemma ShiftLeftWhole(hi: int, lo: int, w: Word, b: nat)
    requires 32 <= b <= 64 && w == Wrap(lo)
    ensures Mod64(Double(hi * WORD + lo, b)) == Shl(w, b - 32) * WORD
  {
    var c := b - 32;
    DoubleAdd(hi * WORD + lo, c, 32);
    WholeWord(Double(hi * WORD + lo, c));
    DoublePair(hi, lo, c);
    ShlSplit(lo, w, c, 32 - c);
    LowWordUp(Double(hi, c), Double(lo, c), Halve(lo, 32 - c), Shl(w, c));
  }

  lemma LowWordUp(dHi: int, dLo: int, top: int, low: Word)
    requires dLo == top * WORD + low
    ensures Mod64((dHi * WORD + dLo) * WORD) == low * WORD
  {
    Reassemble(dHi * WORD + dLo, 0);
    DivModUnique(dHi * WORD + dLo, WORD, dHi + top, low);
  }

  /** One right shift across the two words; h is the high word, signed or not. */
  lemma RightShiftAcross(h: int, w: Word, lo: Word, b: nat)
    requires 0 < b < 32 && w == Wrap(h)
    ensures Halve(h * WORD + lo, b) == Halve(h, b) * WORD + Shl(w, 32 - b) + Shr(lo, b)
  {
    ShlLow(h, w, 32 - b, b);
    HalveIs(h * WORD + lo, b);
    HalveIs(h, b);
    HalveIs(lo, b);
    RightShiftArith(h, lo, Pow2(b), Pow2(32 - b), Halve(h, b), Halve(lo, b), Shl(w, 32 - b));
  }

  lemma RightShiftArith(h: int, lo: int, p: int, c: int, q: int, ql: int, s: int)
    requires 1 <= p && c * p == WORD && q == h / p && ql == lo / p && s == (h % p) * c
    ensures (h * WORD + lo) / p == q * WORD + s + ql
  {
    var m, ml := h % p, lo % p;
    MulDistrib(q * WORD + m * c, ql, p);
    MulDistrib(q * WORD, m * c, p);
    MulAssoc(m, c, p);
    SwapFactors(q, WORD, p);
    assert h == q * p + m && lo == ql * p + ml;
    DivModUnique(h * WORD + lo, p, q * WORD + m * c + ql, ml);
  }

  lemma SwapFactors(x: int, y: int, z: int)
    ensures x * y * z == x * z * y
  {
    MulAssoc(x, y, z);
    MulAssoc(x, z, y);
  }

  lemma RightShiftWhole(h: int, lo: Word, b: nat)
    requires 32 <= b
    ensures Halve(h * WORD + lo, b) == Halve(h, b - 32)
  {
    HalveAdd(h * WORD + lo, 32, b - 32);
    WholeWord(h * WORD + lo);
    DivModUnique(h * WORD + lo, WORD, h, lo);
  }

  method UShiftRight(r: Int64, a: Int64, b: nat)
    requires b < 64
    modifies r
    ensures r.U() == Halve(old(a.U()), b)
  {
    if b != 0 {
      var aLo: Word, aHi: Word := a.lo, a.hi;
      assert old(a.U()) == aHi * WORD + aLo;
      if b < 32 {
        var count := Masked(b);
        assert count == b;
        RightShiftAcross(aHi, aHi, aLo, b);
        r.lo := ShiftedOr(aHi, 32 - b, aLo, count);
        r.hi := Shr(aHi, count);
        assert r.U() == Halve(aHi, b) * WORD + r.lo;
      } else {
        var count := Masked(b);
        assert count == b - 32;
        RightShiftWhole(aHi, aLo, b);
        r.lo := Shr(aHi, count);
        r.hi := 0;
        assert r.U() == r.lo;
      }
    } else {
      assert Halve(a.U(), 0) == a.U();
      r.lo, r.hi := a.lo, a.hi;
    }
  }

  /** `(PRInt32)x >> k`. */
  method Sar(x: Word, k: nat) returns (w: Word)
    ensures Signed(w) == Halve(Signed(x), k)
  {
    w := Wrap(Halve(Signed(x), k));
    SignedWrap(Halve(Signed(x), k));
  }

  /** `(PRInt32)x >> 31`: the sign alone is left. */
  method SignWord(x: Word) returns (w: Word)
    ensures Signed(w) == if Signed(x) < 0 then -1 else 0
  {
    w := Sar(x, 31);
    Pow2Word();
    HalveIs(Signed(x), 31);
  }

  lemma SignExtend(hi: Word, lo: Word, q: int)
    requires Signed(lo) == q && Signed(hi) == if q < 0 then -1 else 0
    ensures Signed(hi) * WORD + lo == q
  {
  }

  lemma WrapSigned(x: Word)
    ensures Wrap(Signed(x)) == x
  {
    WrapOnce(Signed(x));
  }

  lemma SignedWrap(q: int)
    requires -0x8000_0000 <= q < 0x8000_0000
    ensures Signed(Wrap(q)) == q
  {
    WrapOnce(q);
  }

  method ShiftRight(r: Int64, a: Int64, b: nat)
    requires b < 64
    modifies r
    ensures r.S() == Halve(old(a.S()), b)
  {
    if b != 0 {
      var aLo: Word, aHi: Word := a.lo, a.hi;
      if b < 32 {
        var count := Masked(b);
        r.lo := ShiftedOr(aHi, 32 - b, aLo, count);
        r.hi := Sar(aHi, count);
        SignedAcross(aHi, aLo, b, r.hi, r.lo);
      } else {
        var count := Masked(b);
        r.lo := Sar(aHi, count);
        r.hi := SignWord(aHi);
        SignedWhole(aHi, aLo, b, r.hi, r.lo);
      }
    } else {
      r.lo, r.hi := a.lo, a.hi;
    }
  }

  lemma SignedAcross(aHi: Word, aLo: Word, b: nat, hi: Word, lo: Word)
    requires 0 < b < 32 && Signed(hi) == Halve(Signed(aHi), b) && lo == Shl(aHi, 32 - b) + Shr(aLo, b)
    ensures Signed(hi) * WORD + lo == Halve(Signed(aHi) * WORD + aLo, b)
  {
    WrapSigned(aHi);
    RightShiftAcross(Signed(aHi), aHi, aLo, b);
  }

  lemma SignedWhole(aHi: Word, aLo: Word, b: nat, hi: Word, lo: Word)
    requires 32 <= b < 64 && Signed(lo) == Halve(Signed(aHi), b - 32)
    requires Signed(hi) == if Signed(aHi) < 0 then -1 else 0
    ensures Signed(hi) * WORD + lo == Halve(Signed(aHi) * WORD + aLo, b)
  {
    RightShiftWhole(Signed(aHi), aLo, b);
    SignExtend(hi, lo, Halve(Signed(aHi), b - 32));
  }

  /**
   LL_ISHL on a PRInt32 `a`. It multiplies the signed value by 2^b, except that a
   shift by zero does not extend the sign.
   */
  method ShiftLeftInt(r: Int64, a: Word, b: nat)
    requires b < 64
    modifies r
    ensures b == 0 ==> r.U() == a
    ensures r.U() == Mod64(Double(Signed(a), b)) <==> (b != 0 || Signed(a) >= 0)
  {
    if b != 0 {
      if b < 32 {
        var count := Masked(b);
        assert count == b;
        r.lo := Shl(a, count);
        r.hi := Sar(a, 32 - b);
        ShlSplit(Signed(a), a, b, 32 - b);
        WrapOnce(Halve(Signed(a), 32 - b));
        Reassemble(Halve(Signed(a), 32 - b), r.lo);
      } else {
        var count := Masked(b);
        assert count == b - 32;
        r.lo := 0;
        r.hi := Shl(a, count);
        ShiftLeftWhole(0, Signed(a), a, b);
      }
    } else {
      r.lo := a;
      r.hi := 0;
      Reassemble(Signed(a) / WORD, a);
    }
  }

  // ----------------------------------------------- composing shifts of a value

  /** Left shifts compose: two truncations lose nothing that one would keep. */
  lemma ShiftLeftCompose(x: int, b: nat, c: nat)
    ensures Mod64(Double(Mod64(Double(x, b)), c)) == Mod64(Double(x, b + c))
  {
    DoubleAdd(x, b, c);
    DoubleIs(Double(x, b), c);
    DoubleIs(Mod64(Double(x, b)), c);
    MulMod(Double(x, b), Pow2(c));
  }

  /** A left shift undone by the unsigned right shift keeps the low 64 - b bits. */
  lemma ShiftLeftThenRight(x: nat, b: nat)
    requires b < 64
    ensures Halve(Mod64(Double(x, b)), b) == x % Pow2(64 - b)
  {
    Pow2Word();
    Pow2Add(32, 32);
    Pow2Add(64 - b, b);
    DoubleIs(x, b);
    HalveIs(Mod64(Double(x, b)), b);
    var c, p := Pow2(64 - b), Pow2(b);
    MulSplit(x, p, c);
    DivModUnique(x * p, TWO64, x / c, (x % c) * p);
    DivModUnique((x % c) * p, p, x % c, 0);
  }
}
