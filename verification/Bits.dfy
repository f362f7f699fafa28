/** Powers of two and the bits of natural numbers: the meaning of the shifts, masks and
    bitwise operators that the modelled code applies to its unsigned words.

    A shift multiplies or divides by a power of two, the low bits are a remainder, and the
    bitwise operators are recursive over the binary digits. The lemmas relate the three, so
    that masks can be read as fields of a word and fields can be joined and taken apart.
  */
module Bits {

  function Pow2(n: nat): (p: nat)
    ensures p > 0
  {
    if n == 0 then 1 else 2 * Pow2(n - 1)
  }

  /** x shifted left, without a word size. */
  function Shl(x: nat, k: nat): nat {
    if k == 0 then x else 2 * Shl(x, k - 1)
  }

  /** x shifted right. */
  function Shr(x: nat, k: nat): nat {
    if k == 0 then x else Shr(x / 2, k - 1)
  }

  /** The low k bits of x: x as an unsigned word of k bits. A negative x is taken in two's
      complement, which is what halving with a remainder of 0 or 1 gives. */
  function Low(x: int, k: nat): nat
    decreases k, x
  {
    if k == 0 then 0 else 2 * Low(x / 2, k - 1) + x % 2
  }

  /** The n bits of x from bit lo on. */
  function Field(x: nat, lo: nat, n: nat): nat {
    Low(Shr(x, lo), n)
  }

  predicate Bit(x: nat, i: nat)
    decreases i
  {
    if i == 0 then x % 2 == 1 else Bit(x / 2, i - 1)
  }

  function And(x: nat, y: nat): nat {
    if x == 0 || y == 0 then 0
    else 2 * And(x / 2, y / 2) + (if x % 2 == 1 && y % 2 == 1 then 1 else 0)
  }

  function Or(x: nat, y: nat): nat {
    if x == 0 then y else if y == 0 then x
    else 2 * Or(x / 2, y / 2) + (if x % 2 == 1 || y % 2 == 1 then 1 else 0)
  }

  /** The complement within n bits. */
  function Not(n: nat, x: nat): nat
    requires x < Pow2(n)
  {
    Pow2(n) - 1 - x
  }

  /** The number whose ones are exactly the bits lo .. hi-1. */
  function Ones(lo: nat, hi: nat): nat
    requires lo <= hi
  {
    Shl(Pow2(hi - lo) - 1, lo)
  }

  // ---------- powers and shifts ----------

  lemma {:induction false} Pow2Le(a: nat, b: nat)
    requires a <= b
    ensures Pow2(a) <= Pow2(b)
  {
    if a < b {
      Pow2Le(a, b - 1);
    }
  }

  lemma Pow2Lt(a: nat, b: nat)
    requires a < b
    ensures Pow2(a) < Pow2(b)
  {
    Pow2Le(a, b - 1);
  }

  lemma {:induction false} Pow2Add(a: nat, b: nat)
    ensures Pow2(a + b) == Pow2(a) * Pow2(b)
  {
    if a == 0 {
    } else {
      Pow2Add(a - 1, b);
    }
  }

  lemma {:induction false} ShlIsProduct(x: nat, k: nat)
    ensures Shl(x, k) == x * Pow2(k)
  {
    if k == 0 {
    } else {
      ShlIsProduct(x, k - 1);
    }
  }

  lemma {:induction false} ShlAdd(x: nat, y: nat, k: nat)
    ensures Shl(x + y, k) == Shl(x, k) + Shl(y, k)
  {
    if k == 0 {
    } else {
      ShlAdd(x, y, k - 1);
    }
  }

  lemma {:induction false} ShlShl(x: nat, a: nat, b: nat)
    ensures Shl(Shl(x, a), b) == Shl(x, a + b)
  {
    if b == 0 {
    } else {
      ShlShl(x, a, b - 1);
    }
  }

  lemma {:induction false} ShlPow2(n: nat, k: nat)
    ensures Shl(Pow2(n), k) == Pow2(n + k)
  {
    if k == 0 {
    } else {
      ShlPow2(n, k - 1);
    }
  }

  lemma {:induction false} ShlZero(k: nat)
    ensures Shl(0, k) == 0
  {
    if k == 0 {
    } else {
      ShlZero(k - 1);
    }
  }

  /** A larger number stays larger by a whole unit when shifted. */
  lemma {:induction false} ShlGap(x: nat, y: nat, k: nat)
    requires x < y
    ensures Shl(x, k) + Pow2(k) <= Shl(y, k)
  {
    if k == 0 {
    } else {
      ShlGap(x, y, k - 1);
    }
  }

  /** A field of n bits, moved up by k with something below it, fits n + k bits. */
  lemma ShlBound(x: nat, k: nat, n: nat)
    requires x < Pow2(n)
    ensures Shl(x, k) + Pow2(k) <= Pow2(n + k)
  {
    ShlGap(x, Pow2(n), k);
    ShlPow2(n, k);
  }

  lemma {:induction false} LowBound(x: int, k: nat)
    ensures Low(x, k) < Pow2(k)
    decreases k
  {
    if k == 0 {
    } else {
      LowBound(x / 2, k - 1);
    }
  }

  lemma {:induction false} Parts(x: nat, k: nat)
    ensures x == Shl(Shr(x, k), k) + Low(x, k)
  {
    if k == 0 {
    } else {
      Parts(x / 2, k - 1);
    }
  }

  /** High and low part of a number are unique. */
  lemma {:induction false} Join(q: nat, k: nat, r: nat)
    requires r < Pow2(k)
    ensures Shr(Shl(q, k) + r, k) == q && Low(Shl(q, k) + r, k) == r
  {
    if k == 0 {
    } else {
      var x := Shl(q, k) + r;
      assert x / 2 == Shl(q, k - 1) + r / 2 && x % 2 == r % 2;
      Join(q, k - 1, r / 2);
    }
  }

  lemma JoinZero(q: nat, k: nat)
    ensures Shr(Shl(q, k), k) == q && Low(Shl(q, k), k) == 0
  {
    Join(q, k, 0);
  }

  lemma LowOfSmall(x: nat, k: nat)
    requires x < Pow2(k)
    ensures Low(x, k) == x && Shr(x, k) == 0
  {
    ShlZero(k);
    Join(0, k, x);
  }

  lemma ShrBound(x: nat, k: nat, n: nat)
    requires x < Pow2(n + k)
    ensures Shr(x, k) < Pow2(n)
  {
    Parts(x, k);
    LowBound(x, k);
    if Shr(x, k) >= Pow2(n) {
      ShlPow2(n, k);
      if Shr(x, k) > Pow2(n) {
        ShlGap(Pow2(n), Shr(x, k), k);
      }
      assert false;
    }
  }

  lemma {:induction false} ShrShr(x: nat, j: nat, k: nat)
    ensures Shr(Shr(x, j), k) == Shr(x, j + k)
  {
    if j == 0 {
    } else {
      ShrShr(x / 2, j - 1, k);
    }
  }

  lemma {:induction false} ShrOfLow(x: nat, j: nat, k: nat)
    ensures Shr(Low(x, j + k), j) == Low(Shr(x, j), k)
  {
    if j == 0 {
    } else {
      assert Low(x, j + k) / 2 == Low(x / 2, j - 1 + k);
      ShrOfLow(x / 2, j - 1, k);
    }
  }

  /** Keeping fewer low bits of a word. */
  lemma {:induction false} LowLow(x: int, k: nat, m: nat)
    requires k <= m
    ensures Low(Low(x, m), k) == Low(x, k)
    decreases k
  {
    if k == 0 {
    } else {
      assert Low(x, m) / 2 == Low(x / 2, m - 1);
      LowLow(x / 2, k - 1, m - 1);
    }
  }

  lemma {:induction false} LowShl(x: nat, k: nat, m: nat)
    ensures Low(Shl(x, k), k + m) == Shl(Low(x, m), k)
  {
    if k == 0 {
    } else {
      LowShl(x, k - 1, m);
    }
  }

  /** Quotient and remainder are unique. */
  lemma DivMod(q: int, d: int, r: int)
    requires 0 <= r < d
    ensures (q * d + r) / d == q && (q * d + r) % d == r
  {
    var x := q * d + r;
    assert x == (x / d) * d + x % d;
    if x / d > q {
      MulLe(q + 1, x / d, d);
      assert false;
    }
    if x / d < q {
      MulLe(x / d + 1, q, d);
      assert false;
    }
  }

  lemma RemainderOfSum(x: int, y: int, d: nat)
    requires d > 0
    ensures (x % d + y) % d == (x + y) % d
  {
    var r := x % d + y;
    var (p, q) := (x / d, r / d);
    assert x == p * d + x % d && r == q * d + r % d;
    assert (p + q) * d == p * d + q * d;
    DivMod(p + q, d, r % d);
  }

  lemma RemainderCancels(b: int, x: nat, n: nat, d: nat)
    requires x <= n < d && (b + x) % d == (b + n) % d
    ensures x == n
  {
    var (p, q) := ((b + x) / d, (b + n) / d);
    assert b + x == p * d + (b + x) % d && b + n == q * d + (b + n) % d;
    assert n - x == (q - p) * d by {
      assert (q - p) * d == q * d - p * d;
    }
    if q - p > 0 {
      MulLe(1, q - p, d);
    } else if q - p < 0 {
      MulLe(q - p, -1, d);
    }
  }

  lemma LowOfSum(x: int, y: int, k: nat)
    ensures Low(Low(x, k) + y, k) == Low(x + y, k)
  {
    LowIsRemainder(x, k);
    LowIsRemainder(Low(x, k) + y, k);
    LowIsRemainder(x + y, k);
    RemainderOfSum(x, y, Pow2(k));
  }

  /** Adding to numbers that fit keeps them apart, even where it wraps around. */
  lemma LowCancels(b: int, x: nat, n: nat, k: nat)
    requires x <= n < Pow2(k)
    ensures Low(b + x, k) == Low(b + n, k) <==> x == n
  {
    LowIsRemainder(b + x, k);
    LowIsRemainder(b + n, k);
    if Low(b + x, k) == Low(b + n, k) {
      RemainderCancels(b, x, n, Pow2(k));
    }
  }

  lemma MulLe(a: int, b: int, c: nat)
    requires a <= b
    ensures a * c <= b * c
  {
  }

  /** Wrapping is taking the remainder. */
  lemma {:induction false} LowIsRemainder(x: int, k: nat)
    ensures Low(x, k) == x % Pow2(k)
    decreases k
  {
    if k == 0 {
    } else {
      LowIsRemainder(x / 2, k - 1);
      LowBound(x, k);
      RemainderOfHalf(x, Pow2(k - 1));
    }
  }

  lemma RemainderOfHalf(x: int, d: int)
    requires d > 0
    ensures x % (2 * d) == 2 * (x / 2 % d) + x % 2
  {
    var h := x / 2;
    var q, r := h / d, h % d;
    assert h == q * d + r;
    assert x == q * (2 * d) + (2 * r + x % 2);
    DivMod(q, 2 * d, 2 * r + x % 2);
  }

  // ---------- bit by bit ----------

  lemma {:induction false} ZeroBit(i: nat)
    ensures !Bit(0, i)
  {
    if i == 0 {
    } else {
      ZeroBit(i - 1);
    }
  }

  lemma {:induction false} AndBit(x: nat, y: nat, i: nat)
    ensures Bit(And(x, y), i) <==> Bit(x, i) && Bit(y, i)
    decreases i
  {
    ZeroBit(i);
    if x != 0 && y != 0 {
      assert And(x, y) / 2 == And(x / 2, y / 2);
      if i > 0 {
        AndBit(x / 2, y / 2, i - 1);
      }
    }
  }

  lemma {:induction false} OrBit(x: nat, y: nat, i: nat)
    ensures Bit(Or(x, y), i) <==> Bit(x, i) || Bit(y, i)
    decreases i
  {
    ZeroBit(i);
    if x != 0 && y != 0 {
      assert Or(x, y) / 2 == Or(x / 2, y / 2);
      if i > 0 {
        OrBit(x / 2, y / 2, i - 1);
      }
    }
  }

  lemma {:induction false} NotBit(n: nat, x: nat, i: nat)
    requires x < Pow2(n)
    ensures Bit(Not(n, x), i) <==> i < n && !Bit(x, i)
    decreases n
  {
    if n == 0 {
      ZeroBit(i);
    } else {
      assert Not(n, x) / 2 == Not(n - 1, x / 2);
      if i > 0 {
        NotBit(n - 1, x / 2, i - 1);
      }
    }
  }

  /** Two numbers with the same bits are the same. */
  lemma {:induction false} SameBits(x: nat, y: nat)
    requires forall i: nat :: Bit(x, i) <==> Bit(y, i)
    ensures x == y
    decreases x + y
  {
    if x != y {
      assert Bit(x, 0) <==> Bit(y, 0);
      forall i: nat ensures Bit(x / 2, i) <==> Bit(y / 2, i) {
        assert Bit(x, i + 1) <==> Bit(y, i + 1);
      }
      SameBits(x / 2, y / 2);
      assert false;
    }
  }

  lemma {:induction false} ShlBit(x: nat, k: nat, i: nat)
    ensures Bit(Shl(x, k), i) <==> i >= k && Bit(x, i - k)
  {
    if k > 0 && i > 0 {
      ShlBit(x, k - 1, i - 1);
    }
  }

  lemma {:induction false} ShrBit(x: nat, k: nat, i: nat)
    ensures Bit(Shr(x, k), i) <==> Bit(x, i + k)
  {
    if k == 0 {
    } else {
      ShrBit(x / 2, k - 1, i);
    }
  }

  lemma {:induction false} LowBit(x: nat, k: nat, i: nat)
    ensures Bit(Low(x, k), i) <==> i < k && Bit(x, i)
    decreases k
  {
    if k == 0 {
      ZeroBit(i);
    } else if i > 0 {
      assert Low(x, k) / 2 == Low(x / 2, k - 1);
      LowBit(x / 2, k - 1, i - 1);
    }
  }

  /** The bits of a number put together from a high and a low part. */
  lemma {:induction false} JoinBit(q: nat, k: nat, r: nat, i: nat)
    requires r < Pow2(k)
    ensures Bit(Shl(q, k) + r, i) <==> if i < k then Bit(r, i) else Bit(q, i - k)
    decreases k
  {
    if k == 0 {
    } else {
      var x := Shl(q, k) + r;
      assert x / 2 == Shl(q, k - 1) + r / 2 && x % 2 == r % 2;
      if i > 0 {
        JoinBit(q, k - 1, r / 2, i - 1);
      }
    }
  }

  lemma HighBitsZero(x: nat, k: nat, i: nat)
    requires x < Pow2(k) && k <= i
    ensures !Bit(x, i)
  {
    LowOfSmall(x, k);
    LowBit(x, k, i);
  }

  lemma OnesBit(lo: nat, hi: nat, i: nat)
    requires lo <= hi
    ensures Bit(Ones(lo, hi), i) <==> lo <= i < hi
  {
    ShlBit(Pow2(hi - lo) - 1, lo, i);
    if i >= lo {
      NotBit(hi - lo, 0, i - lo);
      ZeroBit(i - lo);
    }
  }

  lemma FieldBit(x: nat, lo: nat, n: nat, i: nat)
    ensures Bit(Field(x, lo, n), i) <==> i < n && Bit(x, i + lo)
  {
    LowBit(Shr(x, lo), n, i);
    ShrBit(x, lo, i);
  }

  // ---------- masks ----------

  /** Masking with a run of ones cuts out a field. */
  lemma AndOnes(x: nat, lo: nat, hi: nat)
    requires lo <= hi
    ensures And(x, Ones(lo, hi)) == Shl(Field(x, lo, hi - lo), lo)
  {
    forall i: nat ensures Bit(And(x, Ones(lo, hi)), i) <==> Bit(Shl(Field(x, lo, hi - lo), lo), i) {
      AndBit(x, Ones(lo, hi), i);
      OnesBit(lo, hi, i);
      ShlBit(Field(x, lo, hi - lo), lo, i);
      if i >= lo {
        FieldBit(x, lo, hi - lo, i - lo);
      }
    }
    SameBits(And(x, Ones(lo, hi)), Shl(Field(x, lo, hi - lo), lo));
  }

  lemma AndLowOnes(x: nat, k: nat)
    ensures And(x, Ones(0, k)) == Low(x, k)
  {
    AndOnes(x, 0, k);
  }

  /** Or of parts that do not meet is their sum. */
  lemma OrJoin(q: nat, k: nat, r: nat)
    requires r < Pow2(k)
    ensures Or(Shl(q, k), r) == Shl(q, k) + r
  {
    forall i: nat ensures Bit(Or(Shl(q, k), r), i) <==> Bit(Shl(q, k) + r, i) {
      OrBit(Shl(q, k), r, i);
      ShlBit(q, k, i);
      JoinBit(q, k, r, i);
      if i >= k {
        HighBitsZero(r, k, i);
      }
    }
    SameBits(Or(Shl(q, k), r), Shl(q, k) + r);
  }

  /** Or of a high field and the field right below it. */
  lemma OrFields(s: nat, m: nat, w: nat, o: nat)
    requires m < Pow2(w)
    ensures Or(Shl(s, w + o), Shl(m, o)) == Shl(Shl(s, w) + m, o)
  {
    ShlBound(m, o, w);
    OrJoin(s, w + o, Shl(m, o));
    ShlShl(s, w, o);
    ShlAdd(Shl(s, w), m, o);
  }

  /** Selector and low bits or-ed with a field between them. */
  lemma OrMiddle(s: nat, m: nat, low: nat, w: nat, o: nat, top: nat)
    requires m < Pow2(w) && low < Pow2(o) && top == w + o
    ensures Or(Shl(m, o), Shl(s, top) + low) == Shl(Shl(s, w) + m, o) + low
  {
    Pow2Le(o, top);
    OrJoin(s, top, low);
    OrComm(Shl(m, o), Or(Shl(s, top), low));
    OrAssoc(Shl(s, top), low, Shl(m, o));
    OrComm(low, Shl(m, o));
    OrAssoc(Shl(s, top), Shl(m, o), low);
    OrFields(s, m, w, o);
    OrJoin(Shl(s, w) + m, o, low);
  }

  lemma OrAssoc(x: nat, y: nat, z: nat)
    ensures Or(Or(x, y), z) == Or(x, Or(y, z))
  {
    forall i: nat ensures Bit(Or(Or(x, y), z), i) <==> Bit(Or(x, Or(y, z)), i) {
      OrBit(Or(x, y), z, i);
      OrBit(x, y, i);
      OrBit(x, Or(y, z), i);
      OrBit(y, z, i);
    }
    SameBits(Or(Or(x, y), z), Or(x, Or(y, z)));
  }

  lemma OrComm(x: nat, y: nat)
    ensures Or(x, y) == Or(y, x)
  {
    forall i: nat ensures Bit(Or(x, y), i) <==> Bit(Or(y, x), i) {
      OrBit(x, y, i);
      OrBit(y, x, i);
    }
    SameBits(Or(x, y), Or(y, x));
  }

  lemma AndOfOr(x: nat, y: nat, z: nat)
    ensures And(x, Or(y, z)) == Or(And(x, y), And(x, z))
  {
    forall i: nat ensures Bit(And(x, Or(y, z)), i) <==> Bit(Or(And(x, y), And(x, z)), i) {
      AndBit(x, Or(y, z), i);
      OrBit(y, z, i);
      OrBit(And(x, y), And(x, z), i);
      AndBit(x, y, i);
      AndBit(x, z, i);
    }
    SameBits(And(x, Or(y, z)), Or(And(x, y), And(x, z)));
  }

  lemma {:induction false} OnesDifference(lo: nat, hi: nat)
    requires lo <= hi
    ensures Ones(lo, hi) == Pow2(hi) - Pow2(lo)
  {
    if lo == 0 {
    } else {
      OnesDifference(lo - 1, hi - 1);
    }
  }

  lemma SmallPowers()
    ensures Pow2(0) == 1 && Pow2(3) == 8 && Pow2(4) == 16 && Pow2(8) == 256
    ensures Pow2(12) == 0x1000 && Pow2(13) == 0x2000 && Pow2(16) == 0x1_0000
  {
    assert Pow2(3) == 8;
    assert Pow2(4) == 16;
    Pow2Add(4, 4);
    Pow2Add(8, 4);
    Pow2Add(8, 8);
    Pow2Add(12, 1);
  }

  lemma LargePowers()
    ensures Pow2(32) == 0x1_0000_0000
    ensures Pow2(48) == 0x1_0000_0000_0000
    ensures Pow2(51) == 0x8_0000_0000_0000
    ensures Pow2(63) == SIGN_BIT
    ensures Pow2(64) == WORD_LIMIT
  {
    SmallPowers();
    Pow2Add(16, 16);
    Pow2Add(32, 16);
    Pow2Add(48, 3);
    Pow2Add(48, 15);
    Pow2Add(8, 7);
    assert Pow2(7) == 128;
    Pow2Add(48, 16);
  }

  // ---------- the masks of the packed addresses ----------

  const ALL_ONES: nat := 0xFFFF_FFFF_FFFF_FFFF
  const SELECTOR_MASK: nat := 0xFFFF_0000_0000_0000
  const PROT_SELECTOR_MASK: nat := 0xFFF8_0000_0000_0000
  const SIZE_TYPE_MASK: nat := 0xFFF
  const SIGN_BIT: nat := 0x8000_0000_0000_0000
  const WORD_LIMIT: nat := 0x1_0000_0000_0000_0000
  const SELECTOR_SIZE_TYPE_MASK: nat := 0xFFFF_0000_0000_0FFF

  lemma OnesLiterals()
    ensures Ones(0, 12) == SIZE_TYPE_MASK && Ones(0, 16) == 0xFFFF && Ones(3, 16) == 0xFFF8
    ensures Ones(48, 64) == SELECTOR_MASK
    ensures Ones(51, 64) == PROT_SELECTOR_MASK
  {
    SmallPowers();
    LargePowers();
    OnesDifference(0, 12);
    OnesDifference(0, 16);
    OnesDifference(3, 16);
    OnesDifference(48, 64);
    OnesDifference(51, 64);
  }

  lemma ComplementLiterals()
    ensures Ones(0, 64) == ALL_ONES
    ensures Ones(0, 48) == ALL_ONES - SELECTOR_MASK
    ensures Ones(12, 64) == ALL_ONES - SIZE_TYPE_MASK
    ensures Ones(12, 48) == ALL_ONES - SELECTOR_SIZE_TYPE_MASK
  {
    SmallPowers();
    LargePowers();
    OnesDifference(0, 64);
    OnesDifference(0, 48);
    OnesDifference(12, 64);
    OnesDifference(12, 48);
  }

  lemma AndReal(x: nat)
    ensures And(x, 0xFFFF) == Low(x, 16)
  {
    OnesLiterals();
    AndLowOnes(x, 16);
  }

  lemma AndProt(x: nat)
    ensures And(x, 0xFFF8) == Shl(Field(x, 3, 13), 3)
  {
    OnesLiterals();
    AndOnes(x, 3, 16);
  }

  lemma AndSelectorMask(x: nat)
    ensures And(x, SELECTOR_MASK) == Shl(Field(x, 48, 16), 48)
  {
    OnesLiterals();
    AndOnes(x, 48, 64);
  }

  lemma AndProtSelectorMask(x: nat)
    ensures And(x, PROT_SELECTOR_MASK) == Shl(Field(x, 51, 13), 51)
  {
    OnesLiterals();
    AndOnes(x, 51, 64);
  }

  lemma AndSizeTypeMask(x: nat)
    ensures And(x, SIZE_TYPE_MASK) == Low(x, 12)
  {
    OnesLiterals();
    AndLowOnes(x, 12);
  }

  lemma AndAllOnes(x: nat)
    ensures And(x, ALL_ONES) == Low(x, 64)
  {
    ComplementLiterals();
    AndLowOnes(x, 64);
  }

  lemma AndNotSelector(x: nat)
    ensures And(x, ALL_ONES - SELECTOR_MASK) == Low(x, 48)
  {
    ComplementLiterals();
    AndLowOnes(x, 48);
  }

  lemma AndNotSizeType(x: nat)
    ensures And(x, ALL_ONES - SIZE_TYPE_MASK) == Shl(Field(x, 12, 52), 12)
  {
    ComplementLiterals();
    AndOnes(x, 12, 64);
  }

  lemma AndNotSelectorSizeType(x: nat)
    ensures And(x, ALL_ONES - SELECTOR_SIZE_TYPE_MASK) == Shl(Field(x, 12, 36), 12)
  {
    ComplementLiterals();
    AndOnes(x, 12, 48);
  }

  lemma SelectorSizeTypeIsOr()
    ensures SELECTOR_SIZE_TYPE_MASK == Or(Ones(48, 64), Ones(0, 12))
  {
    OnesLiterals();
    SmallPowers();
    Pow2Lt(12, 48);
    OrJoin(Pow2(16) - 1, 48, SIZE_TYPE_MASK);
  }

  lemma AndSelectorSizeType(x: nat)
    ensures And(x, SELECTOR_SIZE_TYPE_MASK) == Shl(Field(x, 48, 16), 48) + Low(x, 12)
  {
    SelectorSizeTypeIsOr();
    AndOfOr(x, Ones(48, 64), Ones(0, 12));
    AndOnes(x, 48, 64);
    AndLowOnes(x, 12);
    LowBound(x, 12);
    Pow2Lt(12, 48);
    OrJoin(Field(x, 48, 16), 48, Low(x, 12));
  }

  lemma FitsWord(x: nat)
    requires x < WORD_LIMIT
    ensures Low(x, 64) == x
  {
    LargePowers();
    LowOfSmall(x, 64);
  }
}
