/** Addresses: src/Core/Address.cs, the plain record `Address`.

    Unsigned 64-bit words are natural numbers below WORD_LIMIT; every operation that can leave
    that range wraps explicitly, by taking the low 64 bits. An address is a selector and an
    offset; what counts for comparison and for lookups is the linear value of the two.
  */
module Addresses {
  import opened Bits
  import opened Options

  datatype Kind = LinearHex | LinearOctal | SegmentedReal | SegmentedProt

  /** Base of the digits, and how a selector is linearised. A shift of 0 means: no selector. */
  datatype Info = Info(base: nat, selectorShift: nat, selectorMask: nat)

  function InfoOf(kind: Kind): Info {
    match kind
    case LinearHex => Info(16, 0, 0)
    case LinearOctal => Info(8, 0, 0)
    case SegmentedReal => Info(16, 4, 0xFFFF)
    case SegmentedProt => Info(16, 9, 0xFFF8)
  }

  datatype Address = Address(kind: Kind, bits: nat, offset: nat, selector: nat)

  /** What the fields' types say: a 16-bit selector, a 64-bit offset, and an offset size. */
  ghost predicate IsAddress(a: Address) {
    1 <= a.bits <= 64 && a.offset < WORD_LIMIT && a.selector < 0x1_0000
  }

  /** The offset fits its size, so that nothing is lost in printing it. */
  ghost predicate InWidth(a: Address) {
    IsAddress(a) && a.offset < Pow2(a.bits)
  }

  function Selector(a: Address): Option<nat> {
    if InfoOf(a.kind).selectorShift != 0 then Some(a.selector) else None
  }

  /** A shift count is taken modulo 64, so an offset size of 64 keeps all bits. */
  function OffsetMask(bits: nat): nat {
    var shift := (64 - bits) % 64;
    Ones(0, 64 - shift)
  }

  function NewOffset(a: Address, newOffset: nat): Address {
    a.(offset := And(newOffset, OffsetMask(a.bits)))
  }

  function Add(a: Address, delta: int): Address {
    NewOffset(a, Low(a.offset + delta, 64))
  }

  function Align(a: Address, alignment: int): Option<Address> {
    if alignment <= 0 then None
    else Some(NewOffset(a, AlignedOffset(a.offset, alignment)))
  }

  /** d * (x / d), by repeated subtraction. */
  function FloorMultiple(x: nat, d: nat): nat
    requires d > 0
  {
    if x < d then 0 else d + FloorMultiple(x - d, d)
  }

  /** The next multiple of the alignment, in arithmetic of k bits. */
  function AlignedIn(offset: nat, alignment: int, k: nat): nat
    requires alignment > 0
  {
    Low(FloorMultiple(Low(offset + alignment - 1, k), alignment), k)
  }

  function AlignedOffset(offset: nat, alignment: int): nat
    requires alignment > 0
  {
    AlignedIn(offset, alignment, 64)
  }

  /** The part of the linear address that the selector contributes. */
  function LinearBase(a: Address): nat {
    var info := InfoOf(a.kind);
    Shl(And(a.selector, info.selectorMask), info.selectorShift)
  }

  function ToLinear(a: Address): nat {
    Low(LinearBase(a) + a.offset, 64)
  }

  // ---------- arithmetic ----------

  lemma NewOffsetKeepsLowBits(a: Address, n: nat)
    requires 1 <= a.bits <= 64
    ensures NewOffset(a, n) == a.(offset := Low(n, a.bits))
  {
    var shift := (64 - a.bits) % 64;
    assert a.bits == 64 ==> shift == 0;
    assert a.bits < 64 ==> shift == 64 - a.bits;
    AndLowOnes(n, a.bits);
  }

  lemma {:induction false} FloorMultipleIs(x: nat, d: nat) returns (q: nat)
    requires d > 0
    ensures FloorMultiple(x, d) == q * d && FloorMultiple(x, d) <= x < FloorMultiple(x, d) + d
  {
    if x < d {
      q := 0;
    } else {
      var p := FloorMultipleIs(x - d, d);
      q := p + 1;
      assert (p + 1) * d == p * d + d;
    }
  }

  lemma FloorMultipleIsProduct(x: nat, d: nat)
    requires d > 0
    ensures FloorMultiple(x, d) == d * (x / d)
  {
    var q := FloorMultipleIs(x, d);
    DivMod(q, d, x - q * d);
  }

  lemma FloorFits(x: nat, d: nat, k: nat)
    requires d > 0 && x < Pow2(k)
    ensures var m := Low(FloorMultiple(Low(x, k), d), k); m == FloorMultiple(x, d) && m <= x < m + d
  {
    var q := FloorMultipleIs(x, d);
    LowOfSmall(x, k);
    LowOfSmall(FloorMultiple(x, d), k);
  }

  /** m is the least multiple of n that is not below x. */
  ghost predicate IsNextMultiple(x: nat, n: nat, m: nat)
    requires n > 0
  {
    m % n == 0 && x <= m < x + n
  }

  lemma NextMultipleIs(x: nat, n: nat, m: nat)
    requires n > 0 && IsNextMultiple(x, n, m)
    ensures m == FloorMultiple(x + n - 1, n)
  {
    var y := x + n - 1;
    FloorMultipleIsProduct(y, n);
    var q := m / n;
    assert m == q * n;
    DivMod(q, n, y - m);
    assert y == q * n + (y - m);
  }

  /** The arithmetic of aligning in words of k bits: if the sum runs out of them, what is left of
      it lies below the offset. */
  lemma AlignedAt(offset: nat, n: nat, m: nat, k: nat)
    requires 0 < n <= Pow2(k) && offset < Pow2(k) && IsNextMultiple(offset, n, m)
    ensures if offset + n - 1 < Pow2(k) then AlignedIn(offset, n, k) == m else AlignedIn(offset, n, k) < offset
  {
    var y := offset + n - 1;
    if y < Pow2(k) {
      NextMultipleIs(offset, n, m);
      FloorFits(y, n, k);
    } else {
      var z := y - Pow2(k);
      LowIsRemainder(y, k);
      DivMod(1, Pow2(k), z);
      var q := FloorMultipleIs(z, n);
      KeepsAllIff(FloorMultiple(z, n), k);
    }
  }

  lemma AlignedInWord(offset: nat, n: nat, m: nat)
    requires 0 < n < 0x8000_0000 && offset < WORD_LIMIT && IsNextMultiple(offset, n, m)
    ensures if offset + n - 1 < WORD_LIMIT then AlignedOffset(offset, n) == m else AlignedOffset(offset, n) < offset
  {
    WordPower();
    AlignedOfWord(offset, n, m);
  }

  lemma WordPower()
    ensures Pow2(64) == WORD_LIMIT
  {
    LargePowers();
  }

  lemma AlignedOfWord(offset: nat, n: nat, m: nat)
    requires 0 < n <= Pow2(64) && offset < Pow2(64) && IsNextMultiple(offset, n, m)
    ensures if offset + n - 1 < Pow2(64) then AlignedOffset(offset, n) == m else AlignedOffset(offset, n) < offset
  {
    AlignedAt(offset, n, m, 64);
  }

  /** Aligning gives the address at the least multiple of the alignment that is not below it,
      which is the address itself if that is aligned, exactly if neither 64 bits nor the size of
      the address run out on the way. */
  lemma AlignIff(a: Address, n: nat, m: nat)
    requires IsAddress(a) && 0 < n < 0x8000_0000 && IsNextMultiple(a.offset, n, m)
    ensures Align(a, n) == Some(a.(offset := m)) <==> a.offset + n - 1 < WORD_LIMIT && m < Pow2(a.bits)
  {
    var aligned := AlignedOffset(a.offset, n);
    AlignedInWord(a.offset, n, m);
    NewOffsetKeepsLowBits(a, aligned);
    KeepsAllIff(aligned, a.bits);
  }

  lemma AlignRefusesIff(a: Address, n: int)
    ensures Align(a, n).None? <==> n <= 0
  {
  }

  lemma RealContribution(a: Address)
    requires IsAddress(a) && a.kind.SegmentedReal?
    ensures LinearBase(a) == Shl(a.selector, 4)
  {
    SmallPowers();
    AndReal(a.selector);
    LowOfSmall(a.selector, 16);
  }

  lemma ProtContribution(a: Address)
    requires IsAddress(a) && a.kind.SegmentedProt?
    ensures LinearBase(a) == Shl(Shr(a.selector, 3), 12)
  {
    SmallPowers();
    AndProt(a.selector);
    ShrBound(a.selector, 3, 13);
    LowOfSmall(Shr(a.selector, 3), 13);
    ShlShl(Shr(a.selector, 3), 3, 9);
  }

  /** A real-mode selector counts 16 bytes each, a protected-mode one 4096 for each
      descriptor, whose index stands above three other bits. */
  lemma SelectorContribution(a: Address)
    requires IsAddress(a)
    ensures a.kind.LinearHex? || a.kind.LinearOctal? ==> LinearBase(a) == 0
    ensures a.kind.SegmentedReal? ==> LinearBase(a) == Shl(a.selector, 4)
    ensures a.kind.SegmentedProt? ==> LinearBase(a) == Shl(Shr(a.selector, 3), 12)
  {
    match a.kind
    case SegmentedReal => RealContribution(a);
    case SegmentedProt => ProtContribution(a);
    case _ =>
  }

  /** The bits of the offset that a move keeps are all of them exactly if it fits its size. */
  lemma AddOf(a: Address, delta: int)
    requires IsAddress(a)
    ensures var n := Low(a.offset + delta, 64);
            && n < WORD_LIMIT && Add(a, delta) == a.(offset := Low(n, a.bits))
            && Low(n, a.bits) <= n && (Low(n, a.bits) == n <==> n < Pow2(a.bits))
  {
    var n := Low(a.offset + delta, 64);
    WordBound(a.offset + delta);
    NewOffsetKeepsLowBits(a, n);
    KeepsAllIff(n, a.bits);
  }

  lemma WordBound(x: int)
    ensures Low(x, 64) < WORD_LIMIT
  {
    LargePowers();
    LowBound(x, 64);
  }

  lemma KeepsAllIff(n: nat, bits: nat)
    ensures Low(n, bits) <= n && (Low(n, bits) == n <==> n < Pow2(bits))
  {
    Parts(n, bits);
    LowBound(n, bits);
    if n < Pow2(bits) {
      LowOfSmall(n, bits);
    }
  }

  lemma MovedLinear(a: Address, delta: int)
    requires IsAddress(a)
    ensures ToLinear(Add(a, delta)) == Low(LinearBase(a) + Low(Low(a.offset + delta, 64), a.bits), 64)
  {
    AddOf(a, delta);
  }

  lemma MovesIff(base: nat, offset: nat, delta: int, bits: nat, k: nat)
    ensures Low(base + Low(Low(offset + delta, k), bits), k) == Low(Low(base + offset, k) + delta, k) <==>
            Low(offset + delta, k) < Pow2(bits)
  {
    KeepsAllIff(Low(offset + delta, k), bits);
    MovesAlikeIff(base, offset, delta, Low(Low(offset + delta, k), bits), k);
  }

  lemma MovesAlikeIff(base: nat, offset: nat, delta: int, x: nat, k: nat)
    requires x <= Low(offset + delta, k)
    ensures Low(base + x, k) == Low(Low(base + offset, k) + delta, k) <==> x == Low(offset + delta, k)
  {
    LowOfSum(base + offset, delta, k);
    LowOfSum(offset + delta, base, k);
    assert base + offset + delta == offset + delta + base;
    LowBound(offset + delta, k);
    LowCancels(base, x, Low(offset + delta, k), k);
  }

  lemma MovedWord(a: Address, delta: int)
    ensures Low(LinearBase(a) + Low(Low(a.offset + delta, 64), a.bits), 64) == Low(ToLinear(a) + delta, 64) <==>
            Low(a.offset + delta, 64) < Pow2(a.bits)
  {
    MovesIff(LinearBase(a), a.offset, delta, a.bits, 64);
  }

  /** Moving an address, in either direction, moves its linear address by as much, in 64-bit
      arithmetic, exactly if the offset does not run out of its size. */
  lemma AddLinearIff(a: Address, delta: int)
    requires IsAddress(a)
    ensures ToLinear(Add(a, delta)) == Low(ToLinear(a) + delta, 64) <==> Low(a.offset + delta, 64) < Pow2(a.bits)
  {
    MovedLinear(a, delta);
    MovedWord(a, delta);
  }

  lemma WithoutWrap(moved: nat, linear: nat, offset: nat, bits: nat)
    requires linear < WORD_LIMIT && offset < WORD_LIMIT
    requires moved == Low(linear, 64) <==> Low(offset, 64) < Pow2(bits)
    ensures moved == linear <==> offset < Pow2(bits)
  {
    FitsWord(linear);
    FitsWord(offset);
  }

  /** The same where neither the linear address nor the offset wraps around at 64 bits. */
  lemma AddForwardIff(a: Address, delta: nat)
    requires IsAddress(a) && ToLinear(a) + delta < WORD_LIMIT && a.offset + delta < WORD_LIMIT
    ensures ToLinear(Add(a, delta)) == ToLinear(a) + delta <==> a.offset + delta < Pow2(a.bits)
  {
    var moved := Add(a, delta);
    AddLinearIff(a, delta);
    WithoutWrap(ToLinear(moved), ToLinear(a) + delta, a.offset + delta, a.bits);
  }
}
