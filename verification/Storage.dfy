/** Storages: the registers, register sequences, stack variables and flag groups of
    src/Core/Storage.cs.

    A register is described twice, by a 64-bit mask and by a bit interval of its domain.
    The lemmas say that both descriptions, and the offsets computed from them, agree with
    the bits the storages denote.
  */
module Storages {
  import opened Bits
  import opened Endian

  datatype Register = Register(domain: int, bitAddress: nat, bitSize: nat)

  /** A non-empty register within 64 bits. Only for such do masks mean anything. */
  predicate InWord(r: Register) {
    1 <= r.bitSize && r.bitAddress + r.bitSize <= 64
  }

  /** Shift counts are taken modulo 64; the full width has a case of its own. */
  function BitMask(r: Register): nat {
    if r.bitSize == 64 then ALL_ONES
    else Low(Shl(Pow2(r.bitSize % 64) - 1, r.bitAddress % 64), 64)
  }

  predicate Covers(a: Register, b: Register) {
    a.domain == b.domain && Or(BitMask(a), BitMask(b)) == BitMask(a)
  }

  predicate Exceeds(a: Register, b: Register) {
    a.domain == b.domain && And(BitMask(a), Low(ALL_ONES - BitMask(b), 64)) != 0
  }

  predicate OverlapsWith(a: Register, b: Register) {
    && a.domain == b.domain
    && a.bitAddress < b.bitAddress + b.bitSize && b.bitAddress < a.bitAddress + a.bitSize
  }

  /** The bit offset of b within a, or -1. */
  function OffsetOf(a: Register, b: Register): int {
    if Covers(a, b) then b.bitAddress - a.bitAddress else -1
  }

  /** The value of a register, given the contents of its domain. */
  function GetSlice(r: Register, contents: nat): nat {
    Shr(And(contents, BitMask(r)), r.bitAddress)
  }

  /** The bits of b are bits of a. */
  predicate Contains(a: Register, b: Register) {
    a.bitAddress <= b.bitAddress && b.bitAddress + b.bitSize <= a.bitAddress + a.bitSize
  }

  // ---------- masks and intervals ----------

  lemma MaskIsInterval(r: Register)
    requires InWord(r)
    ensures BitMask(r) == Ones(r.bitAddress, r.bitAddress + r.bitSize) && BitMask(r) <= ALL_ONES
  {
    OnesFit(r.bitAddress, r.bitAddress + r.bitSize);
    if r.bitSize == 64 {
      ComplementLiterals();
    } else {
      assert r.bitSize % 64 == r.bitSize && r.bitAddress % 64 == r.bitAddress;
      NarrowMask(r.bitAddress, r.bitSize);
    }
  }

  lemma NarrowMask(at: nat, size: nat)
    requires at + size <= 64
    ensures Low(Shl(Pow2(size) - 1, at), 64) == Ones(at, at + size)
  {
    OnesFit(at, at + size);
    FitsWord(Ones(at, at + size));
  }

  lemma OnesFit(lo: nat, hi: nat)
    requires lo <= hi <= 64
    ensures Ones(lo, hi) <= ALL_ONES
  {
    LargePowers();
    OnesDifference(lo, hi);
    Pow2Le(hi, 64);
  }

  lemma MaskBit(r: Register, i: nat)
    requires InWord(r)
    ensures Bit(BitMask(r), i) <==> r.bitAddress <= i < r.bitAddress + r.bitSize
  {
    MaskIsInterval(r);
    OnesBit(r.bitAddress, r.bitAddress + r.bitSize, i);
  }

  /** Registers cover each other exactly within one domain and when intervals contain each other. */
  lemma CoversIff(a: Register, b: Register)
    requires InWord(a) && InWord(b)
    ensures Covers(a, b) <==> a.domain == b.domain && Contains(a, b)
  {
    if Covers(a, b) {
      var first, last := b.bitAddress, b.bitAddress + b.bitSize - 1;
      MaskBit(b, first);
      MaskBit(b, last);
      OrBit(BitMask(a), BitMask(b), first);
      OrBit(BitMask(a), BitMask(b), last);
      MaskBit(a, first);
      MaskBit(a, last);
    }
    if Contains(a, b) {
      forall i: nat ensures Bit(Or(BitMask(a), BitMask(b)), i) <==> Bit(BitMask(a), i) {
        OrBit(BitMask(a), BitMask(b), i);
        MaskBit(a, i);
        MaskBit(b, i);
      }
      SameBits(Or(BitMask(a), BitMask(b)), BitMask(a));
    }
  }

  lemma NonZeroBit(x: nat, i: nat)
    requires Bit(x, i)
    ensures x != 0
  {
    ZeroBit(i);
  }

  lemma {:induction false} SomeBit(x: nat) returns (i: nat)
    requires x != 0
    ensures Bit(x, i)
  {
    if x % 2 == 1 {
      i := 0;
    } else {
      i := SomeBit(x / 2);
      i := i + 1;
    }
  }

  /** Registers overlap exactly within one domain and when masks intersect. */
  lemma OverlapsIff(a: Register, b: Register)
    requires InWord(a) && InWord(b)
    ensures OverlapsWith(a, b) <==> a.domain == b.domain && And(BitMask(a), BitMask(b)) != 0
  {
    if OverlapsWith(a, b) {
      var i := if a.bitAddress <= b.bitAddress then b.bitAddress else a.bitAddress;
      MaskBit(a, i);
      MaskBit(b, i);
      AndBit(BitMask(a), BitMask(b), i);
      NonZeroBit(And(BitMask(a), BitMask(b)), i);
    }
    if And(BitMask(a), BitMask(b)) != 0 {
      var i := SomeBit(And(BitMask(a), BitMask(b)));
      AndBit(BitMask(a), BitMask(b), i);
      MaskBit(a, i);
      MaskBit(b, i);
    }
  }

  /** The bits of a that are not in b. */
  lemma OutsideBit(a: Register, b: Register, i: nat)
    requires InWord(a) && InWord(b)
    ensures Bit(And(BitMask(a), Low(ALL_ONES - BitMask(b), 64)), i) <==> Bit(BitMask(a), i) && !Bit(BitMask(b), i)
  {
    MaskIsInterval(b);
    FitsWord(ALL_ONES - BitMask(b));
    AndBit(BitMask(a), ALL_ONES - BitMask(b), i);
    LackingBit(b, i);
    MaskBit(a, i);
  }

  lemma LackingBit(b: Register, i: nat)
    requires InWord(b) && BitMask(b) <= ALL_ONES
    ensures Bit(ALL_ONES - BitMask(b), i) <==> i < 64 && !Bit(BitMask(b), i)
  {
    LargePowers();
    NotBit(64, BitMask(b), i);
  }

  /** A register exceeds another exactly when it is of its domain and the other does not cover it. */
  lemma ExceedsIff(a: Register, b: Register)
    requires InWord(a) && InWord(b)
    ensures Exceeds(a, b) <==> a.domain == b.domain && !Covers(b, a)
  {
    var outside := And(BitMask(a), Low(ALL_ONES - BitMask(b), 64));
    CoversIff(b, a);
    if outside != 0 {
      var i := SomeBit(outside);
      OutsideBit(a, b, i);
      MaskBit(a, i);
      MaskBit(b, i);
    }
    if !Contains(b, a) {
      var i := if a.bitAddress < b.bitAddress then a.bitAddress else a.bitAddress + a.bitSize - 1;
      OutsideBit(a, b, i);
      MaskBit(a, i);
      MaskBit(b, i);
      NonZeroBit(outside, i);
    }
  }

  /** A register of all 64 bits covers every register of its domain, and is its contents. */
  lemma WholeRegister(domain: int, r: Register, contents: nat)
    requires InWord(r) && r.domain == domain
    ensures var whole := Register(domain, 0, 64);
            InWord(whole) && Covers(whole, r) && GetSlice(whole, contents) == Low(contents, 64)
  {
    var whole := Register(domain, 0, 64);
    CoversIff(whole, r);
    GetSliceIsField(whole, contents);
  }

  // ---------- values ----------

  lemma GetSliceIsField(r: Register, contents: nat)
    requires InWord(r)
    ensures GetSlice(r, contents) == Field(contents, r.bitAddress, r.bitSize)
  {
    MaskIsInterval(r);
    AndOnes(contents, r.bitAddress, r.bitAddress + r.bitSize);
    JoinZero(Field(contents, r.bitAddress, r.bitSize), r.bitAddress);
  }

  /** A field of a field. */
  lemma FieldOfField(x: nat, lo: nat, n: nat, lo': nat, n': nat)
    requires lo' + n' <= n
    ensures Field(Field(x, lo, n), lo', n') == Field(x, lo + lo', n')
  {
    var y := Shr(x, lo);
    ShrOfLow(y, lo', n - lo');
    LowLow(Shr(y, lo'), n', n - lo');
    ShrShr(x, lo, lo');
  }

  /** Slicing a register and then, at its offset, a covered sub-register is slicing the
      sub-register. */
  lemma SliceOfSlice(r: Register, sub: Register, contents: nat)
    requires InWord(r) && InWord(sub) && r.domain == sub.domain && Contains(r, sub)
    ensures OffsetOf(r, sub) >= 0
    ensures Field(GetSlice(r, contents), OffsetOf(r, sub), sub.bitSize) == GetSlice(sub, contents)
  {
    CoversIff(r, sub);
    GetSliceIsField(r, contents);
    GetSliceIsField(sub, contents);
    FieldOfField(contents, r.bitAddress, r.bitSize, sub.bitAddress - r.bitAddress, sub.bitSize);
  }

  // ---------- sequences of registers, most significant first ----------

  /** The offset of sub within the sequence, searched from the least significant element. */
  function SequenceOffsetOf(elements: seq<Register>, sub: Register): int {
    if elements == [] then -1
    else
      var last := elements[|elements| - 1];
      if OffsetOf(last, sub) != -1 then OffsetOf(last, sub)
      else
        var rest := SequenceOffsetOf(elements[..|elements| - 1], sub);
        if rest == -1 then -1 else rest + last.bitSize
  }

  method ComputeOffsetOf(elements: seq<Register>, sub: Register) returns (offset: int)
    requires forall e | e in elements :: InWord(e)
    requires InWord(sub)
    ensures offset == SequenceOffsetOf(elements, sub)
  {
    var offPrev: int := 0;
    var i := |elements| - 1;
    assert elements[..i + 1] == elements;
    while i >= 0
      invariant -1 <= i < |elements| && offPrev >= 0
      invariant SequenceOffsetOf(elements, sub) ==
                var rest := SequenceOffsetOf(elements[..i + 1], sub); if rest == -1 then -1 else rest + offPrev
    {
      var e := elements[i];
      SequenceOffsetNext(elements, i, sub);
      var off := OffsetOf(e, sub);
      if off != -1 {
        return off + offPrev;
      }
      offPrev := offPrev + e.bitSize;
      i := i - 1;
    }
    return -1;
  }

  lemma SequenceOffsetNext(elements: seq<Register>, i: nat, sub: Register)
    requires i < |elements| && InWord(sub) && forall e | e in elements :: InWord(e)
    ensures var off, rest := OffsetOf(elements[i], sub), SequenceOffsetOf(elements[..i], sub);
            && off >= -1 && rest >= -1
            && SequenceOffsetOf(elements[..i + 1], sub) ==
               if off != -1 then off else if rest == -1 then -1 else rest + elements[i].bitSize
  {
    assert elements[..i + 1][..i] == elements[..i];
    OffsetNotNegative(elements[i], sub);
    SequenceOffsetNotNegative(elements[..i], sub);
  }

  lemma OffsetNotNegative(e: Register, sub: Register)
    requires InWord(e) && InWord(sub)
    ensures OffsetOf(e, sub) >= -1
    ensures OffsetOf(e, sub) != -1 <==> Covers(e, sub)
  {
    if e.domain == sub.domain {
      CoversIff(e, sub);
    }
  }

  lemma {:induction false} SequenceOffsetNotNegative(elements: seq<Register>, sub: Register)
    requires forall e | e in elements :: InWord(e)
    requires InWord(sub)
    ensures SequenceOffsetOf(elements, sub) >= -1
    ensures SequenceOffsetOf(elements, sub) != -1 <==> exists e | e in elements :: Covers(e, sub)
  {
    if elements == [] {
    } else {
      var last := elements[|elements| - 1];
      OffsetNotNegative(last, sub);
      SequenceOffsetNotNegative(elements[..|elements| - 1], sub);
      assert elements == elements[..|elements| - 1] + [last];
    }
  }

  /** The bits of the elements after the i-th. */
  function BitsAfter(elements: seq<Register>, i: nat): nat
    decreases |elements| - i
  {
    if i + 1 >= |elements| then 0 else elements[i + 1].bitSize + BitsAfter(elements, i + 1)
  }

  lemma {:induction false} BitsAfterLast(elements: seq<Register>, i: nat)
    requires i + 1 < |elements|
    ensures BitsAfter(elements, i) == BitsAfter(elements[..|elements| - 1], i) + elements[|elements| - 1].bitSize
    decreases |elements| - i
  {
    if i + 2 < |elements| {
      BitsAfterLast(elements, i + 1);
    }
  }

  /** The offset is that within the least significant element that has the register, above the
      elements after it; there is none exactly if no element has the register. */
  lemma {:induction false} OffsetIsInLast(elements: seq<Register>, sub: Register, i: nat)
    requires forall e | e in elements :: InWord(e)
    requires InWord(sub) && i < |elements| && Covers(elements[i], sub)
    requires forall k | i < k < |elements| :: !Covers(elements[k], sub)
    ensures SequenceOffsetOf(elements, sub) == BitsAfter(elements, i) + (sub.bitAddress - elements[i].bitAddress)
  {
    var last := |elements| - 1;
    OffsetNotNegative(elements[last], sub);
    if i < last {
      var init := elements[..last];
      BitsAfterLast(elements, i);
      OffsetIsInLast(init, sub, i);
      SequenceOffsetNotNegative(init, sub);
      assert init[i] == elements[i] && init[i] in init;
    }
  }

  /** Covering is decided by the first element of the same domain. */
  function SequenceCovers(elements: seq<Register>, that: Register): bool {
    if elements == [] then false
    else if elements[0].domain == that.domain then Covers(elements[0], that)
    else SequenceCovers(elements[1..], that)
  }

  method ComputeCovers(elements: seq<Register>, that: Register) returns (covers: bool)
    ensures covers == SequenceCovers(elements, that)
  {
    for i := 0 to |elements|
      invariant SequenceCovers(elements, that) == SequenceCovers(elements[i..], that)
    {
      var e := elements[i];
      assert elements[i..][1..] == elements[i + 1..];
      if e.domain == that.domain {
        return Covers(e, that);
      }
    }
    return false;
  }

  /** Contents of the register file, by domain. */
  type File = int -> nat

  function SequenceValue(elements: seq<Register>, file: File): nat {
    if elements == [] then 0
    else
      var last := elements[|elements| - 1];
      Shl(SequenceValue(elements[..|elements| - 1], file), last.bitSize) + GetSlice(last, file(last.domain))
  }

  lemma SliceBound(r: Register, contents: nat)
    requires InWord(r)
    ensures GetSlice(r, contents) < Pow2(r.bitSize)
  {
    GetSliceIsField(r, contents);
    LowBound(Shr(contents, r.bitAddress), r.bitSize);
  }

  function BitsOf(elements: seq<Register>): nat {
    if elements == [] then 0 else BitsOf(elements[..|elements| - 1]) + elements[|elements| - 1].bitSize
  }

  /** The value of a sequence has no more bits than its elements together. */
  lemma {:induction false} SequenceBound(elements: seq<Register>, file: File)
    requires forall e | e in elements :: InWord(e)
    ensures SequenceValue(elements, file) < Pow2(BitsOf(elements))
  {
    if elements == [] {
    } else {
      var last := elements[|elements| - 1];
      SequenceBound(elements[..|elements| - 1], file);
      SliceBound(last, file(last.domain));
      ShlBound(SequenceValue(elements[..|elements| - 1], file), last.bitSize, BitsOf(elements[..|elements| - 1]));
    }
  }

  /** A field that lies in the low part, or above it. */
  lemma FieldOfJoin(high: nat, size: nat, low: nat, at: nat, n: nat)
    requires low < Pow2(size)
    ensures at + n <= size ==> Field(Shl(high, size) + low, at, n) == Field(low, at, n)
    ensures Field(Shl(high, size) + low, at + size, n) == Field(high, at, n)
  {
    var x := Shl(high, size) + low;
    Join(high, size, low);
    ShrShr(x, size, at);
    if at + n <= size {
      FieldOfField(x, 0, size, at, n);
    }
  }

  /** Wherever a sequence finds a register, there are its bits. */
  lemma {:induction false} OffsetFindsValue(elements: seq<Register>, sub: Register, file: File)
    requires forall e | e in elements :: InWord(e)
    requires InWord(sub) && SequenceOffsetOf(elements, sub) != -1
    ensures FindsValue(elements, sub, file)
  {
    if elements == [] {
    } else if OffsetOf(elements[|elements| - 1], sub) != -1 {
      FindsInLast(elements, sub, file);
    } else {
      OffsetFindsValue(elements[..|elements| - 1], sub, file);
      FindsAboveLast(elements, sub, file);
    }
  }

  ghost predicate FindsValue(elements: seq<Register>, sub: Register, file: File) {
    var at := SequenceOffsetOf(elements, sub);
    at >= 0 && Field(SequenceValue(elements, file), at, sub.bitSize) == GetSlice(sub, file(sub.domain))
  }

  lemma FindsInLast(elements: seq<Register>, sub: Register, file: File)
    requires elements != [] && InWord(elements[|elements| - 1]) && InWord(sub)
    requires OffsetOf(elements[|elements| - 1], sub) != -1
    ensures FindsValue(elements, sub, file)
  {
    var last := elements[|elements| - 1];
    OffsetNotNegative(last, sub);
    ValueInLast(SequenceValue(elements[..|elements| - 1], file), last, sub, file);
  }

  lemma FindsAboveLast(elements: seq<Register>, sub: Register, file: File)
    requires elements != [] && InWord(elements[|elements| - 1])
    requires OffsetOf(elements[|elements| - 1], sub) == -1 && FindsValue(elements[..|elements| - 1], sub, file)
    ensures FindsValue(elements, sub, file)
  {
    var last, init := elements[|elements| - 1], elements[..|elements| - 1];
    ValueAboveLast(SequenceValue(init, file), last, SequenceOffsetOf(init, sub), sub.bitSize, file);
  }

  /** The least significant element has the register. */
  lemma ValueInLast(high: nat, last: Register, sub: Register, file: File)
    requires InWord(last) && InWord(sub) && Covers(last, sub)
    ensures OffsetOf(last, sub) >= 0
    ensures Field(Shl(high, last.bitSize) + GetSlice(last, file(last.domain)), OffsetOf(last, sub), sub.bitSize)
            == GetSlice(sub, file(sub.domain))
  {
    CoversIff(last, sub);
    SliceBound(last, file(last.domain));
    FieldOfJoin(high, last.bitSize, GetSlice(last, file(last.domain)), OffsetOf(last, sub), sub.bitSize);
    SliceOfSlice(last, sub, file(sub.domain));
  }

  lemma ValueAboveLast(high: nat, last: Register, at: nat, n: nat, file: File)
    requires InWord(last)
    ensures Field(Shl(high, last.bitSize) + GetSlice(last, file(last.domain)), at + last.bitSize, n)
            == Field(high, at, n)
  {
    SliceBound(last, file(last.domain));
    FieldOfJoin(high, last.bitSize, GetSlice(last, file(last.domain)), at, n);
  }

  // ---------- when covering and having an offset agree ----------

  ghost predicate AllInWord(elements: seq<Register>) {
    forall i | 0 <= i < |elements| :: InWord(elements[i])
  }

  /** No earlier element has the domain of the i-th. */
  ghost predicate FirstOfDomain(elements: seq<Register>, i: nat)
    requires i < |elements|
  {
    forall k | 0 <= k < i :: elements[k].domain != elements[i].domain
  }

  /** The first element of each domain covers the later ones of that domain. */
  ghost predicate LaterCovered(elements: seq<Register>) {
    forall i, j | 0 <= i < j < |elements| && elements[i].domain == elements[j].domain && FirstOfDomain(elements, i) ::
      Covers(elements[i], elements[j])
  }

  ghost predicate CoversMatchesOffset(elements: seq<Register>) {
    forall sub | InWord(sub) :: SequenceCovers(elements, sub) <==> SequenceOffsetOf(elements, sub) != -1
  }

  /** The first element of a domain decides. */
  lemma {:induction false} CoversAt(elements: seq<Register>, i: nat, sub: Register)
    requires i < |elements| && FirstOfDomain(elements, i) && elements[i].domain == sub.domain
    ensures SequenceCovers(elements, sub) == Covers(elements[i], sub)
    decreases i
  {
    if i == 0 {
    } else {
      assert elements[0].domain != elements[i].domain;
      forall k | 0 <= k < i - 1 ensures elements[1..][k].domain != elements[1..][i - 1].domain {
        assert elements[k + 1].domain != elements[i].domain;
      }
      CoversAt(elements[1..], i - 1, sub);
    }
  }

  lemma {:induction false} FirstExists(elements: seq<Register>, j: nat) returns (i: nat)
    requires j < |elements|
    ensures i <= j && elements[i].domain == elements[j].domain && FirstOfDomain(elements, i)
    decreases j
  {
    if k :| 0 <= k < j && elements[k].domain == elements[j].domain {
      i := FirstExists(elements, k);
    } else {
      i := j;
    }
  }

  lemma CoversTransitive(a: Register, b: Register, c: Register)
    requires InWord(a) && InWord(b) && InWord(c) && a.domain == b.domain == c.domain
    ensures Covers(a, b) && Covers(b, c) ==> Covers(a, c)
  {
    CoversIff(a, b);
    CoversIff(b, c);
    CoversIff(a, c);
  }

  lemma CoversSelf(a: Register)
    requires InWord(a)
    ensures Covers(a, a)
  {
    CoversIff(a, a);
  }

  lemma CoveredHasOffset(elements: seq<Register>, sub: Register)
    requires AllInWord(elements) && InWord(sub) && SequenceCovers(elements, sub)
    ensures SequenceOffsetOf(elements, sub) != -1
  {
    SequenceOffsetNotNegative(elements, sub);
    SomeCovers(elements, sub);
  }

  lemma {:induction false} SomeCovers(elements: seq<Register>, sub: Register)
    requires SequenceCovers(elements, sub)
    ensures exists e | e in elements :: Covers(e, sub)
  {
    if elements[0].domain == sub.domain {
      assert elements[0] in elements;
    } else {
      SomeCovers(elements[1..], sub);
    }
  }

  /** A covered register always has an offset. The converse holds for every register exactly
      if the first element of each domain covers the other elements of that domain; distinct
      domains are a case of this. */
  lemma CoversMatchesOffsetIff(elements: seq<Register>)
    requires AllInWord(elements)
    ensures CoversMatchesOffset(elements) <==> LaterCovered(elements)
  {
    if CoversMatchesOffset(elements) {
      forall i, j | 0 <= i < j < |elements| && elements[i].domain == elements[j].domain && FirstOfDomain(elements, i)
        ensures Covers(elements[i], elements[j])
      {
        CoversSelf(elements[j]);
        SequenceOffsetNotNegative(elements, elements[j]);
        CoversAt(elements, i, elements[j]);
      }
    }
    if LaterCovered(elements) {
      forall sub | InWord(sub)
        ensures SequenceCovers(elements, sub) <==> SequenceOffsetOf(elements, sub) != -1
      {
        OffsetIsCovered(elements, sub);
        if SequenceCovers(elements, sub) {
          CoveredHasOffset(elements, sub);
        }
      }
    }
  }

  lemma OffsetIsCovered(elements: seq<Register>, sub: Register)
    requires AllInWord(elements) && InWord(sub) && LaterCovered(elements)
    ensures SequenceOffsetOf(elements, sub) != -1 ==> SequenceCovers(elements, sub)
  {
    SequenceOffsetNotNegative(elements, sub);
    if SequenceOffsetOf(elements, sub) != -1 {
      var j: nat :| j < |elements| && Covers(elements[j], sub);
      var i := FirstExists(elements, j);
      if i < j {
        CoversTransitive(elements[i], elements[j], sub);
      }
      CoversAt(elements, i, sub);
    }
  }

  /** ah:al, the two halves of one register: al has an offset but is not covered. */
  lemma HalvesDisagree()
    ensures var ah, al := Register(0, 8, 8), Register(0, 0, 8);
            SequenceOffsetOf([ah, al], al) == 0 && !SequenceCovers([ah, al], al)
  {
    var ah, al := Register(0, 8, 8), Register(0, 0, 8);
    CoversIff(ah, al);
    CoversIff(al, al);
  }

  /** SequenceStorage.OverlapsWith, for a register: as in covering, the first element of its
      domain decides. */
  function SequenceOverlaps(elements: seq<Register>, that: Register): bool {
    if elements == [] then false
    else if elements[0].domain == that.domain then OverlapsWith(elements[0], that)
    else SequenceOverlaps(elements[1..], that)
  }

  method ComputeOverlaps(elements: seq<Register>, that: Register) returns (overlaps: bool)
    ensures overlaps == SequenceOverlaps(elements, that)
  {
    for i := 0 to |elements|
      invariant SequenceOverlaps(elements, that) == SequenceOverlaps(elements[i..], that)
    {
      var stg := elements[i];
      assert elements[i..][1..] == elements[i + 1..];
      if stg.domain == that.domain {
        return OverlapsWith(stg, that);
      }
    }
    return false;
  }

  ghost predicate SomeOverlaps(elements: seq<Register>, sub: Register) {
    exists i | 0 <= i < |elements| :: OverlapsWith(elements[i], sub)
  }

  lemma {:induction false} OverlapsAt(elements: seq<Register>, i: nat, sub: Register)
    requires i < |elements| && FirstOfDomain(elements, i) && elements[i].domain == sub.domain
    ensures SequenceOverlaps(elements, sub) == OverlapsWith(elements[i], sub)
    decreases i
  {
    if i == 0 {
    } else {
      assert elements[0].domain != elements[i].domain;
      forall k | 0 <= k < i - 1 ensures elements[1..][k].domain != elements[1..][i - 1].domain {
        assert elements[k + 1].domain != elements[i].domain;
      }
      OverlapsAt(elements[1..], i - 1, sub);
    }
  }

  lemma {:induction false} OverlapIsSome(elements: seq<Register>, sub: Register)
    requires SequenceOverlaps(elements, sub)
    ensures SomeOverlaps(elements, sub)
  {
    if elements[0].domain == sub.domain {
      assert OverlapsWith(elements[0], sub);
    } else {
      OverlapIsSome(elements[1..], sub);
      var i :| 0 <= i < |elements[1..]| && OverlapsWith(elements[1..][i], sub);
      assert OverlapsWith(elements[i + 1], sub);
    }
  }

  /** A register of one bit that a has and b lacks. */
  lemma LackedBit(a: Register, b: Register) returns (bit: Register)
    requires InWord(a) && InWord(b) && a.domain == b.domain && !Contains(b, a)
    ensures InWord(bit) && bit.domain == a.domain && OverlapsWith(a, bit) && !OverlapsWith(b, bit)
  {
    bit := Register(a.domain, if a.bitAddress < b.bitAddress then a.bitAddress else a.bitAddress + a.bitSize - 1, 1);
  }

  /** The first element of each domain speaks for all of them, for every register, exactly
      under the condition under which covering and having an offset agree. */
  lemma OverlapsMatchesElementsIff(elements: seq<Register>)
    requires AllInWord(elements)
    ensures (forall sub | InWord(sub) :: SequenceOverlaps(elements, sub) <==> SomeOverlaps(elements, sub))
            <==> LaterCovered(elements)
  {
    if forall sub | InWord(sub) :: SequenceOverlaps(elements, sub) <==> SomeOverlaps(elements, sub) {
      forall i, j | 0 <= i < j < |elements| && elements[i].domain == elements[j].domain && FirstOfDomain(elements, i)
        ensures Covers(elements[i], elements[j])
      {
        CoversIff(elements[i], elements[j]);
        if !Contains(elements[i], elements[j]) {
          var bit := LackedBit(elements[j], elements[i]);
          OverlapsAt(elements, i, bit);
          assert SomeOverlaps(elements, bit);
        }
      }
    }
    if LaterCovered(elements) {
      forall sub | InWord(sub)
        ensures SequenceOverlaps(elements, sub) <==> SomeOverlaps(elements, sub)
      {
        if SequenceOverlaps(elements, sub) {
          OverlapIsSome(elements, sub);
        } else if SomeOverlaps(elements, sub) {
          FirstOverlaps(elements, sub);
        }
      }
    }
  }

  lemma FirstOverlaps(elements: seq<Register>, sub: Register)
    requires AllInWord(elements) && LaterCovered(elements) && SomeOverlaps(elements, sub)
    ensures SequenceOverlaps(elements, sub)
  {
    var j: nat :| j < |elements| && OverlapsWith(elements[j], sub);
    var i := FirstExists(elements, j);
    if i < j {
      CoversIff(elements[i], elements[j]);
    }
    OverlapsAt(elements, i, sub);
  }

  // ---------- stack variables ----------

  /** A stack variable: byte offset and width; its size in bytes is the width rounded up. */
  datatype StackStorage = StackStorage(offset: int, bits: nat)
  {
    function Bytes(): nat {
      (bits + 7) / 8
    }
  }

  function StackOffsetOf(a: StackStorage, b: StackStorage): int {
    if b.offset >= a.offset && b.offset + b.Bytes() <= a.offset + a.Bytes() then (b.offset - a.offset) * 8 else -1
  }

  predicate StackCovers(a: StackStorage, b: StackStorage) {
    a.offset * 8 <= b.offset * 8 && b.offset * 8 + b.bits <= a.offset * 8 + a.bits
  }

  /** Covering is counted in bits and the offset in bytes: they agree for every other variable
      exactly if this one is a whole number of bytes. */
  lemma StackCoversMatchesOffsetIff(a: StackStorage)
    ensures (forall b: StackStorage :: StackCovers(a, b) <==> StackOffsetOf(a, b) != -1) <==> a.bits % 8 == 0
  {
    if a.bits % 8 != 0 {
      var b := StackStorage(a.offset + a.Bytes() - 1, 8);
      assert !StackCovers(a, b) && StackOffsetOf(a, b) != -1;
    }
  }

  /** The offset finds the smaller variable's bytes in the little-endian value of the larger. */
  lemma StackOffsetFindsValue(a: StackStorage, b: StackStorage, memory: seq<nat>, frame: int)
    requires StackOffsetOf(a, b) != -1
    requires 0 <= frame + a.offset && frame + a.offset + a.Bytes() <= |memory| && AreUnits(memory, 8)
    ensures StackOffsetOf(a, b) >= 0
    ensures var pa, pb := frame + a.offset, frame + b.offset;
            Field(ReadLe(memory[pa..pa + a.Bytes()], 8), StackOffsetOf(a, b), b.Bytes() * 8)
            == ReadLe(memory[pb..pb + b.Bytes()], 8)
  {
    var pa, k := frame + a.offset, b.offset - a.offset;
    var us := memory[pa..pa + a.Bytes()];
    RunIsField(us, 8, k, b.Bytes());
    SpanIsProduct(k, 8);
    SpanIsProduct(b.Bytes(), 8);
    SubRun(memory, pa, a.Bytes(), k, b.Bytes());
  }

  // ---------- flag groups ----------

  /** Some bits of a flag register. */
  datatype FlagGroup = FlagGroup(flagRegister: int, bits: nat)

  predicate FlagCovers(a: FlagGroup, b: FlagGroup) {
    a.flagRegister == b.flagRegister && Or(a.bits, b.bits) == a.bits
  }

  predicate FlagOverlaps(a: FlagGroup, b: FlagGroup) {
    a.flagRegister == b.flagRegister && And(a.bits, b.bits) != 0
  }

  ghost predicate HaveBit(x: nat, y: nat, i: nat) {
    Bit(x, i) && Bit(y, i)
  }

  /** Flag groups overlap exactly when they have a bit in common. */
  lemma FlagOverlapsIff(a: FlagGroup, b: FlagGroup)
    ensures FlagOverlaps(a, b) <==> a.flagRegister == b.flagRegister && exists i: nat :: HaveBit(a.bits, b.bits, i)
  {
    var common := And(a.bits, b.bits);
    if common != 0 {
      var i := SomeBit(common);
      AndBit(a.bits, b.bits, i);
      assert HaveBit(a.bits, b.bits, i);
    } else {
      forall i: nat ensures !HaveBit(a.bits, b.bits, i) {
        AndBit(a.bits, b.bits, i);
        if Bit(common, i) {
          NonZeroBit(common, i);
        }
      }
    }
  }

  predicate FlagExceeds(a: FlagGroup, b: FlagGroup)
    requires b.bits < WORD_LIMIT
  {
    a.flagRegister == b.flagRegister && And(a.bits, ALL_ONES - b.bits) != 0
  }

  lemma FlagOutsideBit(a: FlagGroup, b: FlagGroup, i: nat)
    requires a.bits < WORD_LIMIT && b.bits < WORD_LIMIT
    ensures Bit(And(a.bits, ALL_ONES - b.bits), i) <==> Bit(a.bits, i) && !Bit(b.bits, i)
  {
    AndBit(a.bits, ALL_ONES - b.bits, i);
    LargePowers();
    NotBit(64, b.bits, i);
    if i >= 64 {
      HighBitsZero(a.bits, 64, i);
    }
  }

  /** x has all bits of y. */
  ghost predicate HasBits(x: nat, y: nat) {
    forall i: nat :: Bit(y, i) ==> Bit(x, i)
  }

  /** A flag group covers another exactly when it is of the same register and has all its bits. */
  lemma FlagCoversIff(a: FlagGroup, b: FlagGroup)
    ensures FlagCovers(a, b) <==> a.flagRegister == b.flagRegister && HasBits(a.bits, b.bits)
  {
    var both := Or(a.bits, b.bits);
    if both == a.bits {
      forall i: nat ensures Bit(b.bits, i) ==> Bit(a.bits, i) {
        OrBit(a.bits, b.bits, i);
      }
    } else if HasBits(a.bits, b.bits) {
      forall i: nat ensures Bit(both, i) <==> Bit(a.bits, i) {
        OrBit(a.bits, b.bits, i);
      }
      SameBits(both, a.bits);
    }
  }

  /** One flag group exceeds another exactly when it is of the same register and the other does
      not cover it. */
  lemma FlagExceedsIff(a: FlagGroup, b: FlagGroup)
    requires a.bits < WORD_LIMIT && b.bits < WORD_LIMIT
    ensures FlagExceeds(a, b) <==> a.flagRegister == b.flagRegister && !FlagCovers(b, a)
  {
    var outside := And(a.bits, ALL_ONES - b.bits);
    if outside != 0 {
      var i := SomeBit(outside);
      FlagOutsideBit(a, b, i);
      OrBit(b.bits, a.bits, i);
    } else {
      forall i: nat ensures Bit(Or(b.bits, a.bits), i) <==> Bit(b.bits, i) {
        OrBit(b.bits, a.bits, i);
        FlagOutsideBit(a, b, i);
        ZeroBit(i);
      }
      SameBits(Or(b.bits, a.bits), b.bits);
    }
  }
}
