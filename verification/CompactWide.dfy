/** Packed addresses of 63 and 64 bits. Their words have no fields: the offset stands above a
    single zero bit. The table has an entry of its own for offsets that are multiples of 4, and
    another mask for all others. */
module CompactWide {
  import opened Bits
  import opened CompactAddresses
  import opened Options

  /** The word is the offset, cut to 63 bits, above a zero bit. */
  lemma WideWord(bits: nat, o: nat)
    requires bits >= 63
    ensures Create(bits, o).value == Shl(Low(o, 63), 1)
  {
    LowShl(o, 1, 63);
  }

  lemma SmallMasks()
    ensures Ones(0, 1) == 1 && Ones(0, 6) == 63
    ensures Ones(1, 64) == ALL_ONES - 1 && Ones(6, 64) == ALL_ONES - 63
  {
    LargePowers();
    OnesDifference(0, 1);
    OnesDifference(0, 6);
    OnesDifference(1, 64);
    OnesDifference(6, 64);
  }

  /** Which entry of the table is taken. */
  lemma WideLayout(bits: nat, o: nat)
    requires bits >= 63
    ensures LayoutOf(Create(bits, o)) == Layout(1, if Low(o, 2) == 0 then 1 else 63, 16, 0, 0, 0)
  {
    WideWord(bits, o);
    LowShl(Low(o, 63), 1, 2);
    LowLow(o, 2, 63);
    LowBound(o, 2);
  }

  lemma WideValue(bits: nat, o: nat)
    requires bits >= 63
    ensures Low(o, 63) < SIGN_BIT && Create(bits, o).value == 2 * Low(o, 63) < WORD_LIMIT
  {
    WideWord(bits, o);
    LowBound(o, 63);
    LargePowers();
  }

  // ---------- what can be seen ----------

  /** No selector, hexadecimal digits of all 64 bits, and the linear address is the offset. */
  lemma WideView(bits: nat, o: nat)
    requires bits >= 63
    ensures var v := ViewOfPacked(Create(bits, o));
            v.selector == None && v.width == 64 && v.base == 16 && v.linear == v.offset
  {
    var c := Create(bits, o);
    WideLayout(bits, o);
    NoBase(c.value);
    WideValue(bits, o);
    OffsetIsShift(c);
    SignedHalf(Low(o, 63));
    FitsWord(Offset(c));
  }

  lemma NoBase(v: nat)
    ensures Shr(And(v, 0), 0) == 0
  {
    AndLowOnes(v, 0);
    assert Ones(0, 0) == 0;
  }

  const QUARTER: nat := 0x4000_0000_0000_0000

  lemma TopBit(o: nat)
    requires o < WORD_LIMIT
    ensures Low(o, 63) == if o < SIGN_BIT then o else o - SIGN_BIT
  {
    LargePowers();
    if o < SIGN_BIT {
      LowOfSmall(o, 63);
    } else {
      ShlPow2(0, 63);
      Join(1, 63, o - SIGN_BIT);
    }
  }

  lemma SignedHalf(m: nat)
    requires m < SIGN_BIT
    ensures ShiftRightSigned(2 * m, 1) == if m < QUARTER then m else m + SIGN_BIT
  {
    assert Shr(2 * m, 1) == (2 * m) / 2 == m;
    if m >= QUARTER {
      var y := ALL_ONES - 2 * m;
      FitsWord(y);
      assert Shr(y, 1) == y / 2 == SIGN_BIT - 1 - m;
      FitsWord(m + SIGN_BIT);
    }
  }

  lemma OffsetIsShift(c: CompactAddress)
    requires c.value < WORD_LIMIT && LayoutOf(c).selectorMask == 0 && LayoutOf(c).bitOffset == 1
    ensures Offset(c) == ShiftRightSigned(c.value, 1)
  {
    AndAllOnes(c.value);
    FitsWord(c.value);
  }

  /** The offset read back is what was put in, with its 63rd bit copied to the top. */
  lemma WideOffsetIs(bits: nat, o: nat)
    requires bits >= 63
    ensures var m := Low(o, 63);
            Offset(Create(bits, o)) == if m < QUARTER then m else m + SIGN_BIT
  {
    WideLayout(bits, o);
    WideValue(bits, o);
    OffsetIsShift(Create(bits, o));
    SignedHalf(Low(o, 63));
  }

  /** It is read back unchanged exactly if its two top bits are alike. */
  lemma WideOffsetIff(bits: nat, o: nat)
    requires bits >= 63 && o < WORD_LIMIT
    ensures Offset(Create(bits, o)) == o <==> o < QUARTER || o >= WORD_LIMIT - QUARTER
  {
    WideOffsetIs(bits, o);
    TopBit(o);
  }

  // ---------- new offsets ----------

  lemma ClearLow(m: nat, k: nat)
    requires m < SIGN_BIT && 1 <= k <= 64
    ensures And(Shl(m, 1), Ones(k, 64)) == Shl(Shr(m, k - 1), k)
  {
    var x := Shl(m, 1);
    AndOnes(x, k, 64);
    ShrShr(x, 1, k - 1);
    JoinZero(m, 1);
    LargePowers();
    Pow2Add(64 - k, k - 1);
    ShrBound(m, k - 1, 64 - k);
    LowOfSmall(Shr(m, k - 1), 64 - k);
  }

  lemma KeepLow(m: nat, k: nat)
    requires k >= 1
    ensures And(Shl(m, 1), Ones(0, k)) == Shl(Low(m, k - 1), 1)
  {
    AndLowOnes(Shl(m, 1), k);
    LowShl(m, 1, k - 1);
  }

  /** An offset that is a multiple of 4 is replaced as a whole. Of any other, the low five bits
      stay, whatever the new offset is. */
  lemma WideNewOffset(bits: nat, o: nat, n: nat)
    requires bits >= 63
    ensures NewOffset(Create(bits, o), n) ==
            Create(bits, if Low(o, 2) == 0 then n else Shl(Shr(n, 5), 5) + Low(o, 5))
  {
    var m, v := Low(n, 63), Low(o, 63);
    WideLayout(bits, o);
    WideWord(bits, o);
    WideValue(bits, n);
    LowShl(n, 1, 63);
    SmallMasks();
    if Low(o, 2) == 0 {
      ClearLow(m, 1);
      KeepLow(v, 1);
      OrJoin(m, 1, 0);
      WideWord(bits, n);
    } else {
      ClearLow(m, 6);
      KeepLow(v, 6);
      MixedWord(bits, o, n);
    }
  }

  lemma MixJoin(q: nat, r: nat)
    requires r < Pow2(5)
    ensures Or(Shl(q, 6), Shl(r, 1)) == Shl(Shl(q, 5) + r, 1)
  {
    ShlBound(r, 1, 5);
    OrJoin(q, 6, Shl(r, 1));
    ShlAdd(Shl(q, 5), r, 1);
    ShlShl(q, 5, 1);
  }

  lemma HighAndLow(n: nat, o: nat)
    ensures Shr(Low(n, 63), 5) == Low(Shr(n, 5), 58) && Low(Low(o, 63), 5) == Low(o, 5) < Pow2(5)
  {
    ShrOfLow(n, 5, 58);
    LowLow(o, 5, 63);
    LowBound(o, 5);
  }

  lemma MixedWord(bits: nat, o: nat, n: nat)
    requires bits >= 63
    ensures Or(Shl(Shr(Low(n, 63), 5), 6), Shl(Low(Low(o, 63), 5), 1))
            == Create(bits, Shl(Shr(n, 5), 5) + Low(o, 5)).value
  {
    HighAndLow(n, o);
    MixJoin(Low(Shr(n, 5), 58), Low(o, 5));
    JoinedLow(Shr(n, 5), Low(o, 5));
    WideWord(bits, Shl(Shr(n, 5), 5) + Low(o, 5));
  }

  lemma JoinedLow(q: nat, r: nat)
    requires r < Pow2(5)
    ensures Low(Shl(q, 5) + r, 63) == Shl(Low(q, 58), 5) + r
  {
    var x := Shl(q, 5) + r;
    Join(q, 5, r);
    Parts(Low(x, 63), 5);
    ShrOfLow(x, 5, 58);
    LowLow(x, 5, 63);
  }

  lemma SameWordIff(bits: nat, x: nat, y: nat)
    requires bits >= 63
    ensures Create(bits, x) == Create(bits, y) <==> Low(x, 63) == Low(y, 63)
  {
    WideValue(bits, x);
    WideValue(bits, y);
  }

  lemma SameLowFiveIff(n: nat, r: nat)
    requires r < Pow2(5)
    ensures Low(Shl(Shr(n, 5), 5) + r, 63) == Low(n, 63) <==> r == Low(n, 5)
  {
    var x := Shl(Shr(n, 5), 5) + r;
    Parts(n, 5);
    Join(Shr(n, 5), 5, r);
    LowLow(x, 5, 63);
    LowLow(n, 5, 63);
  }

  /** So a new offset is taken over exactly if the old one was a multiple of 4, or agrees with it
      in the low five bits. */
  lemma WideNewOffsetIff(bits: nat, o: nat, n: nat)
    requires bits >= 63
    ensures NewOffset(Create(bits, o), n) == Create(bits, n) <==> Low(o, 2) == 0 || Low(o, 5) == Low(n, 5)
  {
    WideNewOffset(bits, o, n);
    if Low(o, 2) != 0 {
      LowBound(o, 5);
      SameWordIff(bits, Shl(Shr(n, 5), 5) + Low(o, 5), n);
      SameLowFiveIff(n, Low(o, 5));
    }
  }

  /** Adding 1 to the address 1 gives the address 1. */
  lemma OnePlusOneStays()
    ensures Add(Create(64, 1), 1) == Create(64, 1)
  {
    WideOffsetIff(64, 1);
    FitsWord(2);
    WideNewOffset(64, 1, 2);
    assert Low(1, 2) == 1 && Low(1, 5) == 1 && Shr(2, 5) == 0;
    ShlZero(5);
  }
}
