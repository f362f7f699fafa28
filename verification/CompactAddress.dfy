/** Packed addresses: the `CompactAddress` of src/Core/Address.cs keeps the kind, the offset
    size, the offset and the selector in one 64-bit word. It is proved to refine `Address`. */
module CompactAddresses {
  import opened Addresses
  import opened Bits
  import opened Options

  /** The fields of the word:
        bits 48..63   selector (segmented kinds only)
        bits 12..     offset
        bits  4..11   size in bits
        bits  0..3    kind: 1 hex, 3 octal, 5 real mode, 7 protected mode */
  datatype CompactAddress = CompactAddress(value: nat)

  datatype Layout = Layout(bitOffset: nat, nonOffsetMask: nat, base: nat,
                           linearShift: nat, selectorMask: nat, linearMask: nat)

  /** The table entry selected by the low three bits of the word. */
  function LayoutOf(c: CompactAddress): Layout {
    match Low(c.value, 3)
    case 0 => Layout(1, 1, 16, 0, 0, 0)
    case 1 => Layout(12, SIZE_TYPE_MASK, 16, 0, 0, 0)
    case 3 => Layout(12, SIZE_TYPE_MASK, 8, 0, 0, 0)
    case 5 => Layout(12, SELECTOR_SIZE_TYPE_MASK, 16, 44, SELECTOR_MASK, SELECTOR_MASK)
    case 7 => Layout(12, SELECTOR_SIZE_TYPE_MASK, 16, 39, SELECTOR_MASK, PROT_SELECTOR_MASK)
    case _ => Layout(1, 63, 16, 0, 0, 0)
  }

  function Complement(mask: nat): nat
    requires mask <= ALL_ONES
  {
    ALL_ONES - mask
  }

  /** The shift of a signed word: a set top bit is copied down. */
  function ShiftRightSigned(x: nat, k: nat): nat {
    if x < SIGN_BIT then Shr(x, k) else Low(ALL_ONES - Shr(Low(ALL_ONES - x, 64), k), 64)
  }

  function Offset(c: CompactAddress): nat {
    var l := LayoutOf(c);
    ShiftRightSigned(And(c.value, Complement(l.selectorMask)), l.bitOffset)
  }

  function SelectorOf(c: CompactAddress): Option<nat> {
    if LayoutOf(c).selectorMask == 0 then None else Some(Shr(c.value, 48))
  }

  function NewOffset(c: CompactAddress, newOffset: nat): CompactAddress {
    var l := LayoutOf(c);
    CompactAddress(Or(And(Low(Shl(newOffset, l.bitOffset), 64), Complement(l.nonOffsetMask)),
                      And(c.value, l.nonOffsetMask)))
  }

  function Add(c: CompactAddress, delta: int): CompactAddress {
    NewOffset(c, Low(Offset(c) + delta, 64))
  }

  function Align(c: CompactAddress, alignment: int): Option<CompactAddress> {
    if alignment <= 0 then None
    else Some(NewOffset(c, AlignedOffset(Offset(c), alignment)))
  }

  /** The packed selector, moved down to where it counts. */
  function PackedBase(c: CompactAddress): nat {
    var l := LayoutOf(c);
    Shr(And(c.value, l.linearMask), l.linearShift)
  }

  function ToLinear(c: CompactAddress): nat {
    Low(PackedBase(c) + Offset(c), 64)
  }

  /** The bits the printer takes for the offset: the size field, less the selector. */
  function OffsetBits(c: CompactAddress): int {
    var l := LayoutOf(c);
    (if l.bitOffset < 4 then 64 else Field(c.value, 4, 8)) - (if l.selectorMask == 0 then 0 else 16)
  }

  // ---------- construction ----------

  function Create(bits: nat, linear: nat): CompactAddress {
    if bits >= 63 then CompactAddress(Low(Shl(linear, 1), 64))
    else CompactAddress(Or(Or(Low(Shl(linear, 12), 64), Shl(bits, 4)), 1))
  }

  function OctalPtr(bits: nat, pattern: nat): CompactAddress {
    CompactAddress(Or(Or(Low(Shl(pattern, 12), 64), Shl(bits, 4)), 3))
  }

  function SegPtr(selector: nat, offset: nat): CompactAddress {
    CompactAddress(Or(Or(Or(Shl(selector, 48), Shl(offset, 12)), Shl(32, 4)), 5))
  }

  function ProtectedSegPtr(selector: nat, offset: nat): CompactAddress {
    CompactAddress(Or(Or(Or(Shl(selector, 48), Shl(offset, 12)), Shl(32, 4)), 7))
  }

  /** The packed form of an address. */
  function Pack(a: Address): CompactAddress {
    match a.kind
    case LinearHex => Create(a.bits, a.offset)
    case LinearOctal => OctalPtr(a.bits, a.offset)
    case SegmentedReal => SegPtr(a.selector, a.offset)
    case SegmentedProt => ProtectedSegPtr(a.selector, a.offset)
  }

  predicate Segmented(a: Address) {
    a.kind.SegmentedReal? || a.kind.SegmentedProt?
  }

  /** The addresses that the packed form has room for. */
  ghost predicate Packable(a: Address) {
    && IsAddress(a)
    && (if Segmented(a) then a.bits == 16 && a.offset < Pow2(36)
        else a.bits <= 62 && a.offset < Pow2(51) && a.selector == 0)
  }

  function KindBits(kind: Kind): nat {
    match kind case LinearHex => 1 case LinearOctal => 3 case SegmentedReal => 5 case SegmentedProt => 7
  }

  function SizeField(a: Address): nat {
    if Segmented(a) then 32 else a.bits
  }

  /** The low twelve bits: size and kind. */
  function SizeAndKind(a: Address): nat {
    Shl(SizeField(a), 4) + KindBits(a.kind)
  }

  /** Everything above the size and kind fields. */
  function High(a: Address): nat {
    if Segmented(a) then Shl(a.selector, 36) + a.offset else a.offset
  }

  /** The offset field has 52 bits, or 36 below a selector. */
  function FieldWidth(a: Address): nat {
    if Segmented(a) then 36 else 52
  }

  /** The offset n has no bits between the address's size and the top of the packed field, nor,
      if the size exceeds what the field can hold, above that. */
  ghost predicate FieldFits(a: Address, n: nat) {
    Low(n, if a.bits < FieldWidth(a) then FieldWidth(a) else a.bits) < Pow2(if a.bits < 51 then a.bits else 51)
  }

  // ---------- words with fields ----------

  /** A word with an offset of 51 bits above its low twelve bits. */
  lemma LinearWord(v: nat, o: nat, low: nat)
    requires v == Shl(o, 12) + low && o < Pow2(51) && low < Pow2(12)
    ensures v < SIGN_BIT
    ensures Shr(v, 12) == o && Low(v, 12) == low
  {
    Join(o, 12, low);
    ShlBound(o, 12, 51);
    LargePowers();
  }

  lemma LinearWordMasks(v: nat)
    requires v < SIGN_BIT
    ensures And(v, ALL_ONES) == v
  {
    AndAllOnes(v);
    FitsWord(v);
  }

  /** A word with a selector, an offset of 36 bits and the low twelve bits. */
  lemma SegmentedWord(v: nat, s: nat, o: nat, low: nat)
    requires v == Shl(Shl(s, 36) + o, 12) + low && o < Pow2(36) && low < Pow2(12)
    ensures Low(v, 12) == low && Shr(v, 12) == Shl(s, 36) + o && Shr(v, 48) == s
  {
    Join(Shl(s, 36) + o, 12, low);
    ShrShr(v, 12, 36);
    Join(s, 36, o);
  }

  lemma SegmentedWordOffset(v: nat, s: nat, o: nat)
    requires Shr(v, 12) == Shl(s, 36) + o && o < Pow2(36)
    ensures Shr(And(v, ALL_ONES - SELECTOR_MASK), 12) == o
  {
    AndNotSelector(v);
    ShrOfLow(v, 12, 36);
    Join(s, 36, o);
  }

  lemma SegmentedWordPositive(v: nat)
    ensures And(v, ALL_ONES - SELECTOR_MASK) < SIGN_BIT
  {
    AndNotSelector(v);
    LowBound(v, 48);
    LargePowers();
  }

  lemma SegmentedWordReal(v: nat, s: nat)
    requires Shr(v, 48) == s && s < 0x1_0000
    ensures Shr(And(v, SELECTOR_MASK), 44) == Shl(s, 4)
  {
    AndSelectorMask(v);
    SmallPowers();
    LowOfSmall(s, 16);
    ShlShl(s, 4, 44);
    JoinZero(Shl(s, 4), 44);
  }

  lemma SegmentedWordProt(v: nat, s: nat)
    requires Shr(v, 48) == s && s < 0x1_0000
    ensures Shr(And(v, PROT_SELECTOR_MASK), 39) == Shl(Shr(s, 3), 12)
  {
    AndProtSelectorMask(v);
    SmallPowers();
    ShrShr(v, 48, 3);
    ShrBound(s, 3, 13);
    LowOfSmall(Shr(s, 3), 13);
    ShlShl(Shr(s, 3), 12, 39);
    JoinZero(Shl(Shr(s, 3), 12), 39);
  }

  lemma SizeAndKindWord(v: nat, size: nat, t: nat)
    requires Low(v, 12) == Shl(size, 4) + t && t < Pow2(3)
    ensures Low(v, 3) == t && (size < Pow2(8) ==> Field(v, 4, 8) == size)
  {
    LowLow(v, 3, 12);
    ShlShl(size, 1, 3);
    Join(Shl(size, 1), 3, t);
    ShrOfLow(v, 4, 8);
    Pow2Lt(3, 4);
    Join(size, 4, t);
  }

  lemma JoinFields(y: nat, size: nat, t: nat)
    requires size < Pow2(8) && t < Pow2(4)
    ensures Or(Or(Shl(y, 12), Shl(size, 4)), t) == Shl(y, 12) + (Shl(size, 4) + t)
    ensures Shl(size, 4) + t < Pow2(12)
  {
    ShlBound(size, 4, 8);
    OrFields(y, size, 8, 4);
    OrJoin(Shl(y, 8) + size, 4, t);
    ShlShl(y, 8, 4);
    ShlAdd(Shl(y, 8), size, 4);
  }

  /** The shifted new offset, cut to the 52-bit field. */
  lemma ShiftedOffset(n: nat)
    ensures And(Low(Shl(n, 12), 64), ALL_ONES - SIZE_TYPE_MASK) == Shl(Low(n, 52), 12)
    ensures And(Low(Shl(n, 12), 64), ALL_ONES - SELECTOR_SIZE_TYPE_MASK) == Shl(Low(n, 36), 12)
  {
    LowShl(n, 12, 52);
    JoinZero(Low(n, 52), 12);
    LowLow(n, 52, 52);
    LowLow(n, 36, 52);
    AndNotSizeType(Shl(Low(n, 52), 12));
    AndNotSelectorSizeType(Shl(Low(n, 52), 12));
  }

  lemma KeptFields(v: nat, s: nat)
    requires Shr(v, 48) == s && s < 0x1_0000
    ensures And(v, SELECTOR_SIZE_TYPE_MASK) == Shl(s, 48) + Low(v, 12)
  {
    AndSelectorSizeType(v);
    SmallPowers();
    LowOfSmall(s, 16);
  }

  // ---------- the fields of a packed address ----------

  /** The packed word that represents a. */
  ghost predicate Represents(c: CompactAddress, a: Address) {
    Packable(a) && c.value == Shl(High(a), 12) + SizeAndKind(a)
  }

  lemma PackLinear(a: Address)
    requires Packable(a) && !Segmented(a)
    ensures Represents(Pack(a), a)
  {
    SmallPowers();
    JoinFields(a.offset, a.bits, KindBits(a.kind));
    LinearWord(Shl(a.offset, 12), a.offset, 0);
    FitsWord(Shl(a.offset, 12));
  }

  lemma PackSegmented(a: Address)
    requires Packable(a) && Segmented(a)
    ensures Represents(Pack(a), a)
  {
    SmallPowers();
    OrFields(a.selector, a.offset, 36, 12);
    JoinFields(Shl(a.selector, 36) + a.offset, 32, KindBits(a.kind));
  }

  lemma PackRepresents(a: Address)
    requires Packable(a)
    ensures Represents(Pack(a), a)
  {
    if Segmented(a) {
      PackSegmented(a);
    } else {
      PackLinear(a);
    }
  }

  lemma FieldBounds(a: Address)
    requires Packable(a)
    ensures SizeField(a) < Pow2(8) && KindBits(a.kind) < Pow2(3) && SizeAndKind(a) < Pow2(12)
    ensures a.offset < Pow2(if Segmented(a) then 36 else 51)
  {
    SmallPowers();
    ShlBound(SizeField(a), 4, 8);
  }

  /** The fields of a word that represents an address. */
  lemma RepresentedFields(c: CompactAddress, a: Address)
    requires Represents(c, a)
    ensures Low(c.value, 12) == SizeAndKind(a) && Shr(c.value, 12) == High(a)
    ensures Low(c.value, 3) == KindBits(a.kind) && Field(c.value, 4, 8) == SizeField(a)
  {
    FieldBounds(a);
    Join(High(a), 12, SizeAndKind(a));
    SizeAndKindWord(c.value, SizeField(a), KindBits(a.kind));
  }

  lemma RepresentedSelector(c: CompactAddress, a: Address)
    requires Represents(c, a) && Segmented(a)
    ensures Shr(c.value, 48) == a.selector
  {
    FieldBounds(a);
    SegmentedWord(c.value, a.selector, a.offset, SizeAndKind(a));
  }

  // ---------- observations agree ----------

  lemma LinearOffset(c: CompactAddress, a: Address)
    requires Represents(c, a) && !Segmented(a)
    ensures Offset(c) == a.offset
  {
    RepresentedFields(c, a);
    FieldBounds(a);
    LinearWord(c.value, a.offset, SizeAndKind(a));
    LinearWordMasks(c.value);
  }

  lemma SegmentedOffset(c: CompactAddress, a: Address)
    requires Represents(c, a) && Segmented(a)
    ensures Offset(c) == a.offset
  {
    RepresentedFields(c, a);
    FieldBounds(a);
    SegmentedWordOffset(c.value, a.selector, a.offset);
    SegmentedWordPositive(c.value);
  }

  lemma OffsetAgrees(c: CompactAddress, a: Address)
    requires Represents(c, a)
    ensures Offset(c) == a.offset
  {
    if Segmented(a) {
      SegmentedOffset(c, a);
    } else {
      LinearOffset(c, a);
    }
  }

  lemma SelectorAgrees(c: CompactAddress, a: Address)
    requires Represents(c, a)
    ensures SelectorOf(c) == Addresses.Selector(a)
  {
    RepresentedFields(c, a);
    if Segmented(a) {
      RepresentedSelector(c, a);
    }
  }

  lemma BaseAgrees(c: CompactAddress, a: Address)
    requires Represents(c, a)
    ensures PackedBase(c) == LinearBase(a)
  {
    RepresentedFields(c, a);
    SelectorContribution(a);
    if Segmented(a) {
      RepresentedSelector(c, a);
      if a.kind.SegmentedReal? {
        SegmentedWordReal(c.value, a.selector);
      } else {
        SegmentedWordProt(c.value, a.selector);
      }
    }
  }

  lemma LinearAgrees(c: CompactAddress, a: Address)
    requires Represents(c, a)
    ensures ToLinear(c) == Addresses.ToLinear(a)
  {
    OffsetAgrees(c, a);
    BaseAgrees(c, a);
  }

  lemma PrintedWidthAgrees(c: CompactAddress, a: Address)
    requires Represents(c, a)
    ensures OffsetBits(c) == a.bits && LayoutOf(c).base == InfoOf(a.kind).base
  {
    RepresentedFields(c, a);
  }

  // ---------- operations agree ----------

  lemma LinearNewOffset(c: CompactAddress, a: Address, n: nat)
    requires Represents(c, a) && !Segmented(a)
    ensures NewOffset(c, n).value == Shl(Low(n, 52), 12) + SizeAndKind(a)
  {
    RepresentedFields(c, a);
    FieldBounds(a);
    ShiftedOffset(n);
    AndSizeTypeMask(c.value);
    OrJoin(Low(n, 52), 12, SizeAndKind(a));
  }

  lemma SegmentedNewOffsetParts(c: CompactAddress, a: Address, n: nat)
    requires Represents(c, a) && Segmented(a)
    ensures NewOffset(c, n).value == Or(Shl(Low(n, 36), 12), Shl(a.selector, 48) + SizeAndKind(a))
  {
    RepresentedFields(c, a);
    RepresentedSelector(c, a);
    ShiftedOffset(n);
    KeptFields(c.value, a.selector);
  }

  lemma SegmentedNewOffset(c: CompactAddress, a: Address, n: nat)
    requires Represents(c, a) && Segmented(a)
    ensures NewOffset(c, n).value == Shl(Shl(a.selector, 36) + Low(n, 36), 12) + SizeAndKind(a)
  {
    SegmentedNewOffsetParts(c, a, n);
    FieldBounds(a);
    MiddleReplaced(a.selector, n, SizeAndKind(a));
  }

  lemma MiddleReplaced(selector: nat, n: nat, low: nat)
    requires low < Pow2(12)
    ensures Or(Shl(Low(n, 36), 12), Shl(selector, 48) + low) == Shl(Shl(selector, 36) + Low(n, 36), 12) + low
  {
    LowBound(n, 36);
    OrMiddle(selector, Low(n, 36), low, 36, 12, 48);
  }

  lemma NewOffsetPackableIff(a: Address, n: nat)
    requires Packable(a)
    ensures Addresses.NewOffset(a, n) == a.(offset := Low(n, a.bits))
    ensures Packable(Addresses.NewOffset(a, n)) <==> a.bits <= 51 || Low(n, a.bits) < Pow2(51)
  {
    NewOffsetKeepsLowBits(a, n);
    KeptBound(n, a.bits, 62);
    KeptBound(n, a.bits, 51);
    KeptBound(n, a.bits, 36);
    TopOfWord();
  }

  lemma KeptBound(n: nat, bits: nat, k: nat)
    ensures bits <= k ==> Low(n, bits) < Pow2(k)
  {
    LowBound(n, bits);
    if bits <= k {
      Pow2Le(bits, k);
    }
  }

  /** Words that differ in the field above their low twelve bits differ. */
  lemma SameHigh(x: nat, y: nat, low: nat)
    requires Shl(x, 12) + low == Shl(y, 12) + low
    ensures x == y
  {
    JoinZero(x, 12);
    JoinZero(y, 12);
  }

  lemma FieldRefinesIff(n: nat, field: nat, bits: nat)
    requires bits <= field
    ensures Low(n, field) == Low(n, bits) <==> Low(n, field) < Pow2(bits)
  {
    LowBound(n, bits);
    LowLow(n, bits, field);
    if Low(n, field) < Pow2(bits) {
      LowOfSmall(Low(n, field), bits);
    }
  }

  lemma SameHighIff(x: nat, y: nat, low: nat)
    ensures Shl(x, 12) + low == Shl(y, 12) + low <==> x == y
  {
    if Shl(x, 12) + low == Shl(y, 12) + low {
      SameHigh(x, y, low);
    }
  }

  lemma RepresentsHighIff(d: CompactAddress, b: Address, high: nat)
    requires d.value == Shl(high, 12) + SizeAndKind(b)
    ensures Represents(d, b) <==> Packable(b) && high == High(b)
  {
    SameHighIff(high, High(b), SizeAndKind(b));
  }

  lemma SegmentedRefinesIff(c: CompactAddress, a: Address, n: nat)
    requires Represents(c, a) && Segmented(a)
    ensures Represents(NewOffset(c, n), Addresses.NewOffset(a, n)) <==> FieldFits(a, n)
  {
    NewOffsetPackableIff(a, n);
    FieldRefinesIff(n, 36, a.bits);
    SegmentedNewOffset(c, a, n);
    RepresentsHighIff(NewOffset(c, n), a.(offset := Low(n, a.bits)), Shl(a.selector, 36) + Low(n, 36));
  }

  lemma LinearRefinesIff(c: CompactAddress, a: Address, n: nat)
    requires Represents(c, a) && !Segmented(a)
    ensures Represents(NewOffset(c, n), Addresses.NewOffset(a, n)) <==> FieldFits(a, n)
  {
    NewOffsetPackableIff(a, n);
    LinearNewOffset(c, a, n);
    RepresentsHighIff(NewOffset(c, n), a.(offset := Low(n, a.bits)), Low(n, 52));
    if a.bits <= 51 {
      FieldRefinesIff(n, 52, a.bits);
    } else if Low(n, a.bits) < Pow2(51) {
      WideOffset(n, a.bits);
    }
  }

  /** An offset that the field can hold keeps all its bits there. */
  lemma WideOffset(n: nat, bits: nat)
    requires bits >= 52 && Low(n, bits) < Pow2(51)
    ensures Low(n, 52) == Low(n, bits)
  {
    LowLow(n, 52, bits);
    Pow2Lt(51, 52);
    LowOfSmall(Low(n, bits), 52);
  }

  lemma NewOffsetRepresentsIff(c: CompactAddress, a: Address, n: nat)
    requires Represents(c, a)
    ensures Represents(NewOffset(c, n), Addresses.NewOffset(a, n)) <==> FieldFits(a, n)
  {
    if Segmented(a) {
      SegmentedRefinesIff(c, a, n);
    } else {
      LinearRefinesIff(c, a, n);
    }
  }

  // ---------- what can be seen ----------

  /** What can be seen of an address: offset, selector, linear value, and what is printed. */
  datatype View = View(offset: nat, selector: Option<nat>, linear: nat, width: int, base: nat)

  function ViewOf(a: Address): View {
    View(a.offset, Addresses.Selector(a), Addresses.ToLinear(a), a.bits, InfoOf(a.kind).base)
  }

  function ViewOfPacked(c: CompactAddress): View {
    View(Offset(c), SelectorOf(c), ToLinear(c), OffsetBits(c), LayoutOf(c).base)
  }

  lemma ViewsAgree(c: CompactAddress, a: Address)
    requires Represents(c, a)
    ensures ViewOfPacked(c) == ViewOf(a)
  {
    OffsetAgrees(c, a);
    SelectorAgrees(c, a);
    LinearAgrees(c, a);
    PrintedWidthAgrees(c, a);
  }

  lemma SegmentedOffsetAfter(c: CompactAddress, a: Address, n: nat)
    requires Represents(c, a) && Segmented(a)
    ensures Offset(NewOffset(c, n)) == Low(n, 36)
  {
    var b := a.(offset := Low(n, 36));
    SegmentedNewOffset(c, a, n);
    LowBound(n, 36);
    Pow2Le(36, 64);
    LargePowers();
    SegmentedOffset(NewOffset(c, n), b);
  }

  /** With its top bit set, a linear offset is read as something else altogether. */
  lemma LinearOffsetAfter(c: CompactAddress, a: Address, n: nat)
    requires Represents(c, a) && !Segmented(a)
    ensures if Low(n, 52) < Pow2(51) then Offset(NewOffset(c, n)) == Low(n, 52)
            else Offset(NewOffset(c, n)) >= 0x4000_0000_0000_0000
  {
    LinearNewOffset(c, a, n);
    LowBound(n, 52);
    if Low(n, 52) < Pow2(51) {
      var b := a.(offset := Low(n, 52));
      Pow2Le(51, 64);
      LargePowers();
      LinearOffset(NewOffset(c, n), b);
    } else {
      NegativeOffset(c, a, n);
    }
  }

  lemma NegativeOffset(c: CompactAddress, a: Address, n: nat)
    requires Represents(c, a) && !Segmented(a) && Low(n, 52) >= Pow2(51)
    ensures Offset(NewOffset(c, n)) >= 0x4000_0000_0000_0000
  {
    var d := NewOffset(c, n);
    LinearNewOffset(c, a, n);
    FieldBounds(a);
    LowBound(n, 52);
    LargePowers();
    Pow2Add(51, 1);
    TopBitSet(d.value, Low(n, 52), SizeAndKind(a));
    LinearLayout(d, a, Low(n, 52));
    AndAllOnes(d.value);
    FitsWord(d.value);
    SignedShiftOfNegative(d.value);
  }

  /** A word with these low bits has the layout of a linear address. */
  lemma LinearLayout(d: CompactAddress, a: Address, high: nat)
    requires Packable(a) && !Segmented(a) && d.value == Shl(high, 12) + SizeAndKind(a)
    ensures LayoutOf(d).bitOffset == 12 && LayoutOf(d).nonOffsetMask == SIZE_TYPE_MASK
  {
    KindOfWord(d.value, a, high);
    assert KindBits(a.kind) == 1 || KindBits(a.kind) == 3;
  }

  lemma KindOfWord(v: nat, a: Address, high: nat)
    requires Packable(a) && v == Shl(high, 12) + SizeAndKind(a)
    ensures Low(v, 3) == KindBits(a.kind)
  {
    FieldBounds(a);
    KindInLowBits(v, high, SizeField(a), KindBits(a.kind));
  }

  lemma KindInLowBits(v: nat, high: nat, size: nat, t: nat)
    requires v == Shl(high, 12) + (Shl(size, 4) + t) && Shl(size, 4) + t < Pow2(12) && t < Pow2(3)
    ensures Low(v, 3) == t
  {
    Join(high, 12, Shl(size, 4) + t);
    SizeAndKindWord(v, size, t);
  }

  /** The packed form keeps a whole field of the new offset, the plain form only the bits of
      its size: what can be seen of them agrees exactly if nothing of the field lies above the
      size, and nothing of the size above the field. */
  lemma NewOffsetRefinesIff(c: CompactAddress, a: Address, n: nat)
    requires Represents(c, a)
    ensures ViewOfPacked(NewOffset(c, n)) == ViewOf(Addresses.NewOffset(a, n)) <==> FieldFits(a, n)
  {
    NewOffsetRepresentsIff(c, a, n);
    if FieldFits(a, n) {
      ViewsAgree(NewOffset(c, n), Addresses.NewOffset(a, n));
    } else {
      OffsetsDiffer(c, a, n);
    }
  }

  lemma OffsetsDiffer(c: CompactAddress, a: Address, n: nat)
    requires Represents(c, a) && !FieldFits(a, n)
    ensures Offset(NewOffset(c, n)) != Addresses.NewOffset(a, n).offset
  {
    NewOffsetPackableIff(a, n);
    LowBound(n, a.bits);
    if Segmented(a) {
      SegmentedOffsetAfter(c, a, n);
    } else {
      LinearOffsetAfter(c, a, n);
      Pow2Le(a.bits, 62);
      TopOfWord();
      if a.bits <= 51 {
        Pow2Le(a.bits, 51);
      }
    }
  }

  lemma TopOfWord()
    ensures Pow2(62) == 0x4000_0000_0000_0000
  {
    LargePowers();
    Pow2Add(48, 14);
    Pow2Add(12, 2);
    SmallPowers();
  }

  // ---------- chains of operations ----------

  datatype Op = AddOp(delta: int) | AlignOp(alignment: int) | NewOffsetOp(offset: nat)

  /** The offset that an operation asks for; none if the alignment is refused. */
  function Target(offset: nat, op: Op): Option<nat> {
    match op
    case AddOp(delta) => Some(Low(offset + delta, 64))
    case AlignOp(alignment) => if alignment <= 0 then None else Some(AlignedOffset(offset, alignment))
    case NewOffsetOp(n) => Some(n)
  }

  function Apply(a: Address, op: Op): Option<Address> {
    match op
    case AddOp(delta) => Some(Addresses.Add(a, delta))
    case AlignOp(alignment) => Addresses.Align(a, alignment)
    case NewOffsetOp(n) => Some(Addresses.NewOffset(a, n))
  }

  function ApplyPacked(c: CompactAddress, op: Op): Option<CompactAddress> {
    match op
    case AddOp(delta) => Some(Add(c, delta))
    case AlignOp(alignment) => Align(c, alignment)
    case NewOffsetOp(n) => Some(NewOffset(c, n))
  }

  function ApplyAll(a: Address, ops: seq<Op>): Option<Address>
    decreases ops
  {
    if ops == [] then Some(a)
    else match Apply(a, ops[0]) case None => None case Some(b) => ApplyAll(b, ops[1..])
  }

  function ApplyAllPacked(c: CompactAddress, ops: seq<Op>): Option<CompactAddress>
    decreases ops
  {
    if ops == [] then Some(c)
    else match ApplyPacked(c, ops[0]) case None => None case Some(d) => ApplyAllPacked(d, ops[1..])
  }

  /** The packed field holds what the plain form keeps of the offset that is asked for. */
  ghost predicate Fits(a: Address, op: Op) {
    match Target(a.offset, op)
    case None => true
    case Some(n) => FieldFits(a, n)
  }

  ghost predicate AllFit(a: Address, ops: seq<Op>)
    decreases ops
  {
    ops == [] || (Fits(a, ops[0]) && (Apply(a, ops[0]).Some? ==> AllFit(Apply(a, ops[0]).value, ops[1..])))
  }

  ghost predicate SameOutcome(c: Option<CompactAddress>, a: Option<Address>) {
    match (c, a)
    case (Some(d), Some(b)) => Represents(d, b)
    case (None, None) => true
    case _ => false
  }

  lemma OpIsNewOffset(c: CompactAddress, a: Address, op: Op)
    requires Represents(c, a)
    ensures var target := Target(a.offset, op);
            if target.None? then
              ApplyPacked(c, op) == None && Apply(a, op) == None
            else
              && ApplyPacked(c, op) == Some(NewOffset(c, target.value))
              && Apply(a, op) == Some(Addresses.NewOffset(a, target.value))
  {
    OffsetAgrees(c, a);
    match op
    case AddOp(_) =>
    case AlignOp(alignment) =>
      if alignment > 0 {
        assert AlignedOffset(Offset(c), alignment) == AlignedOffset(a.offset, alignment);
      }
    case NewOffsetOp(_) =>
  }

  /** Both operations are refused, or what they give looks the same. */
  ghost predicate SameView(c: Option<CompactAddress>, a: Option<Address>) {
    match (c, a)
    case (Some(d), Some(b)) => ViewOfPacked(d) == ViewOf(b)
    case (None, None) => true
    case _ => false
  }

  /** One operation: nothing that can be seen differs exactly when the operation fits. */
  lemma OpRefinesIff(c: CompactAddress, a: Address, op: Op)
    requires Represents(c, a)
    ensures SameView(ApplyPacked(c, op), Apply(a, op)) <==> Fits(a, op)
  {
    OpIsNewOffset(c, a, op);
    if Target(a.offset, op).Some? {
      NewOffsetRefinesIff(c, a, Target(a.offset, op).value);
    }
  }

  lemma OffsetsAreShort(a: Address)
    requires Packable(a)
    ensures IsAddress(a) && a.offset + 0x8000_0000 < WORD_LIMIT
  {
    FieldBounds(a);
    Pow2Lt(36, 51);
    LargePowers();
  }

  /** So the packed form is aligned where the plain one is: at the least multiple that is not
      below, if the field holds it. */
  lemma PackedAlign(c: CompactAddress, a: Address, n: nat, m: nat)
    requires Represents(c, a) && 0 < n < 0x8000_0000 && IsNextMultiple(a.offset, n, m)
    requires m < Pow2(a.bits) && FieldFits(a, m)
    ensures Align(c, n).Some? && ViewOfPacked(Align(c, n).value) == ViewOf(a.(offset := m))
  {
    OffsetsAreShort(a);
    AlignedInWord(a.offset, n, m);
    AlignIff(a, n, m);
    OpRefinesIff(c, a, AlignOp(n));
  }

  /** Any chain of fitting operations gives the packed form of what the plain form gives. */
  lemma {:induction false} ChainRefines(
      c: CompactAddress, a: Address, ops: seq<Op>, d: Option<CompactAddress>, b: Option<Address>)
    requires Represents(c, a) && AllFit(a, ops)
    requires d == ApplyAllPacked(c, ops) && b == ApplyAll(a, ops)
    ensures SameOutcome(d, b)
    decreases ops
  {
    if ops == [] {
    } else {
      OpIsNewOffset(c, a, ops[0]);
      if Apply(a, ops[0]).Some? {
        NewOffsetRepresentsIff(c, a, Target(a.offset, ops[0]).value);
        ChainRefines(ApplyPacked(c, ops[0]).value, Apply(a, ops[0]).value, ops[1..], d, b);
      }
    }
  }

  /** The packed address refines the plain one: after any chain of fitting operations on a
      packable address, nothing that can be seen differs. Order follows, being the order of
      the linear values. */
  lemma PackedRefinesPlain(a: Address, ops: seq<Op>)
    requires Packable(a) && AllFit(a, ops)
    ensures var c, b := ApplyAllPacked(Pack(a), ops), ApplyAll(a, ops);
            if b.None? then c.None? else c.Some? && ViewOfPacked(c.value) == ViewOf(b.value)
  {
    PackRepresents(a);
    ChainRefines(Pack(a), a, ops, ApplyAllPacked(Pack(a), ops), ApplyAll(a, ops));
    if ApplyAll(a, ops).Some? {
      ViewsAgree(ApplyAllPacked(Pack(a), ops).value, ApplyAll(a, ops).value);
    }
  }

  // ---------- why 51 bits ----------

  lemma CreateFields(bits: nat, o: nat)
    requires 1 <= bits <= 62
    ensures Create(bits, o).value == Shl(Low(o, 52), 12) + (Shl(bits, 4) + 1)
    ensures Shl(bits, 4) + 1 < Pow2(12) && Low(Create(bits, o).value, 3) == 1
  {
    SmallPowers();
    LowShl(o, 12, 52);
    JoinFields(Low(o, 52), bits, 1);
    LowThree(Low(o, 52), bits);
  }

  lemma LowThree(high: nat, bits: nat)
    requires Shl(bits, 4) + 1 < Pow2(12)
    ensures Low(Shl(high, 12) + (Shl(bits, 4) + 1), 3) == 1
  {
    SmallPowers();
    Join(high, 12, Shl(bits, 4) + 1);
    SizeAndKindWord(Shl(high, 12) + (Shl(bits, 4) + 1), bits, 1);
  }

  /** With its top offset bit set, a word reads as a negative number. */
  lemma TopBitSet(v: nat, m: nat, low: nat)
    requires v == Shl(m, 12) + low && low < Pow2(12)
    requires 0x8_0000_0000_0000 <= m < 0x10_0000_0000_0000
    ensures SIGN_BIT <= v < WORD_LIMIT
  {
    SmallPowers();
    ShlIsProduct(m, 12);
  }

  lemma SignedShiftOfNegative(v: nat)
    requires SIGN_BIT <= v < WORD_LIMIT
    ensures ShiftRightSigned(v, 12) >= 0x4000_0000_0000_0000
  {
    var y := ALL_ONES - v;
    FitsWord(y);
    Parts(y, 12);
    SmallPowers();
    ShlIsProduct(Shr(y, 12), 12);
    assert Shr(y, 12) <= y;
    FitsWord(ALL_ONES - Shr(y, 12));
  }

  /** A linear offset of up to 62 bits is read back from the packed word exactly if it has
      no more than 51 bits. */
  lemma LinearOffsetIff(bits: nat, o: nat)
    requires 1 <= bits <= 62 && o < Pow2(bits)
    ensures Offset(Create(bits, o)) == o <==> o < 0x8_0000_0000_0000
  {
    var v := Create(bits, o).value;
    var m := Low(o, 52);
    CreateFields(bits, o);
    LargePowers();
    if m < 0x8_0000_0000_0000 {
      LinearWord(v, m, Shl(bits, 4) + 1);
      LinearWordMasks(v);
      if o < 0x8_0000_0000_0000 {
        Pow2Lt(51, 52);
        LowOfSmall(o, 52);
      }
    } else {
      LowBound(o, 52);
      Pow2Add(51, 1);
      TopBitSet(v, m, Shl(bits, 4) + 1);
      AndAllOnes(v);
      FitsWord(v);
      SignedShiftOfNegative(v);
      Pow2Le(bits, 62);
      Pow2Add(48, 14);
      Pow2Add(12, 2);
      Parts(o, 52);
    }
  }
}
