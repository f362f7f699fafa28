/** What printed addresses say to a reader, and which texts are read as addresses. */
module AddressReading {
  import opened Addresses
  import opened AddressText
  import opened Bits
  import C = CompactAddresses
  import opened Options

  const LOWER_DIGITS := "0123456789abcdef"

  /** Digits are read in either case, and nothing else is. */
  lemma DigitValueIff(c: char, d: nat)
    requires d < 16
    ensures DigitValue(c) == Some(d) <==> c == HEX_DIGITS[d] || c == LOWER_DIGITS[d]
  {
    assert HEX_DIGITS == ['0', '1', '2', '3', '4', '5', '6', '7', '8', '9', 'A', 'B', 'C', 'D', 'E', 'F'];
    assert LOWER_DIGITS == ['0', '1', '2', '3', '4', '5', '6', '7', '8', '9', 'a', 'b', 'c', 'd', 'e', 'f'];
  }

  /** Octal numbers have no digit above 7. */
  lemma OctalIsBelowEight(sofar: nat, d: nat, s: string)
    requires d < 16
    ensures ReadFrom(sofar, [HEX_DIGITS[d]] + s, 3) ==
            if d < 8 then ReadFrom(8 * sofar + d, s, 3) else None
  {
    var t := [HEX_DIGITS[d]] + s;
    DigitRoundTrip(d);
    assert t[0] == HEX_DIGITS[d] && t[1..] == s;
    SmallPowers();
    ShlIsProduct(sofar, 3);
  }

  // ---------- printed addresses ----------

  /** The digits of w bits. */
  function DigitsOf(w: nat): string {
    if w == 3 then HEX_DIGITS[..8] else HEX_DIGITS
  }

  ghost predicate AllDigits(s: string, w: nat) {
    forall i | 0 <= i < |s| :: s[i] in DigitsOf(w)
  }

  /** The text is this number in n digits of w bits each, in upper case. */
  ghost predicate Denotes(s: string, w: nat, n: nat, value: nat) {
    |s| == n && AllDigits(s, w) && ReadFrom(0, s, w) == Some(value)
  }

  lemma DigitIsOne(offset: nat, width: nat, i: nat)
    requires width == 3 || width == 4
    ensures DigitAt(offset, width, i) in DigitsOf(width)
  {
    var d := Field(offset, i * width, width);
    LowBound(Shr(offset, i * width), width);
    assert Pow2(3) == 8 && Pow2(4) == 16;
    assert DigitsOf(width)[d] == HEX_DIGITS[d];
  }

  lemma {:induction false} DigitsAreDigits(offset: nat, width: nat, count: nat)
    requires width == 3 || width == 4
    ensures |Digits(offset, width, count)| == count && AllDigits(Digits(offset, width, count), width)
  {
    if count == 0 {
    } else {
      DigitsAreDigits(offset, width, count - 1);
      DigitIsOne(offset, width, count - 1);
    }
  }

  lemma DigitsDenote(offset: nat, width: nat, count: nat)
    requires width == 3 || width == 4
    ensures Denotes(Digits(offset, width, count), width, count, Low(offset, count * width))
  {
    DigitsAreDigits(offset, width, count);
    ReadDigits(0, offset, width, count);
    ShlZero(count * width);
  }

  /** The width of the digits and their number, from base and bits. */
  function WidthOf(base: nat): nat {
    if base == 8 then 3 else 4
  }

  function CountOf(bits: int, base: nat): nat {
    if bits <= 0 then 0 else (bits + WidthOf(base) - 1) / WidthOf(base)
  }

  lemma Pieces(a: string, b: string, c: string, d: string)
    ensures var t := a + (b + c) + d;
            && t[..|a|] == a && t[|a|..|a| + |b|] == b
            && t[|a| + |b|..|a| + |b| + |c|] == c && t[|a| + |b| + |c|..] == d
  {
  }

  /** How the text of an address begins: with the prefix and, if there is a selector, its four
      hexadecimal digits and the separator. */
  ghost predicate StartsAs(t: string, q: nat, v: C.View, prefix: string, separator: string) {
    var p := |prefix|;
    && p <= q <= |t| && t[..p] == prefix
    && match v.selector
       case None => q == p
       case Some(s) =>
         q == p + 4 + |separator| && Denotes(t[p..p + 4], 4, 4, Low(s, 16)) && t[p + 4..q] == separator
  }

  lemma TextIsPieces(v: C.View, prefix: string, separator: string)
    ensures var selector := if v.selector.Some? then Digits(v.selector.value, 4, 4) else "";
            var separator' := if v.selector.Some? then separator else "";
            Text(v, prefix, separator) ==
            prefix + (selector + separator') + Digits(v.offset, WidthOf(v.base), CountOf(v.width, v.base))
  {
  }

  lemma TextStarts(v: C.View, prefix: string, separator: string)
    ensures StartsAs(Text(v, prefix, separator),
                     |prefix| + if v.selector.Some? then 4 + |separator| else 0, v, prefix, separator)
  {
    var selector := if v.selector.Some? then Digits(v.selector.value, 4, 4) else "";
    var separator' := if v.selector.Some? then separator else "";
    TextIsPieces(v, prefix, separator);
    Pieces(prefix, selector, separator', Digits(v.offset, WidthOf(v.base), CountOf(v.width, v.base)));
    if v.selector.Some? {
      DigitsDenote(v.selector.value, 4, 4);
    }
  }

  /** A printed name: after that, the offset, in the base of the address and with the number of
      digits its size takes. */
  lemma TextReads(v: C.View, prefix: string, separator: string)
    ensures var t, n, w := Text(v, prefix, separator), CountOf(v.width, v.base), WidthOf(v.base);
            var q := |prefix| + if v.selector.Some? then 4 + |separator| else 0;
            StartsAs(t, q, v, prefix, separator) && Denotes(t[q..], w, n, Low(v.offset, n * w))
  {
    var n, w := CountOf(v.width, v.base), WidthOf(v.base);
    var selector := if v.selector.Some? then Digits(v.selector.value, 4, 4) else "";
    var separator' := if v.selector.Some? then separator else "";
    TextStarts(v, prefix, separator);
    TextIsPieces(v, prefix, separator);
    Pieces(prefix, selector, separator', Digits(v.offset, w, n));
    DigitsDenote(v.offset, w, n);
    SelectorLength(v);
  }

  lemma SelectorLength(v: C.View)
    ensures v.selector.Some? ==> |Digits(v.selector.value, 4, 4)| == 4
  {
    if v.selector.Some? {
      DigitsAreDigits(v.selector.value, 4, 4);
    }
  }

  lemma KeptWhole(x: nat, bits: nat, n: nat)
    requires x < Pow2(bits) && bits <= n
    ensures Low(x, n) == x
  {
    Pow2Le(bits, n);
    LowOfSmall(x, n);
  }

  /** A hexadecimal or octal address is printed as the digits of its offset in that base. */
  lemma LinearTextReads(a: Address)
    requires InWidth(a) && (a.kind.LinearHex? || a.kind.LinearOctal?)
    ensures var w := if a.kind.LinearOctal? then 3 else 4;
            Denotes(ToString(a), w, (a.bits + w - 1) / w, a.offset)
  {
    var w := if a.kind.LinearOctal? then 3 else 4;
    TextReads(C.ViewOf(a), "", ":");
    KeptWhole(a.offset, a.bits, ((a.bits + w - 1) / w) * w);
    assert ToString(a)[0..] == ToString(a);
  }

  /** Nine characters, with a colon in the middle. */
  ghost predicate IsSelectorAndOffset(t: string, selector: nat, offset: nat) {
    |t| == 9 && t[4] == ':' && Denotes(t[..4], 4, 4, selector) && Denotes(t[5..], 4, 4, offset)
  }

  lemma NineCharacters(t: string, v: C.View, selector: nat, offset: nat)
    requires v.selector == Some(selector) && selector < 0x1_0000 && offset < 0x1_0000
    requires StartsAs(t, 5, v, "", ":") && Denotes(t[5..], 4, 4, Low(offset, 16))
    ensures IsSelectorAndOffset(t, selector, offset)
  {
    SmallPowers();
    KeptWhole(selector, 16, 16);
    KeptWhole(offset, 16, 16);
    assert t[0..4] == t[..4];
    assert t[4..5][0] == t[4];
  }

  /** A segmented address is printed as its selector, a colon, and its offset, in four
      hexadecimal digits each. */
  lemma SegmentedTextReads(a: Address)
    requires InWidth(a) && (a.kind.SegmentedReal? || a.kind.SegmentedProt?) && a.bits == 16
    ensures IsSelectorAndOffset(ToString(a), a.selector, a.offset)
  {
    TextReads(C.ViewOf(a), "", ":");
    SmallPowers();
    NineCharacters(ToString(a), C.ViewOf(a), a.selector, a.offset);
  }

  // ---------- texts that are read ----------

  predicate AllHex(s: string) {
    forall i | 0 <= i < |s| :: s[i] in HEX_DIGITS || s[i] in LOWER_DIGITS
  }

  /** The number that hexadecimal digits spell. */
  function Numeral(s: string): nat {
    if s == "" then 0
    else
      16 * Numeral(s[..|s| - 1]) + match DigitValue(s[|s| - 1]) case Some(d) => d case None => 0
  }

  lemma HexIff(c: char)
    ensures DigitValue(c).Some? <==> c in HEX_DIGITS || c in LOWER_DIGITS
    ensures DigitValue(c).Some? ==> DigitValue(c).value < 16
  {
    if DigitValue(c).Some? {
      DigitValueIff(c, DigitValue(c).value);
    } else {
      forall d | 0 <= d < 16 ensures c != HEX_DIGITS[d] && c != LOWER_DIGITS[d] {
        DigitValueIff(c, d);
      }
    }
  }

  lemma ReadHead(sofar: nat, s: string)
    requires s != ""
    ensures ReadFrom(sofar, s, 4) ==
            match DigitValue(s[0])
            case Some(d) => ReadFrom(16 * sofar + d, s[1..], 4)
            case None => None
  {
    SmallPowers();
    HexIff(s[0]);
    ShlIsProduct(sofar, 4);
  }

  /** Reading hexadecimal digits one after the other. */
  function ReadHex(sofar: nat, s: string): Option<nat>
    decreases s
  {
    if s == "" then Some(sofar)
    else match DigitValue(s[0])
      case None => None
      case Some(d) => ReadHex(16 * sofar + d, s[1..])
  }

  lemma {:induction false} ReadIsHex(sofar: nat, s: string)
    ensures ReadFrom(sofar, s, 4) == ReadHex(sofar, s)
    decreases s
  {
    if s == "" {
    } else {
      ReadHead(sofar, s);
      if DigitValue(s[0]).Some? {
        ReadIsHex(16 * sofar + DigitValue(s[0]).value, s[1..]);
      }
    }
  }

  lemma {:induction false} ReadSnoc(sofar: nat, s: string, c: char)
    ensures ReadHex(sofar, s + [c]) ==
            match (ReadHex(sofar, s), DigitValue(c))
            case (Some(v), Some(d)) => Some(16 * v + d)
            case _ => None
    decreases s
  {
    if s == "" {
      assert (s + [c])[1..] == "";
    } else {
      assert (s + [c])[1..] == s[1..] + [c];
      if DigitValue(s[0]).Some? {
        ReadSnoc(16 * sofar + DigitValue(s[0]).value, s[1..], c);
      }
    }
  }

  /** The same from the other end. */
  function ReadBack(s: string): Option<nat> {
    if s == "" then Some(0)
    else match (ReadBack(s[..|s| - 1]), DigitValue(s[|s| - 1]))
      case (Some(v), Some(d)) => Some(16 * v + d)
      case _ => None
  }

  lemma {:induction false} HexIsReadBack(s: string)
    ensures ReadHex(0, s) == ReadBack(s)
  {
    if s == "" {
    } else {
      HexIsReadBack(s[..|s| - 1]);
      ReadSnoc(0, s[..|s| - 1], s[|s| - 1]);
      assert s == s[..|s| - 1] + [s[|s| - 1]];
    }
  }

  lemma AllHexLast(s: string)
    requires s != ""
    ensures AllHex(s) <==> AllHex(s[..|s| - 1]) && DigitValue(s[|s| - 1]).Some?
  {
    var front := s[..|s| - 1];
    HexIff(s[|s| - 1]);
    assert forall i | 0 <= i < |front| :: front[i] == s[i];
  }

  lemma {:induction false} ReadBackIsNumeral(s: string)
    ensures ReadBack(s) == if AllHex(s) then Some(Numeral(s)) else None
  {
    if s == "" {
    } else {
      ReadBackIsNumeral(s[..|s| - 1]);
      AllHexLast(s);
    }
  }

  /** A text is read as an address exactly if it is a hexadecimal number, in either case and with
      any number of leading zeros, that fits the bits. */
  lemma TryParseIff(s: Option<string>, bits: nat, a: Address)
    ensures TryParse(s, bits) == Some(a) <==>
            && s.Some? && s.value != "" && AllHex(s.value) && Numeral(s.value) < Pow2(bits)
            && a == Address(LinearHex, bits, Numeral(s.value), 0)
  {
    if s.Some? {
      ReadIsHex(0, s.value);
      HexIsReadBack(s.value);
      ReadBackIsNumeral(s.value);
    }
  }
}
