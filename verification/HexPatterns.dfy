/** Byte patterns written as hexadecimal text: src/Core/BytePattern.cs and `MaskedPattern.Load`
    of src/Core/PlatformHeuristics.cs.

    Each complete pair of digits or wildcards makes a byte and a mask; what remains of an odd
    number is dropped.
  */
module HexPatterns {
  import opened Bits
  import opened Endian
  import opened Options

  const FROM_0: seq<nat> := [0x00, 0x01, 0x02, 0x03, 0x04, 0x05, 0x06, 0x07, 0x08, 0x09]
  const FROM_A: seq<nat> := [0x0A, 0x0B, 0x0C, 0x0D, 0x0E, 0x0F]
  const GAP_7: seq<nat> := [0xFF, 0xFF, 0xFF, 0xFF, 0xFF, 0xFF, 0xFF]
  const GAP_13: seq<nat> := GAP_7 + [0xFF, 0xFF, 0xFF, 0xFF, 0xFF, 0xFF]

  /** The values of the characters from '0' on, 0xFF where there is no digit. */
  const HEX_VALUES: seq<nat> := FROM_0 + GAP_7 + FROM_A + GAP_13 + GAP_13 + FROM_A

  const UPPER := "0123456789ABCDEF"
  const LOWER := "0123456789abcdef"

  function TryParseHexDigit(c: char): (digit: Option<nat>)
    ensures digit.Some? ==> digit.value < 16
    ensures digit.Some? <==> IsHexDigit(c)
  {
    var i := c as int - '0' as int;
    if 0 <= i < |HEX_VALUES| && HEX_VALUES[i] <= 15 then Some(HEX_VALUES[i]) else None
  }

  predicate IsHexDigit(c: char) {
    var i := c as int - '0' as int;
    0 <= i < |HEX_VALUES| && HEX_VALUES[i] <= 15
  }

  predicate IsWildcard(c: char) {
    c == '?' || c == '.'
  }

  /** Half a byte of a pattern. */
  datatype Nibble = Digit(value: nat) | Any

  function NibbleOf(c: char, wildcards: bool): seq<Nibble> {
    match TryParseHexDigit(c)
    case Some(v) => [Digit(v)]
    case None => if wildcards && IsWildcard(c) then [Any] else []
  }

  /** The nibbles that a text spells; other characters are skipped. */
  function Nibbles(text: string, wildcards: bool): seq<Nibble> {
    if text == "" then []
    else
      Nibbles(text[..|text| - 1], wildcards) + NibbleOf(text[|text| - 1], wildcards)
  }

  lemma NibblesNext(text: string, i: nat, wildcards: bool)
    requires i < |text|
    ensures Nibbles(text[..i + 1], wildcards) == Nibbles(text[..i], wildcards) + NibbleOf(text[i], wildcards)
  {
    assert text[..i + 1][..i] == text[..i];
  }

  /** What a nibble puts into a byte of the pattern or of its mask. */
  function Half(n: Nibble, mask: bool): nat {
    if n.Any? then 0 else if mask then 15 else n.value
  }

  /** The bytes of the complete pairs. A last nibble without a partner is dropped. */
  function Pairs(ns: seq<Nibble>, mask: bool): seq<nat> {
    seq(|ns| / 2, i requires 0 <= i < |ns| / 2 => 16 * Half(ns[2 * i], mask) + Half(ns[2 * i + 1], mask))
  }

  function Bytes(ns: seq<Nibble>): seq<nat> {
    Pairs(ns, false)
  }

  function Masks(ns: seq<Nibble>): seq<nat> {
    Pairs(ns, true)
  }

  // ---------- the two loops ----------

  lemma ShiftOr(high: nat, low: nat)
    requires high < 16 && low < 16
    ensures Shl(high, 4) == 16 * high
    ensures Or(Shl(high, 4), low) == 16 * high + low
    ensures Or(0, low) == low
  {
    OrJoin(high, 4, low);
    ShlIsProduct(high, 4);
    SmallPowers();
  }

  predicate Bounded(ns: seq<Nibble>) {
    forall i | 0 <= i < |ns| :: ns[i].Digit? ==> ns[i].value < 16
  }

  /** What the loops keep: the whole bytes so far and, between the two digits of a byte, the
      first of them in the upper half. */
  ghost predicate Accumulated(ns: seq<Nibble>, mask: bool, shift: int, acc: nat, out: seq<nat>) {
    && Bounded(ns)
    && out == Pairs(ns, mask)
    && (if shift == 4 then |ns| == 2 * |out| && acc == 0
        else shift == 0 && |ns| == 2 * |out| + 1 && acc == 16 * Half(ns[2 * |out|], mask))
  }

  /** `v` put into its half of the byte in `acc`. */
  function Placed(acc: nat, v: nat, shift: int): nat {
    if shift == 4 then 16 * v else acc + v
  }

  /** The operators of the loops put a digit into its half. */
  lemma OrPlaces(ns: seq<Nibble>, n: Nibble, mask: bool, shift: int, acc: nat, out: seq<nat>)
    requires Accumulated(ns, mask, shift, acc, out)
    requires n.Digit? ==> n.value < 16
    ensures shift == 4 || shift == 0
    ensures Or(acc, Shl(Half(n, mask), shift)) == Placed(acc, Half(n, mask), shift)
    ensures Low(Placed(acc, Half(n, mask), 0), 8) == Placed(acc, Half(n, mask), 0)
  {
    if shift == 4 {
      ShiftOr(Half(n, mask), 0);
      JoinedByte(0, Half(n, mask));
    } else {
      JoinedByte(Half(ns[2 * |out|], mask), Half(n, mask));
    }
  }

  lemma NextNibble(ns: seq<Nibble>, n: Nibble, mask: bool, shift: int, acc: nat, out: seq<nat>)
    requires Accumulated(ns, mask, shift, acc, out)
    requires n.Digit? ==> n.value < 16
    ensures var a := Placed(acc, Half(n, mask), shift);
            if shift - 4 < 0 then Accumulated(ns + [n], mask, 4, 0, out + [a])
            else Accumulated(ns + [n], mask, shift - 4, a, out)
  {
    if shift == 4 {
    } else {
    }
  }

  lemma JoinedByte(high: nat, low: nat)
    requires high < 16 && low < 16
    ensures Or(16 * high, Shl(low, 0)) == 16 * high + low
    ensures Low(16 * high + low, 8) == 16 * high + low
  {
    ShiftOr(high, low);
    SmallPowers();
    LowOfSmall(16 * high + low, 8);
  }

  method FromHexBytes(text: string) returns (bytes: seq<nat>)
    ensures bytes == Bytes(Nibbles(text, false))
  {
    var shift, bb := 4, 0;
    bytes := [];
    for i := 0 to |text|
      invariant Accumulated(Nibbles(text[..i], false), false, shift, bb, bytes)
    {
      NibblesNext(text, i, false);
      ghost var ns := Nibbles(text[..i], false);
      var digit := TryParseHexDigit(text[i]);
      if digit.Some? {
        assert Nibbles(text[..i + 1], false) == ns + [Digit(digit.value)];
        OrPlaces(ns, Digit(digit.value), false, shift, bb, bytes);
        NextNibble(ns, Digit(digit.value), false, shift, bb, bytes);
        bb := Or(bb, Shl(digit.value, shift));
        shift := shift - 4;
        if shift < 0 {
          bytes := bytes + [Low(bb, 8)];
          shift, bb := 4, 0;
        }
      } else {
        assert Nibbles(text[..i + 1], false) == ns;
      }
    }
    assert text[..|text|] == text;
  }

  datatype MaskedPattern = MaskedPattern(bytes: seq<nat>, mask: seq<nat>, endianness: Endianness)

  function EndiannessOf(name: Option<string>): Endianness {
    if name.None? || name.value == "" || name.value[0] == 'b' || name.value[0] == 'B' then Big else Little
  }

  method Load(sBytes: Option<string>, sMask: Option<string>, sEndianness: Option<string>)
    returns (pattern: Option<MaskedPattern>)
    ensures pattern == LoadedFrom(sBytes, sMask, EndiannessOf(sEndianness))
  {
    if sBytes.None? {
      return None;
    }
    var text := sBytes.value;
    var endianness := EndiannessOf(sEndianness);
    var bytes, mask;
    if sMask.None? {
      bytes, mask := LoadWildcards(text);
    } else {
      bytes := FromHexBytes(text);
      mask := FromHexBytes(sMask.value);
    }
    if |bytes| == 0 {
      return None;
    }
    return Some(MaskedPattern(bytes, mask, endianness));
  }

  method LoadWildcards(text: string) returns (bytes: seq<nat>, mask: seq<nat>)
    ensures bytes == Bytes(Nibbles(text, true))
    ensures mask == Masks(Nibbles(text, true))
  {
    var shift, bb, mm := 4, 0, 0;
    bytes, mask := [], [];
    for i := 0 to |text|
      invariant BothAccumulated(Nibbles(text[..i], true), shift, bb, mm, bytes, mask)
    {
      NibblesNext(text, i, true);
      ghost var ns := Nibbles(text[..i], true);
      var digit := TryParseHexDigit(text[i]);
      if digit.Some? {
        assert Nibbles(text[..i + 1], true) == ns + [Digit(digit.value)];
        var b, m := OrDigit(ns, digit.value, shift, bb, mm, bytes, mask);
        shift, bb, mm, bytes, mask := EndNibble(ns, Digit(digit.value), bb, mm, shift, b, m, bytes, mask);
      } else if IsWildcard(text[i]) {
        assert Nibbles(text[..i + 1], true) == ns + [Any];
        shift, bb, mm, bytes, mask := EndNibble(ns, Any, bb, mm, shift, bb, mm, bytes, mask);
      } else {
        assert Nibbles(text[..i + 1], true) == ns;
      }
    }
    assert text[..|text|] == text;
  }

  /** A digit goes into its half of the byte, and all ones into that of the mask. */
  method OrDigit(ghost ns: seq<Nibble>, b: nat, shift: int, bb: nat, mm: nat,
                 ghost bytes: seq<nat>, ghost masks: seq<nat>)
    returns (bb': nat, mm': nat)
    requires BothAccumulated(ns, shift, bb, mm, bytes, masks) && b < 16
    ensures bb' == Placed(bb, b, shift) && mm' == Placed(mm, 15, shift)
  {
    OrPlaces(ns, Digit(b), false, shift, bb, bytes);
    OrPlaces(ns, Digit(b), true, shift, mm, masks);
    bb' := Or(bb, Shl(b, shift));
    mm' := Or(mm, Shl(0x0F, shift));
  }

  /** The step that ends every nibble: after the second one, both bytes are complete. */
  method EndNibble(ghost ns: seq<Nibble>, ghost n: Nibble, ghost b: nat, ghost m: nat,
                   shift: int, bb: nat, mm: nat, bytes: seq<nat>, masks: seq<nat>)
    returns (shift': int, bb': nat, mm': nat, bytes': seq<nat>, masks': seq<nat>)
    requires BothAccumulated(ns, shift, b, m, bytes, masks)
    requires bb == Placed(b, Half(n, false), shift) && mm == Placed(m, Half(n, true), shift)
    requires n.Digit? ==> n.value < 16
    ensures BothAccumulated(ns + [n], shift', bb', mm', bytes', masks')
  {
    OrPlaces(ns, n, false, shift, b, bytes);
    OrPlaces(ns, n, true, shift, m, masks);
    NextNibble(ns, n, false, shift, b, bytes);
    NextNibble(ns, n, true, shift, m, masks);
    shift', bb', mm', bytes', masks' := shift - 4, bb, mm, bytes, masks;
    if shift' < 0 {
      bytes', masks' := bytes + [Low(bb, 8)], masks + [Low(mm, 8)];
      shift', bb', mm' := 4, 0, 0;
    }
  }

  ghost predicate BothAccumulated(ns: seq<Nibble>, shift: int, bb: nat, mm: nat, bytes: seq<nat>, masks: seq<nat>) {
    Accumulated(ns, false, shift, bb, bytes) && Accumulated(ns, true, shift, mm, masks)
  }

  /** What loading a pattern gives. */
  function LoadedFrom(sBytes: Option<string>, sMask: Option<string>, e: Endianness): Option<MaskedPattern> {
    if sBytes.None? then None
    else
      var text := sBytes.value;
      var ns := Nibbles(text, sMask.None?);
      if |ns| < 2 then None
      else if sMask.None? then Some(MaskedPattern(Bytes(ns), Masks(ns), e))
      else Some(MaskedPattern(Bytes(ns), Bytes(Nibbles(sMask.value, false)), e))
  }

  // ---------- what the patterns mean ----------

  /** How patterns are matched against the bytes found in an image. */
  ghost predicate Matches(pattern: MaskedPattern, data: seq<nat>) {
    && |data| == |pattern.bytes| == |pattern.mask|
    && forall i :: 0 <= i < |data| ==> And(data[i], pattern.mask[i]) == pattern.bytes[i]
  }

  predicate Agrees(n: Nibble, value: nat) {
    n.Any? || n.value == value
  }

  ghost predicate AreBytes(data: seq<nat>) {
    forall i :: 0 <= i < |data| ==> data[i] < 256
  }

  lemma NibbleBits(x: nat)
    requires x < 256
    ensures And(x, 0x00) == 0
    ensures And(x, 0x0F) == x % 16
    ensures And(x, 0xF0) == 16 * (x / 16)
    ensures And(x, 0xFF) == x
  {
    SmallPowers();
    ShlIsProduct(Pow2(4) - 1, 4);
    assert Ones(0, 4) == 0x0F && Ones(4, 8) == 0xF0 && Ones(0, 8) == 0xFF;
    AndLowOnes(x, 4);
    LowIsRemainder(x, 4);
    AndOnes(x, 4, 8);
    UpperHalf(x);
    AndLowOnes(x, 8);
    LowOfSmall(x, 8);
  }

  lemma UpperHalf(x: nat)
    requires x < 256
    ensures Shl(Field(x, 4, 4), 4) == 16 * (x / 16)
  {
    SmallPowers();
    Parts(x, 4);
    LowIsRemainder(x, 4);
    ShrBound(x, 4, 4);
    LowOfSmall(Shr(x, 4), 4);
    ShlIsProduct(Shr(x, 4), 4);
  }

  lemma ByteMatchesIff(high: Nibble, low: Nibble, x: nat)
    requires x < 256
    requires Bounded([high, low])
    ensures And(x, 16 * Half(high, true) + Half(low, true)) == 16 * Half(high, false) + Half(low, false) <==>
            Agrees(high, x / 16) && Agrees(low, x % 16)
  {
    assert [high, low][0] == high && [high, low][1] == low;
    NibbleBits(x);
  }

  lemma {:induction false} NibblesBounded(text: string, wildcards: bool)
    ensures Bounded(Nibbles(text, wildcards))
  {
    if text == "" {
    } else {
      NibblesBounded(text[..|text| - 1], wildcards);
    }
  }

  /** A pattern loaded from text alone matches some bytes exactly when these agree, digit by
      digit, with every complete pair of the text. */
  lemma PatternMatchesIff(text: string, e: Endianness, data: seq<nat>)
    requires AreBytes(data)
    requires LoadedFrom(Some(text), None, e).Some?
    ensures var ns := Nibbles(text, true);
            Matches(LoadedFrom(Some(text), None, e).value, data) <==>
            |data| == |ns| / 2 &&
            forall i :: 0 <= i < |data| ==> Agrees(ns[2 * i], data[i] / 16) && Agrees(ns[2 * i + 1], data[i] % 16)
  {
    var ns := Nibbles(text, true);
    NibblesBounded(text, true);
    if |data| == |ns| / 2 {
      forall i | 0 <= i < |data|
        ensures And(data[i], Masks(ns)[i]) == Bytes(ns)[i] <==>
                Agrees(ns[2 * i], data[i] / 16) && Agrees(ns[2 * i + 1], data[i] % 16)
      {
        ByteMatchesIff(ns[2 * i], ns[2 * i + 1], data[i]);
      }
    }
  }

  lemma {:induction false} WildcardFree(text: string)
    requires forall i :: 0 <= i < |text| ==> !IsWildcard(text[i])
    ensures Nibbles(text, true) == Nibbles(text, false)
    ensures forall i :: 0 <= i < |Nibbles(text, true)| ==> Nibbles(text, true)[i].Digit?
  {
    if text == "" {
    } else {
      WildcardFree(text[..|text| - 1]);
    }
  }

  /** Without wildcards a pattern is the bytes of its text, each under a full mask. */
  lemma WildcardFreePattern(text: string, e: Endianness)
    requires forall i :: 0 <= i < |text| ==> !IsWildcard(text[i])
    requires LoadedFrom(Some(text), None, e).Some?
    ensures var pattern := LoadedFrom(Some(text), None, e).value;
            && pattern.bytes == Bytes(Nibbles(text, false))
            && |pattern.mask| == |pattern.bytes|
            && forall i :: 0 <= i < |pattern.mask| ==> pattern.mask[i] == 0xFF
  {
    WildcardFree(text);
  }

  // ---------- printing and reading back ----------

  /** The bytes in hexadecimal, two digits each, without separators. */
  function HexText(bytes: seq<nat>, digits: string): string
    requires AreBytes(bytes) && |digits| == 16
  {
    if bytes == [] then ""
    else
      var last := bytes[|bytes| - 1];
      HexText(bytes[..|bytes| - 1], digits) + [digits[last / 16], digits[last % 16]]
  }

  /** The text without the characters that are not digits. */
  function Strip(text: string): string {
    if text == "" then ""
    else
      Strip(text[..|text| - 1]) + (if IsHexDigit(text[|text| - 1]) then [text[|text| - 1]] else [])
  }

  lemma {:induction false} StripKeepsNibbles(text: string)
    ensures Nibbles(Strip(text), false) == Nibbles(text, false)
  {
    if text == "" {
    } else {
      var front, last := text[..|text| - 1], text[|text| - 1];
      StripKeepsNibbles(front);
      if IsHexDigit(last) {
        assert Strip(text)[..|Strip(text)| - 1] == Strip(front);
      } else {
        assert Strip(text) == Strip(front);
      }
    }
  }

  lemma TableIs(i: nat)
    requires i < 55
    ensures |HEX_VALUES| == 55
    ensures HEX_VALUES[i] == if i < 10 then i else if 17 <= i < 23 then i - 7 else if 49 <= i then i - 39 else 255
  {
  }

  /** Digits are read in either case, and nothing else is. */
  lemma DigitIff(c: char, v: nat)
    requires v < 16
    ensures TryParseHexDigit(c) == Some(v) <==> c == UPPER[v] || c == LOWER[v]
  {
    var i := c as int - '0' as int;
    if 0 <= i < 55 {
      TableIs(i);
    }
  }

  lemma {:induction false} ReadHexText(bytes: seq<nat>, digits: string)
    requires AreBytes(bytes) && (digits == UPPER || digits == LOWER)
    ensures var ns := Nibbles(HexText(bytes, digits), false);
            |ns| == 2 * |bytes| && Bytes(ns) == bytes
  {
    if bytes == [] {
    } else {
      var front, last := bytes[..|bytes| - 1], bytes[|bytes| - 1];
      assert bytes == front + [last];
      ReadHexText(front, digits);
      var before := HexText(front, digits);
      assert HexText(bytes, digits) == before + [digits[last / 16], digits[last % 16]];
      ReadNext(before, front, last, digits);
    }
  }

  lemma ReadDigit(before: string, v: nat, digits: string)
    requires v < 16 && (digits == UPPER || digits == LOWER)
    ensures Nibbles(before + [digits[v]], false) == Nibbles(before, false) + [Digit(v)]
  {
    DigitIff(digits[v], v);
    assert (before + [digits[v]])[..|before|] == before;
  }

  lemma ReadPair(before: string, x: nat, digits: string)
    requires x < 256 && (digits == UPPER || digits == LOWER)
    ensures Nibbles(before + [digits[x / 16], digits[x % 16]], false) ==
            Nibbles(before, false) + [Digit(x / 16)] + [Digit(x % 16)]
  {
    ReadDigit(before, x / 16, digits);
    ReadDigit(before + [digits[x / 16]], x % 16, digits);
    assert before + [digits[x / 16], digits[x % 16]] == before + [digits[x / 16]] + [digits[x % 16]];
  }

  lemma PairRead(ns: seq<Nibble>, x: nat)
    requires |ns| % 2 == 0 && x < 256
    ensures Bytes(ns + [Digit(x / 16)] + [Digit(x % 16)]) == Bytes(ns) + [x]
  {
    assert Bytes(ns + [Digit(x / 16)]) == Bytes(ns);
  }

  lemma ReadNext(before: string, front: seq<nat>, last: nat, digits: string)
    requires last < 256 && (digits == UPPER || digits == LOWER)
    requires |Nibbles(before, false)| == 2 * |front| && Bytes(Nibbles(before, false)) == front
    ensures var ns := Nibbles(before + [digits[last / 16], digits[last % 16]], false);
            |ns| == 2 * |front| + 2 && Bytes(ns) == front + [last]
  {
    ReadPair(before, last, digits);
    PairRead(Nibbles(before, false), last);
  }

  /** Reading undoes printing, with separators put in anywhere. */
  lemma HexRoundTrip(bytes: seq<nat>, digits: string, text: string)
    requires AreBytes(bytes) && (digits == UPPER || digits == LOWER)
    requires Strip(text) == HexText(bytes, digits)
    ensures Bytes(Nibbles(text, false)) == bytes
  {
    ReadHexText(bytes, digits);
    StripKeepsNibbles(text);
  }
}
