/** Printing and parsing of addresses: `GenerateName`, `ConvertToString` and `TryParse..` of
    src/Core/Address.cs.

    An offset is printed in as many digits as its size takes, octal or hexadecimal, behind the
    selector if there is one.
  */
module AddressText {
  import opened Addresses
  import opened Bits
  import C = CompactAddresses
  import opened Options

  const HEX_DIGITS := "0123456789ABCDEF"

  function BitsPerDigit(base: nat): nat {
    if base == 8 then 3 else 4
  }

  /** `count` digits of `width` bits each, most significant first. */
  function Digits(offset: nat, width: nat, count: nat): string
    requires width == 3 || width == 4
  {
    if count == 0 then ""
    else
      [DigitAt(offset, width, count - 1)] + Digits(offset, width, count - 1)
  }

  function DigitAt(offset: nat, width: nat, i: nat): char
    requires width == 3 || width == 4
  {
    var d := Field(offset, i * width, width);
    LowBound(Shr(offset, i * width), width);
    assert Pow2(3) == 8 && Pow2(4) == 16;
    HEX_DIGITS[d]
  }

  function DigitCount(bits: int, base: nat): nat {
    var w := BitsPerDigit(base);
    if bits <= 0 then 0 else (bits + w - 1) / w
  }

  /** What is printed of an address, from what can be seen of it. */
  function Text(v: C.View, prefix: string, separator: string): string {
    prefix
    + (match v.selector case None => "" case Some(s) => Digits(s, 4, 4) + separator)
    + Digits(v.offset, BitsPerDigit(v.base), DigitCount(v.width, v.base))
  }

  // ---------- the printers ----------

  /** The digit loop shared by both kinds of address. */
  method AppendDigits(text: string, offset: nat, bits: int, base: nat) returns (sb: string)
    requires bits <= 64
    ensures sb == text + Digits(offset, BitsPerDigit(base), DigitCount(bits, base))
  {
    sb := text;
    var bitsPerDigit := BitsPerDigit(base);
    var mask := Ones(0, bitsPerDigit);
    var i := DigitCount(bits, base) - 1;
    while i >= 0
      invariant -1 <= i < DigitCount(bits, base)
      invariant sb + Digits(offset, bitsPerDigit, i + 1) == text + Digits(offset, bitsPerDigit, DigitCount(bits, base))
    {
      var low := Low(Shr(offset, i * bitsPerDigit), 32);
      DigitMask(offset, i, bitsPerDigit);
      var ch := HEX_DIGITS[And(low, mask)];
      assert ch == DigitAt(offset, bitsPerDigit, i);
      assert Digits(offset, bitsPerDigit, i + 1) == [ch] + Digits(offset, bitsPerDigit, i);
      sb := sb + [ch];
      i := i - 1;
    }
  }

  /** Casting to a 32-bit integer first does not change the digit. */
  lemma DigitMask(offset: nat, i: nat, width: nat)
    requires width == 3 || width == 4
    ensures And(Low(Shr(offset, i * width), 32), Ones(0, width)) == Field(offset, i * width, width)
    ensures Field(offset, i * width, width) < 16
  {
    AndLowOnes(Low(Shr(offset, i * width), 32), width);
    LowLow(Shr(offset, i * width), width, 32);
    LowBound(Shr(offset, i * width), width);
    assert Pow2(3) == 8 && Pow2(4) == 16;
  }

  /** GenerateName, which Address.Info and CompactAddress.Info spell the same way over their
      own accessors. The suffix is accepted and never printed. */
  method GenerateName(prefix: string, separator: string, suffix: string, v: C.View) returns (sb: string)
    requires v.width <= 64
    ensures sb == Text(v, prefix, separator)
  {
    sb := prefix;
    if v.selector.Some? {
      sb := AppendDigits(sb, v.selector.value, 16, 16);
      sb := sb + separator;
    }
    sb := AppendDigits(sb, v.offset, v.width, v.base);
  }

  function ToString(a: Address): string {
    Text(C.ViewOf(a), "", ":")
  }

  function ToStringPacked(c: C.CompactAddress): string {
    Text(C.ViewOfPacked(c), "", ":")
  }

  lemma PackedTextAgrees(a: Address, ops: seq<C.Op>)
    requires C.Packable(a) && C.AllFit(a, ops) && C.ApplyAll(a, ops).Some?
    ensures C.ApplyAllPacked(C.Pack(a), ops).Some?
    ensures ToStringPacked(C.ApplyAllPacked(C.Pack(a), ops).value) == ToString(C.ApplyAll(a, ops).value)
  {
    C.PackedRefinesPlain(a, ops);
  }

  // ---------- reading digits ----------

  function DigitValue(c: char): Option<nat> {
    if '0' <= c <= '9' then Some(c as nat - '0' as nat)
    else if 'A' <= c <= 'F' then Some(c as nat - 'A' as nat + 10)
    else if 'a' <= c <= 'f' then Some(c as nat - 'a' as nat + 10)
    else None
  }

  /** The digits of s appended to the number read so far. */
  function ReadFrom(sofar: nat, s: string, width: nat): Option<nat>
    decreases s
  {
    if s == "" then Some(sofar)
    else match DigitValue(s[0])
      case None => None
      case Some(d) => if d >= Pow2(width) then None else ReadFrom(Shl(sofar, width) + d, s[1..], width)
  }

  lemma DigitRoundTrip(d: nat)
    requires d < 16
    ensures DigitValue(HEX_DIGITS[d]) == Some(d)
  {
    assert HEX_DIGITS == ['0', '1', '2', '3', '4', '5', '6', '7', '8', '9', 'A', 'B', 'C', 'D', 'E', 'F'];
  }

  /** A field and what lies below it. */
  lemma LowSplit(x: nat, k: nat, m: nat)
    ensures Low(x, k + m) == Shl(Field(x, k, m), k) + Low(x, k)
  {
    Parts(Low(x, k + m), k);
    ShrOfLow(x, k, m);
    LowLow(x, k, k + m);
  }

  lemma ReadFirst(sofar: nat, offset: nat, width: nat, count: nat)
    requires (width == 3 || width == 4) && count > 0
    ensures ReadFrom(sofar, Digits(offset, width, count), width) ==
            ReadFrom(Shl(sofar, width) + Field(offset, (count - 1) * width, width),
                     Digits(offset, width, count - 1), width)
  {
    var d := Field(offset, (count - 1) * width, width);
    var s := Digits(offset, width, count);
    LowBound(Shr(offset, (count - 1) * width), width);
    assert Pow2(3) == 8 && Pow2(4) == 16;
    DigitRoundTrip(d);
    assert s[1..] == Digits(offset, width, count - 1);
  }

  /** Reading what the digit loop printed gives back the low bits it printed. */
  lemma {:induction false} ReadDigits(sofar: nat, offset: nat, width: nat, count: nat)
    requires width == 3 || width == 4
    ensures ReadFrom(sofar, Digits(offset, width, count), width)
            == Some(Shl(sofar, count * width) + Low(offset, count * width))
    decreases count
  {
    if count == 0 {
    } else {
      var k := (count - 1) * width;
      OneDigitMore(count, width);
      ReadFirst(sofar, offset, width, count);
      ReadDigits(Shl(sofar, width) + Field(offset, k, width), offset, width, count - 1);
      DigitJoined(sofar, offset, k, width);
    }
  }

  lemma OneDigitMore(count: nat, width: nat)
    requires count > 0
    ensures (count - 1) * width >= 0 && (count - 1) * width + width == count * width
  {
  }

  lemma DigitJoined(sofar: nat, offset: nat, k: nat, width: nat)
    ensures Shl(Shl(sofar, width) + Field(offset, k, width), k) + Low(offset, k)
            == Shl(sofar, k + width) + Low(offset, k + width)
  {
    ShlAdd(Shl(sofar, width), Field(offset, k, width), k);
    ShlShl(sofar, width, k);
    LowSplit(offset, k, width);
  }

  /** The printed digits, read in the base they were printed in, are the offset exactly if the
      offset has no more bits than the digits. */
  lemma DigitsDenoteOffsetIff(a: Address)
    ensures var w := BitsPerDigit(InfoOf(a.kind).base);
            var n := DigitCount(a.bits, InfoOf(a.kind).base);
            ReadFrom(0, Digits(a.offset, w, n), w) == Some(a.offset) <==> a.offset < Pow2(n * w)
  {
    var w := BitsPerDigit(InfoOf(a.kind).base);
    var n := DigitCount(a.bits, InfoOf(a.kind).base);
    ReadDigits(0, a.offset, w, n);
    ShlZero(n * w);
    KeepsAllIff(a.offset, n * w);
  }

  /** In particular, if the offset fits its size. */
  lemma DigitsDenoteOffset(a: Address)
    requires InWidth(a)
    ensures var w := BitsPerDigit(InfoOf(a.kind).base);
            ReadFrom(0, Digits(a.offset, w, DigitCount(a.bits, InfoOf(a.kind).base)), w) == Some(a.offset)
  {
    var w := BitsPerDigit(InfoOf(a.kind).base);
    var n := DigitCount(a.bits, InfoOf(a.kind).base);
    Pow2Le(a.bits, n * w);
    DigitsDenoteOffsetIff(a);
  }

  /** TryParse16, TryParse32 and TryParse64, by the number of bits. A missing string, an empty
      one, a character that is no hexadecimal digit or a number that is too large fails. */
  function TryParse(s: Option<string>, bits: nat): Option<Address> {
    match s
    case None => None
    case Some(text) =>
      if text == "" then None
      else match ReadFrom(0, text, 4)
        case None => None
        case Some(v) => if v < Pow2(bits) then Some(Address(LinearHex, bits, v, 0)) else None
  }

  lemma IsWord(value: nat, bits: nat)
    requires bits <= 64 && value < Pow2(bits)
    ensures value < WORD_LIMIT
  {
    LargePowers();
    Pow2Le(bits, 64);
  }

  /** Parsing what was printed gives the address back. */
  lemma PrintThenParse(bits: nat, value: nat)
    requires bits in {16, 32, 64} && value < Pow2(bits)
    ensures var a := Address(LinearHex, bits, value, 0); TryParse(Some(ToString(a)), bits) == Some(a)
  {
    var a := Address(LinearHex, bits, value, 0);
    IsWord(value, bits);
    DigitsDenoteOffset(a);
    assert ToString(a) == Digits(value, 4, DigitCount(bits, 16));
    assert DigitCount(bits, 16) == bits / 4;
  }
}
