/** What a pattern loaded from text matches, character by character, and what a mask that is
    given beside it does. */
module PatternTexts {
  import opened Bits
  import opened Endian
  import opened HexPatterns
  import opened Options

  // ---------- patterns with wildcards ----------

  /** The characters that count; all others separate them. */
  predicate Counts(c: char) {
    c in UPPER || c in LOWER || c == '?' || c == '.'
  }

  function Kept(text: string): string {
    if text == "" then ""
    else Kept(text[..|text| - 1]) + (if Counts(text[|text| - 1]) then [text[|text| - 1]] else [])
  }

  /** A character of a pattern agrees with half a byte: a wildcard with any, a digit with its
      value, in either case. */
  ghost predicate CharAgrees(c: char, v: nat)
    requires v < 16
  {
    c == '?' || c == '.' || c == UPPER[v] || c == LOWER[v]
  }

  /** What a character puts into the pattern. */
  lemma CharacterIs(c: char)
    ensures |NibbleOf(c, true)| == if Counts(c) then 1 else 0
    ensures Counts(c) ==> forall v: nat | v < 16 :: Agrees(NibbleOf(c, true)[0], v) <==> CharAgrees(c, v)
  {
    forall v: nat | v < 16 ensures TryParseHexDigit(c) == Some(v) <==> c == UPPER[v] || c == LOWER[v] {
      DigitIff(c, v);
    }
    var digit := TryParseHexDigit(c);
    if digit.Some? {
      assert c == UPPER[digit.value] || c == LOWER[digit.value];
      NoWildcard(c);
    } else {
      assert c !in UPPER && c !in LOWER;
    }
  }

  lemma NoWildcard(c: char)
    requires IsHexDigit(c)
    ensures c != '?' && c != '.'
  {
    TableIs(15);
  }

  lemma {:induction false} NibblesOfKept(text: string)
    ensures |Nibbles(text, true)| == |Kept(text)|
    ensures forall i: nat, v: nat | i < |Kept(text)| && v < 16 ::
              Agrees(Nibbles(text, true)[i], v) <==> CharAgrees(Kept(text)[i], v)
  {
    if text == "" {
    } else {
      NibblesOfKept(text[..|text| - 1]);
      CharacterIs(text[|text| - 1]);
    }
  }

  /** A pattern given as text alone matches some bytes exactly when, pair by pair, its characters
      agree with their halves. */
  lemma TextMatchesIff(text: string, e: Endianness, data: seq<nat>)
    requires AreBytes(data)
    ensures LoadedFrom(Some(text), None, e).Some? <==> |Kept(text)| >= 2
    ensures |Kept(text)| >= 2 ==>
              (Matches(LoadedFrom(Some(text), None, e).value, data) <==>
               |data| == |Kept(text)| / 2 &&
               forall i :: 0 <= i < |data| ==>
                 CharAgrees(Kept(text)[2 * i], data[i] / 16) && CharAgrees(Kept(text)[2 * i + 1], data[i] % 16))
  {
    NibblesOfKept(text);
    if |Kept(text)| >= 2 {
      PatternMatchesIff(text, e, data);
    }
  }

  // ---------- patterns with a mask ----------

  /** The text spells these bytes, with separators anywhere. */
  ghost predicate Spells(text: string, bytes: seq<nat>) {
    AreBytes(bytes) && (Strip(text) == HexText(bytes, UPPER) || Strip(text) == HexText(bytes, LOWER))
  }

  lemma SpelledBytes(text: string, bytes: seq<nat>)
    requires Spells(text, bytes)
    ensures Bytes(Nibbles(text, false)) == bytes && |Nibbles(text, false)| == 2 * |bytes|
  {
    var digits := if Strip(text) == HexText(bytes, UPPER) then UPPER else LOWER;
    HexRoundTrip(bytes, digits, text);
    ReadHexText(bytes, digits);
    StripKeepsNibbles(text);
  }

  /** A pattern given as bytes and a mask matches some bytes exactly when these, under the mask,
      are the bytes of the pattern. */
  lemma MaskedMatchesIff(
      text: string, maskText: string, bytes: seq<nat>, masks: seq<nat>, e: Endianness, data: seq<nat>)
    requires Spells(text, bytes) && Spells(maskText, masks) && |bytes| == |masks|
    ensures LoadedFrom(Some(text), Some(maskText), e).Some? <==> bytes != []
    ensures bytes != [] ==>
              (Matches(LoadedFrom(Some(text), Some(maskText), e).value, data) <==>
               |data| == |bytes| && forall i :: 0 <= i < |data| ==> And(data[i], masks[i]) == bytes[i])
  {
    SpelledBytes(text, bytes);
    SpelledBytes(maskText, masks);
  }

  // ---------- byte order ----------

  /** The byte order is that of the pattern, and a missing or empty name means big-endian. */
  lemma EndiannessNames(sBytes: Option<string>, sMask: Option<string>, name: Option<string>)
    ensures LoadedFrom(sBytes, sMask, EndiannessOf(name)).Some? ==>
              LoadedFrom(sBytes, sMask, EndiannessOf(name)).value.endianness == EndiannessOf(name)
    ensures name in {None, Some(""), Some("be"), Some("BE"), Some("big")} ==> EndiannessOf(name) == Big
    ensures name in {Some("le"), Some("LE"), Some("little")} ==> EndiannessOf(name) == Little
  {
  }
}
