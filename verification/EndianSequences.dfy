/** The rest of src/Core/EndianServices.cs: sequences of adjacent reads, stack slices and
    byte swapping.

    A sequence joins the values of adjacent reads, the most significant one first, which is the
    last one in memory for little-endian and the first one for big-endian.
  */
module EndianSequences {
  import opened Bits
  import opened Endian
  import opened Options
  import opened Storages

  // ---------- sequences of adjacent reads ----------

  /** A value with its width in bits. */
  datatype Part = Part(value: nat, bits: nat)

  function Reversed<T>(s: seq<T>): seq<T> {
    if s == [] then [] else Reversed(s[1..]) + [s[0]]
  }

  /** Accesses in ascending memory order, put in the order of a sequence expression, most
      significant first. A sequence of nothing is refused. */
  function MakeSequence<T>(e: Endianness, accesses: seq<T>): Option<seq<T>> {
    var ordered := match e case Little => Reversed(accesses) case Big => accesses;
    if ordered == [] then None else Some(ordered)
  }

  /** The value of a sequence expression. */
  function ValueOf(parts: seq<Part>): nat {
    if parts == [] then 0
    else
      var last := parts[|parts| - 1];
      Shl(ValueOf(parts[..|parts| - 1]), last.bits) + last.value
  }

  function TotalBits(parts: seq<Part>): nat {
    if parts == [] then 0 else TotalBits(parts[..|parts| - 1]) + parts[|parts| - 1].bits
  }

  function Sum(ns: seq<nat>): nat {
    if ns == [] then 0 else ns[0] + Sum(ns[1..])
  }

  /** Reads of ns[0], ns[1], ... units, one after the other. */
  function AdjacentReads(e: Endianness, us: seq<nat>, ns: seq<nat>, g: nat): seq<Part>
    requires Sum(ns) == |us|
    decreases ns
  {
    if ns == [] then []
    else
      [Part(Read(e, us[..ns[0]], g), Span(ns[0], g))] + AdjacentReads(e, us[ns[0]..], ns[1..], g)
  }

  lemma {:induction false} ValueOfConcat(a: seq<Part>, b: seq<Part>)
    ensures ValueOf(a + b) == Shl(ValueOf(a), TotalBits(b)) + ValueOf(b)
    decreases b
  {
    if b == [] {
      assert a + b == a;
    } else {
      var b', last := b[..|b| - 1], b[|b| - 1];
      ValueOfConcat(a, b');
      assert (a + b)[..|a + b| - 1] == a + b';
      ShlAdd(Shl(ValueOf(a), TotalBits(b')), ValueOf(b'), last.bits);
      ShlShl(ValueOf(a), TotalBits(b'), last.bits);
    }
  }

  lemma {:induction false} TotalBitsConcat(a: seq<Part>, b: seq<Part>)
    ensures TotalBits(a + b) == TotalBits(a) + TotalBits(b)
    decreases b
  {
    if b == [] {
      assert a + b == a;
    } else {
      TotalBitsConcat(a, b[..|b| - 1]);
      assert (a + b)[..|a + b| - 1] == a + b[..|b| - 1];
    }
  }

  lemma {:induction false} ReadsCoverSpan(e: Endianness, us: seq<nat>, ns: seq<nat>, g: nat)
    requires Sum(ns) == |us|
    ensures TotalBits(AdjacentReads(e, us, ns, g)) == Span(|us|, g)
    decreases ns
  {
    if ns == [] {
    } else {
      var first := Part(Read(e, us[..ns[0]], g), Span(ns[0], g));
      var rest := AdjacentReads(e, us[ns[0]..], ns[1..], g);
      ReadsCoverSpan(e, us[ns[0]..], ns[1..], g);
      TotalBitsConcat([first], rest);
      SpanAdd(ns[0], |us| - ns[0], g);
      assert TotalBits([first]) == first.bits;
    }
  }

  lemma ValueOfOne(p: Part)
    ensures ValueOf([p]) == p.value
  {
    ShlZero(p.bits);
  }

  lemma {:induction false} LittleSequence(us: seq<nat>, ns: seq<nat>, g: nat)
    requires Sum(ns) == |us|
    ensures ValueOf(Reversed(AdjacentReads(Little, us, ns, g))) == ReadLe(us, g)
    decreases ns
  {
    if ns == [] {
    } else {
      var a, b := us[..ns[0]], us[ns[0]..];
      var first := Part(ReadLe(a, g), Span(ns[0], g));
      var rest := AdjacentReads(Little, b, ns[1..], g);
      assert ([first] + rest)[1..] == rest;
      LittleSequence(b, ns[1..], g);
      ValueOfConcat(Reversed(rest), [first]);
      ValueOfOne(first);
      assert TotalBits([first]) == first.bits;
      assert us == a + b;
      ReadLeConcat(a, b, g);
    }
  }

  lemma {:induction false} BigSequence(us: seq<nat>, ns: seq<nat>, g: nat)
    requires Sum(ns) == |us|
    ensures ValueOf(AdjacentReads(Big, us, ns, g)) == ReadBe(us, g)
    decreases ns
  {
    if ns == [] {
    } else {
      var a, b := us[..ns[0]], us[ns[0]..];
      var first := Part(ReadBe(a, g), Span(ns[0], g));
      var rest := AdjacentReads(Big, b, ns[1..], g);
      BigSequence(b, ns[1..], g);
      ReadsCoverSpan(Big, b, ns[1..], g);
      ValueOfConcat([first], rest);
      ValueOfOne(first);
      assert us == a + b;
      ReadBeConcat(a, b, g);
    }
  }

  /** Joining adjacent ascending reads, of any widths, is the one wide read. */
  lemma SequenceIsWideRead(e: Endianness, us: seq<nat>, ns: seq<nat>, g: nat)
    requires Sum(ns) == |us| && ns != []
    ensures var s := MakeSequence(e, AdjacentReads(e, us, ns, g));
            s.Some? && ValueOf(s.value) == Read(e, us, g)
  {
    match e
    case Little =>
      LittleSequence(us, ns, g);
    case Big =>
      BigSequence(us, ns, g);
  }

  // ---------- adjacent offsets ----------

  predicate OffsetsAdjacent(e: Endianness, oLsb: int, oMsb: int, size: int) {
    match e case Little => oLsb + size == oMsb case Big => oMsb + size == oLsb
  }

  lemma ValueOfTwo(high: Part, low: Part)
    ensures ValueOf([high, low]) == Shl(high.value, low.bits) + low.value
  {
    ValueOfConcat([high], [low]);
    ValueOfOne(high);
    ValueOfOne(low);
    assert TotalBits([low]) == low.bits;
    assert [high, low] == [high] + [low];
  }

  lemma TwoRuns(mem: seq<nat>, at: nat, size: nat)
    requires at + 2 * size <= |mem|
    ensures mem[at..at + 2 * size] == mem[at..at + size] + mem[at + size..at + 2 * size]
  {
  }

  /** Two reads of `size` units at adjacent offsets, the one called most significant first,
      are one read of twice the size at the lower offset. */
  lemma AdjacentOffsetsJoin(e: Endianness, mem: seq<nat>, oLsb: nat, oMsb: nat, size: nat, g: nat)
    requires OffsetsAdjacent(e, oLsb, oMsb, size)
    requires oLsb + size <= |mem| && oMsb + size <= |mem|
    ensures var low := if oLsb <= oMsb then oLsb else oMsb;
            ValueOf([Part(Read(e, mem[oMsb..oMsb + size], g), Span(size, g)),
                     Part(Read(e, mem[oLsb..oLsb + size], g), Span(size, g))])
            == Read(e, mem[low..low + 2 * size], g)
  {
    var m, l := mem[oMsb..oMsb + size], mem[oLsb..oLsb + size];
    ValueOfTwo(Part(Read(e, m, g), Span(size, g)), Part(Read(e, l, g), Span(size, g)));
    match e
    case Little =>
      TwoRuns(mem, oLsb, size);
      ReadLeConcat(l, m, g);
    case Big =>
      TwoRuns(mem, oMsb, size);
      ReadBeConcat(m, l, g);
  }

  // ---------- stack slices ----------

  function SliceStackStorage(e: Endianness, stg: StackStorage, range: BitRange, g: nat): StackStorage
    requires g > 0
  {
    StackStorage(stg.offset + UnitOffset(e, stg.bits, range, g), range.Extent())
  }

  /** The slice of a stack variable holds the bits of the range. */
  lemma StackSliceHoldsRange(e: Endianness, stack: seq<nat>, frame: int, stg: StackStorage, range: BitRange, g: nat)
    requires Aligned(stg.bits, range, g) && AreUnits(stack, g)
    requires frame + stg.offset >= 0 && TryRead(e, stack, frame + stg.offset, stg.bits, g).Some?
    ensures var s := SliceStackStorage(e, stg, range, g);
            && frame + s.offset >= 0
            && TryRead(e, stack, frame + s.offset, s.bits, g)
               == Some(Field(TryRead(e, stack, frame + stg.offset, stg.bits, g).value, range.lsb, range.Extent()))
  {
    NarrowRead(e, stack, frame + stg.offset, stg.bits, range, g);
  }

  // ---------- swapping bytes ----------

  /** Where the k-th byte goes when groups of w bytes are reversed. */
  function Mirror(k: nat, w: nat): int
    requires w > 0
  {
    k - k % w + (w - 1 - k % w)
  }

  lemma MirrorInGroup(k: nat, w: nat, i: nat, j: nat)
    requires w > 0 && i % w == 0 && k == i + j && j < w
    ensures Mirror(k, w) == i + (w - 1 - j)
  {
    assert i == (i / w) * w;
    DivMod(i / w, w, j);
  }

  lemma MirrorBound(k: nat, w: nat, n: nat)
    requires w > 0 && n % w == 0 && k < n
    ensures 0 <= Mirror(k, w) < n
    ensures Mirror(Mirror(k, w), w) == k
  {
    var q, r := k / w, k % w;
    assert k == q * w + r && n == (n / w) * w;
    if q >= n / w {
      MulLe(n / w, q, w);
      assert false;
    }
    MulLe(q + 1, n / w, w);
    assert (q + 1) * w == q * w + w;
    DivMod(q, w, w - 1 - r);
  }

  /** The bytes with each group of w reversed. */
  function Swapped(bytes: seq<nat>, w: nat): seq<nat>
    requires w > 0 && |bytes| % w == 0
  {
    seq(|bytes|, k requires 0 <= k < |bytes| => MirrorBound(k, w, |bytes|); bytes[Mirror(k, w)])
  }

  method SwapByGroups(bytes: seq<nat>, wordSize: int) returns (ok: bool, newBytes: array<nat>)
    ensures ok <==> wordSize > 0 && |bytes| % wordSize == 0
    ensures ok ==> newBytes[..] == Swapped(bytes, wordSize)
  {
    newBytes := new nat[|bytes|];
    if wordSize <= 0 || |bytes| % wordSize != 0 {
      ok := false;
      return;
    }
    ok := true;
    var i := 0;
    while i < |bytes|
      invariant 0 <= i <= |bytes| && i % wordSize == 0
      invariant forall k | 0 <= k < i :: newBytes[k] == Swapped(bytes, wordSize)[k]
    {
      GroupFits(i, wordSize, |bytes|);
      for j := 0 to wordSize
        invariant forall k | 0 <= k < i :: newBytes[k] == Swapped(bytes, wordSize)[k]
        invariant forall k | i + wordSize - j <= k < i + wordSize :: newBytes[k] == Swapped(bytes, wordSize)[k]
      {
        MirrorInGroup(i + (wordSize - j - 1), wordSize, i, wordSize - j - 1);
        newBytes[i + (wordSize - j - 1)] := bytes[i + j];
      }
      i := i + wordSize;
    }
  }

  /** A group that starts before the end ends before the end. */
  lemma GroupFits(i: nat, w: nat, n: nat)
    requires w > 0 && i % w == 0 && n % w == 0 && i < n
    ensures i + w <= n && (i + w) % w == 0
  {
    var p, q := i / w, n / w;
    assert i == p * w && n == q * w;
    if p >= q {
      MulLe(q, p, w);
      assert false;
    }
    MulLe(p + 1, q, w);
    assert (p + 1) * w == p * w + w;
    DivMod(p + 1, w, 0);
  }

  lemma SwapTwice(bytes: seq<nat>, w: nat)
    requires w > 0 && |bytes| % w == 0
    ensures Swapped(Swapped(bytes, w), w) == bytes
  {
    forall k | 0 <= k < |bytes| ensures Swapped(Swapped(bytes, w), w)[k] == bytes[k] {
      MirrorBound(k, w, |bytes|);
    }
  }

  lemma {:induction false} ReversedAt<T>(s: seq<T>, k: nat)
    requires k < |s|
    ensures |Reversed(s)| == |s| && Reversed(s)[k] == s[|s| - 1 - k]
  {
    if |s| > 1 {
      ReversedAt(s[1..], if k < |s| - 1 then k else 0);
    }
  }

  lemma {:induction false} ReversedReads(us: seq<nat>, g: nat)
    ensures ReadLe(Reversed(us), g) == ReadBe(us, g)
    decreases us
  {
    if us == [] {
    } else {
      var u', last := us[..|us| - 1], us[|us| - 1];
      ReversedReads(u', g);
      assert Reversed(us) == [last] + Reversed(u') by {
        ReversedSnoc(u', last);
        assert us == u' + [last];
      }
      assert ([last] + Reversed(u'))[1..] == Reversed(u');
    }
  }

  lemma {:induction false} ReversedSnoc<T>(s: seq<T>, x: T)
    ensures Reversed(s + [x]) == [x] + Reversed(s)
  {
    if s == [] {
    } else {
      ReversedSnoc(s[1..], x);
      assert (s + [x])[1..] == s[1..] + [x];
    }
  }

  /** Each swapped group, read little-endian, is the original group read big-endian. */
  lemma SwappedGroupReads(bytes: seq<nat>, w: nat, i: nat)
    requires w > 0 && |bytes| % w == 0 && i % w == 0 && i < |bytes|
    ensures i + w <= |bytes|
    ensures ReadLe(Swapped(bytes, w)[i..i + w], 8) == ReadBe(bytes[i..i + w], 8)
  {
    GroupFits(i, w, |bytes|);
    var group := bytes[i..i + w];
    ReversedAt(group, 0);
    forall j | 0 <= j < w ensures Swapped(bytes, w)[i..i + w][j] == Reversed(group)[j] {
      MirrorInGroup(i + j, w, i, j);
      ReversedAt(group, j);
    }
    assert Swapped(bytes, w)[i..i + w] == Reversed(group);
    ReversedReads(group, 8);
  }
}
