/** The segment map on the heap: src/Core/SegmentMap.cs and src/Core/Loading/ImageSegment.cs,
    proved against the layout functions. Two sorted lists index the same segment objects, by
    address and by linear address; segments are split and sized in place. */
module SegmentMaps {
  import opened Addresses
  import opened Bits
  import opened Layouts
  import opened Options
  import opened SortedLists

  datatype MemoryArea = MemoryArea(base: Address, length: nat)

  class ImageSegment {
    const Name: string
    const Addr: Address
    const Mem: MemoryArea
    var Size: nat

    /** A segment that starts somewhere in a memory area has no size yet. */
    constructor (name: string, addr: Address, mem: MemoryArea)
      ensures Name == name && Addr == addr && Mem == mem && Size == 0
    {
      Name, Addr, Mem, Size := name, addr, mem, 0;
    }
  }

  /** Name, start and memory area are those of the other segment. */
  predicate IsPartOf(seg: ImageSegment, whole: ImageSegment) {
    seg.Name == whole.Name && seg.Addr == whole.Addr && seg.Mem == whole.Mem
  }

  function Linear(seg: ImageSegment): nat {
    ToLinear(seg.Addr)
  }

  function RangeOf(seg: ImageSegment): Range
    reads seg
  {
    Range(Linear(seg), seg.Size)
  }

  function RequestOf(seg: ImageSegment): Request
    reads seg
  {
    Request(Linear(seg), seg.Size, ToLinear(seg.Mem.base), seg.Mem.length)
  }

  ghost function Ranges(segs: seq<ImageSegment>): (rs: seq<Range>)
    reads segs
    ensures |rs| == |segs| && forall i | 0 <= i < |rs| :: rs[i] == RangeOf(segs[i])
  {
    seq(|segs|, i requires 0 <= i < |segs| reads segs => RangeOf(segs[i]))
  }

  function Same(x: nat): nat {
    x
  }

  lemma RangesOfInsert(segs: seq<ImageSegment>, n: nat, seg: ImageSegment)
    requires n <= |segs|
    ensures Ranges(Insert(segs, n, seg)) == Insert(Ranges(segs), n, RangeOf(seg))
  {
    InsertIs(segs, n, seg);
    InsertIs(Ranges(segs), n, RangeOf(seg));
  }

  function AddressOf(seg: ImageSegment): Address {
    seg.Addr
  }

  /** A sorted list that holds these segments, each at its own key. */
  ghost predicate Indexes<K>(list: SortedList<K, ImageSegment>, rank: K -> nat, segs: seq<ImageSegment>,
                             key: ImageSegment -> K) {
    && Sorted(list, rank) && list.values == segs
    && forall i | 0 <= i < |list.keys| :: list.keys[i] == key(segs[i])
  }

  /** Where an addition goes, in terms of the segments. */
  function Position(segs: seq<ImageSegment>, x: nat): nat {
    CountLt(segs, Linear, x)
  }

  lemma {:induction false} PositionIs(segs: seq<ImageSegment>, x: nat)
    ensures Position(segs, x) == CountLt(Ranges(segs), Lo, x) <= |segs|
  {
    CountsSame(segs, Linear, Ranges(segs), x);
  }

  lemma {:induction false} CountLtSame<K, L>(keys: seq<K>, rank: K -> nat, keys': seq<L>, rank': L -> nat, x: nat)
    requires |keys| == |keys'| && forall i | 0 <= i < |keys| :: rank(keys[i]) == rank'(keys'[i])
    ensures CountLt(keys, rank, x) == CountLt(keys', rank', x)
  {
    if keys == [] {
    } else {
      CountLtSame(keys[..|keys| - 1], rank, keys'[..|keys'| - 1], rank', x);
    }
  }

  /** A list that indexes segments by their start still does so after an addition. */
  lemma AddKeepsIndex<K>(list: SortedList<K, ImageSegment>, rank: K -> nat, key: ImageSegment -> K,
                         segs: seq<ImageSegment>, seg: ImageSegment)
    requires Indexes(list, rank, segs, key)
    requires forall s: ImageSegment :: rank(key(s)) == Linear(s)
    requires forall i | 0 <= i < |segs| :: Linear(segs[i]) != Linear(seg)
    ensures SortedLists.Add(list, rank, key(seg), seg).Some?
    ensures Indexes(SortedLists.Add(list, rank, key(seg), seg).value, rank,
                    Insert(segs, Position(segs, Linear(seg)), seg), key)
  {
    CountLtSame(list.keys, rank, segs, Linear, Linear(seg));
    AddKeepsSorted(list, rank, key(seg), seg);
  }

  /** The number of keys up to x does not depend on how the keys are represented. */
  lemma {:induction false} CountsSame<K>(keys: seq<K>, rank: K -> nat, rs: seq<Range>, x: nat)
    requires |keys| == |rs| && forall i | 0 <= i < |keys| :: rank(keys[i]) == rs[i].lo
    ensures CountLe(keys, rank, x) == CountLe(rs, Lo, x)
    ensures CountLt(keys, rank, x) == CountLt(rs, Lo, x)
  {
    if keys == [] {
    } else {
      CountsSame(keys[..|keys| - 1], rank, rs[..|rs| - 1], x);
    }
  }

  /** A list of segments whose keys are the starts of these ranges. */
  ghost predicate Keyed<K>(list: SortedList<K, ImageSegment>, rank: K -> nat, rs: seq<Range>) {
    Sorted(list, rank) && |list.keys| == |rs| && forall i | 0 <= i < |rs| :: rank(list.keys[i]) == rs[i].lo
  }

  method LowerBound<K>(list: SortedList<K, ImageSegment>, rank: K -> nat, key: K, ghost rs: seq<Range>)
    returns (candidate: Option<ImageSegment>, ghost n: nat)
    requires Keyed(list, rank, rs)
    ensures n == CountLe(rs, Lo, rank(key)) && n <= |list.values|
    ensures candidate == if n == 0 then None else Some(list.values[n - 1])
  {
    CountsSame(list.keys, rank, rs, rank(key));
    n := CountLe(list.keys, rank, rank(key));
    candidate := TryGetLowerBound(list, rank, key);
  }

  method UpperBound<K>(list: SortedList<K, ImageSegment>, rank: K -> nat, key: K, ghost rs: seq<Range>)
    returns (above: Option<K>, ghost n: nat)
    requires Keyed(list, rank, rs)
    ensures n == CountLt(rs, Lo, rank(key)) && n <= |rs|
    ensures above.None? <==> n == |rs|
    ensures above.Some? ==> rank(above.value) == rs[n].lo
  {
    CountsSame(list.keys, rank, rs, rank(key));
    n := CountLt(list.keys, rank, rank(key));
    above := TryGetUpperBoundKey(list, rank, key);
  }

  /** One step of the scan. */
  lemma ScanStep(rs: seq<Range>, k: nat, x: nat)
    requires k < |rs|
    ensures Scan(rs[k..], x) ==
            if InRange(rs[k], x) then 0 else if Scan(rs[k + 1..], x) == -1 then -1 else Scan(rs[k + 1..], x) + 1
    ensures Scan(rs[k + 1..], x) >= -1
  {
    assert rs[k..][1..] == rs[k + 1..];
    ScanIs(rs[k + 1..], x);
  }

  lemma OnlyAdded<T>(before: seq<T>, after: seq<T>, x: T)
    requires after == before || exists n :: 0 <= n <= |before| && after == Insert(before, n, x)
    ensures forall y :: y in after ==> y in before || y == x
  {
  }

  /** A segment that is added a second time makes the same request, except perhaps for its
      size, and no difference. */
  lemma RequestAgain(segs: seq<ImageSegment>, i: nat, qs: seq<Request>, q: Request)
    requires i < |segs| == |qs| && forall j | 0 <= j < |segs| :: qs[j].lo == Linear(segs[j])
    requires q.lo == Linear(segs[i]) && (segs[i] !in segs[..i] ==> q == qs[i])
    ensures Place(PlaceAll([], qs[..i]), q) == PlaceAll([], qs[..i + 1])
  {
    if segs[i] in segs[..i] {
      var k :| 0 <= k < i && segs[k] == segs[i];
      assert qs[k].lo == q.lo;
    }
    RepeatedStart(qs, i, q);
  }

  lemma ElementsUpTo<T>(s: seq<T>, i: nat)
    requires i < |s|
    ensures forall x :: x in s[..i + 1] <==> x in s[..i] || x == s[i]
  {
    assert s[..i + 1] == s[..i] + [s[i]];
  }

  class SegmentMap {
    var Segments: SortedList<Address, ImageSegment>
    var SegmentByLinAddress: SortedList<nat, ImageSegment>

    /** Both indexes are sorted and hold the same segment objects, each at its own address. */
    ghost predicate Valid()
      reads this
    {
      && Indexes(Segments, ToLinear, Segments.values, AddressOf)
      && Indexes(SegmentByLinAddress, Same, Segments.values, Linear)
    }

    ghost function Layout(): seq<Range>
      reads this, Segments.values
    {
      Ranges(Segments.values)
    }

    /** The segment at an index of the layout; none at -1. */
    ghost function At(i: int): Option<ImageSegment>
      requires -1 <= i < |Segments.values|
      reads this
    {
      if i == -1 then None else Some(Segments.values[i])
    }

    constructor ()
      ensures Valid() && Segments.values == []
    {
      Segments := SortedList([], []);
      SegmentByLinAddress := SortedList([], []);
    }

    /** Adds the segments one after the other, as the constructors of the source do. */
    method AddAll(segments: seq<ImageSegment>)
      requires Valid() && Segments.values == []
      modifies this, (set s | s in segments)`Size
      ensures Valid()
      ensures Layout() == PlaceAll([], old(Requests(segments)))
      ensures AllPlaceable([], old(Requests(segments))) ==> Good(Layout())
    {
      ghost var qs := Requests(segments);
      for i := 0 to |segments|
        invariant Valid()
        invariant forall s | s in Segments.values :: s in segments[..i] || fresh(s)
        invariant forall s | s in segments && s !in segments[..i] :: s.Size == old(s.Size)
        invariant Layout() == PlaceAll([], qs[..i])
      {
        var segNew := segments[i];
        RequestAgain(segments, i, qs, RequestOf(segNew));
        ElementsUpTo(segments, i);
        AddNext(segNew);
      }
      assert qs[..|segments|] == qs;
      if AllPlaceable([], qs) {
        RunKeepsGood([], qs);
      }
    }

    /** AddSegment, as far as a run of additions needs to know it. */
    method AddNext(segNew: ImageSegment)
      requires Valid()
      modifies this, segNew`Size, (set s | s in Segments.values)`Size
      ensures Valid()
      ensures Layout() == Place(old(Layout()), old(RequestOf(segNew)))
      ensures forall s | s in Segments.values :: s in old(Segments.values) || s == segNew || fresh(s)
    {
      ghost var before := Segments.values;
      var seg := AddSegment(segNew);
      OnlyAdded(before, Segments.values, seg);
    }

    /** What both lookups do with the segment at the greatest key that is not above x. */
    method Containing(candidate: Option<ImageSegment>, x: nat, ghost n: nat) returns (segment: Option<ImageSegment>)
      requires Valid()
      requires n == CountLe(Layout(), Lo, x)
      requires candidate == if n == 0 then None else Some(Segments.values[n - 1])
      ensures Find(Layout(), x) < |Segments.values|
      ensures segment == At(Find(Layout(), x))
    {
      segment := candidate;
      ghost var rs := Layout();
      FoundAt(rs, x, n);
      if candidate.Some? {
        var seg := candidate.value;
        assert RangeOf(seg) == rs[n - 1];
        if Linear(seg) != x && !InRange(RangeOf(seg), x) {
          segment := None;
        }
      }
    }

    method TryFindSegment(addr: Address) returns (segment: Option<ImageSegment>)
      requires Valid()
      ensures Find(Layout(), ToLinear(addr)) < |Segments.values|
      ensures segment == At(Find(Layout(), ToLinear(addr)))
    {
      var x := ToLinear(addr);
      var candidate, n := LowerBound(Segments, ToLinear, addr, Layout());
      segment := Containing(candidate, x, n);
    }

    method TryFindLinear(linAddress: nat) returns (segment: Option<ImageSegment>)
      requires Valid()
      ensures Find(Layout(), linAddress) < |Segments.values|
      ensures segment == At(Find(Layout(), linAddress))
    {
      var candidate, n := LowerBound(SegmentByLinAddress, Same, linAddress, Layout());
      segment := Containing(candidate, linAddress, n);
    }

    /** The linear address as an address of the segment it lies in; none if in no segment. */
    method MapLinearAddressToAddress(linearAddress: nat) returns (addr: Option<Address>)
      requires Valid()
      ensures var i := Scan(Layout(), linearAddress);
              -1 <= i < |Segments.values| &&
              addr == if i == -1 then None
                      else Some(Mapped(Segments.values[i].Addr, linearAddress))
    {
      ghost var rs := Layout();
      for k := 0 to |Segments.values|
        invariant Scan(rs, linearAddress) ==
                  var rest := Scan(rs[k..], linearAddress); if rest == -1 then -1 else rest + k
      {
        var seg := Segments.values[k];
        ScanStep(rs, k, linearAddress);
        assert rs[k] == RangeOf(seg);
        if InRange(RangeOf(seg), linearAddress) {
          return Some(Mapped(seg.Addr, linearAddress));
        }
      }
      return None;
    }

    method EnsureSegmentSize(seg: ImageSegment)
      requires Valid()
      modifies seg`Size
      ensures seg.Size == EffectiveSize(old(Layout()), old(RequestOf(seg)))
      ensures old(seg.Size) != 0 ==> seg.Size == old(seg.Size)
    {
      ghost var rs, q := Layout(), RequestOf(seg);
      if seg.Size == 0 {
        var addrAbove, n := UpperBound(Segments, ToLinear, seg.Addr, rs);
        SizeFound(rs, q, n);
        match addrAbove
        case None =>
          seg.Size := Low(ToLinear(seg.Mem.base) - Linear(seg) + seg.Mem.length, 32);
        case Some(above) =>
          seg.Size := Low(ToLinear(above) - Linear(seg), 32);
      }
    }

    /** No segment starts at x. */
    ghost predicate Free(x: nat)
      reads this
    {
      forall i | 0 <= i < |Segments.values| :: Linear(Segments.values[i]) != x
    }

    /** Segments.Add and SegmentByLinAddress.Add. Adding a key twice is refused, so the start
        of the segment must be free. */
    method AddToIndexes(seg: ImageSegment)
      requires Valid() && Free(Linear(seg))
      modifies this
      ensures Valid()
      ensures var n := CountLt(old(Layout()), Lo, Linear(seg));
              && Segments.values == Insert(old(Segments.values), n, seg)
              && Layout() == Insert(old(Layout()), n, RangeOf(seg))
    {
      ghost var segs := Segments.values;
      AddKeepsIndex(Segments, ToLinear, AddressOf, segs, seg);
      AddKeepsIndex(SegmentByLinAddress, Same, Linear, segs, seg);
      PositionIs(segs, Linear(seg));
      RangesOfInsert(segs, Position(segs, Linear(seg)), seg);
      Segments := SortedLists.Add(Segments, ToLinear, seg.Addr, seg).value;
      SegmentByLinAddress := SortedLists.Add(SegmentByLinAddress, Same, Linear(seg), seg).value;
    }

    /** A segment whose start lies in none of the others. */
    method AddUncovered(segNew: ImageSegment)
      requires Valid() && Find(Layout(), Linear(segNew)) == -1
      modifies this, segNew`Size
      ensures Valid()
      ensures Layout() == Place(old(Layout()), old(RequestOf(segNew)))
      ensures Segments.values == Insert(old(Segments.values), CountLt(old(Layout()), Lo, Linear(segNew)), segNew)
      ensures old(segNew.Size) != 0 ==> segNew.Size == old(segNew.Size)
    {
      ghost var rs := Layout();
      LayoutIncreasing();
      FindInSorted(rs, Linear(segNew));
      EnsureSegmentSize(segNew);
      assert forall i | 0 <= i < |rs| :: Segments.values[i] != segNew by {
        assert forall i | 0 <= i < |rs| :: rs[i].lo == Linear(Segments.values[i]);
      }
      assert Layout() == rs;
      AddToIndexes(segNew);
    }

    /** Resizing a segment of the map changes one range, because only one index has it. */
    method Resize(seg: ImageSegment, size: nat, ghost i: nat)
      requires Valid() && i < |Segments.values| && seg == Segments.values[i]
      modifies seg`Size
      ensures Layout() == old(Layout())[i := Range(Linear(seg), size)]
    {
      ghost var rs, segs := Layout(), Segments.values;
      seg.Size := size;
      forall k | 0 <= k < |segs| && k != i ensures RangeOf(segs[k]) == rs[k] {
        assert ToLinear(Segments.keys[k]) != ToLinear(Segments.keys[i]);
      }
    }

    /** A new segment object with the name, start and memory area of another one. */
    method AddPart(segNew: ImageSegment, size: nat) returns (segSplit: ImageSegment)
      requires Valid() && Free(Linear(segNew))
      modifies this
      ensures Valid()
      ensures fresh(segSplit) && IsPartOf(segSplit, segNew)
      ensures var n := CountLt(old(Layout()), Lo, Linear(segNew));
              && Segments.values == Insert(old(Segments.values), n, segSplit)
              && Layout() == Insert(old(Layout()), n, Range(Linear(segNew), size))
    {
      segSplit := new ImageSegment(segNew.Name, segNew.Addr, segNew.Mem);
      segSplit.Size := size;
      AddToIndexes(segSplit);
    }

    /** A segment that starts inside another one: that one is cut short, and a new segment
        object takes over from there. */
    method SplitAt(seg: ImageSegment, segNew: ImageSegment, ghost i: nat) returns (segSplit: ImageSegment)
      requires Valid() && i < |Segments.values| && seg == Segments.values[i]
      requires i == Find(Layout(), Linear(segNew)) && Linear(segNew) > Linear(seg)
      modifies this, seg`Size
      ensures Valid()
      ensures Layout() == Place(old(Layout()), old(RequestOf(segNew)))
      ensures fresh(segSplit) && IsPartOf(segSplit, segNew)
      ensures Segments.values == Insert(old(Segments.values), i + 1, segSplit)
    {
      ghost var rs, q := Layout(), RequestOf(segNew);
      LayoutIncreasing();
      var delta := Linear(segNew) - Linear(seg);
      var lowerSize, upperSize := Low(delta, 32), Low(seg.Size - delta, 32);
      SplitPlan(rs, q, i, lowerSize, upperSize);
      StartsAreFree(rs, q.lo);
      Resize(seg, lowerSize, i);
      assert Layout() == rs[i := Range(rs[i].lo, lowerSize)];
      segSplit := AddPart(segNew, upperSize);
    }

    lemma StartsAreFree(rs: seq<Range>, x: nat)
      requires rs == Layout() && forall k | 0 <= k < |rs| :: rs[k].lo != x
      ensures Free(x)
    {
      forall k | 0 <= k < |Segments.values| ensures Linear(Segments.values[k]) != x {
        assert rs[k].lo == Linear(Segments.values[k]);
      }
    }

    method AddSegment(segNew: ImageSegment) returns (seg: ImageSegment)
      requires Valid()
      modifies this, segNew`Size, (set s | s in Segments.values)`Size
      ensures Valid()
      ensures Layout() == Place(old(Layout()), old(RequestOf(segNew)))
      ensures -1 <= Find(old(Layout()), Linear(segNew)) < |old(Segments.values)|
      ensures var i := Find(old(Layout()), Linear(segNew));
              if i == -1 then
                seg == segNew
                && Segments.values == Insert(old(Segments.values), CountLt(old(Layout()), Lo, Linear(segNew)), segNew)
              else if Linear(segNew) == Linear(old(Segments.values)[i]) then
                seg == old(Segments.values)[i] && Segments.values == old(Segments.values)
              else
                && fresh(seg) && IsPartOf(seg, segNew)
                && Segments.values == Insert(old(Segments.values), i + 1, seg)
      ensures seg == segNew && old(segNew.Size) != 0 ==> segNew.Size == old(segNew.Size)
      ensures segNew !in old(Segments.values) && seg != segNew ==> segNew.Size == old(segNew.Size)
    {
      ghost var rs := Layout();
      LayoutIncreasing();
      FindInSorted(rs, Linear(segNew));
      var found := TryFindSegment(segNew.Addr);
      if found.None? {
        AddUncovered(segNew);
        return segNew;
      }
      seg := found.value;
      ghost var i: nat := Find(rs, Linear(segNew));
      assert rs[i].lo == Linear(seg);
      var delta := Linear(segNew) - Linear(seg);
      if delta > 0 {
        seg := SplitAt(seg, segNew, i);
      }
    }

    lemma LayoutIncreasing()
      requires Valid()
      ensures Increasing(Layout(), Lo)
    {
      forall i, j | 0 <= i < j < |Layout()| ensures Layout()[i].lo < Layout()[j].lo {
        assert ToLinear(Segments.keys[i]) < ToLinear(Segments.keys[j]);
      }
    }
  }

  lemma SplitPlan(rs: seq<Range>, q: Request, i: nat, lower: nat, upper: nat)
    requires Increasing(rs, Lo) && i == Find(rs, q.lo) && i < |rs| && rs[i].lo < q.lo
    requires lower == Low(q.lo - rs[i].lo, 32) && upper == Low(rs[i].size - (q.lo - rs[i].lo), 32)
    ensures Place(rs, q) == Insert(rs[i := Range(rs[i].lo, lower)], i + 1, Range(q.lo, upper))
    ensures CountLt(rs[i := Range(rs[i].lo, lower)], Lo, q.lo) == i + 1
    ensures forall k | 0 <= k < |rs| :: rs[k].lo != q.lo
  {
    FindInSorted(rs, q.lo);
    CountsSame(rs[i := Range(rs[i].lo, lower)], Lo, rs, q.lo);
  }

  /** The requests that a list of segments stands for. */
  ghost function Requests(segs: seq<ImageSegment>): (qs: seq<Request>)
    reads segs
    ensures |qs| == |segs| && forall i | 0 <= i < |qs| :: qs[i] == RequestOf(segs[i])
  {
    seq(|segs|, i requires 0 <= i < |segs| reads segs => RequestOf(segs[i]))
  }

  // ---------- mapping linear addresses ----------

  /** The linear address x, mapped to an address of the segment that starts at a. */
  function Mapped(a: Address, x: nat): Address {
    Addresses.Add(a, x - ToLinear(a))
  }

  /** The linear address that lies delta above the start of a segment is mapped back to itself. */
  ghost predicate MapsBack(a: Address, delta: nat) {
    ToLinear(Mapped(a, ToLinear(a) + delta)) == ToLinear(a) + delta
  }

  lemma MapsBackIff(a: Address, delta: nat)
    requires IsAddress(a) && ToLinear(a) + delta < WORD_LIMIT
    ensures MapsBack(a, delta) <==> Low(a.offset + delta, 64) < Pow2(a.bits)
  {
    assert ToLinear(a) + delta - ToLinear(a) == delta;
    AddLinearIff(a, delta);
    FitsWord(ToLinear(a) + delta);
  }

  /** Every linear address of a segment is mapped to an address that linearises back to it,
      exactly if the segment ends within the width of its offsets. Offsets of 64 bits are as
      wide as linear addresses. */
  lemma MappedAddressesLineariseIff(a: Address, size: nat)
    requires IsAddress(a) && 0 < size && ToLinear(a) + size <= WORD_LIMIT
    ensures (forall delta: nat | delta < size :: MapsBack(a, delta)) <==>
            a.bits == 64 || a.offset + size <= Pow2(a.bits)
  {
    if a.bits == 64 || a.offset + size <= Pow2(a.bits) {
      forall delta: nat | delta < size ensures MapsBack(a, delta) {
        WithinWidth(a, delta);
      }
    } else {
      MissesSome(a, size);
    }
  }

  lemma WithinWidth(a: Address, delta: nat)
    requires IsAddress(a) && ToLinear(a) + delta < WORD_LIMIT
    requires a.bits == 64 || a.offset + delta < Pow2(a.bits)
    ensures MapsBack(a, delta)
  {
    StaysBelow(a.offset + delta, a.bits, 64);
    MapsBackIff(a, delta);
  }

  lemma StaysBelow(x: nat, bits: nat, k: nat)
    requires bits <= k && (bits == k || x < Pow2(bits))
    ensures Low(x, k) < Pow2(bits)
  {
    LowBound(x, k);
    if bits < k {
      Pow2Le(bits, k);
      LowOfSmall(x, k);
    }
  }

  /** The first address beyond the width of the offsets. */
  lemma MissesSome(a: Address, size: nat)
    requires IsAddress(a) && 0 < size && ToLinear(a) + size <= WORD_LIMIT
    requires a.bits < 64 && a.offset + size > Pow2(a.bits)
    ensures exists delta: nat | delta < size :: !MapsBack(a, delta)
  {
    var delta: nat := if a.offset >= Pow2(a.bits) then 0 else Pow2(a.bits) - a.offset;
    LargePowers();
    Pow2Lt(a.bits, 64);
    FitsWord(a.offset + delta);
    MapsBackIff(a, delta);
    assert !MapsBack(a, delta);
  }

  /** The segment ends within the width of its offsets and inside the address space. */
  ghost predicate FitsWidth(a: Address, size: nat) {
    && IsAddress(a) && 0 < size && ToLinear(a) + size <= WORD_LIMIT
    && (a.bits == 64 || a.offset + size <= Pow2(a.bits))
  }

  /** What the three lookups of x give in one map. */
  ghost predicate LookupsAgree(x: nat, size: nat, byAddress: Option<ImageSegment>, byLinear: Option<ImageSegment>,
                               mapped: Option<Address>) {
    && byAddress == byLinear
    && (mapped.Some? <==> byLinear.Some?)
    && (byLinear.Some? ==>
          var a := byLinear.value.Addr;
          && ToLinear(a) <= x < ToLinear(a) + size
          && (FitsWidth(a, size) ==> ToLinear(mapped.value) == x))
  }

  lemma FoundAndMapped(rs: seq<Range>, segs: seq<ImageSegment>, x: nat, i: int)
    requires Good(rs) && NonEmpty(rs) && |rs| == |segs| && i == Find(rs, x) == Scan(rs, x) && i != -1
    requires forall k | 0 <= k < |rs| :: rs[k].lo == Linear(segs[k])
    ensures 0 <= i < |rs| && ToLinear(segs[i].Addr) <= x < ToLinear(segs[i].Addr) + rs[i].size
    ensures FitsWidth(segs[i].Addr, rs[i].size) ==> ToLinear(Mapped(segs[i].Addr, x)) == x
  {
    FindIs(rs, x);
    var a, size := segs[i].Addr, rs[i].size;
    assert rs[i].lo == ToLinear(a);
    if FitsWidth(a, size) {
      MappedAddressesLineariseIff(a, size);
      assert MapsBack(a, x - ToLinear(a));
    }
  }

  /** In a map that was built from placeable segments with sizes, the lookup by address, the
      lookup by linear value and the scan select the same segment or all fail, and the mapped
      address linearises back if the segment fits the width of its offsets. */
  method BuildAndLookUp(segments: seq<ImageSegment>, addr: Address)
    returns (segmentMap: SegmentMap, byAddress: Option<ImageSegment>, byLinear: Option<ImageSegment>,
             mapped: Option<Address>)
    modifies (set s | s in segments)`Size
    ensures segmentMap.Valid() && segmentMap.Layout() == PlaceAll([], old(Requests(segments)))
    ensures AllPlaceable([], old(Requests(segments))) && AllSized([], old(Requests(segments))) ==>
              Good(segmentMap.Layout()) &&
              LookupsAgree(ToLinear(addr), if byLinear.Some? then byLinear.value.Size else 0,
                           byAddress, byLinear, mapped)
  {
    ghost var qs := Requests(segments);
    segmentMap := new SegmentMap();
    segmentMap.AddAll(segments);
    byAddress := segmentMap.TryFindSegment(addr);
    byLinear := segmentMap.TryFindLinear(ToLinear(addr));
    mapped := segmentMap.MapLinearAddressToAddress(ToLinear(addr));
    ghost var rs := segmentMap.Layout();
    if AllPlaceable([], qs) && AllSized([], qs) {
      RunKeepsNonEmpty([], qs);
      LookupsAgreeIff(rs);
      assert Find(rs, ToLinear(addr)) == Scan(rs, ToLinear(addr));
      if Find(rs, ToLinear(addr)) != -1 {
        FoundAndMapped(rs, segmentMap.Segments.values, ToLinear(addr), Find(rs, ToLinear(addr)));
      }
    }
  }
}
