/** The layout of a segment map as a value: the address ranges of its segments, in order, and
    what src/Core/SegmentMap.cs computes from them. Sizes are 32-bit, linear addresses 64-bit
    unsigned words. */
module Layouts {
  import opened Bits
  import opened SortedLists

  datatype Range = Range(lo: nat, size: nat)

  function Lo(r: Range): nat {
    r.lo
  }

  const SIZE_LIMIT: nat := 0x1_0000_0000

  /** ImageSegment.IsInRange: the sum wraps at 64 bits. */
  predicate InRange(r: Range, x: nat) {
    r.lo <= x && x < Low(r.lo + r.size, 64)
  }

  /** What a caller of AddSegment brings: start and size of the new segment, and start and
      length of its memory area. */
  datatype Request = Request(lo: nat, size: nat, base: nat, length: nat)

  ghost predicate IsRequest(q: Request) {
    q.lo < WORD_LIMIT && q.size < SIZE_LIMIT && q.base < WORD_LIMIT
  }

  /** SegmentMap.TryFindSegment: the index of the last range that does not start above x, if
      it starts at x or contains it, and else -1. */
  function Find(rs: seq<Range>, x: nat): int {
    var n := CountLe(rs, Lo, x);
    if n > 0 && (rs[n - 1].lo == x || InRange(rs[n - 1], x)) then n - 1 else -1
  }

  /** The scan of MapLinearAddressToAddress: the first range that contains x. */
  function Scan(rs: seq<Range>, x: nat): int {
    if rs == [] then -1
    else if InRange(rs[0], x) then 0
    else if Scan(rs[1..], x) == -1 then -1 else Scan(rs[1..], x) + 1
  }

  /** SegmentMap.EnsureSegmentSize: an unsized segment extends to the next one, or else to the
      end of its memory area. */
  function EffectiveSize(rs: seq<Range>, q: Request): nat {
    if q.size != 0 then q.size
    else
      var n := CountLt(rs, Lo, q.lo);
      if n == |rs| then Low(q.base - q.lo + q.length, 32) else Low(rs[n].lo - q.lo, 32)
  }

  lemma FoundAt(rs: seq<Range>, x: nat, n: nat)
    requires n == CountLe(rs, Lo, x)
    ensures n <= |rs|
    ensures Find(rs, x) == if n > 0 && (rs[n - 1].lo == x || InRange(rs[n - 1], x)) then n - 1 else -1
  {
  }

  lemma SizeFound(rs: seq<Range>, q: Request, n: nat)
    requires n == CountLt(rs, Lo, q.lo) && q.size == 0
    ensures n <= |rs|
    ensures EffectiveSize(rs, q) ==
            if n == |rs| then Low(q.base - q.lo + q.length, 32) else Low(rs[n].lo - q.lo, 32)
  {
  }

  /** SegmentMap.AddSegment. */
  function Place(rs: seq<Range>, q: Request): seq<Range> {
    var i := Find(rs, q.lo);
    if i == -1 then
      Insert(rs, CountLt(rs, Lo, q.lo), Range(q.lo, EffectiveSize(rs, q)))
    else
      var delta := q.lo - rs[i].lo;
      if delta > 0 then
        Insert(rs[i := Range(rs[i].lo, Low(delta, 32))], i + 1, Range(q.lo, Low(rs[i].size - delta, 32)))
      else rs
  }

  function PlaceAll(rs: seq<Range>, qs: seq<Request>): seq<Range>
    decreases qs
  {
    if qs == [] then rs else PlaceAll(Place(rs, qs[0]), qs[1..])
  }

  // ---------- the invariant ----------

  ghost predicate Fits(r: Range) {
    r.size < SIZE_LIMIT && r.lo + r.size < WORD_LIMIT
  }

  /** r starts before s, and ends no later than s starts. */
  ghost predicate Before(r: Range, s: Range) {
    r.lo < s.lo && r.lo + r.size <= s.lo
  }

  /** Strictly sorted, without overlap, inside the address space. */
  ghost predicate Good(rs: seq<Range>) {
    && (forall i | 0 <= i < |rs| :: Fits(rs[i]))
    && (forall i, j | 0 <= i < j < |rs| :: Before(rs[i], rs[j]))
  }

  /** The new range ends before the next one starts, and inside the address space. */
  ghost predicate FitsGap(rs: seq<Range>, q: Request) {
    var n := CountLt(rs, Lo, q.lo);
    Fits(Range(q.lo, EffectiveSize(rs, q))) && (n < |rs| ==> q.lo + EffectiveSize(rs, q) <= rs[n].lo)
  }

  lemma InRangeIs(r: Range, x: nat)
    requires Fits(r)
    ensures InRange(r, x) <==> r.lo <= x < r.lo + r.size
  {
    FitsWord(r.lo + r.size);
  }

  /** The wrapped comparison recognises a non-empty range exactly if it ends inside the
      address space. */
  lemma InRangeIff(r: Range)
    requires r.lo < WORD_LIMIT && 0 < r.size < SIZE_LIMIT
    ensures (forall x | r.lo <= x < r.lo + r.size :: InRange(r, x)) <==> r.lo + r.size < WORD_LIMIT
  {
    if r.lo + r.size < WORD_LIMIT {
      FitsWord(r.lo + r.size);
    } else {
      LargePowers();
      LowBound(r.lo + r.size, 64);
      assert Shl(1, 64) == Pow2(64) by {
        ShlPow2(0, 64);
      }
      Join(1, 64, r.lo + r.size - WORD_LIMIT);
      assert !InRange(r, r.lo);
    }
  }

  lemma FindIs(rs: seq<Range>, x: nat)
    requires Good(rs)
    ensures Find(rs, x) == -1 || 0 <= Find(rs, x) < |rs|
    ensures forall i | 0 <= i < |rs| ::
              Find(rs, x) == i <==> rs[i].lo == x || rs[i].lo <= x < rs[i].lo + rs[i].size
    ensures Find(rs, x) == -1 ==> CountLt(rs, Lo, x) == CountLe(rs, Lo, x)
  {
    CountLeIs(rs, Lo, x);
    CountLtIs(rs, Lo, x);
    var n := CountLe(rs, Lo, x);
    if n > 0 {
      InRangeIs(rs[n - 1], x);
    }
  }

  lemma EffectiveSizeBound(rs: seq<Range>, q: Request)
    requires IsRequest(q)
    ensures EffectiveSize(rs, q) < SIZE_LIMIT
  {
    LargePowers();
    var n := CountLt(rs, Lo, q.lo);
    if n == |rs| {
      LowBound(q.base - q.lo + q.length, 32);
    } else {
      LowBound(rs[n].lo - q.lo, 32);
    }
  }

  /** r can stand between the n-th range and the one before it. */
  ghost predicate FitsAt(rs: seq<Range>, n: nat, r: Range)
    requires n <= |rs|
  {
    Fits(r) && (n > 0 ==> Before(rs[n - 1], r)) && (n < |rs| ==> Before(r, rs[n]))
  }

  lemma GoodInsert(rs: seq<Range>, n: nat, r: Range)
    requires Good(rs) && n <= |rs| && FitsAt(rs, n, r)
    ensures Good(Insert(rs, n, r))
  {
    var rs' := Insert(rs, n, r);
    forall i, j | 0 <= i < j < |rs'| ensures Before(rs'[i], rs'[j]) {
      if i == n {
        assert j > n + 1 ==> Before(rs[n], rs[j - 1]);
      } else if j == n {
        assert i < n - 1 ==> Before(rs[i], rs[n - 1]);
      } else {
        assert Before(rs[if i < n then i else i - 1], rs[if j < n then j else j - 1]);
      }
    }
  }

  lemma GoodInsertFits(rs: seq<Range>, n: nat, r: Range)
    requires n <= |rs| && Good(Insert(rs, n, r))
    ensures FitsAt(rs, n, r)
  {
    var rs' := Insert(rs, n, r);
    assert rs'[n] == r;
    assert n > 0 ==> rs'[n - 1] == rs[n - 1];
    assert n < |rs| ==> rs'[n + 1] == rs[n];
  }

  lemma InsertKeepsGoodIff(rs: seq<Range>, q: Request)
    requires Good(rs) && IsRequest(q) && Find(rs, q.lo) == -1
    ensures Good(Place(rs, q)) <==> FitsGap(rs, q)
  {
    var n := CountLt(rs, Lo, q.lo);
    var r := Range(q.lo, EffectiveSize(rs, q));
    FindIs(rs, q.lo);
    CountLtIs(rs, Lo, q.lo);
    if FitsGap(rs, q) {
      GoodInsert(rs, n, r);
    }
    if Good(Place(rs, q)) {
      GoodInsertFits(rs, n, r);
    }
  }

  /** The two parts of a split range. */
  lemma SplitParts(r: Range, x: nat)
    requires Fits(r) && r.lo < x < r.lo + r.size
    ensures Low(x - r.lo, 32) == x - r.lo && Low(r.size - (x - r.lo), 32) == r.size - (x - r.lo)
  {
    LargePowers();
    LowOfSmall(x - r.lo, 32);
    LowOfSmall(r.size - (x - r.lo), 32);
  }

  lemma GoodShrink(rs: seq<Range>, i: nat, r: Range)
    requires Good(rs) && i < |rs| && r.lo == rs[i].lo && r.size <= rs[i].size
    ensures Good(rs[i := r])
  {
    var rs' := rs[i := r];
    forall j, k | 0 <= j < k < |rs'| ensures Before(rs'[j], rs'[k]) {
      assert Before(rs[j], rs[k]);
    }
  }

  /** A split, with its two parts spelled out. */
  lemma SplitIs(rs: seq<Range>, q: Request)
    requires Good(rs) && Find(rs, q.lo) != -1 && q.lo > rs[Find(rs, q.lo)].lo
    ensures var s := Find(rs, q.lo);
            var lower := Range(rs[s].lo, q.lo - rs[s].lo);
            && q.lo < rs[s].lo + rs[s].size
            && Place(rs, q) == Insert(rs[s := lower], s + 1, Range(q.lo, rs[s].lo + rs[s].size - q.lo))
  {
    FoundRange(rs, q.lo);
    var s := Find(rs, q.lo);
    SplitParts(rs[s], q.lo);
    PlaceInside(rs, q, s);
  }

  /** The range that a lookup finds. */
  lemma FoundRange(rs: seq<Range>, x: nat)
    requires Good(rs) && Find(rs, x) != -1
    ensures var s := Find(rs, x);
            0 <= s < |rs| && Fits(rs[s]) && rs[s].lo <= x && (rs[s].lo < x ==> x < rs[s].lo + rs[s].size)
  {
    FindIs(rs, x);
  }

  lemma PlaceInside(rs: seq<Range>, q: Request, s: nat)
    requires s == Find(rs, q.lo) && s < |rs| && q.lo > rs[s].lo
    ensures Place(rs, q) == Insert(rs[s := Range(rs[s].lo, Low(q.lo - rs[s].lo, 32))], s + 1,
                                   Range(q.lo, Low(rs[s].size - (q.lo - rs[s].lo), 32)))
  {
  }

  lemma SplitKeepsGood(rs: seq<Range>, q: Request)
    requires Good(rs) && Find(rs, q.lo) != -1
    ensures Good(Place(rs, q))
  {
    FoundRange(rs, q.lo);
    var s := Find(rs, q.lo);
    if q.lo > rs[s].lo {
      SplitIs(rs, q);
      GoodSplit(rs, s, q.lo);
    }
  }

  lemma GoodSplit(rs: seq<Range>, s: nat, x: nat)
    requires Good(rs) && s < |rs| && rs[s].lo < x < rs[s].lo + rs[s].size
    ensures Good(Insert(rs[s := Range(rs[s].lo, x - rs[s].lo)], s + 1, Range(x, rs[s].lo + rs[s].size - x)))
  {
    var lower, upper := Range(rs[s].lo, x - rs[s].lo), Range(x, rs[s].lo + rs[s].size - x);
    GoodShrink(rs, s, lower);
    assert Before(lower, upper);
    assert s + 1 < |rs| ==> Before(rs[s], rs[s + 1]);
    GoodInsert(rs[s := lower], s + 1, upper);
  }

  /** Adding a segment keeps the layout sorted and free of overlap exactly if its start is
      already covered or it fits the gap it starts in. */
  lemma PlaceKeepsGoodIff(rs: seq<Range>, q: Request)
    requires Good(rs) && IsRequest(q)
    ensures Good(Place(rs, q)) <==> Find(rs, q.lo) != -1 || FitsGap(rs, q)
  {
    if Find(rs, q.lo) == -1 {
      InsertKeepsGoodIff(rs, q);
    } else {
      SplitKeepsGood(rs, q);
    }
  }

  lemma LowLe(x: nat, k: nat)
    ensures Low(x, k) <= x
  {
    Parts(x, k);
  }

  /** An unsized segment always fits below another one. */
  lemma UnsizedFitsBelow(rs: seq<Range>, q: Request)
    requires Good(rs) && IsRequest(q) && q.size == 0 && CountLt(rs, Lo, q.lo) < |rs| && Find(rs, q.lo) == -1
    ensures FitsGap(rs, q)
  {
    var n := CountLt(rs, Lo, q.lo);
    FindIs(rs, q.lo);
    CountLtIs(rs, Lo, q.lo);
    EffectiveSizeBound(rs, q);
    LowLe(rs[n].lo - q.lo, 32);
  }

  /** On top an unsized segment fits if it starts inside a memory area that the address space
      and the size field have room for; it then extends to the end of the area. */
  lemma UnsizedFitsOnTop(rs: seq<Range>, q: Request)
    requires IsRequest(q) && q.size == 0 && CountLt(rs, Lo, q.lo) == |rs|
    requires q.base <= q.lo < q.base + q.length < WORD_LIMIT && q.length < SIZE_LIMIT
    ensures FitsGap(rs, q) && q.lo + EffectiveSize(rs, q) == q.base + q.length
  {
    LargePowers();
    LowOfSmall(q.base + q.length - q.lo, 32);
  }

  /** Every request of the run is covered or fits its gap when its turn comes. */
  ghost predicate AllPlaceable(rs: seq<Range>, qs: seq<Request>)
    decreases qs
  {
    qs == [] || (
      && IsRequest(qs[0]) && (Find(rs, qs[0].lo) != -1 || FitsGap(rs, qs[0]))
      && AllPlaceable(Place(rs, qs[0]), qs[1..]))
  }

  /** Any run of such requests keeps the layout good. */
  lemma {:induction false} RunKeepsGood(rs: seq<Range>, qs: seq<Request>)
    requires Good(rs) && AllPlaceable(rs, qs)
    ensures Good(PlaceAll(rs, qs))
    decreases qs
  {
    if qs == [] {
    } else {
      PlaceKeepsGoodIff(rs, qs[0]);
      RunKeepsGood(Place(rs, qs[0]), qs[1..]);
    }
  }

  ghost predicate NonEmpty(rs: seq<Range>) {
    forall i | 0 <= i < |rs| :: rs[i].size > 0
  }

  /** Every request of the run whose start is not covered has a size, or finds one. */
  ghost predicate AllSized(rs: seq<Range>, qs: seq<Request>)
    decreases qs
  {
    qs == [] || (
      && (Find(rs, qs[0].lo) != -1 || EffectiveSize(rs, qs[0]) > 0)
      && AllSized(Place(rs, qs[0]), qs[1..]))
  }

  lemma NonEmptyInsert(rs: seq<Range>, n: nat, r: Range)
    requires NonEmpty(rs) && n <= |rs| && r.size > 0
    ensures NonEmpty(Insert(rs, n, r))
  {
  }

  lemma NonEmptyUpdate(rs: seq<Range>, n: nat, r: Range)
    requires NonEmpty(rs) && n < |rs| && r.size > 0
    ensures NonEmpty(rs[n := r])
  {
  }

  lemma SplitKeepsNonEmpty(rs: seq<Range>, q: Request)
    requires Good(rs) && NonEmpty(rs) && Find(rs, q.lo) != -1 && q.lo > rs[Find(rs, q.lo)].lo
    ensures NonEmpty(Place(rs, q))
  {
    var s := Find(rs, q.lo);
    SplitIs(rs, q);
    var lower, upper := Range(rs[s].lo, q.lo - rs[s].lo), Range(q.lo, rs[s].lo + rs[s].size - q.lo);
    NonEmptyUpdate(rs, s, lower);
    NonEmptyInsert(rs[s := lower], s + 1, upper);
  }

  lemma PlaceKeepsNonEmpty(rs: seq<Range>, q: Request)
    requires Good(rs) && NonEmpty(rs) && (Find(rs, q.lo) != -1 || EffectiveSize(rs, q) > 0)
    ensures NonEmpty(Place(rs, q))
  {
    FindIs(rs, q.lo);
    if Find(rs, q.lo) == -1 {
      NonEmptyInsert(rs, CountLt(rs, Lo, q.lo), Range(q.lo, EffectiveSize(rs, q)));
    } else if q.lo > rs[Find(rs, q.lo)].lo {
      SplitKeepsNonEmpty(rs, q);
    }
  }

  /** Runs of sized, placeable requests leave no empty segment. */
  lemma {:induction false} RunKeepsNonEmpty(rs: seq<Range>, qs: seq<Request>)
    requires Good(rs) && NonEmpty(rs) && AllPlaceable(rs, qs) && AllSized(rs, qs)
    ensures NonEmpty(PlaceAll(rs, qs))
    decreases qs
  {
    if qs == [] {
    } else {
      PlaceKeepsGoodIff(rs, qs[0]);
      PlaceKeepsNonEmpty(rs, qs[0]);
      RunKeepsNonEmpty(Place(rs, qs[0]), qs[1..]);
    }
  }

  // ---------- starts ----------

  ghost predicate Starts(rs: seq<Range>, x: nat) {
    exists i | 0 <= i < |rs| :: rs[i].lo == x
  }

  /** What a lookup in a sorted layout finds, and where an addition would go. */
  lemma FindInSorted(rs: seq<Range>, x: nat)
    requires Increasing(rs, Lo)
    ensures Find(rs, x) == -1 || (0 <= Find(rs, x) < |rs| && rs[Find(rs, x)].lo <= x)
    ensures Find(rs, x) == -1 ==> forall i | 0 <= i < |rs| :: rs[i].lo != x
    ensures Find(rs, x) != -1 && rs[Find(rs, x)].lo < x ==>
              CountLt(rs, Lo, x) == Find(rs, x) + 1 && forall i | 0 <= i < |rs| :: rs[i].lo != x
  {
    CountLeIs(rs, Lo, x);
    CountLtIs(rs, Lo, x);
  }

  lemma StartsInsert(rs: seq<Range>, n: nat, r: Range, x: nat)
    requires n <= |rs|
    ensures Starts(Insert(rs, n, r), x) <==> Starts(rs, x) || x == r.lo
  {
    InsertIs(rs, n, r);
    var rs' := Insert(rs, n, r);
    if Starts(rs, x) {
      var i :| 0 <= i < |rs| && rs[i].lo == x;
      assert rs'[if i < n then i else i + 1].lo == x;
    }
    if Starts(rs', x) {
      var i :| 0 <= i < |rs'| && rs'[i].lo == x;
      assert i != n ==> rs[if i < n then i else i - 1].lo == x;
    }
  }

  lemma StartsUpdate(rs: seq<Range>, i: nat, r: Range, x: nat)
    requires i < |rs| && r.lo == rs[i].lo
    ensures Starts(rs[i := r], x) <==> Starts(rs, x)
  {
    var rs' := rs[i := r];
    assert forall k | 0 <= k < |rs| :: rs'[k].lo == rs[k].lo;
  }

  /** The starts of a layout are those of the segments added so far. */
  lemma PlaceStarts(rs: seq<Range>, q: Request, x: nat)
    requires Increasing(rs, Lo)
    ensures Starts(Place(rs, q), x) <==> Starts(rs, x) || x == q.lo
  {
    FindInSorted(rs, q.lo);
    var i := Find(rs, q.lo);
    if i == -1 {
      StartsInsert(rs, CountLt(rs, Lo, q.lo), Range(q.lo, EffectiveSize(rs, q)), x);
    } else if rs[i].lo < q.lo {
      var lower := Range(rs[i].lo, Low(q.lo - rs[i].lo, 32));
      StartsUpdate(rs, i, lower, x);
      StartsInsert(rs[i := lower], i + 1, Range(q.lo, Low(rs[i].size - (q.lo - rs[i].lo), 32)), x);
    }
  }

  /** Adding a second segment at the same start changes nothing. */
  lemma SecondStartIgnored(rs: seq<Range>, q: Request)
    requires Increasing(rs, Lo) && Starts(rs, q.lo)
    ensures Place(rs, q) == rs
  {
    FindInSorted(rs, q.lo);
  }

  lemma InsertIncreasing(rs: seq<Range>, n: nat, r: Range)
    requires Increasing(rs, Lo) && n <= |rs|
    requires n > 0 ==> rs[n - 1].lo < r.lo
    requires n < |rs| ==> r.lo < rs[n].lo
    ensures Increasing(Insert(rs, n, r), Lo)
  {
    InsertIs(rs, n, r);
    assert forall i | 0 <= i < n :: Lo(rs[i]) <= Lo(rs[n - 1]);
    assert forall i | n <= i < |rs| :: Lo(rs[n]) <= Lo(rs[i]);
  }

  lemma PlaceIncreasing(rs: seq<Range>, q: Request)
    requires Increasing(rs, Lo)
    ensures Increasing(Place(rs, q), Lo)
  {
    FindInSorted(rs, q.lo);
    var i := Find(rs, q.lo);
    if i == -1 {
      NewIncreasing(rs, Range(q.lo, EffectiveSize(rs, q)));
    } else if rs[i].lo < q.lo {
      PlaceInside(rs, q, i);
      SplitIncreasing(rs, i, Low(q.lo - rs[i].lo, 32), Range(q.lo, Low(rs[i].size - (q.lo - rs[i].lo), 32)));
    }
  }

  lemma NewIncreasing(rs: seq<Range>, r: Range)
    requires Increasing(rs, Lo) && forall i | 0 <= i < |rs| :: rs[i].lo != r.lo
    ensures Increasing(Insert(rs, CountLt(rs, Lo, r.lo), r), Lo)
  {
    var n := CountLt(rs, Lo, r.lo);
    CountLtIs(rs, Lo, r.lo);
    assert n > 0 ==> Lo(rs[n - 1]) < r.lo;
    assert n < |rs| ==> Lo(rs[n]) >= r.lo;
    InsertIncreasing(rs, n, r);
  }

  lemma SplitIncreasing(rs: seq<Range>, i: nat, lower: nat, upper: Range)
    requires Increasing(rs, Lo) && i < |rs| && rs[i].lo < upper.lo && CountLt(rs, Lo, upper.lo) == i + 1
    requires forall k | 0 <= k < |rs| :: rs[k].lo != upper.lo
    ensures Increasing(Insert(rs[i := Range(rs[i].lo, lower)], i + 1, upper), Lo)
  {
    CountLtIs(rs, Lo, upper.lo);
    assert i + 1 < |rs| ==> Lo(rs[i + 1]) >= upper.lo;
    InsertIncreasing(rs[i := Range(rs[i].lo, lower)], i + 1, upper);
  }

  /** One of the requests starts at x. */
  ghost predicate Requested(qs: seq<Request>, x: nat) {
    qs != [] && (qs[0].lo == x || Requested(qs[1..], x))
  }

  lemma {:induction false} RequestedAt(qs: seq<Request>, k: nat)
    requires k < |qs|
    ensures Requested(qs, qs[k].lo)
    decreases k
  {
    if k == 0 {
    } else {
      RequestedAt(qs[1..], k - 1);
    }
  }

  lemma {:induction false} PlaceAllStarts(rs: seq<Range>, qs: seq<Request>, x: nat)
    requires Increasing(rs, Lo)
    ensures Increasing(PlaceAll(rs, qs), Lo)
    ensures Starts(PlaceAll(rs, qs), x) <==> Starts(rs, x) || Requested(qs, x)
    decreases qs
  {
    if qs == [] {
    } else {
      var placed := Place(rs, qs[0]);
      PlaceIncreasing(rs, qs[0]);
      PlaceStarts(rs, qs[0], x);
      PlaceAllStarts(placed, qs[1..], x);
    }
  }

  lemma {:induction false} PlaceAllSnoc(rs: seq<Range>, qs: seq<Request>, q: Request)
    ensures PlaceAll(rs, qs + [q]) == Place(PlaceAll(rs, qs), q)
    decreases qs
  {
    if qs == [] {
    } else {
      PlaceAllSnoc(Place(rs, qs[0]), qs[1..], q);
      assert (qs + [q])[1..] == qs[1..] + [q];
    }
  }

  /** The i-th request may be replaced by any other with a start that came before. */
  lemma RepeatedStart(qs: seq<Request>, i: nat, q: Request)
    requires i < |qs|
    requires q == qs[i] || (q.lo == qs[i].lo && exists k | 0 <= k < i :: qs[k].lo == q.lo)
    ensures Place(PlaceAll([], qs[..i]), q) == PlaceAll([], qs[..i + 1])
  {
    PlaceAllSnoc([], qs[..i], qs[i]);
    assert qs[..i + 1] == qs[..i] + [qs[i]];
    if q != qs[i] {
      var k :| 0 <= k < i && qs[k].lo == q.lo;
      RequestedAt(qs[..i], k);
      PlaceAllStarts([], qs[..i], q.lo);
      SecondStartIgnored(PlaceAll([], qs[..i]), q);
      SecondStartIgnored(PlaceAll([], qs[..i]), qs[i]);
    }
  }

  // ---------- lookups ----------

  lemma {:induction false} ScanIs(rs: seq<Range>, x: nat)
    ensures Scan(rs, x) == -1 || (0 <= Scan(rs, x) < |rs| && InRange(rs[Scan(rs, x)], x))
    ensures forall i | 0 <= i < |rs| && (Scan(rs, x) == -1 || i < Scan(rs, x)) :: !InRange(rs[i], x)
  {
    if rs == [] {
    } else {
      ScanIs(rs[1..], x);
      if Scan(rs[1..], x) != -1 {
        assert rs[Scan(rs[1..], x) + 1] == rs[1..][Scan(rs[1..], x)];
      }
      forall i | 0 < i < |rs| && (Scan(rs, x) == -1 || i < Scan(rs, x)) ensures !InRange(rs[i], x) {
        assert rs[i] == rs[1..][i - 1];
      }
    }
  }

  /** The binary search and the exhaustive scan select the same range for every address
      exactly if no range is empty. */
  lemma LookupsAgreeIff(rs: seq<Range>)
    requires Good(rs)
    ensures (forall x: nat :: Find(rs, x) == Scan(rs, x)) <==> (forall i | 0 <= i < |rs| :: rs[i].size > 0)
  {
    if forall x: nat :: Find(rs, x) == Scan(rs, x) {
      forall i | 0 <= i < |rs| ensures rs[i].size > 0 {
        var x := rs[i].lo;
        FindIs(rs, x);
        ScanIs(rs, x);
        assert Find(rs, x) == Scan(rs, x);
        InRangeIs(rs[i], x);
      }
    }
    if forall i | 0 <= i < |rs| :: rs[i].size > 0 {
      forall x: nat ensures Find(rs, x) == Scan(rs, x) {
        FindIs(rs, x);
        ScanIs(rs, x);
        if Scan(rs, x) != -1 {
          InRangeIs(rs[Scan(rs, x)], x);
        }
        if Find(rs, x) != -1 {
          InRangeIs(rs[Find(rs, x)], x);
        }
      }
    }
  }

  // ---------- coverage ----------

  ghost predicate Covered(rs: seq<Range>, x: nat) {
    exists i | 0 <= i < |rs| :: rs[i].lo <= x < rs[i].lo + rs[i].size
  }

  function TotalSize(rs: seq<Range>): nat {
    if rs == [] then 0 else rs[0].size + TotalSize(rs[1..])
  }

  lemma {:induction false} TotalOfInsert(rs: seq<Range>, at: nat, r: Range)
    requires at <= |rs|
    ensures TotalSize(Insert(rs, at, r)) == TotalSize(rs) + r.size
  {
    if at == 0 {
      assert Insert(rs, 0, r)[1..] == rs;
    } else {
      TotalOfInsert(rs[1..], at - 1, r);
      assert Insert(rs, at, r)[1..] == Insert(rs[1..], at - 1, r);
    }
  }

  lemma {:induction false} TotalOfUpdate(rs: seq<Range>, at: nat, r: Range)
    requires at < |rs|
    ensures TotalSize(rs[at := r]) == TotalSize(rs) - rs[at].size + r.size
  {
    if at == 0 {
      assert rs[0 := r][1..] == rs[1..];
    } else {
      TotalOfUpdate(rs[1..], at - 1, r);
      assert rs[at := r][1..] == rs[1..][at - 1 := r];
    }
  }

  lemma CoveredByInsert(rs: seq<Range>, at: nat, r: Range, x: nat)
    requires at <= |rs|
    ensures Covered(Insert(rs, at, r), x) <==> Covered(rs, x) || r.lo <= x < r.lo + r.size
  {
    var rs' := Insert(rs, at, r);
    if Covered(rs, x) {
      var i :| 0 <= i < |rs| && rs[i].lo <= x < rs[i].lo + rs[i].size;
      assert rs'[if i < at then i else i + 1] == rs[i];
    }
    assert rs'[at] == r;
    if Covered(rs', x) {
      var i :| 0 <= i < |rs'| && rs'[i].lo <= x < rs'[i].lo + rs'[i].size;
      if i != at {
        assert rs[if i < at then i else i - 1] == rs'[i];
      }
    }
  }

  /** A segment whose start is not covered adds exactly its effective range. */
  lemma InsertionAddsRange(rs: seq<Range>, q: Request, x: nat)
    requires Good(rs) && Find(rs, q.lo) == -1
    ensures Covered(Place(rs, q), x) <==> Covered(rs, x) || q.lo <= x < q.lo + EffectiveSize(rs, q)
    ensures TotalSize(Place(rs, q)) == TotalSize(rs) + EffectiveSize(rs, q)
  {
    var r := Range(q.lo, EffectiveSize(rs, q));
    CoveredByInsert(rs, CountLt(rs, Lo, q.lo), r, x);
    TotalOfInsert(rs, CountLt(rs, Lo, q.lo), r);
  }

  lemma SplitConservesSize(rs: seq<Range>, q: Request)
    requires Good(rs) && Find(rs, q.lo) != -1
    ensures TotalSize(Place(rs, q)) == TotalSize(rs)
  {
    FindIs(rs, q.lo);
    var s := Find(rs, q.lo);
    if q.lo > rs[s].lo {
      SplitIs(rs, q);
      var lower, upper := Range(rs[s].lo, q.lo - rs[s].lo), Range(q.lo, rs[s].lo + rs[s].size - q.lo);
      TotalOfUpdate(rs, s, lower);
      TotalOfInsert(rs[s := lower], s + 1, upper);
    }
  }

  /** Where the addresses of a range are after a split. */
  lemma SplitMoves(rs: seq<Range>, q: Request, i: nat, x: nat)
    requires Good(rs) && Find(rs, q.lo) != -1 && q.lo > rs[Find(rs, q.lo)].lo
    requires i < |rs| && rs[i].lo <= x < rs[i].lo + rs[i].size
    ensures var s := Find(rs, q.lo);
            var i' := if i > s || (i == s && x >= q.lo) then i + 1 else i;
            i' < |Place(rs, q)| && Place(rs, q)[i'].lo <= x < Place(rs, q)[i'].lo + Place(rs, q)[i'].size
  {
    FindIs(rs, q.lo);
    SplitIs(rs, q);
  }

  lemma SplitAddsNothing(rs: seq<Range>, q: Request, i: nat, x: nat)
    requires Good(rs) && Find(rs, q.lo) != -1 && q.lo > rs[Find(rs, q.lo)].lo
    requires i < |Place(rs, q)| && Place(rs, q)[i].lo <= x < Place(rs, q)[i].lo + Place(rs, q)[i].size
    ensures var k := if i <= Find(rs, q.lo) then i else i - 1;
            0 <= k < |rs| && rs[k].lo <= x < rs[k].lo + rs[k].size
  {
    FindIs(rs, q.lo);
    SplitIs(rs, q);
  }

  /** A segment whose start is covered conserves coverage and total size; each address stays
      in its range, or, from the split on, moves to the upper part. */
  lemma SplitConserves(rs: seq<Range>, q: Request, x: nat)
    requires Good(rs) && Find(rs, q.lo) != -1
    ensures TotalSize(Place(rs, q)) == TotalSize(rs)
    ensures Covered(Place(rs, q), x) <==> Covered(rs, x)
    ensures Covered(rs, x) ==>
              var i, s := Find(rs, x), Find(rs, q.lo);
              Find(Place(rs, q), x) == if q.lo > rs[s].lo && (i > s || (i == s && x >= q.lo)) then i + 1 else i
  {
    SplitConservesSize(rs, q);
    SplitKeepsGood(rs, q);
    FindIs(rs, q.lo);
    FindIs(rs, x);
    FindIs(Place(rs, q), x);
    if q.lo > rs[Find(rs, q.lo)].lo {
      if Covered(rs, x) {
        SplitMoves(rs, q, Find(rs, x), x);
      }
      if Covered(Place(rs, q), x) {
        var i :| 0 <= i < |Place(rs, q)| && Place(rs, q)[i].lo <= x < Place(rs, q)[i].lo + Place(rs, q)[i].size;
        SplitAddsNothing(rs, q, i, x);
      }
    }
  }
}
