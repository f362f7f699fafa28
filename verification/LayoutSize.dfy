/** Which addresses a segment covers when it is added, from what its caller asked for: a size
    that is given is kept, and one that is not reaches to the next segment or to the end of the
    memory area. */
module LayoutSizes {
  import opened Bits
  import opened Layouts
  import opened SortedLists

  /** No segment covers x or starts there. */
  ghost predicate Uncovered(rs: seq<Range>, x: nat) {
    !Covered(rs, x) && !Starts(rs, x)
  }

  lemma UncoveredIff(rs: seq<Range>, x: nat)
    requires Good(rs)
    ensures Uncovered(rs, x) <==> Find(rs, x) == -1
  {
    FindIs(rs, x);
  }

  /** The layout gains one range, and nothing else changes. */
  ghost predicate Gains(before: seq<Range>, after: seq<Range>, r: Range) {
    && multiset(after) == multiset(before) + multiset{r}
    && forall x: nat :: Covered(after, x) <==> Covered(before, x) || r.lo <= x < r.lo + r.size
  }

  lemma InsertGains(rs: seq<Range>, n: nat, r: Range)
    requires n <= |rs|
    ensures Gains(rs, Insert(rs, n, r), r)
  {
    assert rs == rs[..n] + rs[n..];
    forall x: nat ensures Covered(Insert(rs, n, r), x) <==> Covered(rs, x) || r.lo <= x < r.lo + r.size {
      CoveredByInsert(rs, n, r, x);
    }
  }

  /** A segment that has a size covers exactly that much. */
  lemma SizedKeepsSize(rs: seq<Range>, q: Request)
    requires Good(rs) && Uncovered(rs, q.lo) && q.size > 0
    ensures Gains(rs, Place(rs, q), Range(q.lo, q.size))
  {
    UncoveredIff(rs, q.lo);
    InsertGains(rs, CountLt(rs, Lo, q.lo), Range(q.lo, q.size));
  }

  /** Segment n is the next one above x. */
  ghost predicate NextAbove(rs: seq<Range>, x: nat, n: nat) {
    n < |rs| && rs[n].lo > x && forall i | 0 <= i < |rs| && rs[i].lo > x :: rs[i].lo >= rs[n].lo
  }

  lemma NextIsCount(rs: seq<Range>, x: nat, n: nat)
    requires Good(rs) && Uncovered(rs, x) && NextAbove(rs, x, n)
    ensures n == CountLt(rs, Lo, x)
  {
    CountLtIs(rs, Lo, x);
    var k := CountLt(rs, Lo, x);
    assert k <= n;
    assert rs[k].lo > x by {
      assert Lo(rs[k]) == rs[k].lo;
    }
    assert forall i, j | 0 <= i < j < |rs| :: Before(rs[i], rs[j]);
  }

  /** A segment without a size covers everything up to the next one, as far as 32 bits go. */
  lemma UnsizedReachesNext(rs: seq<Range>, q: Request, n: nat)
    requires Good(rs) && Uncovered(rs, q.lo) && q.size == 0 && NextAbove(rs, q.lo, n)
    ensures Gains(rs, Place(rs, q), Range(q.lo, (rs[n].lo - q.lo) % SIZE_LIMIT))
  {
    UncoveredIff(rs, q.lo);
    NextIsCount(rs, q.lo, n);
    SizeFound(rs, q, n);
    LowIsRemainder(rs[n].lo - q.lo, 32);
    LargePowers();
    InsertGains(rs, n, Range(q.lo, EffectiveSize(rs, q)));
  }

  /** Above all others it covers everything up to the end of its memory area. */
  lemma UnsizedReachesEnd(rs: seq<Range>, q: Request)
    requires Good(rs) && Uncovered(rs, q.lo) && q.size == 0 && forall i | 0 <= i < |rs| :: rs[i].lo < q.lo
    requires q.base <= q.lo <= q.base + q.length
    ensures Gains(rs, Place(rs, q), Range(q.lo, (q.base + q.length - q.lo) % SIZE_LIMIT))
  {
    UncoveredIff(rs, q.lo);
    var n := CountLt(rs, Lo, q.lo);
    CountLtIs(rs, Lo, q.lo);
    assert forall i | 0 <= i < |rs| :: Lo(rs[i]) < q.lo;
    SizeFound(rs, q, n);
    LowIsRemainder(q.base + q.length - q.lo, 32);
    LargePowers();
    InsertGains(rs, n, Range(q.lo, EffectiveSize(rs, q)));
  }
}
