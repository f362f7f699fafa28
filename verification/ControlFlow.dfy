/** Basic-block graphs as values: what the graph surgery of src/Core/Block.cs computes,
    and what it does to the edge lists and to the runs of a procedure. */
module ControlFlow {

  /** The predecessor list, the successor list and the statements of a block. The lists are
      sequences, because edges may repeat and because the position of a successor says which
      branch it is (0 is "else", 1 is "then"). */
  datatype Node<B, S> = Node(pred: seq<B>, succ: seq<B>, stmts: seq<S>)

  type Graph<B(==), S> = map<B, Node<B, S>>

  // ---------- the edge lists ----------

  /** How many times x occurs in s. */
  ghost function Count<B>(s: seq<B>, x: B): nat {
    multiset(s)[x]
  }

  /** Every block named by an edge list is a block of the graph. */
  ghost predicate Closed<B, S>(g: Graph<B, S>) {
    forall b | b in g ::
      && (forall x | x in g[b].pred :: x in g)
      && (forall x | x in g[b].succ :: x in g)
  }

  ghost predicate EdgeAgrees<B, S>(g: Graph<B, S>, a: B, b: B)
    requires a in g && b in g
  {
    Count(g[a].succ, b) == Count(g[b].pred, a)
  }

  /** The two edge lists describe the same multigraph. */
  ghost predicate Consistent<B, S>(g: Graph<B, S>) {
    forall a, b | a in g && b in g :: EdgeAgrees(g, a, b)
  }

  /** As Consistent, but for the edges from `from` to `to`. */
  ghost predicate ConsistentExcept<B, S>(g: Graph<B, S>, from: B, to: B) {
    forall a, b | a in g && b in g && !(a == from && b == to) :: EdgeAgrees(g, a, b)
  }

  /** s with every occurrence of `from` replaced. */
  function Subst<B(==)>(s: seq<B>, from: B, to: B): seq<B> {
    seq(|s|, i requires 0 <= i < |s| => if s[i] == from then to else s[i])
  }

  /** s with its first occurrence of `from`, if any, replaced. */
  function SubstFirst<B(==)>(s: seq<B>, from: B, to: B): seq<B> {
    if s == [] then []
    else if s[0] == from then [to] + s[1..]
    else [s[0]] + SubstFirst(s[1..], from, to)
  }

  /** Each of `tos` in turn takes the place of the first remaining `from`. */
  function Redirect<B(==)>(s: seq<B>, from: B, tos: seq<B>): seq<B>
    decreases tos
  {
    if tos == [] then s else Redirect(SubstFirst(s, from, tos[0]), from, tos[1..])
  }

  // ---------- the three operations ----------

  /** Block.ReplaceJumpsFrom: the successors of `block` get `next` as predecessor in its place. */
  function ReplaceJumpsFrom<B(==), S>(g: Graph<B, S>, block: B, next: B): Graph<B, S>
    requires block in g
  {
    map b | b in g ::
      if b in g[block].succ then g[b].(pred := Subst(g[b].pred, block, next)) else g[b]
  }

  /** Block.Coalesce: `block` absorbs `next`. */
  function Coalesce<B(==), S>(g: Graph<B, S>, block: B, next: B): Graph<B, S>
    requires block in g && next in g
  {
    var absorbed := g[block].(stmts := g[block].stmts + g[next].stmts, succ := g[next].succ);
    ReplaceJumpsFrom(g[block := absorbed], next, block)[next := Node([], [], [])]
  }

  /** Block.ReplaceJumpsTo: jumps to `block` go to `next` instead. */
  function ReplaceJumpsTo<B(==), S>(g: Graph<B, S>, block: B, next: B): Graph<B, S>
    requires block in g && next in g
  {
    map b | b in g ::
      Node(
        if b == block then []
        else if b == next then Redirect(g[b].pred, block, g[block].pred)
        else g[b].pred,
        if b in g[block].pred then Subst(g[b].succ, block, next) else g[b].succ,
        g[b].stmts)
  }

  // ---------- counting occurrences ----------

  lemma {:induction false} SubstCount<B>(s: seq<B>, from: B, to: B, x: B)
    ensures Count(Subst(s, from, to), x) ==
            if from == to then Count(s, x)
            else if x == from then 0
            else if x == to then Count(s, x) + Count(s, from)
            else Count(s, x)
  {
    if s == [] {
    } else {
      var last := |s| - 1;
      SubstCount(s[..last], from, to, x);
      assert s == s[..last] + [s[last]];
      assert Subst(s, from, to) == Subst(s[..last], from, to) + [if s[last] == from then to else s[last]];
    }
  }

  lemma SubstAbsent<B>(s: seq<B>, from: B, to: B)
    requires from !in s
    ensures Subst(s, from, to) == s
  {
  }

  lemma SubstTwice<B>(s: seq<B>, from: B, to: B)
    ensures Subst(Subst(s, from, to), from, to) == Subst(s, from, to)
  {
  }

  lemma {:induction false} SubstFirstCount<B>(s: seq<B>, from: B, to: B)
    ensures multiset(SubstFirst(s, from, to)) ==
            if from in s then multiset(s)[from := Count(s, from) - 1] + multiset{to} else multiset(s)
  {
    if s == [] {
    } else {
      assert s == [s[0]] + s[1..];
      if s[0] != from {
        SubstFirstCount(s[1..], from, to);
      }
    }
  }

  lemma {:induction false} SubstFirstAbsent<B>(s: seq<B>, from: B, to: B)
    requires from !in s
    ensures SubstFirst(s, from, to) == s
  {
    if s == [] {
    } else {
      SubstFirstAbsent(s[1..], from, to);
    }
  }

  lemma {:induction false} RedirectAbsent<B>(s: seq<B>, from: B, tos: seq<B>)
    requires from !in s
    ensures Redirect(s, from, tos) == s
    decreases tos
  {
    if tos == [] {
    } else {
      SubstFirstAbsent(s, from, tos[0]);
      RedirectAbsent(s, from, tos[1..]);
    }
  }

  lemma {:induction false} RedirectSnoc<B>(s: seq<B>, from: B, tos: seq<B>, to: B)
    ensures Redirect(s, from, tos + [to]) == SubstFirst(Redirect(s, from, tos), from, to)
    decreases tos
  {
    if tos == [] {
    } else {
      RedirectSnoc(SubstFirst(s, from, tos[0]), from, tos[1..], to);
      assert (tos + [to])[1..] == tos[1..] + [to];
    }
  }

  /** The entries of s other than x, in order. */
  ghost function Others<B>(s: seq<B>, x: B): seq<B> {
    if s == [] then [] else if s[0] == x then Others(s[1..], x) else [s[0]] + Others(s[1..], x)
  }

  lemma {:induction false} OthersCount<B>(s: seq<B>, x: B, y: B)
    ensures Count(Others(s, x), y) == if y == x then 0 else Count(s, y)
    ensures |Others(s, x)| == |s| - Count(s, x)
  {
    if s == [] {
    } else {
      assert s == [s[0]] + s[1..];
      OthersCount(s[1..], x, y);
    }
  }

  ghost function Min(a: nat, b: nat): nat {
    if a <= b then a else b
  }

  /** One redirected entry. */
  lemma SubstFirstCountOf<B>(s: seq<B>, from: B, to: B, x: B)
    ensures from in s && to != from ==>
            Count(SubstFirst(s, from, to), x) ==
            if x == from then Count(s, x) - 1 else if x == to then Count(s, x) + 1 else Count(s, x)
    ensures from !in s || to == from ==> Count(SubstFirst(s, from, to), x) == Count(s, x)
  {
    SubstFirstCount(s, from, to);
  }

  /** Redirecting consumes one `from` for each entry of `tos` that is not `from` itself,
      for as long as there is one left. */
  lemma {:induction false} RedirectCount<B>(s: seq<B>, from: B, tos: seq<B>, x: B)
    ensures var o := Others(tos, from);
            var used := Min(|o|, Count(s, from));
            Count(Redirect(s, from, tos), x) ==
            if x == from then Count(s, from) - used else Count(s, x) + Count(o[..used], x)
    decreases tos
  {
    var o := Others(tos, from);
    var used := Min(|o|, Count(s, from));
    if tos == [] {
    } else {
      var s' := SubstFirst(s, from, tos[0]);
      SubstFirstCountOf(s, from, tos[0], from);
      SubstFirstCountOf(s, from, tos[0], x);
      RedirectCount(s', from, tos[1..], x);
      if tos[0] != from {
        var o' := Others(tos[1..], from);
        if from in s {
          assert o[..used] == [tos[0]] + o'[..used - 1];
          assert Count(o[..used], x) == Count([tos[0]], x) + Count(o'[..used - 1], x);
        } else {
          assert used == 0;
        }
      }
    }
  }

  /** Every entry of tos has found a place exactly if there were enough. */
  lemma PrefixCountsIff<B>(o: seq<B>, k: nat)
    requires k <= |o|
    ensures (forall x | x in o :: Count(o[..k], x) == Count(o, x)) <==> k == |o|
  {
    assert o == o[..k] + o[k..];
    if k < |o| {
      assert o[k] in o[k..];
      assert Count(o[..k], o[k]) < Count(o, o[k]);
    }
  }

  // ---------- what the operations do to the edge lists ----------

  /** The edge counts after Coalesce, pair by pair. */
  lemma CoalesceCounts<B, S>(g: Graph<B, S>, block: B, next: B, a: B, b: B)
    requires block in g && next in g && block != next && a in g && b in g
    requires Closed(g) && Consistent(g)
    ensures Count(Coalesce(g, block, next)[a].succ, b) ==
            if a == block then Count(g[next].succ, b) else if a == next then 0 else Count(g[a].succ, b)
    ensures Count(Coalesce(g, block, next)[b].pred, a) ==
            if b == next || a == next then 0
            else if a == block then Count(g[block].succ, b) + Count(g[next].succ, b)
            else Count(g[a].succ, b)
  {
    assert EdgeAgrees(g, a, b) && EdgeAgrees(g, next, b) && EdgeAgrees(g, block, b);
    SubstCount(g[b].pred, next, block, a);
  }

  /** Nothing but edges from `block` to `next` leaves `block` or enters `next`. */
  ghost predicate OnlyJoined<B, S>(g: Graph<B, S>, block: B, next: B)
    requires block in g && next in g
  {
    (forall x | x in g[block].succ :: x == next) && (forall x | x in g[next].pred :: x == block)
  }

  lemma CoalesceNeedsOnlyJoined<B, S>(g: Graph<B, S>, block: B, next: B)
    requires block in g && next in g && block != next
    requires Closed(g) && Consistent(g)
    requires Consistent(Coalesce(g, block, next))
    ensures OnlyJoined(g, block, next)
  {
    var h := Coalesce(g, block, next);
    forall x | x in g[block].succ ensures x == next {
      CoalesceCounts(g, block, next, block, x);
      assert EdgeAgrees(h, block, x);
    }
    CoalesceCounts(g, block, next, block, next);
    assert EdgeAgrees(h, block, next);
    forall x | x in g[next].pred ensures x == block {
      CoalesceCounts(g, block, next, x, next);
      assert EdgeAgrees(g, x, next) && EdgeAgrees(h, x, next);
    }
  }

  lemma OnlyJoinedCounts<B, S>(g: Graph<B, S>, block: B, next: B, a: B, b: B)
    requires block in g && next in g && block != next && a in g && b in g
    requires Consistent(g) && OnlyJoined(g, block, next)
    ensures b != next ==> Count(g[block].succ, b) == 0
    ensures a != block ==> Count(g[a].succ, next) == 0
  {
    assert EdgeAgrees(g, a, next);
    assert a in multiset(g[next].pred) ==> a in g[next].pred;
    assert b in multiset(g[block].succ) ==> b in g[block].succ;
  }

  lemma CoalesceKeepsEdges<B, S>(g: Graph<B, S>, block: B, next: B, a: B, b: B)
    requires block in g && next in g && block != next && a in g && b in g
    requires Closed(g) && Consistent(g) && OnlyJoined(g, block, next)
    ensures EdgeAgrees(Coalesce(g, block, next), a, b)
  {
    CoalesceCounts(g, block, next, a, b);
    OnlyJoinedCounts(g, block, next, a, b);
    OnlyJoinedCounts(g, block, next, next, b);
  }

  /** Coalescing keeps the two edge lists in agreement exactly when the blocks are joined
      by nothing but edges from `block` to `next`. */
  lemma CoalesceConsistentIff<B, S>(g: Graph<B, S>, block: B, next: B)
    requires block in g && next in g && block != next
    requires Closed(g) && Consistent(g)
    ensures Consistent(Coalesce(g, block, next)) <==> OnlyJoined(g, block, next)
  {
    if Consistent(Coalesce(g, block, next)) {
      CoalesceNeedsOnlyJoined(g, block, next);
    }
    if OnlyJoined(g, block, next) {
      forall a, b | a in g && b in g ensures EdgeAgrees(Coalesce(g, block, next), a, b) {
        CoalesceKeepsEdges(g, block, next, a, b);
      }
    }
  }

  /** The edge counts after ReplaceJumpsTo, pair by pair. */
  lemma ReplaceJumpsToCounts<B, S>(g: Graph<B, S>, block: B, next: B, a: B, b: B)
    requires block in g && next in g && block != next && a in g && b in g
    requires Closed(g) && Consistent(g)
    ensures var h := ReplaceJumpsTo(g, block, next);
            Count(h[a].succ, b) ==
            if b == block then 0
            else if b == next then Count(g[a].succ, next) + Count(g[a].succ, block)
            else Count(g[a].succ, b)
    ensures var h := ReplaceJumpsTo(g, block, next);
            var o := Others(g[block].pred, block);
            var used := Min(|o|, Count(g[block].succ, next));
            Count(h[b].pred, a) ==
            if b == block then 0
            else if b == next then
              if a == block then Count(g[block].succ, next) - used
              else Count(g[a].succ, next) + Count(o[..used], a)
            else Count(g[a].succ, b)
  {
    assert EdgeAgrees(g, a, b) && EdgeAgrees(g, a, next) && EdgeAgrees(g, a, block);
    assert EdgeAgrees(g, block, next);
    SubstCount(g[a].succ, block, next, b);
    RedirectCount(g[next].pred, block, g[block].pred, a);
  }

  /** ReplaceJumpsTo moves one entry of next's predecessor list per incoming jump, so it can
      only keep that list right if block had at least as many edges to `next` as incoming
      edges from elsewhere; even then the edges from `block` to `next` disagree, unless
      nothing jumped to `block`. */
  lemma ReplaceJumpsToConsistentIff<B, S>(g: Graph<B, S>, block: B, next: B)
    requires block in g && next in g && block != next
    requires Closed(g) && Consistent(g)
    ensures ConsistentExcept(ReplaceJumpsTo(g, block, next), block, next) <==>
            |g[block].pred| - Count(g[block].pred, block) <= Count(g[block].succ, next)
    ensures Consistent(ReplaceJumpsTo(g, block, next)) <==> g[block].pred == []
  {
    var h := ReplaceJumpsTo(g, block, next);
    var o := Others(g[block].pred, block);
    var k := Count(g[block].succ, next);
    var used := Min(|o|, k);
    forall a, b | a in g && b in g
      ensures EdgeAgrees(h, a, b) <==>
              b == next ==> if a == block then Count(g[block].pred, block) + used == 0
                            else Count(o[..used], a) == Count(g[block].pred, a)
    {
      assert EdgeAgrees(g, a, block);
      ReplaceJumpsToCounts(g, block, next, a, b);
    }
    forall a ensures Count(o, a) == (if a == block then 0 else Count(g[block].pred, a)) && (a in o ==> a in g) {
      OthersCount(g[block].pred, block, a);
    }
    OthersCount(g[block].pred, block, block);
    PrefixCountsIff(o, used);
    if ConsistentExcept(h, block, next) {
      forall x | x in o ensures Count(o[..used], x) == Count(o, x) {
        assert EdgeAgrees(h, x, next);
      }
    }
    if used == |o| {
      assert o[..used] == o;
      forall a, b | a in h && b in h && !(a == block && b == next) ensures EdgeAgrees(h, a, b) {
      }
    }
    if Consistent(h) {
      assert EdgeAgrees(h, block, next);
      assert ConsistentExcept(h, block, next);
    }
    if g[block].pred == [] {
      forall a, b | a in h && b in h ensures EdgeAgrees(h, a, b) {
      }
    }
  }

  /** A loop whose header branches both ways to an empty block that goes back to it. */
  function TwoWayLoop(): Graph<nat, string> {
    map[0 := Node([1, 1], [1], []), 1 := Node([0], [0, 0], ["branch"])]
  }

  lemma TwoWayLoopAgrees()
    ensures Closed(TwoWayLoop()) && Consistent(TwoWayLoop())
  {
    var g := TwoWayLoop();
    forall a, b | a in g && b in g ensures EdgeAgrees(g, a, b) {
      assert a == 0 || a == 1;
      assert b == 0 || b == 1;
    }
  }

  /** Redirecting the two jumps to the empty block gives the header two edges to itself,
      but its predecessor list still has only one entry. */
  lemma ReplaceJumpsToLosesAJump()
    ensures TwoWayLoop()[0].succ == [1] && TwoWayLoop()[0].stmts == []
    ensures !ConsistentExcept(ReplaceJumpsTo(TwoWayLoop(), 0, 1), 0, 1)
  {
    var g := TwoWayLoop();
    TwoWayLoopAgrees();
    ReplaceJumpsToCounts(g, 0, 1, 1, 1);
    assert !EdgeAgrees(ReplaceJumpsTo(g, 0, 1), 1, 1);
  }

  /** No successor list names `block` any more, and every other position is as it was. */
  lemma ReplaceJumpsToRetargets<B, S>(g: Graph<B, S>, block: B, next: B, a: B)
    requires block in g && next in g && block != next && a in g
    requires Closed(g) && Consistent(g)
    ensures var s, s' := g[a].succ, ReplaceJumpsTo(g, block, next)[a].succ;
            |s'| == |s| && block !in s' &&
            forall i | 0 <= i < |s| :: s'[i] == if s[i] == block then next else s[i]
  {
    assert EdgeAgrees(g, a, block);
  }

  /** The graph without one of its blocks (BlockGraph.Blocks.Remove). */
  function Without<B(==), S>(g: Graph<B, S>, block: B): Graph<B, S> {
    g - {block}
  }

  /** ControlFlowGraphCleaner redirects the jumps to an empty block that is the only predecessor
      of `next` and drops the block, without removing its edge. That leaves a closed, consistent
      graph exactly when the block had one incoming edge. */
  lemma ReplaceAndDropIff<B, S>(g: Graph<B, S>, block: B, next: B)
    requires block in g && next in g && block != next
    requires Closed(g) && Consistent(g)
    requires g[block].succ == [next]
    ensures var h := Without(ReplaceJumpsTo(g, block, next), block);
            Closed(h) && Consistent(h) <==> |g[block].pred| == 1
  {
    var r := ReplaceJumpsTo(g, block, next);
    var h := Without(r, block);
    var o := Others(g[block].pred, block);
    assert EdgeAgrees(g, block, block) && EdgeAgrees(g, block, next);
    OthersCount(g[block].pred, block, block);
    ReplaceJumpsToConsistentIff(g, block, next);
    if Closed(h) && Consistent(h) {
      assert ConsistentExcept(r, block, next) by {
        forall a, b | a in r && b in r && !(a == block && b == next) ensures EdgeAgrees(r, a, b) {
          ReplaceJumpsToCounts(g, block, next, a, b);
          if a != block && b != block {
            assert EdgeAgrees(h, a, b);
          }
        }
      }
      ReplaceJumpsToCounts(g, block, next, block, next);
      assert Count(h[next].pred, block) == 0;
    }
    if |g[block].pred| == 1 {
      forall b | b in h
        ensures forall x | x in h[b].pred :: x in h
        ensures forall x | x in h[b].succ :: x in h
      {
        forall x | x in h[b].pred ensures x in h {
          RedirectCount(g[next].pred, block, g[block].pred, x);
          ReplaceJumpsToCounts(g, block, next, block, b);
        }
        ReplaceJumpsToCounts(g, block, next, b, block);
      }
      forall a, b | a in h && b in h ensures EdgeAgrees(h, a, b) {
        assert EdgeAgrees(r, a, b);
      }
    }
  }

  /** s without its first occurrence of x. */
  function RemoveFirst<B(==)>(s: seq<B>, x: B): seq<B> {
    if s == [] then [] else if s[0] == x then s[1..] else [s[0]] + RemoveFirst(s[1..], x)
  }

  /** BlockGraph.RemoveEdge: one entry of each list goes, if both have one. */
  function RemoveEdge<B(==), S>(g: Graph<B, S>, from: B, to: B): Graph<B, S>
    requires from in g && to in g && from != to
  {
    if to in g[from].succ && from in g[to].pred then
      g[from := Node(g[from].pred, RemoveFirst(g[from].succ, to), g[from].stmts)]
       [to := Node(RemoveFirst(g[to].pred, from), g[to].succ, g[to].stmts)]
    else
      g
  }

  lemma {:induction false} RemoveFirstCount<B>(s: seq<B>, x: B, y: B)
    ensures Count(RemoveFirst(s, x), y) == Count(s, y) - if x in s && y == x then 1 else 0
  {
    if s == [] {
    } else {
      assert s == [s[0]] + s[1..];
      if s[0] != x {
        RemoveFirstCount(s[1..], x, y);
      }
    }
  }

  /** The two lists have the same entries apart from x. */
  ghost predicate SameBut<B>(s: seq<B>, t: seq<B>, x: B) {
    Others(s, x) == Others(t, x)
  }

  lemma SameButCounts<B>(s: seq<B>, t: seq<B>, x: B, y: B)
    requires SameBut(s, t, x) && y != x
    ensures Count(s, y) == Count(t, y)
  {
    OthersCount(s, x, y);
    OthersCount(t, x, y);
  }

  lemma {:induction false} RemovedOne<B>(s: seq<B>, x: B)
    ensures SameBut(RemoveFirst(s, x), s, x)
  {
    if s == [] {
    } else if s[0] != x {
      RemovedOne(s[1..], x);
    }
  }

  /** What is left of the edges when the edge to `next` is removed as well. */
  lemma EdgesAfterRemoval<B, S>(g: Graph<B, S>, block: B, next: B, b: B)
    requires block in g && next in g && block != next && b in g && b != block
    requires Closed(g) && Consistent(g) && g[block].succ == [next]
    ensures var r := ReplaceJumpsTo(g, block, next);
            var h := RemoveEdge(r, block, next);
            && b in h && h[b].succ == r[b].succ && block !in h[b].succ && block !in h[b].pred
            && SameBut(h[b].pred, r[b].pred, block)
  {
    var r := ReplaceJumpsTo(g, block, next);
    ReplaceJumpsToCounts(g, block, next, block, b);
    ReplaceJumpsToCounts(g, block, next, block, next);
    ReplaceJumpsToCounts(g, block, next, b, block);
    assert r[block].succ == [next] by {
      assert EdgeAgrees(g, block, block);
    }
    if b == next {
      RemoveFirstCount(r[next].pred, block, block);
      RemovedOne(r[next].pred, block);
    }
  }

  /** ControlFlowGraphCleaner does all three to an empty block between a branch and its target:
      it redirects the jumps, removes the edge to the target, and drops the block. That leaves a
      closed, consistent graph exactly when the block had at most one incoming edge. */
  lemma RedirectRemoveAndDropIff<B, S>(g: Graph<B, S>, block: B, next: B)
    requires block in g && next in g && block != next
    requires Closed(g) && Consistent(g) && g[block].succ == [next]
    ensures var h := Without(RemoveEdge(ReplaceJumpsTo(g, block, next), block, next), block);
            Closed(h) && Consistent(h) <==> |g[block].pred| <= 1
  {
    var r := ReplaceJumpsTo(g, block, next);
    var h := Without(RemoveEdge(r, block, next), block);
    ReplaceJumpsToConsistentIff(g, block, next);
    assert EdgeAgrees(g, block, block);
    forall b | b in h
      ensures h[b].succ == r[b].succ && block !in h[b].succ && block !in h[b].pred
      ensures SameBut(h[b].pred, r[b].pred, block)
    {
      EdgesAfterRemoval(g, block, next, b);
    }
    StaysClosed(g, block, next, r, h);
    forall a, b | a in g && b in g && !(a == block && b == next)
      ensures a == block || b == block ==> EdgeAgrees(r, a, b)
    {
      ReplaceJumpsToCounts(g, block, next, a, b);
    }
    if Consistent(h) {
      forall a, b | a in r && b in r && !(a == block && b == next) ensures EdgeAgrees(r, a, b) {
        if a != block && b != block {
          assert EdgeAgrees(h, a, b);
          SameButCounts(h[b].pred, r[b].pred, block, a);
        }
      }
    }
    if ConsistentExcept(r, block, next) {
      forall a, b | a in h && b in h ensures EdgeAgrees(h, a, b) {
        assert EdgeAgrees(r, a, b);
        SameButCounts(h[b].pred, r[b].pred, block, a);
      }
    }
  }

  lemma StaysClosed<B, S>(g: Graph<B, S>, block: B, next: B, r: Graph<B, S>, h: Graph<B, S>)
    requires block in g && next in g && block != next && Closed(g) && Consistent(g)
    requires r == ReplaceJumpsTo(g, block, next) && h.Keys == g.Keys - {block}
    requires forall b | b in h :: h[b].succ == r[b].succ && block !in h[b].succ && block !in h[b].pred
    requires forall b | b in h :: SameBut(h[b].pred, r[b].pred, block)
    ensures Closed(h)
  {
    forall b | b in h
      ensures forall x | x in h[b].pred :: x in h
      ensures forall x | x in h[b].succ :: x in h
    {
      forall x | x in h[b].pred ensures x in h {
        SameButCounts(h[b].pred, r[b].pred, block, x);
        assert Count(r[b].pred, x) > 0;
        RedirectCount(g[next].pred, block, g[block].pred, x);
        PrefixIsPart(g[block].pred, block, x, Min(|Others(g[block].pred, block)|, Count(g[next].pred, block)));
      }
    }
  }

  /** What the others list has at its start, the list has. */
  lemma PrefixIsPart<B>(s: seq<B>, y: B, x: B, k: nat)
    requires k <= |Others(s, y)|
    ensures Count(Others(s, y)[..k], x) > 0 ==> x in s
  {
    OthersCount(s, y, x);
    var o := Others(s, y);
    assert o == o[..k] + o[k..];
  }
}
