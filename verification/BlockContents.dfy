/** What graph surgery does to the statements of the blocks, and to the places in their lists. */
module BlockContents {
  import opened ControlFlow

  // ---------- no statement is lost or doubled ----------

  /** How often statement x occurs in these blocks. */
  ghost function Occurrences<B(!new), S>(g: Graph<B, S>, blocks: set<B>, x: S): nat
    requires blocks <= g.Keys
  {
    if blocks == {} then 0
    else
      var b :| b in blocks;
      Count(g[b].stmts, x) + Occurrences(g, blocks - {b}, x)
  }

  lemma {:induction false} OccurrencesApart<B(!new), S>(g: Graph<B, S>, blocks: set<B>, b: B, x: S)
    requires blocks <= g.Keys && b in blocks
    ensures Occurrences(g, blocks, x) == Count(g[b].stmts, x) + Occurrences(g, blocks - {b}, x)
    decreases blocks
  {
    var c :| c in blocks && Occurrences(g, blocks, x) == Count(g[c].stmts, x) + Occurrences(g, blocks - {c}, x);
    if c != b {
      OccurrencesApart(g, blocks - {c}, b, x);
      OccurrencesApart(g, blocks - {b}, c, x);
      assert blocks - {c} - {b} == blocks - {b} - {c};
    }
  }

  lemma {:induction false} SameOccurrences<B(!new), S>(g: Graph<B, S>, h: Graph<B, S>, blocks: set<B>, x: S)
    requires blocks <= g.Keys && blocks <= h.Keys
    requires forall b | b in blocks :: g[b].stmts == h[b].stmts
    ensures Occurrences(g, blocks, x) == Occurrences(h, blocks, x)
    decreases blocks
  {
    if blocks == {} {
    } else {
      var b :| b in blocks;
      OccurrencesApart(g, blocks, b, x);
      OccurrencesApart(h, blocks, b, x);
      SameOccurrences(g, h, blocks - {b}, x);
    }
  }

  /** The blocks other than the two keep their statements; the absorbed one has nothing left. */
  lemma CoalesceContents<B, S>(g: Graph<B, S>, block: B, next: B)
    requires block in g && next in g
    ensures var h := Coalesce(g, block, next);
            && h.Keys == g.Keys
            && h[next].pred == [] && h[next].succ == [] && h[next].stmts == []
            && (block != next ==> h[block].stmts == g[block].stmts + g[next].stmts)
            && forall b | b in g && b != block && b != next :: h[b].stmts == g[b].stmts
  {
  }

  lemma PairOccurrences<B(!new), S>(g: Graph<B, S>, a: B, b: B, x: S)
    requires a in g && b in g && a != b
    ensures Occurrences(g, g.Keys, x)
            == Count(g[a].stmts, x) + Count(g[b].stmts, x) + Occurrences(g, g.Keys - {a, b}, x)
  {
    OccurrencesApart(g, g.Keys, a, x);
    OccurrencesApart(g, g.Keys - {a}, b, x);
    assert g.Keys - {a} - {b} == g.Keys - {a, b};
  }

  /** Coalescing neither loses a statement nor doubles one, exactly if the blocks are two or
      there is nothing to lose: every statement occurs in the blocks as often as before. */
  lemma CoalesceConservesIff<B(!new), S>(g: Graph<B, S>, block: B, next: B)
    requires block in g && next in g
    ensures (forall x :: Occurrences(Coalesce(g, block, next), g.Keys, x) == Occurrences(g, g.Keys, x)) <==>
            block != next || g[next].stmts == []
  {
    var h := Coalesce(g, block, next);
    CoalesceContents(g, block, next);
    if block != next {
      forall x ensures Occurrences(h, g.Keys, x) == Occurrences(g, g.Keys, x) {
        PairOccurrences(g, block, next, x);
        PairOccurrences(h, block, next, x);
        SameOccurrences(g, h, g.Keys - {block, next}, x);
      }
    } else {
      forall x ensures Occurrences(h, g.Keys, x) + Count(g[next].stmts, x) == Occurrences(g, g.Keys, x) {
        OccurrencesApart(g, g.Keys, next, x);
        OccurrencesApart(h, g.Keys, next, x);
        SameOccurrences(g, h, g.Keys - {next}, x);
      }
      if g[next].stmts != [] {
        var x := g[next].stmts[0];
        assert Count(g[next].stmts, x) > 0;
        assert Occurrences(h, g.Keys, x) != Occurrences(g, g.Keys, x);
      }
    }
  }

  /** Redirecting jumps leaves the statements of every block alone. */
  lemma ReplaceJumpsToContents<B, S>(g: Graph<B, S>, block: B, next: B)
    requires block in g && next in g
    ensures var h := ReplaceJumpsTo(g, block, next);
            h.Keys == g.Keys && forall b | b in g :: h[b].stmts == g[b].stmts
  {
  }

  // ---------- places in the lists ----------

  /** Coalescing renames one predecessor, where it stands. */
  lemma CoalescePlaces<B, S>(g: Graph<B, S>, block: B, next: B, b: B)
    requires block in g && next in g && b in g && b != next
    requires b !in g[next].succ ==> next !in g[b].pred
    ensures var before, after := g[b].pred, Coalesce(g, block, next)[b].pred;
            && |after| == |before|
            && forall i | 0 <= i < |before| :: after[i] == if before[i] == next then block else before[i]
  {
  }

  lemma {:induction false} SubstFirstPlaces<B>(s: seq<B>, from: B, to: B, i: nat)
    requires i < |s|
    ensures |SubstFirst(s, from, to)| == |s|
    ensures SubstFirst(s, from, to)[i] == if s[i] == from && from !in s[..i] then to else s[i]
    decreases s
  {
    if s[0] == from {
      assert i > 0 ==> s[0] in s[..i];
    } else if i == 0 {
      if |s| > 1 {
        SubstFirstPlaces(s[1..], from, to, 0);
      }
    } else {
      SubstFirstPlaces(s[1..], from, to, i - 1);
      assert s[..i] == [s[0]] + s[1..][..i - 1];
    }
  }

  /** Entries other than `from` stay where they are. */
  lemma {:induction false} RedirectPlaces<B>(s: seq<B>, from: B, tos: seq<B>, i: nat)
    requires i < |s|
    ensures |Redirect(s, from, tos)| == |s|
    ensures s[i] != from ==> Redirect(s, from, tos)[i] == s[i]
    ensures s[i] == from ==> Redirect(s, from, tos)[i] == from || Redirect(s, from, tos)[i] in tos
    decreases tos
  {
    if tos == [] {
    } else {
      var t := SubstFirst(s, from, tos[0]);
      SubstFirstPlaces(s, from, tos[0], i);
      RedirectPlaces(t, from, tos[1..], i);
    }
  }

  /** Redirecting puts predecessors of `block` in its places in the list of `next`, and touches
      no other place in any list of predecessors but that of `block`, which is emptied. */
  lemma ReplaceJumpsToPlaces<B, S>(g: Graph<B, S>, block: B, next: B, b: B, i: nat)
    requires block in g && next in g && b in g && b != block && i < |g[b].pred|
    ensures var before, after := g[b].pred, ReplaceJumpsTo(g, block, next)[b].pred;
            && |after| == |before|
            && (b != next || before[i] != block ==> after[i] == before[i])
            && (b == next && before[i] == block ==> after[i] == block || after[i] in g[block].pred)
    ensures ReplaceJumpsTo(g, block, next)[block].pred == []
  {
    if b == next {
      RedirectPlaces(g[next].pred, block, g[block].pred, i);
    }
  }

  // ---------- removing an edge ----------

  /** x stands first at k, and `after` is the list without that entry. */
  ghost predicate LosesAt<B>(before: seq<B>, after: seq<B>, x: B, k: nat) {
    k < |before| && before[k] == x && x !in before[..k] && after == before[..k] + before[k + 1..]
  }

  ghost predicate LosesFirst<B>(before: seq<B>, after: seq<B>, x: B) {
    exists k: nat :: LosesAt(before, after, x, k)
  }

  lemma LosesLater<B>(first: B, before: seq<B>, after: seq<B>, x: B, k: nat)
    requires LosesAt(before, after, x, k) && first != x
    ensures LosesAt([first] + before, [first] + after, x, k + 1)
  {
    assert ([first] + before)[..k + 1] == [first] + before[..k];
    assert ([first] + before)[k + 2..] == before[k + 1..];
  }

  lemma {:induction false} RemoveFirstLoses<B>(s: seq<B>, x: B)
    ensures if x in s then LosesFirst(s, RemoveFirst(s, x), x) else RemoveFirst(s, x) == s
    decreases s
  {
    if s == [] {
    } else if s[0] == x {
      assert LosesAt(s, s[1..], x, 0);
    } else {
      RemoveFirstLoses(s[1..], x);
      assert s == [s[0]] + s[1..];
      if x in s[1..] {
        var k: nat :| LosesAt(s[1..], RemoveFirst(s[1..], x), x, k);
        LosesLater(s[0], s[1..], RemoveFirst(s[1..], x), x, k);
      }
    }
  }

  /** If both lists have the edge, its first entry goes from each, and the others close up. */
  lemma RemoveEdgePlaces<B, S>(g: Graph<B, S>, from: B, to: B)
    requires from in g && to in g && from != to
    ensures var h := RemoveEdge(g, from, to);
            if to in g[from].succ && from in g[to].pred then
              && LosesFirst(g[from].succ, h[from].succ, to) && LosesFirst(g[to].pred, h[to].pred, from)
              && h[from].pred == g[from].pred && h[to].succ == g[to].succ
              && forall b | b in g && b != from && b != to :: h[b] == g[b]
            else h == g
  {
    RemoveFirstLoses(g[from].succ, to);
    RemoveFirstLoses(g[to].pred, from);
  }

  /** One edge goes, if both lists have it, and nothing else changes. */
  lemma RemoveEdgeCounts<B, S>(g: Graph<B, S>, from: B, to: B, a: B, b: B)
    requires from in g && to in g && from != to && a in g && b in g
    ensures var h := RemoveEdge(g, from, to);
            var one := if to in g[from].succ && from in g[to].pred && a == from && b == to then 1 else 0;
            && h.Keys == g.Keys && h[a].stmts == g[a].stmts
            && Count(h[a].succ, b) == Count(g[a].succ, b) - one
            && Count(h[b].pred, a) == Count(g[b].pred, a) - one
  {
    RemoveFirstCount(g[from].succ, to, b);
    RemoveFirstCount(g[to].pred, from, a);
  }
}
