/** Where the comparison of two types of different structure goes: down through the first parts
    that differ, until it meets a pair that the dictionary holds.

    The pairs on the stack of a comparison lie on that way, and are all larger than what it has
    come to. Whatever is provisional is on some stack, and as long as a pair has not been taken
    on, no comparison gets past it.
  */
module Descents {
  import opened TypeComparisons

  function Part(p: Pair, n: nat): Pair
    requires n < |p.x.parts| && n < |p.y.parts|
  {
    Pair(p.x.parts[n], p.y.parts[n])
  }

  /** Part n is the first that differs. */
  ghost predicate DiffersAt(p: Pair, n: nat) {
    && p.x.kind == p.y.kind && n < |p.x.parts| == |p.y.parts|
    && !Alike(Part(p, n)) && forall k: nat | k < n :: Alike(Part(p, k))
  }

  /** The comparison of `goal` comes to p, with nothing remembered of the pairs on the way. */
  ghost predicate Reaches(memos: Memos, goal: Pair, p: Pair)
    decreases goal.x
  {
    goal !in memos && (goal == p || exists n: nat :: DiffersAt(goal, n) && Reaches(memos, Part(goal, n), p))
  }

  lemma ReachesDifferent(memos: Memos, goal: Pair, p: Pair)
    requires Reaches(memos, goal, p) && !Alike(p)
    ensures !Alike(goal)
  {
    AlikeIff(goal);
  }

  lemma {:induction false} ReachesUnknown(memos: Memos, goal: Pair, p: Pair)
    requires Reaches(memos, goal, p)
    ensures p !in memos
    decreases goal.x
  {
    if goal != p {
      var n: nat :| DiffersAt(goal, n) && Reaches(memos, Part(goal, n), p);
      ReachesUnknown(memos, Part(goal, n), p);
    }
  }

  // ---------- the pairs on a stack ----------

  ghost predicate OnStack(stack: seq<Frame>, p: Pair) {
    exists f | f in stack :: f.pair == p
  }

  /** Nothing was remembered of the pairs that the comparison has taken on. */
  ghost predicate FreshStack(memos: Memos, stack: seq<Frame>) {
    forall f | f in stack :: f.pair !in memos
  }

  /** All that is compared on behalf of types of one structure has one structure. */
  lemma {:induction false} AwaitsAlike(stack: seq<Frame>, goal: Pair, q: Pair)
    requires Awaits(stack, goal, q, true) && Alike(goal)
    ensures Alike(q)
    decreases |stack|
  {
    if stack == [] {
    } else {
      var f := stack[|stack| - 1];
      AwaitsAlike(stack[..|stack| - 1], goal, f.pair);
      AlikeIff(f.pair);
    }
  }

  /** A comparison that has come to a pair of different types has come down to it. */
  lemma {:induction false} AwaitsReaches(memos: Memos, stack: seq<Frame>, goal: Pair, q: Pair, p: Pair)
    requires Awaits(stack, goal, q, true) && FreshStack(memos, stack)
    requires Reaches(memos, q, p) && !Alike(q)
    ensures Reaches(memos, goal, p)
    decreases |stack|
  {
    if stack == [] {
    } else {
      var f := stack[|stack| - 1];
      AlikeIff(f.pair);
      assert DiffersAt(f.pair, f.at) && q == Part(f.pair, f.at);
      AwaitsReaches(memos, stack[..|stack| - 1], goal, f.pair, p);
    }
  }

  lemma {:induction false} FrameReaches(memos: Memos, stack: seq<Frame>, goal: Pair, q: Pair, p: Pair)
    requires Awaits(stack, goal, q, true) && FreshStack(memos, stack)
    requires OnStack(stack, p) && !Alike(p)
    ensures Reaches(memos, goal, p)
    decreases |stack|
  {
    var rest, f := stack[..|stack| - 1], stack[|stack| - 1];
    if f.pair == p {
      AwaitsReaches(memos, rest, goal, p, p);
    } else {
      FrameReaches(memos, rest, goal, f.pair, p);
    }
  }

  /** A pair of different types on the stack is one that the comparison comes to. */
  lemma StackReaches(memos: Memos, c: Comparison, goal: Pair, p: Pair)
    requires ComparisonOk(c, goal, true) && FreshStack(memos, c.stack)
    requires OnStack(c.stack, p) && !Alike(p)
    ensures Reaches(memos, goal, p)
  {
    match c.focus
    case Reading(q) => FrameReaches(memos, c.stack, goal, q, p);
    case Claiming(q) => FrameReaches(memos, c.stack, goal, q, p);
    case Settling(_) =>
      var rest, f := c.stack[..|c.stack| - 1], c.stack[|c.stack| - 1];
      if f.pair == p {
        AwaitsReaches(memos, rest, goal, p, p);
      } else {
        FrameReaches(memos, rest, goal, f.pair, p);
      }
  }

  /** A comparison never waits for itself: what it has come to is smaller than all it has taken on. */
  lemma {:induction false} AwaitsSmaller(stack: seq<Frame>, goal: Pair, q: Pair, clean: bool)
    requires Awaits(stack, goal, q, clean)
    ensures forall f | f in stack :: Size(q.x) < Size(f.pair.x)
    decreases |stack|
  {
    if stack == [] {
    } else {
      var f := stack[|stack| - 1];
      PartIsSmaller(f.pair.x.parts, 0, f.at);
      AwaitsSmaller(stack[..|stack| - 1], goal, f.pair, clean);
    }
  }

  /** Provisional results belong to pairs on a stack: a step puts in only the one it takes on, and
      those it takes off its stack are settled. */
  lemma AdvanceOwners(memos: Memos, c: Comparison, q: Pair)
    requires c.focus.Settling? ==> c.stack != []
    requires q in Advance(memos, c).0 && Advance(memos, c).0[q].Provisional?
    ensures var (memos', r) := Advance(memos, c);
            || (r.Going? && OnStack(r.comparison.stack, q))
            || (q in memos && memos[q].Provisional? && !OnStack(c.stack, q))
  {
    match c.focus
    case Reading(p) =>
      if p in memos && OnStack(c.stack, q) {
        ResumeKeeps(c.stack, Value(memos[p]), q);
      }
    case Claiming(p) =>
      if p !in memos {
        PushKeeps(c.stack, Frame(p, 0), q);
      }
    case Settling(d) =>
      var rest, f := c.stack[..|c.stack| - 1], c.stack[|c.stack| - 1];
      if OnStack(c.stack, q) && q != f.pair {
        assert OnStack(rest, q);
        if f.pair in memos && Value(memos[f.pair]) == 0 {
          ResumeKeeps(rest, d, q);
        }
      }
  }

  lemma ResumeKeeps(stack: seq<Frame>, d: int, q: Pair)
    requires OnStack(stack, q)
    ensures Resume(stack, d).Going? && OnStack(Resume(stack, d).comparison.stack, q)
  {
    var g :| g in stack && g.pair == q;
    var last := |stack| - 1;
    var next := stack[..last] + [stack[last].(at := stack[last].at + 1)];
    if g in stack[..last] {
      assert g in next;
    } else {
      assert next[last].pair == q && next[last] in next;
    }
  }

  lemma PushKeeps(stack: seq<Frame>, f: Frame, q: Pair)
    ensures OnStack(stack + [f], q) <==> f.pair == q || OnStack(stack, q)
  {
    assert f in stack + [f];
    if OnStack(stack, q) {
      var g :| g in stack && g.pair == q;
      assert g in stack + [f];
    }
  }

  ghost predicate SettledDifferent(memos: Memos, p: Pair) {
    p in memos && memos[p].Settled? && memos[p].result != 0
  }

  ghost predicate KeepsDifferences(before: Memos, after: Memos) {
    forall p | SettledDifferent(before, p) :: SettledDifferent(after, p)
  }

  /** Differences that were found stay. */
  lemma AdvanceKeepsDifferences(memos: Memos, c: Comparison)
    ensures KeepsDifferences(memos, Advance(memos, c).0)
  {
  }

  /** A comparison that finds a difference leaves it in the dictionary. */
  lemma DifferenceIsSettled(memos: Memos, c: Comparison, goal: Pair, clean: bool)
    requires ComparisonOk(c, goal, clean) && Advance(memos, c).1.Compared? && Advance(memos, c).1.result != 0
    ensures SettledDifferent(Advance(memos, c).0, goal)
  {
  }

  /** What a step takes on is not in the dictionary. */
  lemma AdvanceFresh(before: Memos, memos: Memos, c: Comparison)
    requires FreshStack(before, c.stack) && forall p | p in before :: p in memos
    ensures var (_, r) := Advance(memos, c); r.Going? ==> FreshStack(before, r.comparison.stack)
  {
  }

  // ---------- until a comparison comes to p ----------

  /** p is not remembered, and no comparison that comes to it has been finished. */
  ghost predicate Unvisited(before: Memos, memos: Memos, p: Pair) {
    p !in memos && forall a | a in memos && memos[a].Settled? :: !Reaches(before, a, p)
  }

  /** Nor is the comparison about to finish one. */
  ghost predicate NotPast(before: Memos, c: Comparison, p: Pair) {
    c.focus.Settling? ==> c.stack != [] && !Reaches(before, c.stack[|c.stack| - 1].pair, p)
  }

  ghost predicate ProgressNotPast(before: Memos, r: Progress, goal: Pair, p: Pair) {
    match r
    case Going(c) => NotPast(before, c, p)
    case Compared(_) => !Reaches(before, goal, p)
  }

  lemma ResumeNotPast(before: Memos, stack: seq<Frame>, goal: Pair, q: Pair, d: int, p: Pair)
    requires Awaits(stack, goal, q, true) && Verdict(q, d, true)
    requires !Reaches(before, q, p) && !Alike(p) && !OnStack(stack, p)
    ensures ProgressNotPast(before, Resume(stack, d), goal, p)
  {
    if stack != [] {
      var f := stack[|stack| - 1];
      assert q == Part(f.pair, f.at) && f.pair != p;
      assert d != 0 ==> DiffersAt(f.pair, f.at);
    }
  }

  /** As long as no step takes p on, none gets past it. */
  lemma AdvanceUnvisited(before: Memos, memos: Memos, c: Comparison, goal: Pair, p: Pair)
    requires Truthful(memos, true) && ComparisonOk(c, goal, true) && Claimed(memos, c) && !Misread(memos, c)
    requires Unvisited(before, memos, p) && NotPast(before, c, p) && !Alike(p)
    requires p !in Advance(memos, c).0
    ensures var (memos', r) := Advance(memos, c);
            Unvisited(before, memos', p) && ProgressNotPast(before, r, goal, p)
  {
    assert !OnStack(c.stack, p);
    match c.focus
    case Reading(q) =>
      if q in memos {
        assert !Reaches(before, q, p) by {
          if Reaches(before, q, p) {
            ReachesDifferent(before, q, p);
          }
        }
        ResumeNotPast(before, c.stack, goal, q, Value(memos[q]), p);
      }
    case Claiming(_) =>
    case Settling(d) =>
      var rest, f := c.stack[..|c.stack| - 1], c.stack[|c.stack| - 1];
      assert !OnStack(rest, p);
      ResumeNotPast(before, rest, goal, f.pair, d, p);
  }
}
