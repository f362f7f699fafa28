/** Whole runs of calls to MakeInstance: when no call can take two different types for equal,
    which can be told before any of them starts. */
module InstanceRuns {
  import opened Descents
  import opened InstanceCaches
  import opened TypeComparisons

  // ---------- runs one after the other ----------

  lemma {:induction false} RunConcat(s: State, a: seq<nat>, b: seq<nat>)
    requires Schedulable(s, a) && Schedulable(s, b)
    ensures Schedulable(s, a + b) && Run(s, a + b) == Run(Run(s, a), b)
    decreases |a|
  {
    if a == [] {
      assert a + b == b;
    } else {
      assert (a + b)[0] == a[0] && (a + b)[1..] == a[1..] + b;
      RunConcat(Step(s, a[0]), a[1..], b);
    }
  }

  lemma RunNext(s: State, schedule: seq<nat>, k: nat)
    requires Schedulable(s, schedule) && k < |s.calls|
    ensures Schedulable(s, schedule + [k])
    ensures Run(s, schedule + [k]) == Step(Run(s, schedule), k)
  {
    RunConcat(s, schedule, [k]);
    assert Run(Run(s, schedule), [k]) == Run(Step(Run(s, schedule), k), []);
  }

  // ---------- calls that clash ----------

  function TypesAt(a: Key, b: Key, n: nat): Pair
    requires n < |a.types| && n < |b.types|
  {
    Pair(a.types[n], b.types[n])
  }

  /** The types at some position, from n on, have been compared and found different. */
  ghost predicate KnownFrom(memos: Memos, a: Key, b: Key, n: nat) {
    exists k: nat :: n <= k < |a.types| && k < |b.types| && SettledDifferent(memos, TypesAt(a, b, k))
  }

  /** The types at n are the first that differ. */
  ghost predicate KeysDifferAt(a: Key, b: Key, n: nat) {
    && SameBucket(a, b) && n < |a.types|
    && !Alike(TypesAt(a, b, n)) && forall k: nat | k < n :: Alike(TypesAt(a, b, k))
  }

  /** Comparing the keys comes to p. */
  ghost predicate KeysReach(memos: Memos, a: Key, b: Key, p: Pair) {
    SameBucket(a, b) && exists n: nat :: KeysDifferAt(a, b, n) && Reaches(memos, TypesAt(a, b, n), p)
  }

  /** Call i can add an entry whose comparison with the key of call j comes to p. */
  ghost predicate MayCompare(s: State, i: nat, j: nat, p: Pair)
    requires i < |s.calls| && j < |s.calls|
  {
    CanBuild(s.calls[i].key, s.calls[i].pointerSize) && KeysReach(s.memos, s.calls[i].key, s.calls[j].key, p)
  }

  /** Two calls, j and m, can come to compare the same two types at the same time, which differ
      and have not been compared before: j with the entry of call i, and m with that of call k. */
  ghost predicate Clash(s: State, i: nat, j: nat, k: nat, m: nat, p: Pair)
    requires i < |s.calls| && j < |s.calls| && k < |s.calls| && m < |s.calls|
  {
    && j != m && i != m && k != j
    && !Alike(p) && MayCompare(s, i, j, p) && MayCompare(s, k, m, p)
    && (i == k || ShapeOf(s.calls[i].key) != ShapeOf(s.calls[k].key))
  }

  ghost predicate NoClash(s: State) {
    forall i: nat, j: nat, k: nat, m: nat, p |
      i < |s.calls| && j < |s.calls| && k < |s.calls| && m < |s.calls| :: !Clash(s, i, j, k, m, p)
  }

  // ---------- what a run without misreads keeps ----------

  ghost predicate Searches(call: Call, search: Search) {
    call.phase == Looking(search) || (call.phase.Adding? && call.phase.search == search)
  }

  ghost function StackOf(call: Call): seq<Frame> {
    match call.phase
    case Looking(search) => search.comparison.stack
    case Adding(_, search) => search.comparison.stack
    case _ => []
  }

  /** Some call has taken p on. */
  ghost predicate Owned(s: State, p: Pair) {
    exists k :: 0 <= k < |s.calls| && OnStack(StackOf(s.calls[k]), p)
  }

  /** Whatever is provisional is under comparison by some call, and was not remembered at the
      start. */
  ghost predicate Traced(before: Memos, t: State) {
    && (forall p | p in before :: p in t.memos && t.memos[p].Settled?)
    && (forall k: nat | k < |t.calls| :: FreshStack(before, StackOf(t.calls[k])))
    && (forall p | p in t.memos && t.memos[p].Provisional? :: Owned(t, p))
  }

  /** A state that a run from s can reach without misreads. */
  ghost predicate Sound(s: State, t: State) {
    Extends(s, t) && Valid(t, true) && Valid(t, false) && Traced(s.memos, t)
  }

  lemma InitialIsSound(s: State)
    requires Initial(s)
    ensures Sound(s, s)
  {
    InitialIsValid(s, true);
    InitialIsValid(s, false);
    forall k: nat | k < |s.calls| ensures StackOf(s.calls[k]) == [] {
      assert s.calls[k] == NewCall(s.calls[k].key, s.calls[k].pointerSize);
    }
  }

  lemma ScanStartsFresh(entries: seq<Entry>, key: Key)
    ensures var o := Scan(entries, key); o.Scanning? ==> o.search.comparison.stack == []
  {
  }

  /** Only a search step changes the dictionary or a stack that is not empty. */
  lemma OtherStep(t: State, i: nat)
    requires i < |t.calls| && !t.calls[i].phase.Looking? && !t.calls[i].phase.Adding?
    ensures Step(t, i).memos == t.memos && StackOf(Step(t, i).calls[i]) == []
  {
    ScanStartsFresh(t.cache, t.calls[i].key);
  }

  lemma SearchStepIs(t: State, i: nat, search: Search)
    requires i < |t.calls| && Searches(t.calls[i], search)
    ensures var (memos', r) := Advance(t.memos, search.comparison);
            && Step(t, i).memos == memos'
            && StackOf(Step(t, i).calls[i]) == (if r.Going? then r.comparison.stack else [])
  {
    var (memos', r) := Advance(t.memos, search.comparison);
    if r.Compared? && search.entries != [] {
      ScanStartsFresh(search.entries[1..], t.calls[i].key);
    }
  }

  lemma StepKeepsOwners(t: State, i: nat, q: Pair)
    requires i < |t.calls| && Valid(t, false)
    requires forall p | p in t.memos && t.memos[p].Provisional? :: Owned(t, p)
    requires q in Step(t, i).memos && Step(t, i).memos[q].Provisional?
    ensures Owned(Step(t, i), q)
  {
    var u := Step(t, i);
    StepHasFacts(t, i, false);
    assert CallOk(t, t.calls[i], false);
    if t.calls[i].phase.Looking? || t.calls[i].phase.Adding? {
      var c := t.calls[i].phase.search.comparison;
      SearchStepIs(t, i, t.calls[i].phase.search);
      AdvanceOwners(t.memos, c, q);
    } else {
      OtherStep(t, i);
    }
    if !OnStack(StackOf(u.calls[i]), q) {
      var k :| 0 <= k < |t.calls| && OnStack(StackOf(t.calls[k]), q);
      assert u.calls[k] == t.calls[k];
    }
  }

  lemma StepKeepsFresh(before: Memos, t: State, i: nat)
    requires i < |t.calls| && forall p | p in before :: p in t.memos
    requires FreshStack(before, StackOf(t.calls[i]))
    ensures FreshStack(before, StackOf(Step(t, i).calls[i]))
  {
    if t.calls[i].phase.Looking? || t.calls[i].phase.Adding? {
      var search := t.calls[i].phase.search;
      SearchStepIs(t, i, search);
      AdvanceFresh(before, t.memos, search.comparison);
    } else {
      OtherStep(t, i);
    }
  }

  /** Results that are settled stay so. */
  lemma StepKeepsSettled(t: State, i: nat, p: Pair)
    requires i < |t.calls| && p in t.memos && t.memos[p].Settled?
    ensures p in Step(t, i).memos && Step(t, i).memos[p].Settled?
  {
  }

  lemma StepKeepsTraced(before: Memos, t: State, i: nat)
    requires i < |t.calls| && Valid(t, false) && Traced(before, t)
    ensures Traced(before, Step(t, i))
  {
    var u := Step(t, i);
    StepHasFacts(t, i, false);
    forall p | p in before ensures p in u.memos && u.memos[p].Settled? {
      StepKeepsSettled(t, i, p);
    }
    forall p | p in u.memos && u.memos[p].Provisional? ensures Owned(u, p) {
      StepKeepsOwners(t, i, p);
    }
    StepKeepsFresh(before, t, i);
  }

  lemma StepKeepsSound(s: State, t: State, i: nat)
    requires Sound(s, t) && i < |t.calls| && !Misreads(t, i)
    ensures Sound(s, Step(t, i))
  {
    StepKeepsValid(t, i, true);
    StepKeepsValid(t, i, false);
    StepExtends(t, i);
    ExtendsTransitive(s, t, Step(t, i));
    StepKeepsTraced(s.memos, t, i);
  }

  // ---------- a misread takes a clash ----------

  /** What a search has come to: where the keys differ first, and there further down. */
  lemma SearchReaches(s: State, t: State, i: nat, search: Search, p: Pair)
    requires Sound(s, t) && i < |t.calls| && Searches(t.calls[i], search) && !Alike(p)
    requires OnStack(search.comparison.stack, p) || (search.comparison.focus == Reading(p) && p !in s.memos)
    ensures search.entries != [] && search.entries[0] in t.cache
    ensures KeysReach(s.memos, search.entries[0].key, t.calls[i].key, p)
  {
    var key := t.calls[i].key;
    assert CallOk(t, t.calls[i], true);
    var e, c, n := search.entries[0], search.comparison, search.position;
    var goal := TypesAt(e.key, key, n);
    assert FreshStack(s.memos, c.stack) by {
      assert FreshStack(s.memos, StackOf(t.calls[i]));
    }
    if OnStack(c.stack, p) {
      StackReaches(s.memos, c, goal, p);
    } else {
      AwaitsReaches(s.memos, c.stack, goal, p, p);
    }
    ReachesDifferent(s.memos, goal, p);
    assert KeysDifferAt(e.key, key, n);
  }

  /** Who added the entry that a search is looking at. */
  lemma Maker(s: State, t: State, i: nat, e: Entry, p: Pair) returns (k: nat)
    requires Sound(s, t) && i < |t.calls| && e in t.cache && KeysReach(s.memos, e.key, t.calls[i].key, p)
    ensures k < |s.calls| && Made(e, t.calls[k]) && e.key == s.calls[k].key && MayCompare(s, k, i, p)
  {
    assert EntryOk(t, e);
    k :| 0 <= k < |t.calls| && Made(e, t.calls[k]);
    assert s.calls[i].key == t.calls[i].key;
  }

  lemma MisreadNeedsClash(s: State, t: State, j: nat) returns (i: nat, k: nat, m: nat, p: Pair)
    requires Sound(s, t) && j < |t.calls| && Misreads(t, j)
    ensures i < |s.calls| && k < |s.calls| && m < |s.calls| && Clash(s, i, j, k, m, p)
  {
    var mine := t.calls[j].phase.search;
    p := mine.comparison.focus.pair;
    assert Owned(t, p);
    m :| 0 <= m < |t.calls| && OnStack(StackOf(t.calls[m]), p);
    var theirs := t.calls[m].phase.search;
    assert m != j by {
      assert CallOk(t, t.calls[j], true);
      AwaitsSmaller(mine.comparison.stack, TypesAt(mine.entries[0].key, t.calls[j].key, mine.position), p, true);
    }
    SearchReaches(s, t, j, mine, p);
    SearchReaches(s, t, m, theirs, p);
    i := Maker(s, t, j, mine.entries[0], p);
    k := Maker(s, t, m, theirs.entries[0], p);
    if ShapeOf(mine.entries[0].key) == ShapeOf(theirs.entries[0].key) {
      EntriesDiffer(t.cache, mine.entries[0], theirs.entries[0]);
      k := i;
    }
  }

  /** Without a clash no run misreads. */
  lemma {:induction false} NoClashNoMisread(s: State, t: State, schedule: seq<nat>)
    requires NoClash(s) && Sound(s, t) && Schedulable(t, schedule)
    ensures CleanRun(t, schedule)
    decreases |schedule|
  {
    if schedule == [] {
    } else {
      if Misreads(t, schedule[0]) {
        var i, k, m, p := MisreadNeedsClash(s, t, schedule[0]);
        assert false;
      }
      StepKeepsSound(s, t, schedule[0]);
      NoClashNoMisread(s, Step(t, schedule[0]), schedule[1..]);
    }
  }

  ghost predicate SafeInAllRuns(s: State) {
    forall schedule | Schedulable(s, schedule) :: Shares(Run(s, schedule))
  }

  /** Without a clash sharing is safe in every interleaving, whatever the keys. */
  lemma SafeWithoutClash(s: State)
    requires Initial(s) && NoClash(s)
    ensures SafeInAllRuns(s)
  {
    InitialIsSound(s);
    forall schedule | Schedulable(s, schedule) ensures Shares(Run(s, schedule)) {
      NoClashNoMisread(s, s, schedule);
      CleanRunsShare(s, schedule);
    }
  }
}
