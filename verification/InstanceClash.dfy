/** What calls that clash can do, as long as no lookup takes two different types for equal.

    One call can come to wait for the pair of types that both will compare, while another adds an
    entry of its own and a third one comes to wait for the pair as well. Whoever takes the pair
    on before that is misread by the call that waits.
  */
module InstanceClashes {
  import opened Descents
  import opened InstanceCaches
  import opened InstanceOutcomes
  import opened InstanceRuns
  import opened InstanceSteps
  import opened TypeComparisons

  /** Call i takes two different types for equal while it looks its key up. */
  ghost predicate LooksWrong(t: State, i: nat)
    requires i < |t.calls|
  {
    t.calls[i].phase.Looking? && Misreads(t, i)
  }

  /** The first misread, if any, is none of a call that looks its key up. */
  ghost predicate CalmRun(t: State, schedule: seq<nat>)
    requires Schedulable(t, schedule)
    decreases |schedule|
  {
    || schedule == []
    || (!LooksWrong(t, schedule[0]) && (!Misreads(t, schedule[0]) ==> CalmRun(Step(t, schedule[0]), schedule[1..])))
  }

  ghost predicate Calm(t: State) {
    forall schedule | Schedulable(t, schedule) :: CalmRun(t, schedule)
  }

  lemma CalmStep(t: State, i: nat)
    requires Calm(t) && i < |t.calls|
    ensures !LooksWrong(t, i)
    ensures !Misreads(t, i) ==> Calm(Step(t, i))
  {
    assert Schedulable(t, [i]) && CalmRun(t, [i]);
    if !Misreads(t, i) {
      forall schedule | Schedulable(Step(t, i), schedule) ensures CalmRun(Step(t, i), schedule) {
        assert Schedulable(t, [i] + schedule) && CalmRun(t, [i] + schedule);
        assert ([i] + schedule)[1..] == schedule;
      }
    }
  }

  lemma {:induction false} CleanIsCalm(t: State, schedule: seq<nat>)
    requires Schedulable(t, schedule) && CleanRun(t, schedule)
    ensures CalmRun(t, schedule)
    decreases |schedule|
  {
    if schedule == [] {
    } else {
      CleanIsCalm(Step(t, schedule[0]), schedule[1..]);
    }
  }

  lemma OnlyStepper(s: State, t: State, i: nat)
    requires Sound(s, t) && i < |t.calls|
    ensures OnlyCallChanged(t, Step(t, i), i) && Step(t, i).calls[i].key == t.calls[i].key
    ensures Step(t, i).calls[i].pointerSize == t.calls[i].pointerSize
  {
    StepHasFacts(t, i, false);
  }

  // ---------- one call comes to p ----------

  /** The state of a run in which p has not been taken on. */
  ghost predicate Quiet(s: State, t: State, p: Pair) {
    Sound(s, t) && Calm(t) && !Alike(p) && Unvisited(s.memos, t.memos, p)
  }

  ghost predicate CallNotPast(s: State, call: Call, p: Pair) {
    forall search | Searches(call, search) :: NotPast(s.memos, search.comparison, p)
  }

  /** As long as nobody takes p on, nobody gets past it. */
  lemma StepKeepsQuiet(s: State, t: State, i: nat, p: Pair)
    requires Quiet(s, t, p) && i < |t.calls| && CallNotPast(s, t.calls[i], p)
    requires p !in Step(t, i).memos && !Misreads(t, i)
    ensures Quiet(s, Step(t, i), p) && CallNotPast(s, Step(t, i).calls[i], p)
  {
    CalmStep(t, i);
    StepKeepsSound(s, t, i);
    if t.calls[i].phase.Looking? || t.calls[i].phase.Adding? {
      var search := t.calls[i].phase.search;
      SearchStepIs(t, i, search);
      assert CallOk(t, t.calls[i], true) && Searches(t.calls[i], search);
      var goal := TypesAt(search.entries[0].key, t.calls[i].key, search.position);
      AdvanceUnvisited(s.memos, t.memos, search.comparison, goal, p);
    } else {
      OtherStep(t, i);
    }
  }

  /** The search of call i is on its way to p. */
  ghost predicate Heading(s: State, t: State, i: nat, search: Search, p: Pair)
    requires i < |t.calls|
  {
    && t.calls[i].phase == Looking(search) && CallNotPast(s, t.calls[i], p)
    && search.entries != [] && KeysReach(s.memos, search.entries[0].key, t.calls[i].key, p)
    && search.comparison.focus != Claiming(p)
  }

  ghost predicate ArrivedAt(search: Search, p: Pair) {
    search.comparison.focus == Reading(p)
  }

  /** A step leaves p alone unless it is the one that takes p on. */
  lemma LeavesAlone(t: State, i: nat, p: Pair)
    requires i < |t.calls| && p !in t.memos
    requires forall search | Searches(t.calls[i], search) :: search.comparison.focus != Claiming(p)
    ensures p !in Step(t, i).memos
  {
    if t.calls[i].phase.Looking? || t.calls[i].phase.Adding? {
      SearchStepIs(t, i, t.calls[i].phase.search);
    } else {
      OtherStep(t, i);
    }
  }

  /** The positions before the first difference are judged equal. */
  lemma JudgeGoesOn(before: Memos, search: Search, key: Key, d: int, p: Pair)
    requires search.entries != [] && KeysReach(before, search.entries[0].key, key, p)
    requires search.position < |key.types|
    requires forall k: nat | k < search.position :: Alike(TypesAt(search.entries[0].key, key, k))
    requires Verdict(TypesAt(search.entries[0].key, key, search.position), d, true)
    requires !Reaches(before, TypesAt(search.entries[0].key, key, search.position), p)
    ensures var o := Judge(search, key, d);
            o.Scanning? && o.search.entries == search.entries && o.search.comparison.focus.Reading?
  {
    var e := search.entries[0];
    var n: nat :| KeysDifferAt(e.key, key, n) && Reaches(before, TypesAt(e.key, key, n), p);
    assert search.position < n;
  }

  /** The comparison there is not finished before it comes to p. */
  lemma StaysAtEntry(s: State, t: State, i: nat, search: Search, p: Pair)
    requires Quiet(s, t, p) && i < |t.calls| && Heading(s, t, i, search, p) && !ArrivedAt(search, p)
    ensures var (_, o) := SearchStep(t.memos, search, t.calls[i].key);
            o.Scanning? && o.search.entries == search.entries && o.search.comparison.focus != Claiming(p)
  {
    CalmStep(t, i);
    assert CallOk(t, t.calls[i], true);
    var key, e := t.calls[i].key, search.entries[0];
    var goal := TypesAt(e.key, key, search.position);
    var r := Advance(t.memos, search.comparison).1;
    LeavesAlone(t, i, p);
    SearchStepIs(t, i, search);
    AdvanceOk(t.memos, search.comparison, goal, true);
    AdvanceUnvisited(s.memos, t.memos, search.comparison, goal, p);
    if r.Compared? {
      JudgeGoesOn(s.memos, search, key, r.result, p);
    } else {
      ClaimsWhatItRead(t.memos, search.comparison, p);
    }
  }

  lemma ClaimsWhatItRead(memos: Memos, c: Comparison, p: Pair)
    requires c.focus != Reading(p)
    ensures var (_, r) := Advance(memos, c); r.Going? ==> r.comparison.focus != Claiming(p)
  {
  }

  lemma StepHeads(s: State, t: State, i: nat, search: Search, p: Pair) returns (next: Search)
    requires Quiet(s, t, p) && i < |t.calls| && Heading(s, t, i, search, p) && !ArrivedAt(search, p)
    ensures Quiet(s, Step(t, i), p) && Heading(s, Step(t, i), i, next, p)
    ensures next.entries == search.entries && SearchLoad(Step(t, i).memos, next) < SearchLoad(t.memos, search)
    ensures Step(t, i).cache == t.cache && OnlyCallChanged(t, Step(t, i), i)
  {
    CalmStep(t, i);
    StaysAtEntry(s, t, i, search, p);
    LeavesAlone(t, i, p);
    StepKeepsQuiet(s, t, i, p);
    OnlyStepper(s, t, i);
    assert CallOk(t, t.calls[i], false);
    SearchShrinks(t.memos, search, t.calls[i].key, t.cache);
    next := SearchStep(t.memos, search, t.calls[i].key).1.search;
  }

  lemma {:induction false} Arrives(s: State, t: State, i: nat, search: Search, p: Pair)
    returns (u: State, found: Search)
    requires Quiet(s, t, p) && i < |t.calls| && Heading(s, t, i, search, p)
    ensures Quiet(s, u, p) && u.cache == t.cache && OnlyCallChanged(t, u, i)
    ensures Heading(s, u, i, found, p) && ArrivedAt(found, p)
    decreases SearchLoad(t.memos, search)
  {
    if ArrivedAt(search, p) {
      u, found := t, search;
    } else {
      var next := StepHeads(s, t, i, search, p);
      u, found := Arrives(s, Step(t, i), i, next, p);
    }
  }

  /** A call that is about to look up a key, in a cache whose newest entry leads it to p. */
  lemma LooksUp(s: State, t: State, i: nat, p: Pair) returns (u: State)
    requires Quiet(s, t, p) && i < |t.calls| && t.calls[i].phase.Ready?
    requires t.cache != [] && KeysReach(s.memos, t.cache[0].key, t.calls[i].key, p)
    ensures Quiet(s, u, p) && u.cache == t.cache && OnlyCallChanged(t, u, i)
    ensures Waits(u, i, p)
  {
    u := Step(t, i);
    LeavesAlone(t, i, p);
    StepKeepsQuiet(s, t, i, p);
    OnlyStepper(s, t, i);
    var found;
    u, found := Arrives(s, u, i, u.calls[i].phase.search, p);
  }

  /** The call is about to look p up in the dictionary. */
  ghost predicate Waits(t: State, i: nat, p: Pair)
    requires i < |t.calls|
  {
    t.calls[i].phase.Looking? && ArrivedAt(t.calls[i].phase.search, p)
  }

  lemma TwoWaitersMisread(t: State, j: nat, m: nat, p: Pair)
    requires j < |t.calls| && m < |t.calls| && j != m && !Alike(p) && p !in t.memos
    requires Waits(t, j, p) && Waits(t, m, p)
    ensures !Calm(t)
  {
    var u := Step(t, m);
    var v := Step(u, m);
    assert v.calls[j] == t.calls[j] && v.memos == t.memos[p := Provisional];
    assert LooksWrong(v, j);
    if Calm(t) {
      CalmStep(t, m);
      CalmStep(u, m);
      CalmStep(v, j);
    }
  }

  // ---------- a call adds its entry while another waits ----------

  ghost predicate NoneOfShape(cache: seq<Entry>, key: Key) {
    forall e | e in cache :: ShapeOf(e.key) != ShapeOf(key)
  }

  ghost predicate OthersNotAdding(t: State, k: nat) {
    forall l: nat | l < |t.calls| && l != k :: !t.calls[l].phase.Adding?
  }

  /** Call k has added an entry for its key. */
  ghost predicate Added(t: State, u: State, k: nat)
    requires k < |t.calls|
  {
    && OnlyCallChanged(t, u, k) && u.calls[k].phase.Returned?
    && u.cache != [] && u.cache == [u.cache[0]] + t.cache && u.cache[0].key == t.calls[k].key
  }

  /** Whoever took p on would make the waiting call misread. */
  lemma StepBeside(s: State, t: State, j: nat, k: nat, p: Pair)
    requires Quiet(s, t, p) && j < |t.calls| && k < |t.calls| && j != k && !Misreads(t, k)
    requires Waits(t, j, p) && CallNotPast(s, t.calls[k], p)
    ensures Quiet(s, Step(t, k), p) && CallNotPast(s, Step(t, k).calls[k], p)
    ensures Waits(Step(t, k), j, p) && OnlyCallChanged(t, Step(t, k), k)
  {
    OnlyStepper(s, t, k);
    NotTakenOn(t, j, k, p);
    StepKeepsQuiet(s, t, k, p);
  }

  lemma NotTakenOn(t: State, j: nat, k: nat, p: Pair)
    requires Calm(t) && j < |t.calls| && k < |t.calls| && j != k && !Misreads(t, k)
    requires Waits(t, j, p) && !Alike(p) && p !in t.memos
    ensures p !in Step(t, k).memos
  {
    var u := Step(t, k);
    CalmStep(t, k);
    CalmStep(u, j);
    assert u.calls[j] == t.calls[j] && !LooksWrong(u, j);
    if t.calls[k].phase.Looking? || t.calls[k].phase.Adding? {
      SearchStepIs(t, k, t.calls[k].phase.search);
    } else {
      OtherStep(t, k);
    }
  }

  /** The first difference of the keys has been settled. */
  ghost predicate Told(memos: Memos, a: Key, b: Key) {
    exists n: nat :: KeysDifferAt(a, b, n) && SettledDifferent(memos, TypesAt(a, b, n))
  }

  /** All entries in the bucket, but those left to look at, are told from the key. */
  ghost predicate ToldButFor(memos: Memos, cache: seq<Entry>, key: Key, left: seq<Entry>) {
    forall e | e in cache && SameBucket(e.key, key) && e !in left :: Told(memos, e.key, key)
  }

  ghost function LeftOf(o: Outcome): seq<Entry> {
    if o.Scanning? then o.search.entries else []
  }

  lemma {:induction false} ScanLeaves(entries: seq<Entry>, key: Key)
    ensures var o := Scan(entries, key);
            !o.Found? ==> forall e | e in entries && e !in LeftOf(o) :: !SameBucket(e.key, key)
  {
    if entries == [] {
    } else if !SameBucket(entries[0].key, key) {
      ScanLeaves(entries[1..], key);
    }
  }

  /** A search passes an entry over when the first difference has been settled. */
  lemma SearchTells(memos: Memos, search: Search, key: Key, cache: seq<Entry>)
    requires Truthful(memos, true) && SearchOk(search, key, cache, memos, true) && !Misread(memos, search.comparison)
    requires ToldButFor(memos, cache, key, search.entries)
    ensures var (memos', o) := SearchStep(memos, search, key);
            !o.Found? ==> ToldButFor(memos', cache, key, LeftOf(o))
  {
    var e := search.entries[0];
    var goal := TypesAt(e.key, key, search.position);
    var (memos', r) := Advance(memos, search.comparison);
    AdvanceOk(memos, search.comparison, goal, true);
    if r.Compared? && r.result != 0 {
      DifferenceIsSettled(memos, search.comparison, goal, true);
      assert KeysDifferAt(e.key, key, search.position);
      assert Told(memos', e.key, key);
      ScanLeaves(search.entries[1..], key);
    }
    StaysTold(memos, search.comparison, cache, key, search.entries);
  }

  lemma StaysTold(memos: Memos, c: Comparison, cache: seq<Entry>, key: Key, left: seq<Entry>)
    requires ToldButFor(memos, cache, key, left)
    ensures ToldButFor(Advance(memos, c).0, cache, key, left)
  {
    var memos' := Advance(memos, c).0;
    forall e | e in cache && SameBucket(e.key, key) && e !in left ensures Told(memos', e.key, key) {
      var n: nat :| KeysDifferAt(e.key, key, n) && SettledDifferent(memos, TypesAt(e.key, key, n));
      assert SettledDifferent(memos', TypesAt(e.key, key, n));
    }
  }

  /** Looking up a key that has no entry finds none, and settles where it differs from others. */
  lemma {:induction false} LookupMisses(s: State, t: State, j: nat, k: nat, search: Search, p: Pair)
    returns (u: State)
    requires Quiet(s, t, p) && j < |t.calls| && k < |t.calls| && j != k && Waits(t, j, p)
    requires t.calls[k].phase == Looking(search) && CallNotPast(s, t.calls[k], p)
    requires NoneOfShape(t.cache, t.calls[k].key) && ToldButFor(t.memos, t.cache, t.calls[k].key, search.entries)
    ensures Quiet(s, u, p) && OnlyCallChanged(t, u, k) && Waits(u, j, p)
    ensures u.cache == t.cache && u.calls[k] == t.calls[k].(phase := Building)
    ensures ToldButFor(u.memos, t.cache, t.calls[k].key, [])
    decreases SearchLoad(t.memos, search)
  {
    var key := t.calls[k].key;
    assert CallOk(t, t.calls[k], true) && CallOk(t, t.calls[k], false);
    CalmStep(t, k);
    u := Step(t, k);
    StepBeside(s, t, j, k, p);
    SearchStepOk(t.memos, search, key, t.cache, true);
    SearchTells(t.memos, search, key, t.cache);
    SearchShrinks(t.memos, search, key, t.cache);
    var o := SearchStep(t.memos, search, key).1;
    if o.Scanning? {
      u := LookupMisses(s, u, j, k, o.search, p);
    }
  }

  /** Looking again, a search reads only what has been settled, or types of one structure. */
  ghost predicate Repeats(search: Search, key: Key) {
    && search.entries != [] && SameBucket(search.entries[0].key, key) && search.position < |key.types|
    && var goal := TypesAt(search.entries[0].key, key, search.position);
       Alike(goal) || search.comparison == Begin(goal)
  }

  lemma RepeatsRightly(memos: Memos, search: Search, key: Key, cache: seq<Entry>)
    requires Truthful(memos, true) && SearchOk(search, key, cache, memos, true) && Repeats(search, key)
    requires Told(memos, search.entries[0].key, key)
    ensures !Misread(memos, search.comparison)
    ensures var (_, o) := SearchStep(memos, search, key); o.Scanning? ==> Repeats(o.search, key)
  {
    var e := search.entries[0];
    var goal := TypesAt(e.key, key, search.position);
    var n: nat :| KeysDifferAt(e.key, key, n) && SettledDifferent(memos, TypesAt(e.key, key, n));
    if Alike(goal) {
      if search.comparison.focus.Reading? {
        AwaitsAlike(search.comparison.stack, goal, search.comparison.focus.pair);
      }
    } else {
      assert n == search.position;
    }
    ScanRepeats(search.entries[1..], key);
  }

  lemma ScanRepeats(entries: seq<Entry>, key: Key)
    ensures var o := Scan(entries, key); o.Scanning? ==> Repeats(o.search, key)
  {
  }

  lemma {:induction false} AdditionMisses(s: State, t: State, j: nat, k: nat, search: Search, p: Pair)
    returns (u: State)
    requires Quiet(s, t, p) && j < |t.calls| && k < |t.calls| && j != k && Waits(t, j, p)
    requires t.calls[k].phase.Adding? && t.calls[k].phase.search == search && CallNotPast(s, t.calls[k], p)
    requires NoneOfShape(t.cache, t.calls[k].key) && ToldButFor(t.memos, t.cache, t.calls[k].key, [])
    requires Repeats(search, t.calls[k].key)
    ensures Quiet(s, u, p) && Added(t, u, k) && Waits(u, j, p)
    decreases SearchLoad(t.memos, search)
  {
    var key := t.calls[k].key;
    assert CallOk(t, t.calls[k], true) && CallOk(t, t.calls[k], false);
    RepeatsRightly(t.memos, search, key, t.cache);
    u := Step(t, k);
    StepBeside(s, t, j, k, p);
    SearchStepOk(t.memos, search, key, t.cache, true);
    StaysTold(t.memos, search.comparison, t.cache, key, []);
    SearchShrinks(t.memos, search, key, t.cache);
    var o := SearchStep(t.memos, search, key).1;
    if o.Scanning? {
      u := AdditionMisses(s, u, j, k, o.search, p);
    }
  }

  lemma LooksUpInVain(s: State, t: State, j: nat, k: nat, p: Pair) returns (u: State)
    requires Quiet(s, t, p) && j < |t.calls| && k < |t.calls| && j != k && Waits(t, j, p)
    requires t.calls[k].phase.Ready? && NoneOfShape(t.cache, t.calls[k].key)
    ensures Quiet(s, u, p) && Waits(u, j, p) && OnlyCallChanged(t, u, k)
    ensures u.cache == t.cache && u.calls[k] == t.calls[k].(phase := Building)
    ensures ToldButFor(u.memos, t.cache, t.calls[k].key, [])
  {
    u := Step(t, k);
    StepBeside(s, t, j, k, p);
    ScanOk(t.cache, t.calls[k].key, t.cache, t.memos, true);
    ScanLeaves(t.cache, t.calls[k].key);
    if u.calls[k].phase.Looking? {
      u := LookupMisses(s, u, j, k, u.calls[k].phase.search, p);
    }
  }

  lemma AddsAfterwards(s: State, t: State, j: nat, k: nat, p: Pair) returns (u: State)
    requires Quiet(s, t, p) && j < |t.calls| && k < |t.calls| && j != k && Waits(t, j, p)
    requires t.calls[k].phase.Waiting? && !Locked(t, k) && NoneOfShape(t.cache, t.calls[k].key)
    requires ToldButFor(t.memos, t.cache, t.calls[k].key, [])
    ensures Quiet(s, u, p) && Added(t, u, k) && Waits(u, j, p)
  {
    u := Step(t, k);
    StepBeside(s, t, j, k, p);
    ScanOk(t.cache, t.calls[k].key, t.cache, t.memos, true);
    ScanRepeats(t.cache, t.calls[k].key);
    if u.calls[k].phase.Adding? {
      u := AdditionMisses(s, u, j, k, u.calls[k].phase.search, p);
    }
  }

  lemma AddsBeside(s: State, t: State, j: nat, k: nat, p: Pair) returns (u: State)
    requires Quiet(s, t, p) && j < |t.calls| && k < |t.calls| && j != k && Waits(t, j, p)
    requires t.calls[k].phase.Ready? && CanBuild(t.calls[k].key, t.calls[k].pointerSize)
    requires NoneOfShape(t.cache, t.calls[k].key) && OthersNotAdding(t, k)
    ensures Quiet(s, u, p) && Added(t, u, k) && Waits(u, j, p)
  {
    var u1 := LooksUpInVain(s, t, j, k, p);
    var u2 := Step(u1, k);
    StepBeside(s, u1, j, k, p);
    assert u2.calls[k].phase.Waiting? && !Locked(u2, k);
    u := AddsAfterwards(s, u2, j, k, p);
  }

  lemma PlainStep(s: State, t: State, i: nat, p: Pair)
    requires Quiet(s, t, p) && i < |t.calls| && !t.calls[i].phase.Looking? && !t.calls[i].phase.Adding?
    ensures Quiet(s, Step(t, i), p) && OnlyCallChanged(t, Step(t, i), i)
  {
    OtherStep(t, i);
    StepKeepsQuiet(s, t, i, p);
    OnlyStepper(s, t, i);
  }

  lemma Builds(s: State, t: State, i: nat, p: Pair) returns (u: State)
    requires Quiet(s, t, p) && i < |t.calls| && t.calls[i].phase.Ready? && Scan(t.cache, t.calls[i].key) == Missing
    requires CanBuild(t.calls[i].key, t.calls[i].pointerSize)
    ensures Quiet(s, u, p) && OnlyCallChanged(t, u, i) && u.cache == t.cache
    ensures u.calls[i].phase.Waiting? && u.calls[i].key == t.calls[i].key
  {
    PlainStep(s, t, i, p);
    u := Step(t, i);
    PlainStep(s, u, i, p);
    u := Step(u, i);
  }

  lemma AddStep(t: State, i: nat)
    requires i < |t.calls| && t.calls[i].phase.Waiting? && !Locked(t, i) && Scan(t.cache, t.calls[i].key) == Missing
    ensures Added(t, Step(t, i), i)
  {
    assert Step(t, i) == AfterAdd(t, i, t.calls[i].phase.built, Missing);
  }

  /** The first call of a run adds its entry. */
  lemma FirstAdds(s: State, i: nat, p: Pair) returns (u: State)
    requires Quiet(s, s, p) && i < |s.calls| && CanBuild(s.calls[i].key, s.calls[i].pointerSize)
    requires s.cache == [] && s.calls[i].phase.Ready? && OthersNotAdding(s, i)
    ensures Quiet(s, u, p) && Added(s, u, i)
  {
    var t := Builds(s, s, i, p);
    assert !Locked(t, i);
    AddStep(t, i);
    PlainStep(s, t, i, p);
    u := Step(t, i);
  }
}
