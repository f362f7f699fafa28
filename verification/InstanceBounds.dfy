/** How often a call looks its key up, and how many steps it takes, however others interleave.

    An addition that fails has found an entry which the lookup before it did not tell from the
    key. What a lookup has told apart is settled in the dictionary and stays so; hence the entry
    is newer than the lookup, and a call starts over no more often than entries are added.
  */
module InstanceBounds {
  import opened Descents
  import opened InstanceCaches
  import opened InstanceOutcomes
  import opened InstanceRuns
  import opened TypeComparisons

  // ---------- keys that are known to differ ----------

  lemma KnownStays(before: Memos, after: Memos, a: Key, b: Key, n: nat)
    requires KeepsDifferences(before, after) && KnownFrom(before, a, b, n)
    ensures KnownFrom(after, a, b, n)
  {
    var k: nat :| n <= k < |a.types| && k < |b.types| && SettledDifferent(before, TypesAt(a, b, k));
    assert SettledDifferent(after, TypesAt(a, b, k));
  }

  ghost predicate Unknown(memos: Memos, e: Entry, key: Key) {
    SameBucket(e.key, key) && !KnownFrom(memos, e.key, key, 0)
  }

  /** The search may still take an entry for that of the key. */
  ghost predicate MayTake(memos: Memos, search: Search, key: Key) {
    && search.entries != []
    && (|| !KnownFrom(memos, search.entries[0].key, key, search.position)
        || exists e :: e in search.entries[1..] && Unknown(memos, e, key))
  }

  /** The call may have to look its key up again: it is about to, or there are entries in the
      bucket that it has not told from its key. */
  ghost predicate Stale(t: State, call: Call) {
    match call.phase
    case Ready => true
    case Looking(search) => exists e :: e in t.cache && e !in search.entries && Unknown(t.memos, e, call.key)
    case Building => exists e :: e in t.cache && Unknown(t.memos, e, call.key)
    case Waiting(_) => exists e :: e in t.cache && Unknown(t.memos, e, call.key)
    case Adding(_, search) => MayTake(t.memos, search, call.key)
    case _ => false
  }

  ghost predicate OutcomeStale(memos: Memos, cache: seq<Entry>, o: Outcome, key: Key) {
    exists e :: e in cache && Unknown(memos, e, key) && e !in (if o.Scanning? then o.search.entries else [])
  }

  lemma {:induction false} ScanPasses(entries: seq<Entry>, key: Key, memos: Memos)
    ensures var o := Scan(entries, key);
            && (o.Scanning? ==> o.search.position == 0 && o.search.entries != [])
            && (o.Scanning? ==> SameBucket(o.search.entries[0].key, key))
            && (!o.Found? ==> forall e | e in entries && SameBucket(e.key, key) :: o.Scanning? && e in o.search.entries)
            && (o.Scanning? ==> forall e | e in o.search.entries :: e in entries)
            && (o.Found? ==> o.entry in entries && Unknown(memos, o.entry, key))
  {
    if entries == [] {
    } else if !SameBucket(entries[0].key, key) {
      ScanPasses(entries[1..], key, memos);
    }
  }

  /** A lookup passes over what it has told from the key, and nothing else. */
  lemma LookupStale(memos: Memos, search: Search, key: Key, cache: seq<Entry>)
    requires SearchOk(search, key, cache, memos, false)
    ensures var (memos', o) := SearchStep(memos, search, key);
            !o.Found? && OutcomeStale(memos', cache, o, key) ==> OutcomeStale(memos, cache, Scanning(search), key)
  {
    var (memos', o) := SearchStep(memos, search, key);
    var head := search.entries[0];
    var goal := TypesAt(head.key, key, search.position);
    var r := Advance(memos, search.comparison).1;
    AdvanceKeepsDifferences(memos, search.comparison);
    ScanPasses(search.entries[1..], key, memos');
    if !o.Found? && OutcomeStale(memos', cache, o, key) {
      var e :| e in cache && Unknown(memos', e, key) && e !in (if o.Scanning? then o.search.entries else []);
      if r.Compared? && r.result != 0 {
        DifferenceIsSettled(memos, search.comparison, goal, false);
        assert KnownFrom(memos', head.key, key, 0);
      }
      assert e !in search.entries;
      assert Unknown(memos, e, key) by {
        if KnownFrom(memos, e.key, key, 0) {
          KnownStays(memos, memos', e.key, key, 0);
        }
      }
    }
  }

  lemma UnknownBefore(before: Memos, after: Memos, e: Entry, key: Key)
    requires KeepsDifferences(before, after) && Unknown(after, e, key)
    ensures Unknown(before, e, key)
  {
    if KnownFrom(before, e.key, key, 0) {
      KnownStays(before, after, e.key, key, 0);
    }
  }

  lemma MayTakeBefore(before: Memos, after: Memos, search: Search, key: Key)
    requires KeepsDifferences(before, after) && MayTake(after, search, key)
    ensures MayTake(before, search, key)
  {
    if KnownFrom(before, search.entries[0].key, key, search.position) {
      KnownStays(before, after, search.entries[0].key, key, search.position);
      var e :| e in search.entries[1..] && Unknown(after, e, key);
      UnknownBefore(before, after, e, key);
    }
  }

  /** Going on to other entries. */
  lemma JudgeTakes(memos: Memos, search: Search, key: Key, d: int)
    requires search.entries != [] && search.position < |key.types| && SameBucket(search.entries[0].key, key)
    requires SettledDifferent(memos, TypesAt(search.entries[0].key, key, search.position)) ==> d != 0
    ensures var o := Judge(search, key, d);
            o.Found? || (o.Scanning? && MayTake(memos, o.search, key)) ==> MayTake(memos, search, key)
  {
    if d != 0 {
      ScanPasses(search.entries[1..], key, memos);
    } else if KnownFrom(memos, search.entries[0].key, key, search.position) {
      assert KnownFrom(memos, search.entries[0].key, key, search.position + 1);
    }
  }

  /** An addition takes an entry only if that was possible from the start. */
  lemma AdditionStale(memos: Memos, search: Search, key: Key, cache: seq<Entry>)
    requires SearchOk(search, key, cache, memos, false)
    ensures var (memos', o) := SearchStep(memos, search, key);
            o.Found? || (o.Scanning? && MayTake(memos', o.search, key)) ==> MayTake(memos, search, key)
  {
    var (memos', r) := Advance(memos, search.comparison);
    var goal := TypesAt(search.entries[0].key, key, search.position);
    AdvanceKeepsDifferences(memos, search.comparison);
    if r.Compared? {
      ComparedRightly(memos, search.comparison, goal);
      JudgeTakes(memos', search, key, r.result);
    }
    if MayTake(memos', search, key) {
      MayTakeBefore(memos, memos', search, key);
    }
  }

  lemma ComparedRightly(memos: Memos, c: Comparison, goal: Pair)
    requires ComparisonOk(c, goal, false)
    ensures var (memos', r) := Advance(memos, c); r.Compared? && SettledDifferent(memos', goal) ==> r.result != 0
  {
  }

  // ---------- lookups ----------

  ghost function One(b: bool): nat {
    if b then 1 else 0
  }

  ghost predicate LooksUp(t: State, k: nat, i: nat)
    requires k < |t.calls| && i < |t.calls|
  {
    k == i && t.calls[i].phase.Ready?
  }

  ghost predicate StaleSearch(t: State, i: nat, search: Search)
    requires i < |t.calls|
  {
    if t.calls[i].phase.Adding? then MayTake(t.memos, search, t.calls[i].key)
    else OutcomeStale(t.memos, t.cache, Scanning(search), t.calls[i].key)
  }

  lemma StartIsFresh(t: State, i: nat)
    requires i < |t.calls| && t.calls[i].phase.Ready?
    ensures !Stale(Step(t, i), Step(t, i).calls[i])
  {
    ScanPasses(t.cache, t.calls[i].key, t.memos);
  }

  lemma LookingStale(t: State, i: nat)
    requires i < |t.calls| && Valid(t, false) && t.calls[i].phase.Looking?
    requires Stale(Step(t, i), Step(t, i).calls[i])
    ensures Stale(t, t.calls[i])
  {
    var search, key := t.calls[i].phase.search, t.calls[i].key;
    assert CallOk(t, t.calls[i], false);
    var (memos', o) := SearchStep(t.memos, search, key);
    LookupStale(t.memos, search, key, t.cache);
    assert OutcomeStale(memos', t.cache, o, key);
  }

  lemma WaitingStale(t: State, i: nat)
    requires i < |t.calls| && t.calls[i].phase.Waiting?
    requires Stale(Step(t, i), Step(t, i).calls[i])
    ensures Stale(t, t.calls[i])
  {
    ScanPasses(t.cache, t.calls[i].key, t.memos);
  }

  lemma AddingStale(t: State, i: nat)
    requires i < |t.calls| && Valid(t, false) && t.calls[i].phase.Adding?
    requires Stale(Step(t, i), Step(t, i).calls[i])
    ensures Stale(t, t.calls[i])
  {
    assert CallOk(t, t.calls[i], false);
    AdditionStale(t.memos, t.calls[i].phase.search, t.calls[i].key, t.cache);
  }

  /** A call's own steps do not make it look up its key once more. */
  lemma OwnStepStale(t: State, i: nat)
    requires i < |t.calls| && Valid(t, false)
    ensures One(Stale(Step(t, i), Step(t, i).calls[i])) + One(LooksUp(t, i, i)) <= One(Stale(t, t.calls[i]))
  {
    match t.calls[i].phase
    case Ready => StartIsFresh(t, i);
    case Looking(_) =>
      if Stale(Step(t, i), Step(t, i).calls[i]) {
        LookingStale(t, i);
      }
    case Waiting(_) =>
      if Stale(Step(t, i), Step(t, i).calls[i]) {
        WaitingStale(t, i);
      }
    case Adding(_, _) =>
      if Stale(Step(t, i), Step(t, i).calls[i]) {
        AddingStale(t, i);
      }
    case _ =>
  }

  /** Nor do steps of others, unless they add an entry. */
  lemma OthersStepStale(t: State, k: nat, i: nat)
    requires k < |t.calls| && i < |t.calls| && k != i && Valid(t, false)
    requires Step(t, k).cache == t.cache && Stale(Step(t, k), t.calls[i])
    ensures Stale(t, t.calls[i])
  {
    var u, key := Step(t, k), t.calls[i].key;
    StepKeepsDifferences(t, k);
    forall e | Unknown(u.memos, e, key) ensures Unknown(t.memos, e, key) {
      UnknownBefore(t.memos, u.memos, e, key);
    }
    if t.calls[i].phase.Adding? {
      MayTakeBefore(t.memos, u.memos, t.calls[i].phase.search, key);
    }
  }

  lemma StepKeepsDifferences(t: State, k: nat)
    requires k < |t.calls|
    ensures KeepsDifferences(t.memos, Step(t, k).memos)
  {
    if t.calls[k].phase.Looking? || t.calls[k].phase.Adding? {
      SearchStepIs(t, k, t.calls[k].phase.search);
      AdvanceKeepsDifferences(t.memos, t.calls[k].phase.search.comparison);
    } else {
      OtherStep(t, k);
    }
  }

  lemma StepStale(t: State, k: nat, i: nat)
    requires k < |t.calls| && i < |t.calls| && Valid(t, false)
    ensures One(Stale(Step(t, k), Step(t, k).calls[i])) + One(LooksUp(t, k, i)) + |t.cache|
            <= One(Stale(t, t.calls[i])) + |Step(t, k).cache|
  {
    StepHasFacts(t, k, false);
    if k == i {
      OwnStepStale(t, i);
    } else if Step(t, k).cache == t.cache && Stale(Step(t, k), t.calls[i]) {
      OthersStepStale(t, k, i);
    }
  }

  ghost function Lookups(s: State, schedule: seq<nat>, i: nat): nat
    requires Schedulable(s, schedule) && i < |s.calls|
    decreases |schedule|
  {
    if schedule == [] then 0
    else One(LooksUp(s, schedule[0], i)) + Lookups(Step(s, schedule[0]), schedule[1..], i)
  }

  lemma {:induction false} LookupsCounted(t: State, schedule: seq<nat>, i: nat)
    requires Valid(t, false) && Schedulable(t, schedule) && i < |t.calls|
    ensures Lookups(t, schedule, i) + |t.cache| <= One(Stale(t, t.calls[i])) + |Run(t, schedule).cache|
    decreases |schedule|
  {
    if schedule == [] {
    } else {
      StepStale(t, schedule[0], i);
      StepKeepsValid(t, schedule[0], false);
      LookupsCounted(Step(t, schedule[0]), schedule[1..], i);
    }
  }

  // ---------- failed additions ----------

  ghost predicate Present(entries: seq<Entry>, key: Key) {
    exists e | e in entries :: ShapeOf(e.key) == ShapeOf(key)
  }

  /** How many more lookups a call can start, unless an addition mistakes its key. */
  ghost function LookupsLeft(cache: seq<Entry>, call: Call): nat {
    match call.phase
    case Ready => if Present(cache, call.key) then 1 else 2
    case Looking(search) => if Present(search.entries, call.key) then 0 else 1
    case Building => 1
    case Waiting(_) => 1
    case Adding(_, _) => 1
    case _ => 0
  }

  ghost predicate Mistakes(s: State, i: nat)
    requires i < |s.calls|
  {
    && (s.calls[i].phase.Adding? || s.calls[i].phase.Waiting?)
    && Step(s, i).calls[i].phase.Ready? && !Present(s.cache, s.calls[i].key)
  }

  /** How often an addition by call i fails although its key has no entry. */
  ghost function MistakenAdds(s: State, schedule: seq<nat>, i: nat): nat
    requires Schedulable(s, schedule) && i < |s.calls|
    decreases |schedule|
  {
    if schedule == [] then
      0
    else
      (if schedule[0] == i && Mistakes(s, i) then 1 else 0) + MistakenAdds(Step(s, schedule[0]), schedule[1..], i)
  }

  lemma SearchStepLookups(s: State, i: nat, search: Search)
    requires i < |s.calls| && Valid(s, false)
    requires Searches(s.calls[i], search)
    ensures LookupsLeft(Step(s, i).cache, Step(s, i).calls[i]) + One(LooksUp(s, i, i))
            <= LookupsLeft(s.cache, s.calls[i]) + (if Mistakes(s, i) then 1 else 0)
  {
    assert CallOk(s, s.calls[i], false);
    SearchStepOk(s.memos, search, s.calls[i].key, s.cache, false);
  }

  lemma OwnStepLookups(s: State, i: nat)
    requires i < |s.calls| && Valid(s, false)
    ensures LookupsLeft(Step(s, i).cache, Step(s, i).calls[i]) + One(LooksUp(s, i, i))
            <= LookupsLeft(s.cache, s.calls[i]) + (if Mistakes(s, i) then 1 else 0)
  {
    if s.calls[i].phase.Looking? || s.calls[i].phase.Adding? {
      SearchStepLookups(s, i, s.calls[i].phase.search);
    } else {
      ScanOk(s.cache, s.calls[i].key, s.cache, s.memos, false);
    }
  }

  lemma OthersStepLookups(s: State, k: nat, i: nat)
    requires i < |s.calls| && k < |s.calls| && k != i && Valid(s, false)
    ensures LookupsLeft(Step(s, k).cache, Step(s, k).calls[i]) <= LookupsLeft(s.cache, s.calls[i])
  {
    StepHasFacts(s, k, false);
    assert forall e | e in s.cache :: e in Step(s, k).cache;
  }

  lemma StepLookups(s: State, k: nat, i: nat)
    requires i < |s.calls| && k < |s.calls| && Valid(s, false)
    ensures LookupsLeft(Step(s, k).cache, Step(s, k).calls[i]) + One(LooksUp(s, k, i))
            <= LookupsLeft(s.cache, s.calls[i]) + (if k == i && Mistakes(s, i) then 1 else 0)
  {
    if k == i {
      OwnStepLookups(s, i);
    } else {
      OthersStepLookups(s, k, i);
    }
  }

  lemma {:induction false} MistakesCounted(s: State, schedule: seq<nat>, i: nat)
    requires Valid(s, false) && Schedulable(s, schedule) && i < |s.calls|
    ensures Lookups(s, schedule, i) <= LookupsLeft(s.cache, s.calls[i]) + MistakenAdds(s, schedule, i)
    decreases |schedule|
  {
    if schedule == [] {
    } else {
      StepLookups(s, schedule[0], i);
      StepKeepsValid(s, schedule[0], false);
      MistakesCounted(Step(s, schedule[0]), schedule[1..], i);
    }
  }

  // ---------- what the cache can hold ----------

  ghost function CacheWeight(cache: seq<Entry>, weight: Key -> nat): nat {
    if cache == [] then 0 else weight(cache[0].key) + CacheWeight(cache[1..], weight)
  }

  /** The entries that calls may still add. */
  ghost function OpenWeight(calls: seq<Call>, weight: Key -> nat): nat {
    if calls == [] then 0 else OpenKey(calls[0], weight) + OpenWeight(calls[1..], weight)
  }

  ghost function OpenKey(call: Call, weight: Key -> nat): nat {
    if Finished(call) then 0 else weight(call.key)
  }

  lemma {:induction false} OpenWeightAfter(calls: seq<Call>, i: nat, call: Call, weight: Key -> nat)
    requires i < |calls|
    ensures OpenWeight(calls[i := call], weight) + OpenKey(calls[i], weight)
            == OpenWeight(calls, weight) + OpenKey(call, weight)
  {
    if i == 0 {
      assert calls[i := call] == [call] + calls[1..];
    } else {
      OpenWeightAfter(calls[1..], i - 1, call, weight);
      assert calls[i := call] == [calls[0]] + calls[1..][i - 1 := call];
    }
  }

  ghost function Weight(t: State, weight: Key -> nat): nat {
    CacheWeight(t.cache, weight) + OpenWeight(t.calls, weight)
  }

  /** What a call adds it does not add again. */
  lemma StepWeight(t: State, k: nat, weight: Key -> nat)
    requires k < |t.calls| && Valid(t, false)
    ensures Weight(Step(t, k), weight) <= Weight(t, weight)
  {
    var u := Step(t, k);
    StepHasFacts(t, k, false);
    assert u.calls == t.calls[k := u.calls[k]];
    OpenWeightAfter(t.calls, k, u.calls[k], weight);
    if u.cache != t.cache {
      assert u.cache[1..] == t.cache;
    }
  }

  lemma {:induction false} RunWeight(t: State, schedule: seq<nat>, weight: Key -> nat)
    requires Schedulable(t, schedule) && Valid(t, false)
    ensures Weight(Run(t, schedule), weight) <= Weight(t, weight)
    decreases |schedule|
  {
    if schedule == [] {
    } else {
      var u := Step(t, schedule[0]);
      StepWeight(t, schedule[0], weight);
      StepKeepsValid(t, schedule[0], false);
      RunWeight(u, schedule[1..], weight);
      assert Run(t, schedule) == Run(u, schedule[1..]);
    }
  }

  lemma {:induction false} CountsEntries(cache: seq<Entry>)
    ensures CacheWeight(cache, key => 1) == |cache|
  {
    if cache == [] {
    } else {
      CountsEntries(cache[1..]);
    }
  }

  lemma {:induction false} CountsCalls(calls: seq<Call>)
    ensures OpenWeight(calls, key => 1) <= |calls|
  {
    if calls == [] {
    } else {
      CountsCalls(calls[1..]);
    }
  }

  lemma EntriesBounded(s: State, schedule: seq<nat>)
    requires Initial(s) && Schedulable(s, schedule)
    ensures |Run(s, schedule).cache| <= |s.calls|
  {
    InitialIsValid(s, false);
    RunWeight(s, schedule, key => 1);
    CountsEntries(Run(s, schedule).cache);
    CountsCalls(s.calls);
  }

  /** However the others interleave, a call starts one lookup, and one more for each entry that
      is added; and two at most, with one more for each time that an addition takes its key for
      another one. */
  lemma LookupsBounded(s: State, schedule: seq<nat>, i: nat)
    requires Initial(s) && Schedulable(s, schedule) && i < |s.calls|
    ensures Lookups(s, schedule, i) <= 1 + |Run(s, schedule).cache| <= 1 + |s.calls|
    ensures Lookups(s, schedule, i) <= 2 + MistakenAdds(s, schedule, i)
  {
    InitialIsValid(s, false);
    LookupsCounted(s, schedule, i);
    MistakesCounted(s, schedule, i);
    EntriesBounded(s, schedule);
  }

  // ---------- steps ----------

  function KeyLoad(key: Key): nat {
    LoadFrom(key.types, 0) + 1
  }

  lemma {:induction false} LoadIsWeight(entries: seq<Entry>)
    ensures EntriesLoad(entries) == CacheWeight(entries, KeyLoad)
  {
    if entries == [] {
    } else {
      LoadIsWeight(entries[1..]);
    }
  }

  /** The steps that a call has left before it must look up its key again; `load` bounds what
      it takes to search the cache. */
  ghost function Work(memos: Memos, call: Call, load: nat): nat {
    match call.phase
    case Looking(search) => (if search.entries == [] then 0 else SearchLoad(memos, search)) + load + 3
    case Building => load + 2
    case Waiting(_) => load + 1
    case Adding(_, search) => if search.entries == [] then 0 else SearchLoad(memos, search)
    case _ => 0
  }

  /** All the steps that a call has left, if no entries are added. */
  ghost function StepsLeft(t: State, i: nat, load: nat): nat
    requires i < |t.calls|
  {
    Work(t.memos, t.calls[i], load) + if Stale(t, t.calls[i]) then 2 * load + 4 else 0
  }

  ghost predicate Moves(t: State, k: nat, i: nat)
    requires k < |t.calls| && i < |t.calls|
  {
    k == i && Step(t, i) != t
  }

  lemma SearchWork(t: State, i: nat, load: nat)
    requires i < |t.calls| && Valid(t, false) && (t.calls[i].phase.Looking? || t.calls[i].phase.Adding?)
    ensures Work(Step(t, i).memos, Step(t, i).calls[i], load) < Work(t.memos, t.calls[i], load)
  {
    var search, key := t.calls[i].phase.search, t.calls[i].key;
    assert CallOk(t, t.calls[i], false);
    SearchShrinks(t.memos, search, key, t.cache);
    assert SearchLoad(t.memos, search) > 0;
  }

  lemma OwnWork(t: State, i: nat, load: nat)
    requires i < |t.calls| && Valid(t, false) && EntriesLoad(t.cache) <= load && Moves(t, i, i)
    ensures Work(Step(t, i).memos, Step(t, i).calls[i], load) + 1
            <= Work(t.memos, t.calls[i], load) + if t.calls[i].phase.Ready? then 2 * load + 4 else 0
  {
    ScanLoad(t.memos, t.cache, t.calls[i].key);
    if t.calls[i].phase.Looking? || t.calls[i].phase.Adding? {
      SearchWork(t, i, load);
    }
  }

  lemma OthersWork(before: Memos, after: Memos, call: Call, load: nat)
    requires forall p | p in before :: p in after
    ensures Work(after, call, load) <= Work(before, call, load)
  {
  }

  lemma StepWork(t: State, k: nat, i: nat, load: nat)
    requires k < |t.calls| && i < |t.calls| && Valid(t, false) && EntriesLoad(t.cache) <= load
    ensures StepsLeft(Step(t, k), i, load) + One(Moves(t, k, i))
            <= StepsLeft(t, i, load) + if Step(t, k).cache == t.cache then 0 else 2 * load + 4
    ensures |Step(t, k).cache| == |t.cache| + if Step(t, k).cache == t.cache then 0 else 1
  {
    StepHasFacts(t, k, false);
    StepStale(t, k, i);
    if Moves(t, k, i) {
      OwnWork(t, i, load);
    } else {
      OthersWork(t.memos, Step(t, k).memos, t.calls[i], load);
    }
  }

  /** How many steps of call i change anything. */
  ghost function MovesIn(s: State, schedule: seq<nat>, i: nat): nat
    requires Schedulable(s, schedule) && i < |s.calls|
    decreases |schedule|
  {
    if schedule == [] then 0
    else One(Moves(s, schedule[0], i)) + MovesIn(Step(s, schedule[0]), schedule[1..], i)
  }

  /** What it may take to start over for each of n entries. */
  ghost function Budget(load: nat, n: nat): nat {
    if n == 0 then 0 else Budget(load, n - 1) + 2 * load + 4
  }

  lemma {:induction false} BudgetIs(load: nat, n: nat)
    ensures Budget(load, n) == n * (2 * load + 4)
  {
    if n == 0 {
    } else {
      BudgetIs(load, n - 1);
    }
  }

  lemma {:induction false} BudgetGrows(load: nat, m: nat, n: nat)
    requires m <= n
    ensures Budget(load, m) <= Budget(load, n)
    decreases n
  {
    if m == n {
    } else {
      BudgetGrows(load, m, n - 1);
    }
  }

  lemma StepCounted(t: State, k: nat, i: nat, load: nat)
    requires k < |t.calls| && i < |t.calls| && Valid(t, false) && Weight(t, KeyLoad) <= load
    ensures Valid(Step(t, k), false) && Weight(Step(t, k), KeyLoad) <= load
    ensures StepsLeft(Step(t, k), i, load) + One(Moves(t, k, i)) + Budget(load, |t.cache|)
            <= StepsLeft(t, i, load) + Budget(load, |Step(t, k).cache|)
  {
    LoadIsWeight(t.cache);
    StepWork(t, k, i, load);
    StepWeight(t, k, KeyLoad);
    StepKeepsValid(t, k, false);
  }

  lemma {:induction false} MovesCounted(t: State, schedule: seq<nat>, i: nat, load: nat)
    requires Valid(t, false) && Schedulable(t, schedule) && i < |t.calls| && Weight(t, KeyLoad) <= load
    ensures MovesIn(t, schedule, i) + Budget(load, |t.cache|)
            <= StepsLeft(t, i, load) + Budget(load, |Run(t, schedule).cache|)
    decreases |schedule|
  {
    if schedule == [] {
    } else {
      StepCounted(t, schedule[0], i, load);
      MovesCounted(Step(t, schedule[0]), schedule[1..], i, load);
    }
  }

  /** Every run ends: however the others interleave, a call takes a bounded number of steps, for
      each entry that may be added as many as searching all of them twice can take. */
  lemma StepsBounded(s: State, schedule: seq<nat>, i: nat)
    requires Initial(s) && Schedulable(s, schedule) && i < |s.calls|
    ensures MovesIn(s, schedule, i) <= (1 + |s.calls|) * (2 * OpenWeight(s.calls, KeyLoad) + 4)
  {
    var load := OpenWeight(s.calls, KeyLoad);
    InitialIsValid(s, false);
    MovesCounted(s, schedule, i, load);
    EntriesBounded(s, schedule);
    BudgetGrows(load, |Run(s, schedule).cache|, |s.calls|);
    BudgetIs(load, 1 + |s.calls|);
    assert s.calls[i] == NewCall(s.calls[i].key, s.calls[i].pointerSize);
  }
}
