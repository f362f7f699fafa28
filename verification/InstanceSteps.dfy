/** A few steps that one call takes on its own, and what two calls that clash can do with them.

    An entry is added in three steps if the bucket has none. A call that then compares the whole
    types of its key puts the provisional result in with its third step; another one that does
    the same reads it with its second step, and returns the instance of the entry at once.
  */
module InstanceSteps {
  import opened Descents
  import opened InstanceCaches
  import opened InstanceRuns
  import opened TypeComparisons

  ghost predicate OnlyCallChanged(t: State, u: State, i: nat) {
    |u.calls| == |t.calls| && forall k: nat | k < |t.calls| && k != i :: u.calls[k] == t.calls[k]
  }

  ghost predicate NoneAdding(s: State) {
    forall k | 0 <= k < |s.calls| :: !s.calls[k].phase.Adding?
  }

  lemma BuildUncontested(s: State, i: nat) returns (t: State)
    requires i < |s.calls| && s.calls[i].phase == Ready && CanBuild(s.calls[i].key, s.calls[i].pointerSize)
    requires Scan(s.cache, s.calls[i].key) == Missing
    ensures t == Run(s, [i, i])
    ensures t.cache == s.cache && t.memos == s.memos && OnlyCallChanged(s, t, i)
    ensures t.calls[i].phase.Waiting? && t.calls[i].key == s.calls[i].key
    ensures t.calls[i].phase.built.pointerSize == s.calls[i].pointerSize
  {
    var u := Step(s, i);
    assert u.calls[i].phase == Building;
    t := Step(u, i);
    RunNext(s, [], i);
    RunNext(s, [i], i);
    assert [] + [i] == [i] && [i] + [i] == [i, i];
  }

  /** Call i adds an entry. */
  lemma AddUncontested(s: State, i: nat) returns (t: State, e: Entry)
    requires i < |s.calls| && s.calls[i].phase == Ready && CanBuild(s.calls[i].key, s.calls[i].pointerSize)
    requires Scan(s.cache, s.calls[i].key) == Missing && NoneAdding(s)
    ensures t == Run(s, [i, i, i])
    ensures t.cache == [e] + s.cache && t.memos == s.memos && OnlyCallChanged(s, t, i) && NoneAdding(t)
    ensures e.key == s.calls[i].key && t.calls[i].phase == Returned(e.instance) && t.calls[i].key == s.calls[i].key
    ensures e.instance.pointerSize == s.calls[i].pointerSize
  {
    var u := BuildUncontested(s, i);
    assert NoneAdding(u);
    t := Step(u, i);
    e := t.cache[0];
    RunNext(s, [i, i], i);
    assert [i, i] + [i] == [i, i, i];
  }

  lemma ThreeSteps(s: State, m: nat)
    requires m < |s.calls|
    ensures Run(s, [m, m, m]) == Step(Step(Step(s, m), m), m)
  {
    assert [m, m, m][1..] == [m, m] && [m, m][1..] == [m] && [m][1..] == [];
    assert Run(s, [m, m, m]) == Run(Step(s, m), [m, m]);
    assert Run(Step(s, m), [m, m]) == Run(Step(Step(s, m), m), [m]);
  }

  // ---------- calls that clash over whole types ----------

  /** Keys of one type each, which are those of p. */
  ghost predicate WholeTypes(s: State, i: nat, j: nat, p: Pair)
    requires i < |s.calls| && j < |s.calls|
  {
    s.calls[i].key.types == [p.x] && s.calls[j].key.types == [p.y]
  }

  /** The lookup of a key starts by comparing p. */
  ghost predicate StartsWith(s: State, key: Key, e: Entry, p: Pair) {
    var o := Scan(s.cache, key);
    && o.Scanning? && o.search.entries != [] && o.search.entries[0] == e
    && o.search.position == 0 && o.search.comparison == Begin(p)
    && |key.types| == 1 && |e.key.types| == 1
  }

  /** Call m puts the provisional result in. */
  lemma PutsProvisional(s: State, m: nat, e: Entry, p: Pair) returns (t: State)
    requires m < |s.calls| && s.calls[m].phase == Ready && StartsWith(s, s.calls[m].key, e, p)
    requires p !in s.memos
    ensures t == Run(s, [m, m, m])
    ensures t.cache == s.cache && t.memos == s.memos[p := Provisional] && OnlyCallChanged(s, t, m)
  {
    var search := Scan(s.cache, s.calls[m].key).search;
    var s1 := Step(s, m);
    assert s1.calls[m].phase == Looking(search);
    var s2 := Step(s1, m);
    assert s2.calls[m].phase == Looking(search.(comparison := Comparison([], Claiming(p))));
    t := Step(s2, m);
    ThreeSteps(s, m);
  }

  /** Call j takes the provisional result for equality. */
  lemma TakesForEqual(s: State, j: nat, e: Entry, p: Pair) returns (t: State)
    requires j < |s.calls| && s.calls[j].phase == Ready && StartsWith(s, s.calls[j].key, e, p)
    requires p in s.memos && s.memos[p].Provisional?
    ensures t == Run(s, [j, j]) && OnlyCallChanged(s, t, j)
    ensures t.calls[j].phase == Returned(e.instance) && t.calls[j].key == s.calls[j].key
  {
    var search := Scan(s.cache, s.calls[j].key).search;
    var s1 := Step(s, j);
    assert s1.calls[j].phase == Looking(search);
    t := Step(s1, j);
    RunNext(s, [], j);
    RunNext(s, [j], j);
    assert [] + [j] == [j] && [j] + [j] == [j, j];
  }

  lemma StartsAtWhole(s: State, i: nat, j: nat, p: Pair)
    requires i < |s.calls| && j < |s.calls| && MayCompare(s, i, j, p) && WholeTypes(s, i, j, p) && !Alike(p)
    ensures i != j && p !in s.memos && SameBucket(s.calls[i].key, s.calls[j].key)
  {
    var a, b := s.calls[i].key, s.calls[j].key;
    var n: nat :| KeysDifferAt(a, b, n) && Reaches(s.memos, TypesAt(a, b, n), p);
    ReachesUnknown(s.memos, TypesAt(a, b, n), p);
  }

  /** The entries that the clash needs are in the cache. */
  lemma EntriesOfClash(s: State, i: nat, j: nat, k: nat, m: nat, p: Pair)
    returns (schedule: seq<nat>, t: State, d: Entry, e: Entry)
    requires Initial(s) && i < |s.calls| && j < |s.calls| && k < |s.calls| && m < |s.calls|
    requires Clash(s, i, j, k, m, p) && WholeTypes(s, i, j, p) && WholeTypes(s, k, m, p)
    ensures Schedulable(s, schedule) && t == Run(s, schedule) && |t.calls| == |s.calls| && t.memos == s.memos
    ensures t.calls[j] == s.calls[j] && t.calls[m] == s.calls[m]
    ensures t.calls[i].key == s.calls[i].key && t.calls[i].phase == Returned(d.instance)
    ensures p !in s.memos && i != j
    ensures StartsWith(t, s.calls[j].key, d, p) && StartsWith(t, s.calls[m].key, e, p)
  {
    assert forall n | 0 <= n < |s.calls| :: s.calls[n] == NewCall(s.calls[n].key, s.calls[n].pointerSize);
    assert i != j && k != m && p !in s.memos by {
      StartsAtWhole(s, i, j, p);
      StartsAtWhole(s, k, m, p);
    }
    t, d := AddUncontested(s, i);
    schedule, e := [i, i, i], d;
    if s.calls[i].key != s.calls[k].key {
      assert Scan(t.cache, t.calls[k].key) == Scan(s.cache, t.calls[k].key) by {
        assert t.cache[1..] == s.cache;
      }
      var u := t;
      t, e := AddUncontested(u, k);
      RunConcat(s, [i, i, i], [k, k, k]);
      schedule := [i, i, i] + [k, k, k];
      assert t.cache == [e, d];
      ScanTwo(e, d, s.calls[j].key);
      ScanTwo(e, d, s.calls[m].key);
    } else {
      assert t.cache == [d];
    }
  }

  lemma ScanTwo(e: Entry, d: Entry, key: Key)
    requires |e.key.types| == |d.key.types| == |key.types| == 1 && e.key.intrinsic != d.key.intrinsic
    ensures key.intrinsic == e.key.intrinsic ==>
              Scan([e, d], key) == Scanning(Search([e, d], 0, Begin(Pair(e.key.types[0], key.types[0]))))
    ensures key.intrinsic == d.key.intrinsic ==>
              Scan([e, d], key) == Scanning(Search([d], 0, Begin(Pair(d.key.types[0], key.types[0]))))
  {
    assert [e, d][1..] == [d];
  }

  /** Whenever calls clash over whole types, whatever those are made of, there is a run in which
      one of them gets an instance for a type it did not ask for. */
  lemma ClashBreaksSharing(s: State, i: nat, j: nat, k: nat, m: nat, p: Pair)
    returns (schedule: seq<nat>)
    requires Initial(s) && i < |s.calls| && j < |s.calls| && k < |s.calls| && m < |s.calls|
    requires Clash(s, i, j, k, m, p) && WholeTypes(s, i, j, p) && WholeTypes(s, k, m, p)
    ensures Schedulable(s, schedule) && !Shares(Run(s, schedule))
  {
    var first, t, d, e := EntriesOfClash(s, i, j, k, m, p);
    assert s.calls[j] == NewCall(s.calls[j].key, s.calls[j].pointerSize);
    assert s.calls[m] == NewCall(s.calls[m].key, s.calls[m].pointerSize);
    var u := PutsProvisional(t, m, e, p);
    var v := TakesForEqual(u, j, d, p);
    RunConcat(t, [m, m, m], [j, j]);
    RunConcat(s, first, [m, m, m] + [j, j]);
    schedule := first + ([m, m, m] + [j, j]);
    ShapesIff(v.calls[i].key, v.calls[j].key);
    assert v.calls[i] == t.calls[i];
    assert !Alike(Pair(v.calls[i].key.types[0], v.calls[j].key.types[0]));
    assert !SharesRightly(v.calls[i], v.calls[j]);
  }
}
