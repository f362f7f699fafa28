/** Pointer sizes are no part of the key: when calls get instances for other sizes than they
    asked for. */
module InstanceSizes {
  import opened InstanceCaches
  import opened InstanceOutcomes
  import opened InstanceRuns
  import opened InstanceSteps
  import opened TypeComparisons

  /** Calls for equal keys ask for one pointer size, if one of them can build an instance. */
  ghost predicate OneSizeAsked(s: State) {
    forall i: nat, j: nat | i < |s.calls| && j < |s.calls| :: SameSizeAsked(s.calls[i], s.calls[j])
  }

  ghost predicate SameSizeAsked(a: Call, b: Call) {
    CanBuild(a.key, a.pointerSize) && ShapeOf(a.key) == ShapeOf(b.key) ==> a.pointerSize == b.pointerSize
  }

  ghost predicate SizesRespectedInAllRuns(s: State) {
    forall schedule | Schedulable(s, schedule) :: SizesRespected(Run(s, schedule))
  }

  lemma FindsNext(t: State, j: nat, search: Search)
    requires Valid(t, false) && j < |t.calls| && t.calls[j].phase == Looking(search) && |t.cache| == 1
    requires ShapeOf(t.cache[0].key) == ShapeOf(t.calls[j].key)
    ensures var (memos', o) := SearchStep(t.memos, search, t.calls[j].key);
            && search.entries != []
            && (o.Scanning? ==>
                  o.search.entries != [] && SearchLoad(memos', o.search) < SearchLoad(t.memos, search))
            && Step(t, j) == AfterLookup(t.(memos := memos'), j, o)
            && (!o.Scanning? ==> o == Found(t.cache[0]))
  {
    assert CallOk(t, t.calls[j], false);
    assert search.entries[0] in t.cache;
    SearchStepOk(t.memos, search, t.calls[j].key, t.cache, false);
    SearchShrinks(t.memos, search, t.calls[j].key, t.cache);
  }

  /** A search that starts at an entry for its key finds it, if it runs alone. */
  lemma {:induction false} FindsAlone(t: State, j: nat, search: Search) returns (schedule: seq<nat>)
    requires Valid(t, false) && j < |t.calls| && t.calls[j].phase == Looking(search) && |t.cache| == 1
    requires ShapeOf(t.cache[0].key) == ShapeOf(t.calls[j].key)
    ensures Schedulable(t, schedule)
    ensures Run(t, schedule).calls[j] == t.calls[j].(phase := Returned(t.cache[0].instance))
    decreases if search.entries == [] then 0 else SearchLoad(t.memos, search)
  {
    FindsNext(t, j, search);
    StepKeepsValid(t, j, false);
    var o := SearchStep(t.memos, search, t.calls[j].key).1;
    schedule := [];
    if o.Scanning? {
      schedule := FindsAlone(Step(t, j), j, o.search);
    }
    assert ([j] + schedule)[1..] == schedule;
    schedule := [j] + schedule;
  }

  lemma LooksUpAlone(t: State, j: nat) returns (schedule: seq<nat>)
    requires Valid(t, false) && j < |t.calls| && t.calls[j].phase.Ready? && |t.cache| == 1
    requires ShapeOf(t.cache[0].key) == ShapeOf(t.calls[j].key)
    ensures Schedulable(t, schedule)
    ensures Run(t, schedule).calls[j] == t.calls[j].(phase := Returned(t.cache[0].instance))
  {
    var u := Step(t, j);
    StepKeepsValid(t, j, false);
    ScanOk(t.cache, t.calls[j].key, t.cache, t.memos, false);
    schedule := [];
    if u.calls[j].phase.Looking? {
      schedule := FindsAlone(u, j, u.calls[j].phase.search);
    }
    assert ([j] + schedule)[1..] == schedule;
    schedule := [j] + schedule;
  }

  /** Two calls for equal keys with different sizes: one of them can get the other's instance. */
  lemma WrongSize(s: State, i: nat, j: nat)
    requires Initial(s) && i < |s.calls| && j < |s.calls| && !SameSizeAsked(s.calls[i], s.calls[j])
    ensures !SizesRespectedInAllRuns(s)
  {
    forall l: nat | l < |s.calls| ensures s.calls[l].phase == if Refused(s.calls[l].key) then Thrown else Ready {
      assert s.calls[l] == NewCall(s.calls[l].key, s.calls[l].pointerSize);
    }
    var t, e := AddUncontested(s, i);
    InitialIsValid(s, false);
    RunKeeps(s, [i, i, i], false);
    var rest := LooksUpAlone(t, j);
    RunConcat(s, [i, i, i], rest);
    assert !SizeRespected(Run(s, [i, i, i] + rest).calls[j]);
  }

  /** Where no calls clash, every call gets an instance for its own pointer size in every run
      exactly if equal keys come with equal sizes. */
  lemma SizesRespectedInAllRunsIff(s: State)
    requires Initial(s) && NoClash(s)
    ensures SizesRespectedInAllRuns(s) <==> OneSizeAsked(s)
  {
    if OneSizeAsked(s) {
      SafeWithoutClash(s);
      forall schedule | Schedulable(s, schedule) ensures SizesRespected(Run(s, schedule)) {
        SizesOfRun(s, schedule);
      }
    } else {
      var i: nat, j: nat :| i < |s.calls| && j < |s.calls| && !SameSizeAsked(s.calls[i], s.calls[j]);
      WrongSize(s, i, j);
    }
  }

  lemma SizesOfRun(s: State, schedule: seq<nat>)
    requires Initial(s) && Schedulable(s, schedule) && OneSizeAsked(s) && Shares(Run(s, schedule))
    ensures SizesRespected(Run(s, schedule))
  {
    Reached(s, schedule);
    var t := Run(s, schedule);
    forall i | 0 <= i < |t.calls| && t.calls[i].phase.Returned? ensures SizeRespected(t.calls[i]) {
      var e, k := Origin(t, i);
      assert SharesRightly(t.calls[i], t.calls[k]);
      assert SameSizeAsked(s.calls[k], s.calls[i]);
    }
  }
}
