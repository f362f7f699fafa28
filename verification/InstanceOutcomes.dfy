/** How calls to MakeInstance end: which return and which throw, for which pointer size their
    instances were made, what the cache holds in the end, and that no run gets stuck. */
module InstanceOutcomes {
  import opened InstanceCaches
  import opened TypeComparisons

  ghost predicate AllFinished(s: State) {
    forall i :: 0 <= i < |s.calls| ==> Finished(s.calls[i])
  }

  /** A reachable state. */
  lemma Reached(s: State, schedule: seq<nat>)
    requires Initial(s) && Schedulable(s, schedule)
    ensures Valid(Run(s, schedule), false) && Extends(s, Run(s, schedule))
  {
    InitialIsValid(s, false);
    RunKeeps(s, schedule, false);
    RunExtends(s, schedule);
  }

  /** A call throws only if it cannot build an instance, and returns only if the signature and
      the types allow one. Only a call that left out a pointer size that is needed can do
      either: it returns if it finds an instance that another call made. */
  lemma ThrownIff(s: State, schedule: seq<nat>, i: nat)
    requires Initial(s) && Schedulable(s, schedule) && i < |s.calls|
    requires Finished(Run(s, schedule).calls[i])
    ensures var (key, size, phase) := (s.calls[i].key, s.calls[i].pointerSize, Run(s, schedule).calls[i].phase);
            && (phase.Thrown? ==> !CanBuild(key, size))
            && (phase.Returned? ==> Instantiable(key))
            && (Instantiable(key) && CanBuild(key, size) ==> phase.Returned?)
            && (!Instantiable(key) ==> phase.Thrown?)
  {
    Reached(s, schedule);
    var t := Run(s, schedule);
    assert CallOk(t, t.calls[i], false);
    if t.calls[i].phase.Returned? {
      var e, k := Origin(t, i);
    }
  }

  /** One call, over an empty cache and with nothing compared yet. */
  function Alone(key: Key, pointerSize: int): State {
    State([], map[], [NewCall(key, pointerSize)], 0)
  }

  /** A call that is alone returns exactly if the intrinsic is generic and no concrete instance,
      its signature can be made concrete, there are as many types as generic arguments, and a
      pointer size is given if pointers in the signature lack one. It then has an instance of
      that intrinsic for those types and that size; otherwise it throws. */
  lemma LoneCallReturnsIff(key: Key, pointerSize: int, schedule: seq<nat>)
    requires Schedulable(Alone(key, pointerSize), schedule)
    requires Finished(Run(Alone(key, pointerSize), schedule).calls[0])
    ensures var phase := Run(Alone(key, pointerSize), schedule).calls[0].phase;
            && (phase.Returned? <==>
                  && !key.intrinsic.concrete && key.intrinsic.usableSignature
                  && key.intrinsic.arity > 0 && |key.types| == key.intrinsic.arity
                  && (pointerSize == 0 ==> !key.intrinsic.unsizedPointers))
            && (!phase.Returned? ==> phase.Thrown?)
            && (phase.Returned? ==>
                  && phase.instance.intrinsic == key.intrinsic && phase.instance.types == key.types
                  && phase.instance.pointerSize == pointerSize)
  {
    var s := Alone(key, pointerSize);
    ThrownIff(s, schedule, 0);
    Reached(s, schedule);
    var t := Run(s, schedule);
    if t.calls[0].phase.Returned? {
      var e, k := Origin(t, 0);
      assert k == 0;
    }
  }

  /** A call that is alone is finished after three steps. */
  lemma LoneCallFinishes(key: Key, pointerSize: int)
    ensures Finished(Run(Alone(key, pointerSize), [0, 0, 0]).calls[0])
  {
    var s := Alone(key, pointerSize);
    var s1 := Step(s, 0);
    var s2 := Step(s1, 0);
    assert [0, 0, 0][1..] == [0, 0] && [0, 0][1..] == [0] && [0][1..] == [];
    assert s.calls[0].phase.Thrown? || s1.calls[0].phase == Building;
    assert Run(s, [0, 0, 0]) == Run(s1, [0, 0]) && Run(s1, [0, 0]) == Run(s2, [0]);
    assert !Locked(s2, 0);
    assert Run(s2, [0]) == Step(s2, 0);
  }

  // ---------- pointer sizes ----------

  ghost predicate SizeRespected(call: Call) {
    call.phase.Returned? ==> call.phase.instance.pointerSize == call.pointerSize
  }

  /** Each call that returned got an instance made for the pointer size it asked for. */
  ghost predicate SizesRespected(t: State) {
    forall i :: 0 <= i < |t.calls| ==> SizeRespected(t.calls[i])
  }

  ghost predicate SameSizeIfSameKey(a: Call, b: Call) {
    a.phase.Returned? && b.phase.Returned? && ShapeOf(a.key) == ShapeOf(b.key) ==> a.pointerSize == b.pointerSize
  }

  /** Calls for one key that returned asked for one pointer size. */
  ghost predicate OneSizePerKey(t: State) {
    forall i, j :: 0 <= i < |t.calls| && 0 <= j < |t.calls| ==> SameSizeIfSameKey(t.calls[i], t.calls[j])
  }

  /** The pointer size is no part of the key. So in a run in which calls share as they should,
      every call has an instance for its own pointer size exactly when equal keys came with
      equal sizes. */
  lemma SizesRespectedIff(s: State, schedule: seq<nat>)
    requires Initial(s) && Schedulable(s, schedule) && Shares(Run(s, schedule))
    ensures SizesRespected(Run(s, schedule)) <==> OneSizePerKey(Run(s, schedule))
  {
    Reached(s, schedule);
    var t := Run(s, schedule);
    if OneSizePerKey(t) {
      forall i | 0 <= i < |t.calls| && t.calls[i].phase.Returned? ensures SizeRespected(t.calls[i]) {
        var e, k := Origin(t, i);
        assert SharesRightly(t.calls[i], t.calls[k]);
        assert SameSizeIfSameKey(t.calls[i], t.calls[k]);
      }
    }
    if SizesRespected(t) {
      forall i, j | 0 <= i < |t.calls| && 0 <= j < |t.calls| ensures SameSizeIfSameKey(t.calls[i], t.calls[j]) {
        assert SharesRightly(t.calls[i], t.calls[j]);
        assert SizeRespected(t.calls[i]) && SizeRespected(t.calls[j]);
      }
    }
  }

  // ---------- what the cache holds ----------

  ghost predicate Cached(t: State, shape: Shape) {
    exists e | e in t.cache :: ShapeOf(e.key) == shape
  }

  /** The call asks for a key of this shape and can build an instance for it. */
  ghost predicate AsksFor(call: Call, shape: Shape) {
    CanBuild(call.key, call.pointerSize) && ShapeOf(call.key) == shape
  }

  ghost predicate Asked(s: State, shape: Shape) {
    exists i :: 0 <= i < |s.calls| && AsksFor(s.calls[i], shape)
  }

  /** A finished run in which calls share as they should leaves an entry for each key that a
      call could build an instance for, and for no other. */
  lemma CacheHoldsRequestedKeys(s: State, schedule: seq<nat>, shape: Shape)
    requires Initial(s) && Schedulable(s, schedule)
    requires AllFinished(Run(s, schedule)) && Shares(Run(s, schedule))
    ensures Cached(Run(s, schedule), shape) <==> Asked(s, shape)
  {
    Reached(s, schedule);
    var t := Run(s, schedule);
    if Cached(t, shape) {
      CachedWasAsked(s, t, shape);
    }
    if Asked(s, shape) {
      AskedIsCached(s, t, shape);
    }
  }

  lemma CachedWasAsked(s: State, t: State, shape: Shape)
    requires Valid(t, false) && Extends(s, t) && Cached(t, shape)
    ensures Asked(s, shape)
  {
    var e :| e in t.cache && ShapeOf(e.key) == shape;
    assert EntryOk(t, e);
    var k :| 0 <= k < |t.calls| && Made(e, t.calls[k]);
    assert s.calls[k].key == t.calls[k].key;
    assert AsksFor(s.calls[k], shape);
  }

  lemma AskedIsCached(s: State, t: State, shape: Shape)
    requires Valid(t, false) && Extends(s, t) && AllFinished(t) && Shares(t) && Asked(s, shape)
    ensures Cached(t, shape)
  {
    var i :| 0 <= i < |s.calls| && AsksFor(s.calls[i], shape);
    assert Finished(t.calls[i]) && CallOk(t, t.calls[i], false);
    var e, k := Origin(t, i);
    assert SharesRightly(t.calls[i], t.calls[k]);
  }

  // ---------- no run gets stuck ----------

  function EntriesLoad(entries: seq<Entry>): nat {
    if entries == [] then 0 else LoadFrom(entries[0].key.types, 0) + 1 + EntriesLoad(entries[1..])
  }

  /** A bound on the steps that a search has left. Steps of others can only lower it. */
  function SearchLoad(memos: Memos, s: Search): nat
    requires s.entries != []
  {
    ComparisonLoad(memos, s.comparison) + LoadFrom(s.entries[0].key.types, s.position + 1) + EntriesLoad(s.entries[1..])
  }

  lemma {:induction false} ScanLoad(memos: Memos, entries: seq<Entry>, key: Key)
    ensures var o := Scan(entries, key);
            o.Scanning? ==> o.search.entries != [] && SearchLoad(memos, o.search) <= EntriesLoad(entries)
  {
    if entries == [] {
    } else if !SameBucket(entries[0].key, key) {
      ScanLoad(memos, entries[1..], key);
    } else if key.types != [] {
      assert LoadFrom(entries[0].key.types, 0) == Load(entries[0].key.types[0]) + LoadFrom(entries[0].key.types, 1);
    }
  }

  lemma JudgeLoad(memos: Memos, s: Search, key: Key, d: int)
    requires s.entries != []
    ensures var o := Judge(s, key, d);
            o.Scanning? ==>
              && o.search.entries != []
              && SearchLoad(memos, o.search)
                 <= LoadFrom(s.entries[0].key.types, s.position + 1) + EntriesLoad(s.entries[1..])
  {
    var types, next := s.entries[0].key.types, s.position + 1;
    if d != 0 {
      ScanLoad(memos, s.entries[1..], key);
    } else if next < |key.types| && next < |types| {
      assert LoadFrom(types, next) == Load(types[next]) + LoadFrom(types, next + 1);
    }
  }

  /** Every step of a search brings it closer to its end, whatever the others do in between. */
  lemma SearchShrinks(memos: Memos, s: Search, key: Key, cache: seq<Entry>)
    requires SearchOk(s, key, cache, memos, false)
    ensures var (memos', o) := SearchStep(memos, s, key);
            o.Scanning? ==> o.search.entries != [] && SearchLoad(memos', o.search) < SearchLoad(memos, s)
  {
    AdvanceShrinks(memos, s.comparison);
    var (memos', r) := Advance(memos, s.comparison);
    if r.Compared? {
      JudgeLoad(memos', s, key, r.result);
    }
  }

  /** As long as a call is unfinished, some call can take a step: waiting for a lock never
      blocks all of them. */
  lemma NeverStuck(s: State, schedule: seq<nat>)
    requires Initial(s) && Schedulable(s, schedule) && !AllFinished(Run(s, schedule))
    ensures exists i :: 0 <= i < |Run(s, schedule).calls| && Step(Run(s, schedule), i) != Run(s, schedule)
  {
    Reached(s, schedule);
    var t := Run(s, schedule);
    var i :| 0 <= i < |t.calls| && !Finished(t.calls[i]);
    if t.calls[i].phase.Waiting? && Locked(t, i) {
      var j :| 0 <= j < |t.calls| && j != i && t.calls[j].phase.Adding?;
      Moves(t, j);
    } else {
      Moves(t, i);
    }
  }

  lemma Moves(s: State, i: nat)
    requires i < |s.calls| && Valid(s, false) && !Finished(s.calls[i])
    requires !(s.calls[i].phase.Waiting? && Locked(s, i))
    ensures Step(s, i) != s
  {
    assert CallOk(s, s.calls[i], false);
    if s.calls[i].phase.Looking? || s.calls[i].phase.Adding? {
      SearchShrinks(s.memos, s.calls[i].phase.search, s.calls[i].key, s.cache);
    }
    assert Step(s, i).calls[i].phase != s.calls[i].phase || Step(s, i).memos != s.memos;
  }
}
