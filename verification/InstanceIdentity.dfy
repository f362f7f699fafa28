/** Instances are objects: each one that is built is another one, even for equal arguments. */
module InstanceIdentity {
  import opened InstanceCaches
  import opened Options
  import opened TypeComparisons

  /** The instance that a call has built and not yet added. */
  function Pending(call: Call): Option<nat> {
    match call.phase
    case Waiting(built) => Some(built.serial)
    case Adding(built, _) => Some(built.serial)
    case _ => None
  }

  ghost predicate InCache(cache: seq<Entry>, serial: nat) {
    exists k :: 0 <= k < |cache| && cache[k].instance.serial == serial
  }

  ghost predicate CacheDistinct(cache: seq<Entry>, serials: nat) {
    && (forall a, b :: 0 <= a < b < |cache| ==> cache[a].instance.serial != cache[b].instance.serial)
    && (forall k :: 0 <= k < |cache| ==> cache[k].instance.serial < serials)
  }

  ghost predicate PendingFresh(s: State, call: Call) {
    Pending(call).Some? ==> Pending(call).value < s.serials && !InCache(s.cache, Pending(call).value)
  }

  ghost predicate PendingApart(a: Call, b: Call) {
    Pending(a).Some? && Pending(b).Some? ==> Pending(a) != Pending(b)
  }

  /** All instances that were ever built are told apart. */
  ghost predicate Distinct(s: State) {
    && CacheDistinct(s.cache, s.serials)
    && (forall i :: 0 <= i < |s.calls| ==> PendingFresh(s, s.calls[i]))
    && (forall i, j :: 0 <= i < j < |s.calls| ==> PendingApart(s.calls[i], s.calls[j]))
  }

  lemma InCacheNext(e: Entry, cache: seq<Entry>, serial: nat)
    ensures InCache([e] + cache, serial) <==> e.instance.serial == serial || InCache(cache, serial)
  {
    var next := [e] + cache;
    assert next[0] == e;
    if InCache(cache, serial) {
      var k :| 0 <= k < |cache| && cache[k].instance.serial == serial;
      assert next[k + 1] == cache[k];
    }
    if InCache(next, serial) {
      var k :| 0 <= k < |next| && next[k].instance.serial == serial;
      assert k > 0 ==> next[k] == cache[k - 1];
    }
  }

  /** What a step of call i does to the instances. */
  lemma StepBuilds(s: State, i: nat)
    requires i < |s.calls|
    ensures var t := Step(s, i);
            && (forall j | 0 <= j < |s.calls| && j != i :: t.calls[j] == s.calls[j])
            && s.serials <= t.serials
            && (t.cache == s.cache ||
                (exists e :: t.cache == [e] + s.cache && Pending(s.calls[i]) == Some(e.instance.serial)
                             && Pending(t.calls[i]).None? && t.serials == s.serials))
            && (Pending(t.calls[i]).Some? ==>
                  t.cache == s.cache &&
                  (Pending(t.calls[i]) == Pending(s.calls[i]) ||
                   (Pending(t.calls[i]) == Some(s.serials) && s.serials < t.serials)))
  {
    if s.calls[i].phase.Waiting? || s.calls[i].phase.Adding? {
      var t := Step(s, i);
      if t.cache != s.cache {
        var e := Entry(s.calls[i].key, s.calls[i].phase.built);
        assert t.cache == [e] + s.cache;
      }
    }
  }

  lemma SerialInCache(cache: seq<Entry>, serials: nat, serial: nat)
    requires CacheDistinct(cache, serials) && InCache(cache, serial)
    ensures serial < serials
  {
  }

  lemma StepKeepsDistinct(s: State, i: nat)
    requires i < |s.calls| && Distinct(s)
    ensures Distinct(Step(s, i))
  {
    var t := Step(s, i);
    StepBuilds(s, i);
    if t.cache != s.cache {
      var e :| t.cache == [e] + s.cache && Pending(s.calls[i]) == Some(e.instance.serial);
      assert PendingFresh(s, s.calls[i]);
      AddedIsDistinct(e, s.cache, s.serials);
      forall j | 0 <= j < |t.calls| ensures PendingFresh(t, t.calls[j]) {
        if j != i && Pending(s.calls[j]).Some? {
          assert PendingFresh(s, s.calls[j]);
          assert PendingApart(s.calls[if i < j then i else j], s.calls[if i < j then j else i]);
          InCacheNext(e, s.cache, Pending(s.calls[j]).value);
        }
      }
    } else {
      forall j | 0 <= j < |t.calls| ensures PendingFresh(t, t.calls[j]) {
        assert PendingFresh(s, s.calls[j]);
        if InCache(s.cache, s.serials) {
          SerialInCache(s.cache, s.serials, s.serials);
        }
      }
    }
    forall j, k | 0 <= j < k < |t.calls| ensures PendingApart(t.calls[j], t.calls[k]) {
      assert PendingApart(s.calls[j], s.calls[k]) && PendingFresh(s, s.calls[j]) && PendingFresh(s, s.calls[k]);
    }
  }

  lemma AddedIsDistinct(e: Entry, cache: seq<Entry>, serials: nat)
    requires CacheDistinct(cache, serials) && e.instance.serial < serials && !InCache(cache, e.instance.serial)
    ensures CacheDistinct([e] + cache, serials)
  {
    var next := [e] + cache;
    assert forall k | 0 < k < |next| :: next[k] == cache[k - 1];
  }

  lemma {:induction false} RunKeepsDistinct(s: State, schedule: seq<nat>)
    requires Schedulable(s, schedule) && Distinct(s)
    ensures Distinct(Run(s, schedule))
    decreases |schedule|
  {
    if schedule == [] {
    } else {
      StepKeepsDistinct(s, schedule[0]);
      RunKeepsDistinct(Step(s, schedule[0]), schedule[1..]);
    }
  }

  /** In every run no two entries of the cache hold one instance. */
  lemma EntriesHoldDifferentInstances(s: State, schedule: seq<nat>)
    requires Initial(s) && Schedulable(s, schedule)
    ensures forall a, b :: 0 <= a < b < |Run(s, schedule).cache| ==>
              Run(s, schedule).cache[a].instance != Run(s, schedule).cache[b].instance
    ensures Distinct(Run(s, schedule))
  {
    forall i | 0 <= i < |s.calls| ensures Pending(s.calls[i]).None? {
      assert s.calls[i] == NewCall(s.calls[i].key, s.calls[i].pointerSize);
    }
    RunKeepsDistinct(s, schedule);
  }
}
