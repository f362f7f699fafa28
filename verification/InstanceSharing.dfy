/** When some run takes different types for equal, and when calls share their instances as they
    should in every interleaving. */
module InstanceSharing {
  import opened Descents
  import opened InstanceCaches
  import opened InstanceClashes
  import opened InstanceOutcomes
  import opened InstanceRuns
  import opened InstanceSteps
  import opened TypeComparisons

  // ---------- exactly when some run misreads ----------

  ghost predicate SomeRunMisreads(s: State) {
    exists schedule :: Schedulable(s, schedule) && !CleanRun(s, schedule)
  }

  /** Call i has added its entry, and j has come to p with it. */
  lemma FirstWaits(s: State, i: nat, j: nat, p: Pair) returns (t: State)
    requires Initial(s) && Calm(s) && i < |s.calls| && j < |s.calls| && !Alike(p) && MayCompare(s, i, j, p)
    ensures Quiet(s, t, p) && |t.calls| == |s.calls| && Waits(t, j, p)
    ensures |t.cache| == 1 && t.cache[0].key == s.calls[i].key
    ensures forall l: nat | l < |s.calls| && l != i && l != j :: t.calls[l] == s.calls[l]
    ensures OthersNotAdding(t, i)
  {
    StartsQuiet(s, i, j, p);
    NotRefused(s, i, j, p);
    forall l: nat | l < |s.calls| ensures !s.calls[l].phase.Adding? {
      assert s.calls[l] == NewCall(s.calls[l].key, s.calls[l].pointerSize);
    }
    var u := FirstAdds(s, i, p);
    t := LooksUp(s, u, j, p);
    assert forall l: nat | l < |s.calls| && l != i && l != j :: t.calls[l] == u.calls[l];
  }

  /** If calls clash, and no run misreads, two of them come to wait for p at the same time. */
  lemma BothWait(s: State, i: nat, j: nat, k: nat, m: nat, p: Pair) returns (u: State)
    requires Initial(s) && i < |s.calls| && j < |s.calls| && k < |s.calls| && m < |s.calls|
    requires Clash(s, i, j, k, m, p) && Calm(s)
    ensures Quiet(s, u, p) && |u.calls| == |s.calls| && Waits(u, j, p) && Waits(u, m, p)
  {
    NotRefused(s, k, m, p);
    var t := FirstWaits(s, i, j, p);
    if i != k {
      assert OthersNotAdding(t, k);
      t := AddsBeside(s, t, j, k, p);
    }
    u := LooksUp(s, t, m, p);
    assert u.calls[j] == t.calls[j];
  }

  lemma StartsQuiet(s: State, i: nat, j: nat, p: Pair)
    requires Initial(s) && Calm(s) && i < |s.calls| && j < |s.calls|
    requires !Alike(p) && MayCompare(s, i, j, p)
    ensures Quiet(s, s, p)
  {
    InitialIsSound(s);
    var a, b := s.calls[i].key, s.calls[j].key;
    var n: nat :| KeysDifferAt(a, b, n) && Reaches(s.memos, TypesAt(a, b, n), p);
    ReachesUnknown(s.memos, TypesAt(a, b, n), p);
  }

  /** The call that finds the entry starts as well as the one that made it. */
  lemma NotRefused(s: State, i: nat, j: nat, p: Pair)
    requires Initial(s) && i < |s.calls| && j < |s.calls| && MayCompare(s, i, j, p)
    ensures s.calls[i].phase == Ready && s.calls[j].phase == Ready && i != j
  {
    assert s.calls[i] == NewCall(s.calls[i].key, s.calls[i].pointerSize);
    assert s.calls[j] == NewCall(s.calls[j].key, s.calls[j].pointerSize);
  }

  lemma ClashIsNotCalm(s: State, i: nat, j: nat, k: nat, m: nat, p: Pair)
    requires Initial(s) && i < |s.calls| && j < |s.calls| && k < |s.calls| && m < |s.calls|
    requires Clash(s, i, j, k, m, p)
    ensures !Calm(s)
  {
    if Calm(s) {
      var u := BothWait(s, i, j, k, m, p);
      TwoWaitersMisread(u, j, m, p);
    }
  }

  /** Some run takes two different types for equal, because their comparison is under way
      elsewhere, exactly when calls clash. */
  lemma SomeRunMisreadsIff(s: State)
    requires Initial(s)
    ensures SomeRunMisreads(s) <==> !NoClash(s)
  {
    if NoClash(s) {
      InitialIsSound(s);
      forall schedule | Schedulable(s, schedule) ensures CleanRun(s, schedule) {
        NoClashNoMisread(s, s, schedule);
      }
    } else {
      var i: nat, j: nat, k: nat, m: nat, p :|
        i < |s.calls| && j < |s.calls| && k < |s.calls| && m < |s.calls| && Clash(s, i, j, k, m, p);
      ClashIsNotCalm(s, i, j, k, m, p);
      var schedule :| Schedulable(s, schedule) && !CalmRun(s, schedule);
      if CleanRun(s, schedule) {
        CleanIsCalm(s, schedule);
      }
    }
  }

  // ---------- keys that differ in one place ----------

  /** The types differ in one place only. */
  ghost predicate OneDifference(p: Pair)
    decreases p.x
  {
    || p.x.kind != p.y.kind || |p.x.parts| != |p.y.parts|
    || exists n: nat :: DiffersAt(p, n) && OneDifference(Part(p, n)) && RestAlike(p, n)
  }

  ghost predicate RestAlike(p: Pair, n: nat) {
    |p.x.parts| == |p.y.parts| && forall k: nat | n < k < |p.x.parts| :: Alike(Part(p, k))
  }

  /** The types at n differ in one place, and those after them do not. */
  ghost predicate DifferOnlyAt(a: Key, b: Key, n: nat)
    requires n < |a.types| == |b.types|
  {
    OneDifference(TypesAt(a, b, n)) && forall k: nat | n < k < |a.types| :: Alike(TypesAt(a, b, k))
  }

  ghost predicate KeysDifferOnce(a: Key, b: Key) {
    exists n: nat :: KeysDifferAt(a, b, n) && DifferOnlyAt(a, b, n)
  }

  /** Different keys of one bucket differ in one place. */
  ghost predicate DifferOnce(s: State) {
    forall i: nat, j: nat | i < |s.calls| && j < |s.calls| ::
      SameBucket(s.calls[i].key, s.calls[j].key) && ShapeOf(s.calls[i].key) != ShapeOf(s.calls[j].key) ==>
        KeysDifferOnce(s.calls[i].key, s.calls[j].key)
  }

  ghost predicate FramesRestAlike(stack: seq<Frame>) {
    forall f | f in stack :: RestAlike(f.pair, f.at)
  }

  lemma {:induction false} AwaitsOneDifference(stack: seq<Frame>, goal: Pair, q: Pair)
    requires Awaits(stack, goal, q, true) && OneDifference(goal) && !Alike(q)
    ensures OneDifference(q) && FramesRestAlike(stack)
    decreases |stack|
  {
    if stack == [] {
    } else {
      var rest, f := stack[..|stack| - 1], stack[|stack| - 1];
      AlikeIff(f.pair);
      assert DiffersAt(f.pair, f.at) && q == Part(f.pair, f.at);
      AwaitsOneDifference(rest, goal, f.pair);
      assert stack == rest + [f];
    }
  }

  // ---------- a comparison that has been misled once finds no difference ----------

  ghost predicate Zero(memos: Memos, p: Pair) {
    p in memos && Value(memos[p]) == 0
  }

  ghost predicate FocusMisled(memos: Memos, focus: Focus) {
    match focus
    case Reading(q) => Alike(q) || Zero(memos, q)
    case Claiming(q) => Alike(q)
    case Settling(d) => d == 0
  }

  /** Whatever the comparison has still to look at is equal, or taken for equal. */
  ghost predicate Misled(memos: Memos, c: Comparison) {
    && FramesRestAlike(c.stack) && FocusMisled(memos, c.focus)
    && forall f | f in c.stack :: Zero(memos, f.pair)
  }

  ghost predicate ProgressMisled(memos: Memos, r: Progress) {
    match r
    case Going(c) => Misled(memos, c)
    case Compared(d) => d == 0
  }

  lemma ResumeMisled(memos: Memos, stack: seq<Frame>, goal: Pair, q: Pair)
    requires Awaits(stack, goal, q, false) && FramesRestAlike(stack)
    requires forall f | f in stack :: Zero(memos, f.pair)
    ensures ProgressMisled(memos, Resume(stack, 0))
  {
    if stack != [] {
      var f := stack[|stack| - 1];
      assert RestAlike(f.pair, f.at);
      assert f.at + 1 < |f.pair.x.parts| ==> Alike(Part(f.pair, f.at + 1));
    }
  }

  lemma AdvanceMisled(memos: Memos, c: Comparison, goal: Pair)
    requires Truthful(memos, false) && ComparisonOk(c, goal, false) && Misled(memos, c)
    ensures var (memos', r) := Advance(memos, c);
            ProgressMisled(memos', r) && forall q | Zero(memos, q) :: Zero(memos', q)
  {
    var memos' := Advance(memos, c).0;
    match c.focus
    case Reading(q) =>
      if q in memos {
        ResumeMisled(memos, c.stack, goal, q);
      }
    case Claiming(q) =>
      AlikeIff(q);
      assert q !in memos && q.x.parts != [] ==> Alike(Part(q, 0));
    case Settling(_) =>
      var rest, f := c.stack[..|c.stack| - 1], c.stack[|c.stack| - 1];
      assert f in c.stack && Zero(memos, f.pair);
      ResumeMisled(memos', rest, goal, f.pair);
  }

  /** So does the search: it takes the entry for that of its key. */
  ghost predicate SearchMisled(memos: Memos, search: Search, key: Key) {
    && search.entries != [] && SameBucket(search.entries[0].key, key) && search.position < |key.types|
    && Misled(memos, search.comparison)
    && forall k: nat | search.position < k < |key.types| :: Alike(TypesAt(search.entries[0].key, key, k))
  }

  lemma SearchStepMisled(memos: Memos, search: Search, key: Key, cache: seq<Entry>)
    requires Truthful(memos, false) && SearchOk(search, key, cache, memos, false) && SearchMisled(memos, search, key)
    ensures var (memos', o) := SearchStep(memos, search, key);
            || o == Found(search.entries[0])
            || (o.Scanning? && o.search.entries == search.entries && SearchMisled(memos', o.search, key))
  {
    var goal := TypesAt(search.entries[0].key, key, search.position);
    AdvanceMisled(memos, search.comparison, goal);
    var next := search.position + 1;
    assert next < |key.types| ==> Alike(TypesAt(search.entries[0].key, key, next));
  }

  lemma MisledNext(t: State, j: nat, search: Search)
    requires Valid(t, false) && j < |t.calls|
    requires t.calls[j].phase == Looking(search) && SearchMisled(t.memos, search, t.calls[j].key)
    ensures var (memos', o) := SearchStep(t.memos, search, t.calls[j].key);
            && Step(t, j) == AfterLookup(t.(memos := memos'), j, o)
            && (!o.Scanning? ==> o == Found(search.entries[0]))
            && (o.Scanning? ==>
                  && o.search.entries == search.entries && SearchMisled(memos', o.search, t.calls[j].key)
                  && SearchLoad(memos', o.search) < SearchLoad(t.memos, search))
  {
    assert CallOk(t, t.calls[j], false);
    SearchStepMisled(t.memos, search, t.calls[j].key, t.cache);
    SearchShrinks(t.memos, search, t.calls[j].key, t.cache);
  }

  lemma {:induction false} MisledReturns(t: State, j: nat, search: Search) returns (u: State)
    requires Valid(t, false) && j < |t.calls|
    requires t.calls[j].phase == Looking(search) && SearchMisled(t.memos, search, t.calls[j].key)
    ensures OnlyCallChanged(t, u, j) && (SafeInAllRuns(t) ==> SafeInAllRuns(u))
    ensures u.calls[j] == t.calls[j].(phase := Returned(search.entries[0].instance))
    decreases SearchLoad(t.memos, search)
  {
    MisledNext(t, j, search);
    StepKeepsValid(t, j, false);
    SafeStep(t, j);
    u := Step(t, j);
    var o := SearchStep(t.memos, search, t.calls[j].key).1;
    if o.Scanning? {
      u := MisledReturns(u, j, o.search);
    }
  }

  lemma SafeStep(t: State, i: nat)
    requires i < |t.calls|
    ensures SafeInAllRuns(t) ==> SafeInAllRuns(Step(t, i))
  {
    if SafeInAllRuns(t) {
      forall schedule | Schedulable(Step(t, i), schedule) ensures Shares(Run(Step(t, i), schedule)) {
        assert Schedulable(t, [i] + schedule) && Shares(Run(t, [i] + schedule));
        assert ([i] + schedule)[1..] == schedule;
      }
    }
  }

  // ---------- whatever is on a stack is provisional ----------

  ghost predicate IsProvisional(memos: Memos, p: Pair) {
    p in memos && memos[p].Provisional?
  }

  ghost predicate Tidy(t: State) {
    && (forall k: nat, q | k < |t.calls| && OnStack(StackOf(t.calls[k]), q) :: IsProvisional(t.memos, q))
    && (forall k: nat, l: nat, q | k < l < |t.calls| && OnStack(StackOf(t.calls[k]), q) ::
          !OnStack(StackOf(t.calls[l]), q))
  }

  lemma AdvanceTidy(memos: Memos, c: Comparison, goal: Pair, q: Pair)
    requires ComparisonOk(c, goal, false) && forall f | f in c.stack :: IsProvisional(memos, f.pair)
    ensures var (memos', r) := Advance(memos, c);
            && (IsProvisional(memos, q) && !OnStack(c.stack, q) ==> IsProvisional(memos', q))
            && (r.Going? && OnStack(r.comparison.stack, q) ==>
                  IsProvisional(memos', q) && (OnStack(c.stack, q) || q !in memos))
  {
    match c.focus
    case Reading(p) =>
      if p in memos {
        ResumeStack(c.stack, Value(memos[p]), q);
      }
    case Claiming(p) =>
      PushKeeps(c.stack, Frame(p, 0), q);
    case Settling(d) =>
      var rest, f := c.stack[..|c.stack| - 1], c.stack[|c.stack| - 1];
      assert c.stack == rest + [f];
      AwaitsSmaller(rest, goal, f.pair, false);
      PushKeeps(rest, f, q);
      ResumeStack(rest, d, q);
  }

  lemma ResumeStack(stack: seq<Frame>, d: int, q: Pair)
    ensures var r := Resume(stack, d);
            r.Going? && OnStack(r.comparison.stack, q) ==> OnStack(stack, q)
  {
  }

  lemma StepKeepsTidy(t: State, i: nat)
    requires Valid(t, false) && Tidy(t) && i < |t.calls|
    ensures Tidy(Step(t, i))
  {
    var u := Step(t, i);
    StepHasFacts(t, i, false);
    forall q
      ensures OnStack(StackOf(u.calls[i]), q) ==>
                IsProvisional(u.memos, q) && (OnStack(StackOf(t.calls[i]), q) || q !in t.memos)
      ensures IsProvisional(t.memos, q) && !OnStack(StackOf(t.calls[i]), q) ==> IsProvisional(u.memos, q)
    {
      StepTidy(t, i, q);
    }
    forall k: nat | k < |t.calls| && k != i ensures u.calls[k] == t.calls[k] {
    }
  }

  lemma StepTidy(t: State, i: nat, q: Pair)
    requires Valid(t, false) && Tidy(t) && i < |t.calls|
    ensures OnStack(StackOf(Step(t, i).calls[i]), q) ==>
              IsProvisional(Step(t, i).memos, q) && (OnStack(StackOf(t.calls[i]), q) || q !in t.memos)
    ensures IsProvisional(t.memos, q) && !OnStack(StackOf(t.calls[i]), q) ==> IsProvisional(Step(t, i).memos, q)
  {
    if t.calls[i].phase.Looking? || t.calls[i].phase.Adding? {
      var search := t.calls[i].phase.search;
      SearchStepIs(t, i, search);
      assert CallOk(t, t.calls[i], false);
      forall f | f in search.comparison.stack ensures IsProvisional(t.memos, f.pair) {
        assert OnStack(StackOf(t.calls[i]), f.pair);
      }
      AdvanceTidy(t.memos, search.comparison,
                  TypesAt(search.entries[0].key, t.calls[i].key, search.position), q);
    } else {
      OtherStep(t, i);
    }
  }

  // ---------- exactly when sharing is safe ----------

  /** Where a call misreads, its key differs from the entry. */
  lemma MisreadAtDifference(s: State, t: State, j: nat)
    requires Sound(s, t) && j < |t.calls| && LooksWrong(t, j)
    ensures var (search, key) := (t.calls[j].phase.search, t.calls[j].key);
            && SearchOk(search, key, t.cache, t.memos, true)
            && KeysDifferAt(search.entries[0].key, key, search.position)
  {
    var search, key := t.calls[j].phase.search, t.calls[j].key;
    assert CallOk(t, t.calls[j], true);
    var goal := TypesAt(search.entries[0].key, key, search.position);
    if Alike(goal) {
      AwaitsAlike(search.comparison.stack, goal, search.comparison.focus.pair);
    }
  }

  /** An entry of the bucket that differs from the key differs in one place. */
  lemma EntryDiffersOnce(s: State, t: State, j: nat, e: Entry, n: nat)
    requires Sound(s, t) && DifferOnce(s) && j < |t.calls| && e in t.cache
    requires KeysDifferAt(e.key, t.calls[j].key, n)
    ensures ShapeOf(e.key) != ShapeOf(t.calls[j].key) && DifferOnlyAt(e.key, t.calls[j].key, n)
  {
    assert EntryOk(t, e);
    var k :| 0 <= k < |t.calls| && Made(e, t.calls[k]);
    assert s.calls[k].key == e.key && s.calls[j].key == t.calls[j].key;
    ShapesIff(e.key, t.calls[j].key);
    assert KeysDifferOnce(s.calls[k].key, s.calls[j].key);
  }

  /** A call that reads a provisional result while it looks its key up goes on to take the entry
      for that of its key, if the keys differ in one place. */
  lemma MisreadMisleads(s: State, t: State, j: nat)
    requires Sound(s, t) && Tidy(t) && DifferOnce(s) && j < |t.calls| && LooksWrong(t, j)
    ensures SearchMisled(t.memos, t.calls[j].phase.search, t.calls[j].key)
  {
    MisreadAtDifference(s, t, j);
    var search, key := t.calls[j].phase.search, t.calls[j].key;
    EntryDiffersOnce(s, t, j, search.entries[0], search.position);
    forall f | f in search.comparison.stack ensures IsProvisional(t.memos, f.pair) {
      assert OnStack(StackOf(t.calls[j]), f.pair);
    }
    MisreadMisleadsComparison(t.memos, search.comparison, TypesAt(search.entries[0].key, key, search.position));
  }

  lemma MisreadMisleadsComparison(memos: Memos, c: Comparison, goal: Pair)
    requires ComparisonOk(c, goal, true) && Misread(memos, c) && OneDifference(goal)
    requires forall f | f in c.stack :: IsProvisional(memos, f.pair)
    ensures Misled(memos, c)
  {
    AwaitsOneDifference(c.stack, goal, c.focus.pair);
  }

  lemma MisreadBreaksSharing(s: State, t: State, j: nat)
    requires Sound(s, t) && Tidy(t) && DifferOnce(s) && j < |t.calls| && LooksWrong(t, j)
    ensures !SafeInAllRuns(t)
  {
    MisreadMisleads(s, t, j);
    MisreadAtDifference(s, t, j);
    var e, n := t.calls[j].phase.search.entries[0], t.calls[j].phase.search.position;
    EntryDiffersOnce(s, t, j, e, n);
    var u := MisledReturns(t, j, t.calls[j].phase.search);
    WrongEntryBreaksSharing(t, u, j, e);
  }

  lemma WrongEntryBreaksSharing(t: State, u: State, j: nat, e: Entry)
    requires j < |t.calls| && EntryOk(t, e) && OnlyCallChanged(t, u, j) && !Finished(t.calls[j])
    requires u.calls[j] == t.calls[j].(phase := Returned(e.instance)) && ShapeOf(e.key) != ShapeOf(t.calls[j].key)
    ensures !SafeInAllRuns(u)
  {
    var k :| 0 <= k < |t.calls| && Made(e, t.calls[k]);
    assert u.calls[k] == t.calls[k];
    assert !SharesRightly(u.calls[k], u.calls[j]);
    assert Schedulable(u, []) && Run(u, []) == u;
  }

  lemma {:induction false} SharingIsCalm(s: State, t: State, schedule: seq<nat>)
    requires Sound(s, t) && Tidy(t) && DifferOnce(s) && SafeInAllRuns(t) && Schedulable(t, schedule)
    ensures CalmRun(t, schedule)
    decreases |schedule|
  {
    if schedule == [] {
    } else {
      var i := schedule[0];
      if LooksWrong(t, i) {
        MisreadBreaksSharing(s, t, i);
      } else if !Misreads(t, i) {
        StepKeepsSound(s, t, i);
        StepKeepsTidy(t, i);
        SafeStep(t, i);
        SharingIsCalm(s, Step(t, i), schedule[1..]);
      }
    }
  }

  /** Where different keys differ in one place, sharing is safe in every interleaving exactly if
      no calls clash. */
  lemma SafeIff(s: State)
    requires Initial(s) && DifferOnce(s)
    ensures SafeInAllRuns(s) <==> NoClash(s)
  {
    if NoClash(s) {
      SafeWithoutClash(s);
    } else if SafeInAllRuns(s) {
      InitialIsSound(s);
      InitialIsTidy(s);
      var i: nat, j: nat, k: nat, m: nat, p :|
        i < |s.calls| && j < |s.calls| && k < |s.calls| && m < |s.calls| && Clash(s, i, j, k, m, p);
      ClashIsNotCalm(s, i, j, k, m, p);
      forall schedule | Schedulable(s, schedule) ensures CalmRun(s, schedule) {
        SharingIsCalm(s, s, schedule);
      }
    }
  }

  lemma InitialIsTidy(s: State)
    requires Initial(s)
    ensures Tidy(s)
  {
    forall k: nat | k < |s.calls| ensures StackOf(s.calls[k]) == [] {
      assert s.calls[k] == NewCall(s.calls[k].key, s.calls[k].pointerSize);
    }
  }

  /** Keys of one type that is not made of others are a case. */
  lemma SimpleTypesDifferOnce(s: State)
    requires forall i: nat | i < |s.calls| :: |s.calls[i].key.types| == 1 && s.calls[i].key.types[0].parts == []
    ensures DifferOnce(s)
  {
    forall i: nat, j: nat | i < |s.calls| && j < |s.calls| &&
      SameBucket(s.calls[i].key, s.calls[j].key) && ShapeOf(s.calls[i].key) != ShapeOf(s.calls[j].key)
      ensures KeysDifferOnce(s.calls[i].key, s.calls[j].key)
    {
      var a, b := s.calls[i].key, s.calls[j].key;
      ShapesIff(a, b);
      AlikeIff(TypesAt(a, b, 0));
      assert KeysDifferAt(a, b, 0);
    }
  }
}
