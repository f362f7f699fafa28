/** Clashes that do harm and clashes that do none. */
module InstanceCases {
  import opened Descents
  import opened InstanceCaches
  import opened InstanceRuns
  import opened InstanceSharing
  import opened TypeComparisons

  // ---------- differences that were settled before ----------

  /** All different keys of a bucket differ at a position whose types were compared before. */
  ghost predicate AllKnownApart(s: State) {
    forall i: nat, j: nat | i < |s.calls| && j < |s.calls| ::
      SameBucket(s.calls[i].key, s.calls[j].key) && ShapeOf(s.calls[i].key) != ShapeOf(s.calls[j].key) ==>
        KnownFrom(s.memos, s.calls[i].key, s.calls[j].key, 0)
  }

  /** The search has not passed a difference that was settled before, and is not about to. */
  ghost predicate Mindful(before: Memos, search: Search, key: Key) {
    && search.entries != [] && SameBucket(search.entries[0].key, key) && search.position < |key.types|
    && (forall n: nat | n < search.position :: !SettledDifferent(before, TypesAt(search.entries[0].key, key, n)))
    && var goal := TypesAt(search.entries[0].key, key, search.position);
       SettledDifferent(before, goal) ==> search.comparison == Begin(goal)
  }

  ghost predicate OutcomeMindful(before: Memos, o: Outcome, key: Key) {
    match o
    case Scanning(search) => Mindful(before, search, key)
    case Found(e) => !KnownFrom(before, e.key, key, 0)
    case Missing => true
  }

  lemma {:induction false} ScanMindful(before: Memos, entries: seq<Entry>, key: Key)
    ensures OutcomeMindful(before, Scan(entries, key), key)
  {
    if entries == [] {
    } else if !SameBucket(entries[0].key, key) {
      ScanMindful(before, entries[1..], key);
    }
  }

  lemma SearchMindful(before: Memos, memos: Memos, search: Search, key: Key)
    requires Mindful(before, search, key) && KeepsDifferences(before, memos)
    ensures var (memos', o) := SearchStep(memos, search, key);
            OutcomeMindful(before, o, key) && KeepsDifferences(before, memos')
  {
    var goal := TypesAt(search.entries[0].key, key, search.position);
    ScanMindful(before, search.entries[1..], key);
    if SettledDifferent(before, goal) {
      assert SettledDifferent(memos, goal);
    }
  }

  ghost predicate CallMindful(before: Memos, call: Call) {
    match call.phase
    case Looking(search) => Mindful(before, search, call.key)
    case Adding(_, search) => Mindful(before, search, call.key)
    case _ => true
  }

  ghost predicate KeptApart(s: State, t: State) {
    && Valid(t, false) && Extends(s, t)
    && KeepsDifferences(s.memos, t.memos)
    && (forall i: nat | i < |t.calls| :: CallMindful(s.memos, t.calls[i]) && GotOwnTypes(t.calls[i]))
  }

  /** Which instance a call gets that finds an entry. */
  lemma FoundIsOwn(s: State, t: State, i: nat, e: Entry)
    requires AllKnownApart(s) && KeptApart(s, t) && i < |t.calls| && e in t.cache
    requires SameBucket(e.key, t.calls[i].key) && !KnownFrom(s.memos, e.key, t.calls[i].key, 0)
    ensures GotOwnTypes(t.calls[i].(phase := Returned(e.instance)))
  {
    assert EntryOk(t, e);
    var k :| 0 <= k < |t.calls| && Made(e, t.calls[k]);
    assert s.calls[k].key == e.key && s.calls[i].key == t.calls[i].key;
    assert GotOwnTypes(t.calls[k]);
  }

  lemma SearchKeepsApart(s: State, t: State, i: nat, search: Search)
    requires AllKnownApart(s) && KeptApart(s, t) && i < |t.calls| && Searches(t.calls[i], search)
    ensures CallMindful(s.memos, Step(t, i).calls[i]) && GotOwnTypes(Step(t, i).calls[i])
    ensures KeepsDifferences(s.memos, Step(t, i).memos)
  {
    var key := t.calls[i].key;
    assert CallOk(t, t.calls[i], false) && CallMindful(s.memos, t.calls[i]);
    SearchMindful(s.memos, t.memos, search, key);
    SearchStepOk(t.memos, search, key, t.cache, false);
    var o := SearchStep(t.memos, search, key).1;
    if o.Found? {
      FoundIsOwn(s, t, i, o.entry);
    }
  }

  lemma OtherKeepsApart(s: State, t: State, i: nat)
    requires AllKnownApart(s) && KeptApart(s, t) && i < |t.calls|
    requires !t.calls[i].phase.Looking? && !t.calls[i].phase.Adding?
    ensures CallMindful(s.memos, Step(t, i).calls[i]) && GotOwnTypes(Step(t, i).calls[i])
  {
    var key := t.calls[i].key;
    assert CallOk(t, t.calls[i], false) && GotOwnTypes(t.calls[i]);
    ScanMindful(s.memos, t.cache, key);
    ScanOk(t.cache, key, t.cache, t.memos, false);
    var o := Scan(t.cache, key);
    if o.Found? {
      FoundIsOwn(s, t, i, o.entry);
    }
  }

  lemma OwnStepKeepsApart(s: State, t: State, i: nat)
    requires AllKnownApart(s) && KeptApart(s, t) && i < |t.calls|
    ensures CallMindful(s.memos, Step(t, i).calls[i]) && GotOwnTypes(Step(t, i).calls[i])
    ensures KeepsDifferences(s.memos, Step(t, i).memos)
  {
    if t.calls[i].phase.Looking? || t.calls[i].phase.Adding? {
      SearchKeepsApart(s, t, i, t.calls[i].phase.search);
    } else {
      OtherStep(t, i);
      OtherKeepsApart(s, t, i);
    }
  }

  lemma StepKeepsApart(s: State, t: State, i: nat)
    requires AllKnownApart(s) && KeptApart(s, t) && i < |t.calls|
    ensures KeptApart(s, Step(t, i))
  {
    StepKeepsValid(t, i, false);
    StepExtends(t, i);
    ExtendsTransitive(s, t, Step(t, i));
    StepHasFacts(t, i, false);
    OwnStepKeepsApart(s, t, i);
  }

  lemma {:induction false} RunKeepsApart(s: State, t: State, schedule: seq<nat>)
    requires AllKnownApart(s) && KeptApart(s, t) && Schedulable(t, schedule)
    ensures KeptApart(s, Run(t, schedule))
    decreases |schedule|
  {
    if schedule == [] {
    } else {
      StepKeepsApart(s, t, schedule[0]);
      RunKeepsApart(s, Step(t, schedule[0]), schedule[1..]);
    }
  }

  /** Sharing is safe, clash or not, if all different keys of a bucket differ at a position
      whose types were compared before. */
  lemma SafeIfKnownApart(s: State)
    requires Initial(s) && AllKnownApart(s)
    ensures SafeInAllRuns(s)
  {
    InitialIsValid(s, false);
    forall i: nat | i < |s.calls| ensures CallMindful(s.memos, s.calls[i]) && GotOwnTypes(s.calls[i]) {
      assert s.calls[i] == NewCall(s.calls[i].key, s.calls[i].pointerSize);
    }
    forall schedule | Schedulable(s, schedule) ensures Shares(Run(s, schedule)) {
      RunKeepsApart(s, s, schedule);
      SharesIff(s, schedule);
    }
  }

  // ---------- two states with a clash ----------

  function Simple(n: int): DataType {
    DataType(n, n, [])
  }

  function Generic(arity: nat): Intrinsic {
    Intrinsic(1, arity, false, true, false)
  }

  /** Three calls of one intrinsic, for one type and twice for another. */
  function HarmfulState(): State {
    var (a, b) := (Key(Generic(1), [Simple(1)]), Key(Generic(1), [Simple(2)]));
    State([], map[], [NewCall(a, 0), NewCall(b, 0), NewCall(b, 0)], 0)
  }

  /** The same with a second type that differs too and was compared before. */
  function HarmlessState(): State {
    var (a, b) := (Key(Generic(2), [Simple(1), Simple(3)]), Key(Generic(2), [Simple(2), Simple(4)]));
    State([], map[Pair(Simple(3), Simple(4)) := Settled(-1), Pair(Simple(4), Simple(3)) := Settled(1)],
          [NewCall(a, 0), NewCall(b, 0), NewCall(b, 0)], 0)
  }

  lemma HarmfulClash()
    ensures Initial(HarmfulState()) && DifferOnce(HarmfulState())
    ensures Clash(HarmfulState(), 0, 1, 0, 2, Pair(Simple(1), Simple(2))) && !SafeInAllRuns(HarmfulState())
  {
    var s, p := HarmfulState(), Pair(Simple(1), Simple(2));
    AlikeIff(p);
    assert KeysDifferAt(s.calls[0].key, s.calls[1].key, 0) && TypesAt(s.calls[0].key, s.calls[1].key, 0) == p;
    assert Clash(s, 0, 1, 0, 2, p);
    SimpleTypesDifferOnce(s);
    SafeIff(s);
  }

  lemma HarmlessClash()
    ensures Initial(HarmlessState())
    ensures Clash(HarmlessState(), 0, 1, 0, 2, Pair(Simple(1), Simple(2))) && SafeInAllRuns(HarmlessState())
  {
    var s, p := HarmlessState(), Pair(Simple(1), Simple(2));
    AlikeIff(p);
    AlikeIff(Pair(Simple(3), Simple(4)));
    AlikeIff(Pair(Simple(4), Simple(3)));
    assert KeysDifferAt(s.calls[0].key, s.calls[1].key, 0) && TypesAt(s.calls[0].key, s.calls[1].key, 0) == p;
    assert Clash(s, 0, 1, 0, 2, p);
    forall i: nat, j: nat | i < |s.calls| && j < |s.calls| && ShapeOf(s.calls[i].key) != ShapeOf(s.calls[j].key)
      ensures KnownFrom(s.memos, s.calls[i].key, s.calls[j].key, 0)
    {
      assert SettledDifferent(s.memos, TypesAt(s.calls[i].key, s.calls[j].key, 1));
    }
    SafeIfKnownApart(s);
  }
}
