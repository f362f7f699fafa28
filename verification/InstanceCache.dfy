/** The cache of concrete intrinsics and the loop that fills it, as steps that any number of
    calls may interleave: src/Core/IntrinsicProcedure.cs. Looking a key up compares types, and
    these comparisons are steps of their own. */
module InstanceCaches {
  import opened Bits
  import opened TypeComparisons

  /** An intrinsic: its number of generic arguments, whether it is a concrete instance already,
      and whether its signature can be made concrete. Generic pointers of unknown size need the
      pointer size of the caller. */
  datatype Intrinsic = Intrinsic(
    identity: int, arity: nat, concrete: bool, usableSignature: bool, unsizedPointers: bool)

  datatype Key = Key(intrinsic: Intrinsic, types: seq<DataType>)

  /** What ought to tell keys apart. */
  datatype Shape = Shape(intrinsic: Intrinsic, structures: seq<Structure>)

  function ShapeOf(key: Key): Shape {
    Shape(key.intrinsic, seq(|key.types|, i requires 0 <= i < |key.types| => StructureOf(key.types[i])))
  }

  /** Keys with one intrinsic and one number of types hash alike. */
  predicate SameBucket(a: Key, b: Key) {
    a.intrinsic == b.intrinsic && |a.types| == |b.types|
  }

  lemma ShapesIff(a: Key, b: Key)
    ensures ShapeOf(a) == ShapeOf(b) <==>
            SameBucket(a, b) && forall i | 0 <= i < |a.types| && i < |b.types| :: Alike(Pair(a.types[i], b.types[i]))
  {
    var xs, ys := ShapeOf(a).structures, ShapeOf(b).structures;
    assert |xs| == |a.types| && |ys| == |b.types|;
    assert forall i | 0 <= i < |xs| :: xs[i] == StructureOf(a.types[i]);
    assert forall i | 0 <= i < |ys| :: ys[i] == StructureOf(b.types[i]);
    if SameBucket(a, b) && forall i | 0 <= i < |a.types| :: Alike(Pair(a.types[i], b.types[i])) {
      assert xs == ys;
    }
  }

  /** The comparer of the cache, run without other threads. */
  method KeysEqual(memos: Memos, x: Key, y: Key) returns (equal: bool, memos': Memos)
    requires Truthful(memos, true) && forall p | p in memos :: memos[p].Settled?
    ensures equal <==> ShapeOf(x) == ShapeOf(y)
    ensures Truthful(memos', true) && forall p | p in memos' :: memos'[p].Settled?
  {
    ShapesIff(x, y);
    memos' := memos;
    if x.intrinsic != y.intrinsic {
      return false, memos';
    }
    if |x.types| != |y.types| {
      return false, memos';
    }
    for i := 0 to |x.types|
      invariant Truthful(memos', true) && forall p | p in memos' :: memos'[p].Settled?
      invariant forall j | 0 <= j < i :: Alike(Pair(x.types[j], y.types[j]))
    {
      var d;
      d, memos' := Compare(memos', x.types[i], y.types[i]);
      if d != 0 {
        return false, memos';
      }
    }
    return true, memos';
  }

  /** The hash loop run `n` times; it mixes in the hash of the intrinsic, never of a type. */
  function HashLoop(hash: int, n: nat, xor: (int, int) -> int): int {
    if n == 0 then hash else xor(Low(HashLoop(hash, n - 1, xor) * 5, 32), hash)
  }

  /** The hash tells intrinsics and numbers of types apart, at best: keys that differ in the
      types alone always collide, and equal keys hash equally. */
  method GetHashCode(key: Key, hashOf: Intrinsic -> int, xor: (int, int) -> int) returns (h: int)
    ensures h == HashLoop(hashOf(key.intrinsic), |ShapeOf(key).structures|, xor)
  {
    h := hashOf(key.intrinsic);
    for i := 0 to |key.types|
      invariant h == HashLoop(hashOf(key.intrinsic), i, xor)
    {
      h := xor(Low(h * 5, 32), hashOf(key.intrinsic));
    }
  }

  // ---------- searching the cache ----------

  /** A concrete instance. `serial` is its identity. */
  datatype Instance = Instance(serial: nat, intrinsic: Intrinsic, types: seq<DataType>, pointerSize: int)

  datatype Entry = Entry(key: Key, instance: Instance)

  /** The entries left to look at; of the first, the types before `position` were found equal. */
  datatype Search = Search(entries: seq<Entry>, position: nat, comparison: Comparison)

  datatype Outcome = Scanning(search: Search) | Found(entry: Entry) | Missing

  /** Up to the first comparison of types. */
  function Scan(entries: seq<Entry>, key: Key): Outcome {
    if entries == [] then
      Missing
    else if !SameBucket(entries[0].key, key) then
      Scan(entries[1..], key)
    else if key.types == [] then
      Found(entries[0])
    else
      Scanning(Search(entries, 0, Begin(Pair(entries[0].key.types[0], key.types[0]))))
  }

  /** The types at the current position have been compared. */
  function Judge(s: Search, key: Key, d: int): Outcome {
    if s.entries == [] then
      Missing
    else if d != 0 then
      Scan(s.entries[1..], key)
    else if s.position + 1 < |key.types| && s.position + 1 < |s.entries[0].key.types| then
      Scanning(Search(s.entries, s.position + 1,
                      Begin(Pair(s.entries[0].key.types[s.position + 1], key.types[s.position + 1]))))
    else
      Found(s.entries[0])
  }

  function SearchStep(memos: Memos, s: Search, key: Key): (Memos, Outcome) {
    var (memos', r) := Advance(memos, s.comparison);
    match r
    case Going(c) => (memos', Scanning(s.(comparison := c)))
    case Compared(d) => (memos', Judge(s, key, d))
  }

  // ---------- calls to MakeInstance ----------

  /** Where a call stands: about to look its key up, and doing so; about to build an instance;
      waiting for the lock of the bucket, and adding under it; or finished. */
  datatype Phase =
    | Ready
    | Looking(search: Search)
    | Building
    | Waiting(built: Instance)
    | Adding(built: Instance, search: Search)
    | Returned(instance: Instance)
    | Thrown

  datatype Call = Call(key: Key, pointerSize: int, phase: Phase)

  /** The cache lists its entries newest first. */
  datatype State = State(cache: seq<Entry>, memos: Memos, calls: seq<Call>, serials: nat)

  /** Concrete instances of a generic intrinsic are refused at once. */
  predicate Refused(key: Key) {
    key.intrinsic.concrete && key.intrinsic.arity > 0
  }

  function NewCall(key: Key, pointerSize: int): Call {
    Call(key, pointerSize, if Refused(key) then Thrown else Ready)
  }

  /** What the signature demands of the types. */
  predicate Instantiable(key: Key) {
    !Refused(key) && key.intrinsic.usableSignature && key.intrinsic.arity > 0 && |key.types| == key.intrinsic.arity
  }

  /** MakeConcreteSignature does not throw. */
  predicate CanBuild(key: Key, pointerSize: int) {
    Instantiable(key) && (key.intrinsic.unsizedPointers ==> pointerSize != 0)
  }

  predicate Finished(call: Call) {
    call.phase.Returned? || call.phase.Thrown?
  }

  function InPhase(s: State, i: nat, phase: Phase): State
    requires i < |s.calls|
  {
    s.(calls := s.calls[i := s.calls[i].(phase := phase)])
  }

  function AfterLookup(s: State, i: nat, o: Outcome): State
    requires i < |s.calls|
  {
    match o
    case Scanning(search) => InPhase(s, i, Looking(search))
    case Found(e) => InPhase(s, i, Returned(e.instance))
    case Missing => InPhase(s, i, Building)
  }

  function AfterAdd(s: State, i: nat, built: Instance, o: Outcome): State
    requires i < |s.calls|
  {
    match o
    case Scanning(search) => InPhase(s, i, Adding(built, search))
    case Found(_) => InPhase(s, i, Ready)
    case Missing => InPhase(s, i, Returned(built)).(cache := [Entry(s.calls[i].key, built)] + s.cache)
  }

  /** Another call is adding to the bucket. */
  predicate Locked(s: State, i: nat)
    requires i < |s.calls|
  {
    exists j | 0 <= j < |s.calls| :: j != i && s.calls[j].phase.Adding? && SameBucket(s.calls[j].key, s.calls[i].key)
  }

  /** One step of call `i`; waiting for a lock that is taken is none. */
  function Step(s: State, i: nat): State
    requires i < |s.calls|
    ensures |Step(s, i).calls| == |s.calls|
  {
    var key := s.calls[i].key;
    match s.calls[i].phase
    case Ready => AfterLookup(s, i, Scan(s.cache, key))
    case Looking(search) =>
      var (memos', o) := SearchStep(s.memos, search, key);
      AfterLookup(s.(memos := memos'), i, o)
    case Building =>
      if CanBuild(key, s.calls[i].pointerSize) then
        var built := Instance(s.serials, key.intrinsic, key.types, s.calls[i].pointerSize);
        InPhase(s, i, Waiting(built)).(serials := s.serials + 1)
      else
        InPhase(s, i, Thrown)
    case Waiting(built) => if Locked(s, i) then s else AfterAdd(s, i, built, Scan(s.cache, key))
    case Adding(built, search) =>
      var (memos', o) := SearchStep(s.memos, search, key);
      AfterAdd(s.(memos := memos'), i, built, o)
    case _ => s
  }

  ghost predicate Schedulable(s: State, schedule: seq<nat>) {
    forall k :: 0 <= k < |schedule| ==> schedule[k] < |s.calls|
  }

  /** The state after the calls have taken steps in the order of `schedule`. */
  function Run(s: State, schedule: seq<nat>): State
    requires forall k :: 0 <= k < |schedule| ==> schedule[k] < |s.calls|
    ensures |Run(s, schedule).calls| == |s.calls|
    decreases |schedule|
  {
    if schedule == [] then s else Run(Step(s, schedule[0]), schedule[1..])
  }

  /** All calls at their start, over an empty cache; earlier comparisons are settled. */
  ghost predicate Initial(s: State) {
    && s.cache == [] && s.serials == 0
    && Truthful(s.memos, true) && (forall p | p in s.memos :: s.memos[p].Settled?)
    && forall i :: 0 <= i < |s.calls| ==> s.calls[i] == NewCall(s.calls[i].key, s.calls[i].pointerSize)
  }

  // ---------- what searches keep ----------

  ghost predicate SearchOk(s: Search, key: Key, cache: seq<Entry>, memos: Memos, clean: bool) {
    && s.entries != [] && SameBucket(s.entries[0].key, key) && s.position < |key.types|
    && ComparisonOk(s.comparison, Pair(s.entries[0].key.types[s.position], key.types[s.position]), clean)
    && Claimed(memos, s.comparison)
    && (clean ==> forall k | 0 <= k < s.position :: Alike(Pair(s.entries[0].key.types[k], key.types[k])))
    && forall e | e in s.entries :: e in cache
  }

  ghost predicate OutcomeOk(o: Outcome, key: Key, cache: seq<Entry>, memos: Memos, clean: bool) {
    match o
    case Scanning(s) => SearchOk(s, key, cache, memos, clean)
    case Found(e) => e in cache && SameBucket(e.key, key) && (clean ==> ShapeOf(e.key) == ShapeOf(key))
    case Missing => true
  }

  /** No entry for the key has been passed over. */
  ghost predicate Keeps(o: Outcome, key: Key, entries: seq<Entry>) {
    match o
    case Scanning(s) => forall e | e in entries && ShapeOf(e.key) == ShapeOf(key) :: e in s.entries
    case Found(_) => true
    case Missing => forall e | e in entries :: ShapeOf(e.key) != ShapeOf(key)
  }

  lemma {:induction false} ScanOk(entries: seq<Entry>, key: Key, cache: seq<Entry>, memos: Memos, clean: bool)
    requires forall e | e in entries :: e in cache
    ensures OutcomeOk(Scan(entries, key), key, cache, memos, clean)
    ensures Keeps(Scan(entries, key), key, entries)
  {
    if entries == [] {
    } else {
      ShapesIff(entries[0].key, key);
      if !SameBucket(entries[0].key, key) {
        ScanOk(entries[1..], key, cache, memos, clean);
      }
    }
  }

  lemma JudgeOk(s: Search, key: Key, d: int, cache: seq<Entry>, memos: Memos, clean: bool)
    requires SearchOk(s, key, cache, memos, clean)
    requires Verdict(Pair(s.entries[0].key.types[s.position], key.types[s.position]), d, clean)
    ensures OutcomeOk(Judge(s, key, d), key, cache, memos, clean)
    ensures Keeps(Judge(s, key, d), key, s.entries)
  {
    ShapesIff(s.entries[0].key, key);
    if d != 0 {
      ScanOk(s.entries[1..], key, cache, memos, clean);
    }
  }

  lemma SearchStepOk(memos: Memos, s: Search, key: Key, cache: seq<Entry>, clean: bool)
    requires Truthful(memos, clean) && SearchOk(s, key, cache, memos, clean)
    requires clean ==> !Misread(memos, s.comparison)
    ensures var (memos', o) := SearchStep(memos, s, key);
            && Truthful(memos', clean) && (forall p | p in memos :: p in memos')
            && OutcomeOk(o, key, cache, memos', clean) && Keeps(o, key, s.entries)
  {
    var goal := Pair(s.entries[0].key.types[s.position], key.types[s.position]);
    AdvanceOk(memos, s.comparison, goal, clean);
    AdvanceKeepsClaims(memos, s.comparison);
    var (memos', r) := Advance(memos, s.comparison);
    if r.Compared? {
      assert SearchOk(s.(comparison := Begin(goal)), key, cache, memos', clean);
      JudgeOk(s.(comparison := Begin(goal)), key, r.result, cache, memos', clean);
    }
  }

  // ---------- what every reachable state keeps ----------

  ghost predicate BuiltFor(instance: Instance, call: Call) {
    && instance.intrinsic == call.key.intrinsic
    && instance.types == call.key.types
    && instance.pointerSize == call.pointerSize
    && CanBuild(call.key, call.pointerSize)
  }

  ghost predicate Holds(e: Entry, instance: Instance, key: Key, clean: bool) {
    e.instance == instance && SameBucket(e.key, key) && (clean ==> ShapeOf(e.key) == ShapeOf(key))
  }

  ghost predicate CallOk(s: State, call: Call, clean: bool) {
    match call.phase
    case Thrown => !CanBuild(call.key, call.pointerSize)
    case Looking(search) => !Refused(call.key) && SearchOk(search, call.key, s.cache, s.memos, clean)
    case Waiting(built) => BuiltFor(built, call)
    case Adding(built, search) =>
      && BuiltFor(built, call) && SearchOk(search, call.key, s.cache, s.memos, clean)
      && Keeps(Scanning(search), call.key, s.cache)
    case Returned(instance) => exists e | e in s.cache :: Holds(e, instance, call.key, clean)
    case _ => !Refused(call.key)
  }

  ghost predicate Made(e: Entry, call: Call) {
    call.phase == Returned(e.instance) && call.key == e.key && BuiltFor(e.instance, call)
  }

  /** Every entry was added by a call for its own key, which returned the instance. */
  ghost predicate EntryOk(s: State, e: Entry) {
    exists k :: 0 <= k < |s.calls| && Made(e, s.calls[k])
  }

  ghost predicate OneEach(cache: seq<Entry>) {
    forall a, b :: 0 <= a < b < |cache| ==> ShapeOf(cache[a].key) != ShapeOf(cache[b].key)
  }

  ghost predicate Exclusive(s: State) {
    forall i, j :: 0 <= i < j < |s.calls| && s.calls[i].phase.Adding? && s.calls[j].phase.Adding? ==>
      !SameBucket(s.calls[i].key, s.calls[j].key)
  }

  ghost predicate Valid(s: State, clean: bool) {
    && Truthful(s.memos, clean)
    && (forall i :: 0 <= i < |s.calls| ==> CallOk(s, s.calls[i], clean))
    && (forall e :: e in s.cache ==> EntryOk(s, e))
    && OneEach(s.cache)
    && Exclusive(s)
  }

  /** A step of call i rests on a comparison of different types that is under way elsewhere. */
  ghost predicate Misreads(s: State, i: nat)
    requires i < |s.calls|
  {
    match s.calls[i].phase
    case Looking(search) => Misread(s.memos, search.comparison)
    case Adding(_, search) => Misread(s.memos, search.comparison)
    case _ => false
  }

  ghost predicate HasLock(s: State, i: nat)
    requires i < |s.calls|
  {
    s.calls[i].phase.Adding? || (s.calls[i].phase.Waiting? && !Locked(s, i))
  }

  /** Call i adds the entry it made, for a key that has none. */
  ghost predicate AddsEntry(s: State, i: nat, t: State)
    requires i < |s.calls| == |t.calls|
  {
    && t.cache != [] && t.cache == [t.cache[0]] + s.cache
    && HasLock(s, i) && t.cache[0].key == s.calls[i].key && Made(t.cache[0], t.calls[i])
    && forall e | e in s.cache :: ShapeOf(e.key) != ShapeOf(s.calls[i].key)
  }

  /** What a step of call i leaves in its place. */
  ghost predicate StepFacts(s: State, i: nat, t: State, clean: bool)
    requires i < |s.calls|
  {
    && |t.calls| == |s.calls|
    && (forall j | 0 <= j < |s.calls| && j != i :: t.calls[j] == s.calls[j])
    && t.calls[i].key == s.calls[i].key && t.calls[i].pointerSize == s.calls[i].pointerSize
    && Truthful(t.memos, clean) && (forall p | p in s.memos :: p in t.memos)
    && CallOk(t, t.calls[i], clean)
    && (t.cache == s.cache || AddsEntry(s, i, t))
    && (t.calls[i].phase.Adding? ==> HasLock(s, i))
    && (Finished(s.calls[i]) ==> t == s)
  }

  lemma LookupFacts(s: State, i: nat, memos: Memos, o: Outcome, clean: bool)
    requires i < |s.calls| && Valid(s, clean)
    requires s.calls[i].phase.Ready? || s.calls[i].phase.Looking?
    requires Truthful(memos, clean) && forall p | p in s.memos :: p in memos
    requires OutcomeOk(o, s.calls[i].key, s.cache, memos, clean)
    ensures StepFacts(s, i, AfterLookup(s.(memos := memos), i, o), clean)
  {
    assert CallOk(s, s.calls[i], clean);
    if o.Found? {
      assert Holds(o.entry, o.entry.instance, s.calls[i].key, clean);
    }
  }

  lemma AddFacts(s: State, i: nat, built: Instance, memos: Memos, o: Outcome, clean: bool)
    requires i < |s.calls| && Valid(s, clean)
    requires HasLock(s, i) && s.calls[i].phase.built == built
    requires Truthful(memos, clean) && forall p | p in s.memos :: p in memos
    requires OutcomeOk(o, s.calls[i].key, s.cache, memos, clean) && Keeps(o, s.calls[i].key, s.cache)
    ensures StepFacts(s, i, AfterAdd(s.(memos := memos), i, built, o), clean)
  {
    assert CallOk(s, s.calls[i], clean);
    if o.Missing? {
      AddedFacts(s, i, built, memos, clean);
    }
  }

  lemma AddedFacts(s: State, i: nat, built: Instance, memos: Memos, clean: bool)
    requires i < |s.calls| && HasLock(s, i) && BuiltFor(built, s.calls[i])
    requires Truthful(memos, clean) && forall p | p in s.memos :: p in memos
    requires forall e | e in s.cache :: ShapeOf(e.key) != ShapeOf(s.calls[i].key)
    ensures StepFacts(s, i, AfterAdd(s.(memos := memos), i, built, Missing), clean)
  {
    var t := AfterAdd(s.(memos := memos), i, built, Missing);
    assert t.cache[0] in t.cache && Holds(t.cache[0], built, s.calls[i].key, clean);
  }

  lemma StepHasFacts(s: State, i: nat, clean: bool)
    requires i < |s.calls| && Valid(s, clean)
    requires clean ==> !Misreads(s, i)
    ensures StepFacts(s, i, Step(s, i), clean)
  {
    var key := s.calls[i].key;
    assert CallOk(s, s.calls[i], clean);
    match s.calls[i].phase
    case Ready =>
      ScanOk(s.cache, key, s.cache, s.memos, clean);
      LookupFacts(s, i, s.memos, Scan(s.cache, key), clean);
    case Looking(search) =>
      SearchStepOk(s.memos, search, key, s.cache, clean);
      var (memos', o) := SearchStep(s.memos, search, key);
      LookupFacts(s, i, memos', o, clean);
    case Building =>
    case Waiting(built) =>
      if !Locked(s, i) {
        ScanOk(s.cache, key, s.cache, s.memos, clean);
        AddFacts(s, i, built, s.memos, Scan(s.cache, key), clean);
      }
    case Adding(built, search) =>
      SearchStepOk(s.memos, search, key, s.cache, clean);
      var (memos', o) := SearchStep(s.memos, search, key);
      AddFacts(s, i, built, memos', o, clean);
    case _ =>
  }

  /** What others do leaves a call in order: they cannot add to a bucket it has locked. */
  lemma OthersKeepCall(s: State, i: nat, t: State, j: nat, clean: bool)
    requires i < |s.calls| && Valid(s, clean) && StepFacts(s, i, t, clean)
    requires j < |s.calls| && j != i
    ensures CallOk(t, s.calls[j], clean)
  {
    var call := s.calls[j];
    assert CallOk(s, call, clean);
    if call.phase.Returned? {
      var e :| e in s.cache && Holds(e, call.phase.instance, call.key, clean);
      assert e in t.cache;
    } else if call.phase.Adding? && t.cache != s.cache {
      ShapesIff(s.calls[i].key, call.key);
      assert SameBucket(s.calls[i].key, call.key) ==> SameBucket(call.key, s.calls[i].key) && Locked(s, i);
    }
  }

  lemma EntriesKept(s: State, i: nat, t: State, e: Entry, clean: bool)
    requires i < |s.calls| && Valid(s, clean) && StepFacts(s, i, t, clean)
    requires e in t.cache
    ensures EntryOk(t, e)
  {
    if e in s.cache {
      assert EntryOk(s, e);
      var k :| 0 <= k < |s.calls| && Made(e, s.calls[k]);
      assert k == i ==> Finished(s.calls[i]);
      assert Made(e, t.calls[k]);
    } else {
      assert Made(e, t.calls[i]);
    }
  }

  lemma StepKeepsValid(s: State, i: nat, clean: bool)
    requires i < |s.calls| && Valid(s, clean)
    requires clean ==> !Misreads(s, i)
    ensures Valid(Step(s, i), clean)
  {
    var t := Step(s, i);
    StepHasFacts(s, i, clean);
    forall j | 0 <= j < |t.calls| ensures CallOk(t, t.calls[j], clean) {
      if j != i {
        OthersKeepCall(s, i, t, j, clean);
      }
    }
    forall e | e in t.cache ensures EntryOk(t, e) {
      EntriesKept(s, i, t, e, clean);
    }
  }

  /** Calls keep what they were asked, finished ones their result, and the cache its entries. */
  ghost predicate Extends(s: State, t: State) {
    && |t.calls| == |s.calls|
    && (forall i :: 0 <= i < |s.calls| ==>
          t.calls[i].key == s.calls[i].key && t.calls[i].pointerSize == s.calls[i].pointerSize &&
          (Finished(s.calls[i]) ==> t.calls[i] == s.calls[i]))
    && |t.cache| >= |s.cache| && t.cache[|t.cache| - |s.cache|..] == s.cache
  }

  lemma StepExtends(s: State, i: nat)
    requires i < |s.calls| && Valid(s, false)
    ensures Extends(s, Step(s, i))
  {
    StepHasFacts(s, i, false);
    var t := Step(s, i);
    if t.cache != s.cache {
      assert t.cache[1..] == s.cache;
    }
  }

  lemma ExtendsTransitive(s: State, t: State, u: State)
    requires Extends(s, t) && Extends(t, u)
    ensures Extends(s, u)
  {
    assert u.cache[|u.cache| - |s.cache|..] == u.cache[|u.cache| - |t.cache|..][|t.cache| - |s.cache|..];
  }

  /** No step of the run misreads. */
  ghost predicate CleanRun(s: State, schedule: seq<nat>)
    requires Schedulable(s, schedule)
    decreases |schedule|
  {
    schedule == [] || (!Misreads(s, schedule[0]) && CleanRun(Step(s, schedule[0]), schedule[1..]))
  }

  lemma {:induction false} RunKeeps(s: State, schedule: seq<nat>, clean: bool)
    requires Schedulable(s, schedule) && Valid(s, clean)
    requires clean ==> CleanRun(s, schedule)
    ensures Valid(Run(s, schedule), clean)
    decreases |schedule|
  {
    if schedule == [] {
    } else {
      StepKeepsValid(s, schedule[0], clean);
      RunKeeps(Step(s, schedule[0]), schedule[1..], clean);
    }
  }

  /** In every run entries never change once added, and finished calls keep their results. */
  lemma {:induction false} RunExtends(s: State, schedule: seq<nat>)
    requires Schedulable(s, schedule) && Valid(s, false)
    ensures Extends(s, Run(s, schedule))
    decreases |schedule|
  {
    if schedule == [] {
    } else {
      var t := Step(s, schedule[0]);
      StepKeepsValid(s, schedule[0], false);
      StepExtends(s, schedule[0]);
      RunExtends(t, schedule[1..]);
      ExtendsTransitive(s, t, Run(s, schedule));
    }
  }

  lemma InitialIsValid(s: State, clean: bool)
    requires Initial(s)
    ensures Valid(s, clean)
  {
    forall i | 0 <= i < |s.calls| ensures CallOk(s, s.calls[i], clean) {
      assert s.calls[i] == NewCall(s.calls[i].key, s.calls[i].pointerSize);
    }
  }

  // ---------- sharing ----------

  ghost predicate SharesRightly(a: Call, b: Call) {
    a.phase.Returned? && b.phase.Returned? ==>
      (a.phase.instance == b.phase.instance <==> ShapeOf(a.key) == ShapeOf(b.key))
  }

  /** Calls that returned share their instance exactly if their keys are equal. */
  ghost predicate Shares(t: State) {
    forall i, j :: 0 <= i < |t.calls| && 0 <= j < |t.calls| ==> SharesRightly(t.calls[i], t.calls[j])
  }

  /** The call returned an instance made for types of the structure it asked for. */
  ghost predicate GotOwnTypes(call: Call) {
    call.phase.Returned? ==>
      ShapeOf(Key(call.phase.instance.intrinsic, call.phase.instance.types)) == ShapeOf(call.key)
  }

  ghost predicate AllGotOwnTypes(t: State) {
    forall i :: 0 <= i < |t.calls| ==> GotOwnTypes(t.calls[i])
  }

  /** Where the instance of a returned call comes from. */
  lemma Origin(t: State, i: nat) returns (e: Entry, k: nat)
    requires Valid(t, false) && i < |t.calls| && t.calls[i].phase.Returned?
    ensures e in t.cache && e.instance == t.calls[i].phase.instance && SameBucket(e.key, t.calls[i].key)
    ensures k < |t.calls| && Made(e, t.calls[k])
    ensures Key(e.instance.intrinsic, e.instance.types) == e.key
  {
    assert CallOk(t, t.calls[i], false);
    e :| e in t.cache && Holds(e, t.calls[i].phase.instance, t.calls[i].key, false);
    assert EntryOk(t, e);
    k :| 0 <= k < |t.calls| && Made(e, t.calls[k]);
  }

  /** In every run the cache has at most one entry for a key, and the calls share instances as
      they should exactly when each got an instance for its own types. */
  lemma SharesIff(s: State, schedule: seq<nat>)
    requires Initial(s) && Schedulable(s, schedule)
    ensures OneEach(Run(s, schedule).cache)
    ensures Shares(Run(s, schedule)) <==> AllGotOwnTypes(Run(s, schedule))
  {
    InitialIsValid(s, false);
    RunKeeps(s, schedule, false);
    var t := Run(s, schedule);
    if Shares(t) {
      forall i | 0 <= i < |t.calls| && t.calls[i].phase.Returned? ensures GotOwnTypes(t.calls[i]) {
        var e, k := Origin(t, i);
        assert SharesRightly(t.calls[i], t.calls[k]);
      }
    }
    if AllGotOwnTypes(t) {
      forall i, j | 0 <= i < |t.calls| && 0 <= j < |t.calls| &&
        t.calls[i].phase.Returned? && t.calls[j].phase.Returned?
        ensures SharesRightly(t.calls[i], t.calls[j])
      {
        assert GotOwnTypes(t.calls[i]) && GotOwnTypes(t.calls[j]);
        var d, k := Origin(t, i);
        var e, l := Origin(t, j);
        if ShapeOf(d.key) == ShapeOf(e.key) {
          EntriesDiffer(t.cache, d, e);
        }
      }
    }
  }

  lemma EntriesDiffer(cache: seq<Entry>, d: Entry, e: Entry)
    requires OneEach(cache) && d in cache && e in cache && ShapeOf(d.key) == ShapeOf(e.key)
    ensures d == e
  {
    var a :| 0 <= a < |cache| && cache[a] == d;
    var b :| 0 <= b < |cache| && cache[b] == e;
    assert !(a < b) && !(b < a);
  }

  /** While nobody reads the provisional result for a pair of different types, equal keys give
      one instance, and different keys different ones. */
  lemma CleanRunsShare(s: State, schedule: seq<nat>)
    requires Initial(s) && Schedulable(s, schedule) && CleanRun(s, schedule)
    ensures Shares(Run(s, schedule))
  {
    InitialIsValid(s, true);
    RunKeeps(s, schedule, true);
    var t := Run(s, schedule);
    InitialIsValid(s, false);
    RunKeeps(s, schedule, false);
    forall i | 0 <= i < |t.calls| && t.calls[i].phase.Returned? ensures GotOwnTypes(t.calls[i]) {
      assert CallOk(t, t.calls[i], true);
      var e :| e in t.cache && Holds(e, t.calls[i].phase.instance, t.calls[i].key, true);
      assert EntryOk(t, e);
    }
    SharesIff(s, schedule);
  }
}
