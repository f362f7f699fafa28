/** The comparison of data types, which remembers its results in a dictionary that all threads
    share: src/Core/Types/DataTypeComparer.cs. */
module TypeComparisons {

  /** A data type. `identity` is what the keys of the dictionary tell apart, `kind` all that is
      compared of the type itself, and `parts` are the types it is made of. */
  datatype DataType = DataType(identity: int, kind: int, parts: seq<DataType>)

  datatype Structure = Structure(kind: int, parts: seq<Structure>)

  function StructureOf(x: DataType): Structure {
    Structure(x.kind, seq(|x.parts|, i requires 0 <= i < |x.parts| => StructureOf(x.parts[i])))
  }

  datatype Pair = Pair(x: DataType, y: DataType)

  /** Two types of one structure. */
  predicate Alike(p: Pair) {
    StructureOf(p.x) == StructureOf(p.y)
  }

  lemma AlikeIff(p: Pair)
    ensures Alike(p) <==>
            && p.x.kind == p.y.kind && |p.x.parts| == |p.y.parts|
            && forall i | 0 <= i < |p.x.parts| && i < |p.y.parts| :: Alike(Pair(p.x.parts[i], p.y.parts[i]))
  {
    var xs, ys := StructureOf(p.x).parts, StructureOf(p.y).parts;
    assert |xs| == |p.x.parts| && |ys| == |p.y.parts|;
    assert forall i | 0 <= i < |xs| :: xs[i] == StructureOf(p.x.parts[i]);
    assert forall i | 0 <= i < |ys| :: ys[i] == StructureOf(p.y.parts[i]);
    if |xs| == |ys| && forall i | 0 <= i < |xs| :: Alike(Pair(p.x.parts[i], p.y.parts[i])) {
      assert xs == ys;
    }
  }

  /** What the dictionary holds for a pair: 0 for the time being, to stop recursion, and later
      the result. */
  datatype Memo = Provisional | Settled(result: int)

  type Memos = map<Pair, Memo>

  function Value(m: Memo): int {
    if m.Provisional? then 0 else m.result
  }

  // ---------- a comparison as steps, one for each access to the dictionary ----------

  /** A pair whose comparison this thread has taken on; the parts before `at` are compared. */
  datatype Frame = Frame(pair: Pair, at: nat)

  /** About to look a pair up, to put the provisional result in, or to replace the latter. */
  datatype Focus = Reading(pair: Pair) | Claiming(pair: Pair) | Settling(result: int)

  datatype Comparison = Comparison(stack: seq<Frame>, focus: Focus)

  datatype Progress = Going(comparison: Comparison) | Compared(result: int)

  function Begin(p: Pair): Comparison {
    Comparison([], Reading(p))
  }

  /** CompareInternal, up to its first recursive call. */
  function Open(p: Pair): Focus {
    if p.x.kind != p.y.kind then
      Settling(p.x.kind - p.y.kind)
    else if |p.x.parts| != |p.y.parts| then
      Settling(|p.x.parts| - |p.y.parts|)
    else if p.x.parts == [] then
      Settling(0)
    else
      Reading(Pair(p.x.parts[0], p.y.parts[0]))
  }

  /** The first parts that differ decide. */
  function Resume(stack: seq<Frame>, d: int): Progress {
    if stack == [] then
      Compared(d)
    else
      var f := stack[|stack| - 1];
      if d == 0 && f.at + 1 < |f.pair.x.parts| && f.at + 1 < |f.pair.y.parts| then
        Going(Comparison(stack[..|stack| - 1] + [f.(at := f.at + 1)],
                         Reading(Pair(f.pair.x.parts[f.at + 1], f.pair.y.parts[f.at + 1]))))
      else
        Going(Comparison(stack, Settling(d)))
  }

  /** One access to the dictionary, and what the thread does up to the next. */
  function Advance(memos: Memos, c: Comparison): (Memos, Progress) {
    match c.focus
    case Reading(p) =>
      if p in memos then (memos, Resume(c.stack, Value(memos[p]))) else (memos, Going(c.(focus := Claiming(p))))
    case Claiming(p) =>
      if p in memos then
        (memos, Going(c.(focus := Reading(p))))
      else
        (memos[p := Provisional], Going(Comparison(c.stack + [Frame(p, 0)], Open(p))))
    case Settling(d) =>
      if c.stack == [] then
        (memos, Compared(d))
      else
        var (rest, p) := (c.stack[..|c.stack| - 1], c.stack[|c.stack| - 1].pair);
        if p in memos && Value(memos[p]) == 0 then
          (memos[p := Settled(d)], Resume(rest, d))
        else
          (memos, Going(Comparison(rest, Reading(p))))
  }

  // ---------- what the results mean ----------

  /** A result that is 0 for types of one structure and, if `clean`, for no others. */
  ghost predicate Verdict(p: Pair, d: int, clean: bool) {
    (Alike(p) ==> d == 0) && (clean && d == 0 ==> Alike(p))
  }

  ghost predicate Truthful(memos: Memos, clean: bool) {
    forall p | p in memos :: memos[p].Settled? ==> Verdict(p, memos[p].result, clean)
  }

  ghost predicate FrameOk(f: Frame, clean: bool) {
    && f.pair.x.kind == f.pair.y.kind
    && f.at < |f.pair.x.parts| == |f.pair.y.parts|
    && (clean ==> forall i | 0 <= i < f.at :: Alike(Pair(f.pair.x.parts[i], f.pair.y.parts[i])))
  }

  /** The comparison of `goal` waits for that of `p`. */
  ghost predicate Awaits(stack: seq<Frame>, goal: Pair, p: Pair, clean: bool) {
    if stack == [] then
      p == goal
    else
      var f := stack[|stack| - 1];
      && FrameOk(f, clean)
      && p == Pair(f.pair.x.parts[f.at], f.pair.y.parts[f.at])
      && Awaits(stack[..|stack| - 1], goal, f.pair, clean)
  }

  ghost predicate ComparisonOk(c: Comparison, goal: Pair, clean: bool) {
    match c.focus
    case Reading(p) => Awaits(c.stack, goal, p, clean)
    case Claiming(p) => Awaits(c.stack, goal, p, clean)
    case Settling(d) =>
      && c.stack != []
      && Awaits(c.stack[..|c.stack| - 1], goal, c.stack[|c.stack| - 1].pair, clean)
      && Verdict(c.stack[|c.stack| - 1].pair, d, clean)
  }

  ghost predicate ProgressOk(r: Progress, goal: Pair, clean: bool) {
    match r
    case Going(c) => ComparisonOk(c, goal, clean)
    case Compared(d) => Verdict(goal, d, clean)
  }

  lemma PartDecides(f: Frame, d: int, clean: bool)
    requires FrameOk(f, clean)
    requires Verdict(Pair(f.pair.x.parts[f.at], f.pair.y.parts[f.at]), d, clean)
    ensures d != 0 || f.at + 1 == |f.pair.x.parts| ==> Verdict(f.pair, d, clean)
    ensures d == 0 && f.at + 1 < |f.pair.x.parts| ==> FrameOk(f.(at := f.at + 1), clean)
  {
    AlikeIff(f.pair);
  }

  lemma ResumeOk(stack: seq<Frame>, goal: Pair, p: Pair, d: int, clean: bool)
    requires Awaits(stack, goal, p, clean) && Verdict(p, d, clean)
    ensures ProgressOk(Resume(stack, d), goal, clean)
  {
    if stack != [] {
      var f := stack[|stack| - 1];
      PartDecides(f, d, clean);
      var next := stack[..|stack| - 1] + [f.(at := f.at + 1)];
      assert next[..|next| - 1] == stack[..|stack| - 1];
    }
  }

  lemma OpenOk(stack: seq<Frame>, goal: Pair, p: Pair, clean: bool)
    requires Awaits(stack, goal, p, clean)
    ensures ComparisonOk(Comparison(stack + [Frame(p, 0)], Open(p)), goal, clean)
  {
    AlikeIff(p);
    assert (stack + [Frame(p, 0)])[..|stack|] == stack;
  }

  /** The read that may go wrong: the comparison of two different types is under way elsewhere. */
  ghost predicate Misread(memos: Memos, c: Comparison) {
    c.focus.Reading? && c.focus.pair in memos && memos[c.focus.pair].Provisional? && !Alike(c.focus.pair)
  }

  /** A step keeps results right, except that a misread spoils what is `clean`. */
  lemma AdvanceOk(memos: Memos, c: Comparison, goal: Pair, clean: bool)
    requires Truthful(memos, clean) && ComparisonOk(c, goal, clean)
    requires clean ==> !Misread(memos, c)
    ensures var (memos', r) := Advance(memos, c); Truthful(memos', clean) && ProgressOk(r, goal, clean)
  {
    match c.focus
    case Reading(p) =>
      if p in memos {
        ResumeOk(c.stack, goal, p, Value(memos[p]), clean);
      }
    case Claiming(p) =>
      OpenOk(c.stack, goal, p, clean);
    case Settling(_) =>
      SettleOk(memos, c, goal, clean);
  }

  lemma SettleOk(memos: Memos, c: Comparison, goal: Pair, clean: bool)
    requires Truthful(memos, clean) && ComparisonOk(c, goal, clean) && c.focus.Settling?
    ensures var (memos', r) := Advance(memos, c); Truthful(memos', clean) && ProgressOk(r, goal, clean)
  {
    ResumeOk(c.stack[..|c.stack| - 1], goal, c.stack[|c.stack| - 1].pair, c.focus.result, clean);
  }

  /** All pairs that the comparison has taken on are in the dictionary. */
  ghost predicate Claimed(memos: Memos, c: Comparison) {
    forall f | f in c.stack :: f.pair in memos
  }

  lemma AdvanceKeepsClaims(memos: Memos, c: Comparison)
    requires Claimed(memos, c)
    ensures var (memos', r) := Advance(memos, c);
            && (forall p | p in memos :: p in memos')
            && (r.Going? ==> Claimed(memos', r.comparison))
  {
  }

  // ---------- every comparison ends ----------

  function Load(x: DataType): nat {
    4 + LoadFrom(x.parts, 0)
  }

  function LoadFrom(parts: seq<DataType>, k: nat): nat
    decreases parts, |parts| - k
  {
    if k >= |parts| then 0 else Load(parts[k]) + LoadFrom(parts, k + 1)
  }

  function FocusLoad(memos: Memos, focus: Focus): nat {
    match focus
    case Reading(p) => if p in memos then 1 else Load(p.x)
    case Claiming(p) => Load(p.x) - 1
    case Settling(_) => 0
  }

  function StackLoad(stack: seq<Frame>): nat {
    if stack == [] then
      0
    else
      var f := stack[|stack| - 1];
      StackLoad(stack[..|stack| - 1]) + 2 + LoadFrom(f.pair.x.parts, f.at + 1)
  }

  /** A bound on the steps that a comparison has left. Steps of others can only lower it. */
  function ComparisonLoad(memos: Memos, c: Comparison): nat {
    StackLoad(c.stack) + FocusLoad(memos, c.focus)
  }

  lemma ResumeLoad(memos: Memos, stack: seq<Frame>, d: int)
    ensures match Resume(stack, d)
            case Going(c) => ComparisonLoad(memos, c) <= StackLoad(stack)
            case Compared(_) => true
  {
    if stack != [] {
      var f := stack[|stack| - 1];
      var next := stack[..|stack| - 1] + [f.(at := f.at + 1)];
      assert next[..|next| - 1] == stack[..|stack| - 1];
      if f.at + 1 < |f.pair.x.parts| {
        var part := f.pair.x.parts[f.at + 1];
        assert LoadFrom(f.pair.x.parts, f.at + 1) == Load(part) + LoadFrom(f.pair.x.parts, f.at + 2);
        assert Load(part) >= 4;
      }
    }
  }

  lemma OpenLoad(memos: Memos, p: Pair)
    ensures FocusLoad(memos, Open(p)) + LoadFrom(p.x.parts, 1) <= LoadFrom(p.x.parts, 0)
  {
    if p.x.parts != [] {
      assert LoadFrom(p.x.parts, 0) == Load(p.x.parts[0]) + LoadFrom(p.x.parts, 1);
    }
  }

  /** Every step of a comparison brings it closer to its end. */
  lemma AdvanceShrinks(memos: Memos, c: Comparison)
    requires c.focus.Settling? ==> c.stack != [] && Claimed(memos, c)
    ensures var (memos', r) := Advance(memos, c);
            r.Going? ==> ComparisonLoad(memos', r.comparison) < ComparisonLoad(memos, c)
  {
    match c.focus
    case Reading(p) =>
      if p in memos {
        ResumeLoad(memos, c.stack, Value(memos[p]));
      }
    case Claiming(p) =>
      var stack := c.stack + [Frame(p, 0)];
      assert stack[..|stack| - 1] == c.stack;
      OpenLoad(memos[p := Provisional], p);
    case Settling(d) =>
      var p := c.stack[|c.stack| - 1].pair;
      ResumeLoad(memos[p := Settled(d)], c.stack[..|c.stack| - 1], d);
  }

  // ---------- a comparison that runs alone ----------

  function Size(x: DataType): nat {
    1 + SizeFrom(x.parts, 0)
  }

  function SizeFrom(parts: seq<DataType>, k: nat): nat
    decreases parts, |parts| - k
  {
    if k >= |parts| then 0 else Size(parts[k]) + SizeFrom(parts, k + 1)
  }

  lemma {:induction false} PartIsSmaller(parts: seq<DataType>, k: nat, i: nat)
    requires k <= i < |parts|
    ensures Size(parts[i]) <= SizeFrom(parts, k)
    decreases i - k
  {
    if k < i {
      PartIsSmaller(parts, k + 1, i);
    } else {
      assert k == i;
    }
  }

  /** Only larger types are under comparison. */
  ghost predicate OnlyLarger(memos: Memos, x: DataType) {
    forall p | p in memos && memos[p].Provisional? :: Size(p.x) > Size(x)
  }

  ghost predicate SameProvisional(before: Memos, after: Memos) {
    forall p :: (p in after && after[p].Provisional?) <==> (p in before && before[p].Provisional?)
  }

  /** Without other threads the result is right: 0 for types of one structure and no others. */
  method Compare(memos: Memos, x: DataType, y: DataType) returns (d: int, memos': Memos)
    requires Truthful(memos, true) && OnlyLarger(memos, x)
    ensures d == 0 <==> Alike(Pair(x, y))
    ensures Truthful(memos', true) && SameProvisional(memos, memos')
    decreases x, 1
  {
    var p := Pair(x, y);
    if p in memos {
      return Value(memos[p]), memos;
    }
    d, memos' := CompareInternal(memos[p := Provisional], x, y);
    memos' := memos'[p := Settled(d)];
  }

  method CompareInternal(memos: Memos, x: DataType, y: DataType) returns (d: int, memos': Memos)
    requires Truthful(memos, true)
    requires forall p | p in memos && memos[p].Provisional? :: Size(p.x) >= Size(x)
    ensures d == 0 <==> Alike(Pair(x, y))
    ensures Truthful(memos', true) && SameProvisional(memos, memos')
    decreases x, 0
  {
    AlikeIff(Pair(x, y));
    memos' := memos;
    if x.kind != y.kind {
      return x.kind - y.kind, memos';
    }
    if |x.parts| != |y.parts| {
      return |x.parts| - |y.parts|, memos';
    }
    for i := 0 to |x.parts|
      invariant Truthful(memos', true) && SameProvisional(memos, memos')
      invariant forall j | 0 <= j < i :: Alike(Pair(x.parts[j], y.parts[j]))
    {
      PartIsSmaller(x.parts, 0, i);
      d, memos' := Compare(memos', x.parts[i], y.parts[i]);
      if d != 0 {
        return;
      }
    }
    return 0, memos';
  }
}
