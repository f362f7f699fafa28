/** Reloads do happen: every change event is handled in a bounded number of steps. */
module ScriptProgress {
  import opened ScriptReloads

  /** How many steps the handling of an event has left, at most. */
  function StepsLeft(phase: Phase): nat {
    match phase
    case Raised => 5
    case Starting => 4
    case Ticking => 3
    case Elapsed => 2
    case Reloading => 1
    case Done => 0
  }

  function AllStepsLeft(tasks: seq<Task>): nat {
    if tasks == [] then 0 else StepsLeft(tasks[0].phase) + AllStepsLeft(tasks[1..])
  }

  ghost predicate AllDone(s: State) {
    forall i :: 0 <= i < |s.tasks| ==> s.tasks[i].phase.Done?
  }

  ghost predicate OnlyAdvances(events: seq<Event>) {
    forall k :: 0 <= k < |events| ==> events[k].Advance?
  }

  /** A step of an event brings it closer to its end, and no other event further from it. */
  lemma AdvanceIsProgress(s: State, i: nat)
    requires i < |s.tasks| && !s.tasks[i].phase.Done?
    ensures var t := Step(s, Advance(i));
            && |t.tasks| == |s.tasks|
            && StepsLeft(t.tasks[i].phase) < StepsLeft(s.tasks[i].phase)
            && forall j | 0 <= j < |s.tasks| && j != i :: t.tasks[j] == s.tasks[j]
  {
  }

  lemma {:induction false} LessLeft(before: seq<Task>, after: seq<Task>, i: nat)
    requires i < |before| == |after| && StepsLeft(after[i].phase) < StepsLeft(before[i].phase)
    requires forall j | 0 <= j < |before| && j != i :: after[j] == before[j]
    ensures AllStepsLeft(after) < AllStepsLeft(before)
    decreases |before|
  {
    if i == 0 {
      assert after[1..] == before[1..];
    } else {
      LessLeft(before[1..], after[1..], i - 1);
    }
  }

  lemma {:induction false} NoneLeftIff(tasks: seq<Task>)
    ensures AllStepsLeft(tasks) == 0 <==> forall i :: 0 <= i < |tasks| ==> tasks[i].phase.Done?
  {
    if tasks == [] {
    } else {
      NoneLeftIff(tasks[1..]);
      assert forall i | 0 < i < |tasks| :: tasks[i] == tasks[1..][i - 1];
    }
  }

  /** If nothing else changes, all events are handled within the steps that are left. */
  lemma {:induction false} Finishes(s: State) returns (events: seq<Event>)
    ensures OnlyAdvances(events) && |events| <= AllStepsLeft(s.tasks) && AllDone(Run(s, events))
    decreases AllStepsLeft(s.tasks)
  {
    events := [];
    if i :| 0 <= i < |s.tasks| && !s.tasks[i].phase.Done? {
      var t := Step(s, Advance(i));
      AdvanceIsProgress(s, i);
      LessLeft(s.tasks, t.tasks, i);
      var rest := Finishes(t);
      events := [Advance(i)] + rest;
      assert events[1..] == rest;
    }
  }

  lemma {:induction false} RunConcat(s: State, a: seq<Event>, b: seq<Event>)
    ensures Run(s, a + b) == Run(Run(s, a), b)
    decreases |a|
  {
    if a == [] {
      assert a + b == b;
    } else {
      assert (a + b)[0] == a[0] && (a + b)[1..] == a[1..] + b;
      RunConcat(Step(s, a[0]), a[1..], b);
    }
  }

  /** Without further changes the counts of changes stay as they are. */
  lemma {:induction false} AdvancesKeepChanges(s: State, events: seq<Event>)
    requires OnlyAdvances(events)
    ensures Run(s, events).changes == s.changes
    decreases |events|
  {
    if events == [] {
    } else {
      AdvancesKeepChanges(Step(s, events[0]), events[1..]);
    }
  }

  /** Every run can be continued, by steps of the events raised in it alone, until all of them
      are handled; the last attempt for each path then came after the last change of the run. */
  lemma EveryChangeIsReloaded(events: seq<Event>) returns (more: seq<Event>)
    ensures OnlyAdvances(more) && |more| <= AllStepsLeft(Run(INITIAL, events).tasks)
    ensures AllDone(Run(INITIAL, events + more))
    ensures forall path ::
              Count(Run(INITIAL, events + more).attempted, path) == Count(Run(INITIAL, events).changes, path)
  {
    var s := Run(INITIAL, events);
    more := Finishes(s);
    RunConcat(INITIAL, events, more);
    AdvancesKeepChanges(s, more);
    NoChangeIsLost(events + more);
  }

  // ---------- however the steps are chosen ----------

  /** How many steps of the run were taken by an event that was not handled yet. */
  function StepsTaken(s: State, events: seq<Event>): nat
    decreases |events|
  {
    if events == [] then 0
    else
      (match events[0]
       case Change(_) => 0
       case Advance(i) => if i < |s.tasks| && !s.tasks[i].phase.Done? then 1 else 0)
      + StepsTaken(Step(s, events[0]), events[1..])
  }

  function Raises(events: seq<Event>): nat {
    if events == [] then 0 else (if events[0].Change? then 1 else 0) + Raises(events[1..])
  }

  lemma {:induction false} OneMoreLeft(tasks: seq<Task>, task: Task)
    ensures AllStepsLeft(tasks + [task]) == AllStepsLeft(tasks) + StepsLeft(task.phase)
  {
    if tasks == [] {
      assert tasks + [task] == [task];
    } else {
      OneMoreLeft(tasks[1..], task);
      assert (tasks + [task])[1..] == tasks[1..] + [task];
    }
  }

  /** However the steps interleave, each change costs five of them at most. */
  lemma {:induction false} StepsBounded(s: State, events: seq<Event>)
    ensures StepsTaken(s, events) + AllStepsLeft(Run(s, events).tasks) <= AllStepsLeft(s.tasks) + 5 * Raises(events)
    decreases |events|
  {
    if events == [] {
    } else {
      var t := Step(s, events[0]);
      StepsBounded(t, events[1..]);
      match events[0]
      case Change(path) =>
        OneMoreLeft(s.tasks, t.tasks[|s.tasks|]);
      case Advance(i) =>
        if i < |s.tasks| && !s.tasks[i].phase.Done? {
          AdvanceIsProgress(s, i);
          LessLeft(s.tasks, t.tasks, i);
        }
    }
  }

  // ---------- what the counts count ----------

  function Changes(events: seq<Event>, path: Path): nat {
    if events == [] then 0
    else Changes(events[..|events| - 1], path) + if events[|events| - 1] == Change(path) then 1 else 0
  }

  lemma RunLast(events: seq<Event>)
    requires events != []
    ensures var front, last := events[..|events| - 1], events[|events| - 1];
            Run(INITIAL, events) == Step(Run(INITIAL, front), last)
  {
    var front, last := events[..|events| - 1], events[|events| - 1];
    RunConcat(INITIAL, front, [last]);
    assert events == front + [last];
    assert Run(Run(INITIAL, front), [last]) == Run(Step(Run(INITIAL, front), last), []);
  }

  /** `changes` counts the changes of each path. */
  lemma {:induction false} ChangesAreCounted(events: seq<Event>, path: Path)
    ensures Count(Run(INITIAL, events).changes, path) == Changes(events, path)
  {
    if events == [] {
    } else {
      ChangesAreCounted(events[..|events| - 1], path);
      RunLast(events);
    }
  }

  /** The k-th event is the one that begins a reload of the path. */
  ghost predicate AttemptAt(events: seq<Event>, k: nat, path: Path)
    requires k < |events|
  {
    var s := Run(INITIAL, events[..k]);
    && events[k].Advance? && events[k].task < |s.tasks|
    && s.tasks[events[k].task].path == path && s.tasks[events[k].task].phase.Reloading?
  }

  /** The k-th event is the last of these. */
  ghost predicate LastAttempt(events: seq<Event>, k: nat, path: Path) {
    && k < |events| && AttemptAt(events, k, path)
    && forall j: nat | k < j < |events| :: !AttemptAt(events, j, path)
  }

  lemma AttemptOfPrefix(events: seq<Event>, n: nat, k: nat, path: Path)
    requires k < n <= |events|
    ensures AttemptAt(events[..n], k, path) <==> AttemptAt(events, k, path)
  {
    assert events[..n][..k] == events[..k];
  }

  lemma AttemptNext(events: seq<Event>, path: Path)
    requires events != []
    ensures var n: nat := |events| - 1;
            Count(Run(INITIAL, events).attempted, path) ==
            if AttemptAt(events, n, path) then Changes(events[..n], path)
            else Count(Run(INITIAL, events[..n]).attempted, path)
  {
    RunLast(events);
    ChangesAreCounted(events[..|events| - 1], path);
  }

  lemma SameAttempts(events: seq<Event>, n: nat, path: Path)
    requires n + 1 == |events|
    ensures forall k: nat | k < n :: AttemptAt(events[..n], k, path) <==> AttemptAt(events, k, path)
  {
    forall k: nat | k < n ensures AttemptAt(events[..n], k, path) <==> AttemptAt(events, k, path) {
      AttemptOfPrefix(events, n, k, path);
    }
  }

  ghost predicate NoAttempt(events: seq<Event>, path: Path) {
    forall k: nat | k < |events| :: !AttemptAt(events, k, path)
  }

  /** `attempted` is how many changes of the path came before the last reload of it began, and 0
      if there was none. */
  lemma {:induction false} AttemptsAreCounted(events: seq<Event>, path: Path, k: nat)
    ensures NoAttempt(events, path) ==> Count(Run(INITIAL, events).attempted, path) == 0
    ensures LastAttempt(events, k, path) ==>
              Count(Run(INITIAL, events).attempted, path) == Changes(events[..k], path)
  {
    if events == [] {
    } else {
      var n: nat := |events| - 1;
      AttemptsAreCounted(events[..n], path, k);
      AttemptNext(events, path);
      SameAttempts(events, n, path);
      if k < n {
        assert events[..n][..k] == events[..k];
      }
    }
  }
}
