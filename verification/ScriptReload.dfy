/** The delayed reload of changed scripts, as steps that change events and timers may
    interleave: src/Gui/ProjectFilesWatcher.cs.

    A change marks the path and starts a timer, unless the path is marked; the timer unmarks it
    and attempts a reload. Handlers and timers run on threads of their own, so marking, starting,
    unmarking and attempting are steps that can come in any order that the code allows.
  */
module ScriptReloads {
  type Path = string

  /** The life of one change event. Its handler tries to mark the path, then starts a timer;
      when that elapses, the path is unmarked and its script is reloaded. */
  datatype Phase = Raised | Starting | Ticking | Elapsed | Reloading | Done

  /** `version` counts the changes of the path when the event was raised. */
  datatype Task = Task(path: Path, phase: Phase, version: nat)

  /** changedFiles holds the marked paths; `changes` counts the changes of each path, and
      `attempted` those that happened before its last reload attempt began. */
  datatype State = State(tasks: seq<Task>, changedFiles: set<Path>, changes: map<Path, nat>, attempted: map<Path, nat>)

  datatype Event = Change(path: Path) | Advance(task: nat)

  const INITIAL := State([], {}, map[], map[])

  function Count(counts: map<Path, nat>, path: Path): nat {
    if path in counts then counts[path] else 0
  }

  function InPhase(s: State, i: nat, phase: Phase): State
    requires i < |s.tasks|
  {
    s.(tasks := s.tasks[i := s.tasks[i].(phase := phase)])
  }

  function Step(s: State, event: Event): State {
    match event
    case Change(path) =>
      var version := Count(s.changes, path) + 1;
      s.(changes := s.changes[path := version], tasks := s.tasks + [Task(path, Raised, version)])
    case Advance(i) => if i < |s.tasks| then AdvanceTask(s, i) else s
  }

  /** Marking and unmarking a path are atomic. */
  function AdvanceTask(s: State, i: nat): State
    requires i < |s.tasks|
  {
    var path := s.tasks[i].path;
    match s.tasks[i].phase
    case Raised =>
      if path in s.changedFiles then
        InPhase(s, i, Done)
      else
        InPhase(s, i, Starting).(changedFiles := s.changedFiles + {path})
    case Starting => InPhase(s, i, Ticking)
    case Ticking => InPhase(s, i, Elapsed)
    case Elapsed =>
      if path in s.changedFiles then
        InPhase(s, i, Reloading).(changedFiles := s.changedFiles - {path})
      else
        InPhase(s, i, Done)
    case Reloading => InPhase(s, i, Done).(attempted := s.attempted[path := Count(s.changes, path)])
    case Done => s
  }

  function Run(s: State, events: seq<Event>): State
    decreases |events|
  {
    if events == [] then s else Run(Step(s, events[0]), events[1..])
  }

  // ---------- one timer for each marked path ----------

  /** A task that owns a timer, or is about to start it or to unmark its path. */
  predicate Holds(t: Task) {
    t.phase.Starting? || t.phase.Ticking? || t.phase.Elapsed?
  }

  ghost predicate Holder(s: State, i: nat, path: Path) {
    i < |s.tasks| && s.tasks[i].path == path && Holds(s.tasks[i])
  }

  /** A path is marked exactly while one task, and only one, holds its timer. */
  ghost predicate OneTimer(s: State) {
    && (forall i: nat, j: nat, path :: Holder(s, i, path) && Holder(s, j, path) ==> i == j)
    && (forall path :: path in s.changedFiles <==> exists i: nat :: Holder(s, i, path))
  }

  lemma StepKeepsOneTimer(s: State, event: Event)
    requires OneTimer(s)
    ensures OneTimer(Step(s, event))
  {
    var t := Step(s, event);
    if event.Change? {
      forall i: nat, path
        ensures Holder(t, i, path) <==> Holder(s, i, path)
      {
      }
    } else if event.task < |s.tasks| {
      forall i: nat, j: nat, path | Holder(t, i, path) && Holder(t, j, path)
        ensures i == j
      {
        if i < j {
          OneHolder(s, event.task, i, j, path);
        } else if j < i {
          OneHolder(s, event.task, j, i, path);
        }
      }
      forall path
        ensures path in t.changedFiles <==> exists i: nat :: Holder(t, i, path)
      {
        MarkIff(s, event.task, path);
      }
    }
  }

  lemma OneHolder(s: State, k: nat, i: nat, j: nat, path: Path)
    requires OneTimer(s) && k < |s.tasks| && i < j
    ensures !(Holder(AdvanceTask(s, k), i, path) && Holder(AdvanceTask(s, k), j, path))
  {
    var t := AdvanceTask(s, k);
    assert i != k && Holder(t, i, path) ==> Holder(s, i, path);
    assert j != k && Holder(t, j, path) ==> Holder(s, j, path);
    if s.tasks[k].phase != Raised {
      assert Holder(t, k, path) ==> Holder(s, k, path);
    }
  }

  lemma MarkIff(s: State, k: nat, path: Path)
    requires OneTimer(s) && k < |s.tasks|
    ensures path in AdvanceTask(s, k).changedFiles <==> exists i: nat :: Holder(AdvanceTask(s, k), i, path)
  {
    var t := AdvanceTask(s, k);
    if path in t.changedFiles {
      if path in s.changedFiles {
        var i: nat :| Holder(s, i, path);
        assert i == k ==> Holder(s, k, path);
        assert Holder(t, i, path);
      } else {
        assert Holder(t, k, path);
      }
    }
    if i: nat :| Holder(t, i, path) {
      if i != k {
        assert Holder(s, i, path);
        assert s.tasks[k].phase.Elapsed? ==> Holder(s, k, s.tasks[k].path);
      } else if s.tasks[k].phase != Raised {
        assert Holder(s, k, path);
      }
    }
  }

  // ---------- no change is lost ----------

  /** A reload of the path is on its way: its timer is held, or the attempt is about to begin. */
  ghost predicate Coming(s: State, path: Path) {
    exists i :: 0 <= i < |s.tasks| && OnItsWay(s.tasks[i], path)
  }

  predicate OnItsWay(t: Task, path: Path) {
    t.path == path && (Holds(t) || t.phase.Reloading?)
  }

  /** An event whose handling is over came before an attempt, or a reload is on its way. */
  ghost predicate Served(s: State, t: Task) {
    t.phase.Done? ==> t.version <= Count(s.attempted, t.path) || Coming(s, t.path)
  }

  ghost predicate Covered(s: State) {
    && (forall i :: 0 <= i < |s.tasks| ==>
          Served(s, s.tasks[i]) && s.tasks[i].version <= Count(s.changes, s.tasks[i].path))
    && (forall path :: Count(s.attempted, path) <= Count(s.changes, path))
    && (forall path :: Count(s.changes, path) > 0 ==> LastEvent(s, path))
  }

  ghost predicate LastEvent(s: State, path: Path) {
    exists i :: 0 <= i < |s.tasks| && s.tasks[i].path == path && s.tasks[i].version == Count(s.changes, path)
  }

  lemma StepKeepsCovered(s: State, event: Event)
    requires OneTimer(s) && Covered(s)
    ensures Covered(Step(s, event))
  {
    var t := Step(s, event);
    forall i | 0 <= i < |t.tasks|
      ensures Served(t, t.tasks[i]) && t.tasks[i].version <= Count(t.changes, t.tasks[i].path)
    {
      StepServes(s, event, i);
      VersionKept(s, event, i);
    }
    forall path | Count(t.changes, path) > 0
      ensures LastEvent(t, path)
    {
      LastEventKept(s, event, path);
    }
  }

  lemma LastEventKept(s: State, event: Event, path: Path)
    requires Covered(s) && Count(Step(s, event).changes, path) > 0
    ensures LastEvent(Step(s, event), path)
  {
    var t := Step(s, event);
    if event == Change(path) {
      assert t.tasks[|s.tasks|].path == path;
    } else {
      assert LastEvent(s, path);
      var i :| 0 <= i < |s.tasks| && s.tasks[i].path == path && s.tasks[i].version == Count(s.changes, path);
      assert t.tasks[i].path == path;
    }
  }

  lemma VersionKept(s: State, event: Event, i: nat)
    requires Covered(s) && i < |Step(s, event).tasks|
    ensures var t := Step(s, event);
            t.tasks[i].version <= Count(t.changes, t.tasks[i].path)
  {
    if i < |s.tasks| {
      assert s.tasks[i].version <= Count(s.changes, s.tasks[i].path);
    }
  }

  lemma StepServes(s: State, event: Event, i: nat)
    requires OneTimer(s) && Covered(s) && i < |Step(s, event).tasks|
    ensures Served(Step(s, event), Step(s, event).tasks[i])
  {
    if i < |s.tasks| && s.tasks[i].phase.Done? {
      StaysServed(s, event, i);
    } else if event == Advance(i) && i < |s.tasks| {
      if AdvanceTask(s, i).tasks[i].phase.Done? {
        DoneIsServed(s, i);
      }
    } else {
      assert !Step(s, event).tasks[i].phase.Done?;
    }
  }

  lemma StaysServed(s: State, event: Event, i: nat)
    requires OneTimer(s) && Covered(s) && i < |s.tasks| && s.tasks[i].phase.Done?
    ensures Served(Step(s, event), Step(s, event).tasks[i])
  {
    var task := s.tasks[i];
    assert Served(s, task);
    assert Step(s, event).tasks[i] == task;
    if Coming(s, task.path) {
      ComingKept(s, event, task.path);
    } else {
    }
  }

  /** A handler ends early only because the timer of its path has not been unmarked yet. */
  lemma DoneIsServed(s: State, i: nat)
    requires OneTimer(s) && Covered(s) && i < |s.tasks|
    requires !s.tasks[i].phase.Done? && AdvanceTask(s, i).tasks[i].phase.Done?
    ensures Served(AdvanceTask(s, i), AdvanceTask(s, i).tasks[i])
  {
    var path, t := s.tasks[i].path, AdvanceTask(s, i);
    if s.tasks[i].phase.Raised? {
      var j: nat :| Holder(s, j, path);
      assert OnItsWay(t.tasks[j], path);
    } else if s.tasks[i].phase.Elapsed? {
      assert Holder(s, i, path);
    }
  }

  /** A reload on its way stays so until its attempt begins, which serves all events so far. */
  lemma ComingKept(s: State, event: Event, path: Path)
    requires OneTimer(s) && Covered(s) && Coming(s, path)
    ensures var t := Step(s, event);
            Coming(t, path) || Count(t.attempted, path) == Count(s.changes, path) == Count(t.changes, path)
  {
    var t := Step(s, event);
    var j :| 0 <= j < |s.tasks| && OnItsWay(s.tasks[j], path);
    if event == Advance(j) {
      assert s.tasks[j].phase.Elapsed? ==> Holder(s, j, path);
      assert s.tasks[j].phase.Reloading? || OnItsWay(t.tasks[j], path);
    } else {
      assert OnItsWay(t.tasks[j], path);
    }
  }

  lemma {:induction false} RunKeeps(s: State, events: seq<Event>)
    requires OneTimer(s) && Covered(s)
    ensures OneTimer(Run(s, events)) && Covered(Run(s, events))
    decreases |events|
  {
    if events == [] {
    } else {
      StepKeepsOneTimer(s, events[0]);
      StepKeepsCovered(s, events[0]);
      RunKeeps(Step(s, events[0]), events[1..]);
    }
  }

  /** In every interleaving a path is marked exactly while it has one live timer, and unmarking
      a path whose timer has elapsed never fails. */
  lemma TimersMatchMarks(events: seq<Event>, path: Path)
    ensures var s := Run(INITIAL, events);
            && (path in s.changedFiles <==> exists i: nat :: Holder(s, i, path))
            && (forall i: nat, j: nat :: Holder(s, i, path) && Holder(s, j, path) ==> i == j)
            && (forall i :: 0 <= i < |s.tasks| && s.tasks[i].phase.Elapsed? ==> s.tasks[i].path in s.changedFiles)
  {
    RunKeeps(INITIAL, events);
    var s := Run(INITIAL, events);
    forall i | 0 <= i < |s.tasks| && s.tasks[i].phase.Elapsed?
      ensures s.tasks[i].path in s.changedFiles
    {
      assert Holder(s, i, s.tasks[i].path);
    }
  }

  /** In every interleaving, a handled change event is followed by a reload attempt that begins
      after it or is on its way; once nothing is left to do, the last attempt for every path
      came after its last change. */
  lemma NoChangeIsLost(events: seq<Event>)
    ensures var s := Run(INITIAL, events);
            && (forall i :: 0 <= i < |s.tasks| ==> Served(s, s.tasks[i]))
            && ((forall i :: 0 <= i < |s.tasks| ==> s.tasks[i].phase.Done?) ==>
                  forall path :: Count(s.attempted, path) == Count(s.changes, path))
  {
    RunKeeps(INITIAL, events);
    var s := Run(INITIAL, events);
    if forall i :: 0 <= i < |s.tasks| ==> s.tasks[i].phase.Done? {
      forall path
        ensures Count(s.attempted, path) == Count(s.changes, path)
      {
        if Count(s.changes, path) > 0 {
          assert LastEvent(s, path);
          var i :| 0 <= i < |s.tasks| && s.tasks[i].path == path && s.tasks[i].version == Count(s.changes, path);
          assert Served(s, s.tasks[i]);
        }
      }
    }
  }
}
