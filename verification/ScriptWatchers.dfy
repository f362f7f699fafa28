/** Which script files are watched: src/Gui/ProjectFilesWatcher.cs. */
module ScriptWatchers {
  datatype Location = Location(path: string, hasFragments: bool)

  /** A file system watcher. It raises events once it is switched on and until it is disposed. */
  class FileWatcher {
    const Location: Location
    var Raising: bool
    var Disposed: bool

    constructor (location: Location)
      ensures Location == location && !Raising && !Disposed
    {
      Location, Raising, Disposed := location, false, false;
    }
  }

  class Project {
    var ScriptFiles: seq<Location>
  }

  /** Scripts inside archives cannot be watched. */
  ghost function Watchable(scripts: multiset<Location>): set<Location> {
    set l | l in scripts && !l.hasFragments
  }

  lemma WatchableNext(scripts: seq<Location>, i: nat)
    requires i < |scripts|
    ensures Watchable(multiset(scripts[..i + 1])) ==
            Watchable(multiset(scripts[..i])) + if scripts[i].hasFragments then {} else {scripts[i]}
  {
    assert scripts[..i + 1] == scripts[..i] + [scripts[i]];
  }

  // ---------- which scripts are watched ----------

  /** What happens to the watcher: another project is set, scripts are added to the list of the
      project, or that list is changed in another way. */
  datatype Event =
    | ProjectSet(scripts: multiset<Location>)
    | Added(items: multiset<Location>)
    | ChangedOtherwise(scripts: multiset<Location>)

  /** The watched scripts, and those on the list of the current project. */
  datatype State = State(watched: set<Location>, scripts: multiset<Location>)

  /** The handler supports additions only; on other changes of the list it fails. */
  ghost function Step(s: State, e: Event): State {
    match e
    case ProjectSet(scripts) => State(s.watched - Watchable(s.scripts) + Watchable(scripts), scripts)
    case Added(items) => State(s.watched + Watchable(items), s.scripts + items)
    case ChangedOtherwise(scripts) => State(s.watched, scripts)
  }

  ghost function Run(events: seq<Event>, n: nat): State
    requires n <= |events|
  {
    if n == 0 then State({}, multiset{}) else Step(Run(events, n - 1), events[n - 1])
  }

  /** Event k starts watching l, unless it is watched already. */
  ghost predicate Starts(events: seq<Event>, k: nat, l: Location)
    requires k < |events|
  {
    (events[k].ProjectSet? && l in events[k].scripts) || (events[k].Added? && l in events[k].items)
  }

  /** Event k sets another project while l is on the list of the old one. */
  ghost predicate Ends(events: seq<Event>, k: nat, l: Location)
    requires k < |events|
  {
    events[k].ProjectSet? && l in Run(events, k).scripts && l !in events[k].scripts
  }

  ghost predicate StartedLast(events: seq<Event>, k: nat, n: nat, l: Location)
    requires n <= |events|
  {
    k < n && Starts(events, k, l) && forall j | k < j < n :: !Ends(events, j, l)
  }

  /** A script is watched exactly when it is outside archives, was on the list of a project that
      was set, or was added to one, and has not been on the list of a project when that was
      replaced by a project without it. */
  lemma {:induction false} WatchedIff(events: seq<Event>, n: nat, l: Location)
    requires n <= |events|
    ensures l in Run(events, n).watched <==> !l.hasFragments && exists k: nat :: StartedLast(events, k, n, l)
  {
    if n == 0 {
    } else {
      var m: nat := n - 1;
      WatchedIff(events, m, l);
      if k: nat :| StartedLast(events, k, m, l) {
        assert !Ends(events, m, l) ==> StartedLast(events, k, n, l);
      }
      forall k: nat | StartedLast(events, k, n, l)
        ensures k < m ==> StartedLast(events, k, m, l)
      {
      }
      assert Starts(events, m, l) ==> StartedLast(events, m, n, l);
    }
  }

  /** The watched scripts are those of the project exactly when a script is on its list if, and
      only if, it came with a project or was added to one and no project that listed it has been
      replaced since by one that does not. */
  lemma InStepIff(events: seq<Event>, n: nat)
    requires n <= |events|
    ensures Run(events, n).watched == Watchable(Run(events, n).scripts) <==>
            forall l: Location | !l.hasFragments ::
              l in Run(events, n).scripts <==> exists k: nat :: StartedLast(events, k, n, l)
  {
    forall l ensures l in Run(events, n).watched <==>
                     !l.hasFragments && exists k: nat :: StartedLast(events, k, n, l)
    {
      WatchedIff(events, n, l);
    }
    var s := Run(events, n);
    assert s.watched == Watchable(s.scripts) <==> forall l :: l in s.watched <==> l in Watchable(s.scripts);
  }

  /** As long as lists are only added to, the watched scripts are those of the project. */
  lemma {:induction false} AdditionsStayInStep(events: seq<Event>, n: nat)
    requires n <= |events|
    requires forall k | 0 <= k < n :: !events[k].ChangedOtherwise?
    ensures Run(events, n).watched == Watchable(Run(events, n).scripts)
  {
    if n == 0 {
    } else {
      AdditionsStayInStep(events, n - 1);
    }
  }

  ghost predicate WatchedThrough(events: seq<Event>, m: nat, n: nat, l: Location)
    requires n <= |events|
  {
    forall i: nat | m < i <= n :: l in Run(events, i).watched
  }

  lemma WatchedNext(events: seq<Event>, k: nat, l: Location)
    requires k < |events| && !l.hasFragments && l in Run(events, k).watched
    ensures l in Run(events, k + 1).watched <==> !Ends(events, k, l)
  {
    assert Run(events, k + 1) == Step(Run(events, k), events[k]);
  }

  /** Taking a script off the list leaves its watcher behind: it stays watched exactly as long as
      no project that lists it again is replaced by one that does not. */
  lemma {:induction false} RemovalLeavesWatcher(events: seq<Event>, m: nat, n: nat, l: Location)
    requires m < n <= |events| && events[m].ChangedOtherwise?
    requires !l.hasFragments && l in Run(events, m).watched
    ensures WatchedThrough(events, m, n, l) <==> forall k: nat | m < k < n :: !Ends(events, k, l)
    decreases n - m
  {
    var k: nat := n - 1;
    if k == m {
      WatchedNext(events, m, l);
    } else {
      RemovalLeavesWatcher(events, m, k, l);
      assert WatchedThrough(events, m, n, l) <==> WatchedThrough(events, m, k, l) && l in Run(events, n).watched;
      if WatchedThrough(events, m, k, l) {
        WatchedNext(events, k, l);
      }
    }
  }

  // ---------- on the heap ----------

  ghost function ScriptsOf(project: Project?): multiset<Location>
    reads project
  {
    if project == null then multiset{} else multiset(project.ScriptFiles)
  }

  class ProjectFilesWatcher {
    var project: Project?
    var scriptWatchers: map<Location, FileWatcher>
    ghost var Created: set<FileWatcher>

    /** The watchers in the dictionary are live, and all others created so far are disposed. */
    ghost predicate Valid()
      reads this, Created
    {
      && (forall l :: l in scriptWatchers ==>
            var w := scriptWatchers[l];
            w in Created && w.Location == l && w.Raising && !w.Disposed && !l.hasFragments)
      && (forall w :: w in Created && !(w.Location in scriptWatchers && scriptWatchers[w.Location] == w) ==>
            !w.Raising && w.Disposed)
    }

    ghost function View(): State
      reads this, project
    {
      State(scriptWatchers.Keys, ScriptsOf(project))
    }

    constructor ()
      ensures Valid() && project == null && scriptWatchers == map[] && Created == {}
      ensures View() == Run([], 0)
    {
      project, scriptWatchers, Created := null, map[], {};
    }

    /** The body of the loop of AddScripts. */
    method AddScript(location: Location)
      requires Valid()
      modifies this`scriptWatchers, this`Created
      ensures Valid() && fresh(Created - old(Created))
      ensures scriptWatchers.Keys == old(scriptWatchers.Keys) + if location.hasFragments then {} else {location}
      ensures forall l :: l in old(scriptWatchers) ==> scriptWatchers[l] == old(scriptWatchers[l])
    {
      if location.hasFragments {
        return;
      }
      var watcher := new FileWatcher(location);
      Created := Created + {watcher};
      if location !in scriptWatchers {
        scriptWatchers := scriptWatchers[location := watcher];
        watcher.Raising := true;
      } else {
        watcher.Disposed := true;
      }
    }

    /** Starts watching the scripts that are not watched yet. */
    method AddScripts(newScripts: seq<Location>)
      requires Valid()
      modifies this`scriptWatchers, this`Created
      ensures Valid() && fresh(Created - old(Created))
      ensures scriptWatchers.Keys == old(scriptWatchers.Keys) + Watchable(multiset(newScripts))
      ensures forall l :: l in old(scriptWatchers) ==> scriptWatchers[l] == old(scriptWatchers[l])
    {
      for i := 0 to |newScripts|
        invariant Valid() && fresh(Created - old(Created))
        invariant scriptWatchers.Keys == old(scriptWatchers.Keys) + Watchable(multiset(newScripts[..i]))
        invariant forall l :: l in old(scriptWatchers) ==> scriptWatchers[l] == old(scriptWatchers[l])
      {
        WatchableNext(newScripts, i);
        AddScript(newScripts[i]);
      }
      assert newScripts[..|newScripts|] == newScripts;
    }

    /** Stops watching the scripts; those that are not watched are skipped. */
    method RemoveScripts(oldScripts: seq<Location>)
      requires Valid()
      modifies this`scriptWatchers, Created
      ensures Valid()
      ensures scriptWatchers.Keys == old(scriptWatchers.Keys) - Watchable(multiset(oldScripts))
      ensures forall l :: l in scriptWatchers ==> scriptWatchers[l] == old(scriptWatchers)[l]
    {
      for i := 0 to |oldScripts|
        invariant Valid()
        invariant scriptWatchers.Keys == old(scriptWatchers.Keys) - Watchable(multiset(oldScripts[..i]))
        invariant forall l :: l in scriptWatchers ==> scriptWatchers[l] == old(scriptWatchers)[l]
      {
        var location := oldScripts[i];
        WatchableNext(oldScripts, i);
        if location in scriptWatchers {
          var watcher := scriptWatchers[location];
          scriptWatchers := scriptWatchers - {location};
          watcher.Raising := false;
          watcher.Disposed := true;
        }
      }
      assert oldScripts[..|oldScripts|] == oldScripts;
    }

    /** The setter of Project. */
    method SetProject(value: Project?)
      requires Valid()
      modifies this, Created
      ensures Valid() && project == value && fresh(Created - old(Created))
      ensures View() == Step(old(View()), ProjectSet(ScriptsOf(value)))
    {
      if project != null {
        RemoveScripts(project.ScriptFiles);
      }
      project := value;
      if value != null {
        AddScripts(value.ScriptFiles);
      }
    }

    /** The handler of changes of the list of scripts, called after the change; `before` is what
        the list held. Only additions are supported. */
    method OnScriptsChanged(isAdd: bool, newItems: seq<Location>, ghost before: multiset<Location>)
      returns (ok: bool)
      requires Valid()
      requires isAdd ==> ScriptsOf(project) == before + multiset(newItems)
      modifies this`scriptWatchers, this`Created
      ensures Valid() && fresh(Created - old(Created))
      ensures ok == isAdd
      ensures View() == Step(State(old(scriptWatchers.Keys), before),
                             if isAdd then Added(multiset(newItems)) else ChangedOtherwise(ScriptsOf(project)))
    {
      if isAdd {
        AddScripts(newItems);
        return true;
      }
      return false;
    }
  }
}
