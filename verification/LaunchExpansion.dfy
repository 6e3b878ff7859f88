/** Start-up: the stored launch entries become the tabs of the first window. */
module LaunchExpansion {
  import opened Common
  import opened Forest
  import opened LaunchEntries
  import opened StartupRun
  import opened StartupSafety

  datatype Tab = Tab(parent: int, active: bool, wait: bool, name: Maybe<string>, icon: Maybe<string>,
                     color: Maybe<string>, target: Maybe<string>, workingDir: Maybe<string>,
                     argv: Maybe<seq<string>>)

  /** What the command line and the environment contribute. */
  datatype Options = Options(windows: seq<seq<Tab>>, execArgv: Maybe<seq<string>>, defaultWait: bool,
                             shell: string, home: string)

  function NonEmpty(s: string): Maybe<string> {
    if s == "" then Nothing else Just(s)
  }

  function ExpandTilde(dir: string, home: string): Maybe<string> {
    if dir == "" then Nothing
    else if dir[0] == '~' && (|dir| == 1 || dir[1] == '/') then Just(home + dir[1..])
    else Just(dir)
  }

  function Shell(shell: string): string {
    if shell == "" then "/bin/bash" else shell
  }

  function Argv(cmd: string, shell: string): Maybe<seq<string>> {
    if cmd == "" then Nothing
    else Just([Shell(shell), "-c", cmd + "; exec " + Shell(shell)])
  }

  /** The user said nothing about what to run: one window, one tab without command and directory, no command. */
  predicate Triggers(o: Options) {
    && |o.windows| == 1
    && |o.windows[0]| == 1
    && o.windows[0][0].argv.Nothing? && o.windows[0][0].workingDir.Nothing?
    && o.execArgv.Nothing?
  }

  /** A parent id counts only if it resolves to an earlier entry. */
  function ParentTab(entries: seq<Entry>, i: int): (r: int)
    requires 0 <= i < |entries|
    ensures -1 <= r < i
  {
    var r := Resolve(entries, entries[i].parentId);
    if r < i then r else -1
  }

  function TabOf(o: Options, entries: seq<Entry>, i: int): Tab
    requires 0 <= i < |entries|
  {
    var e := entries[i];
    Tab(ParentTab(entries, i), i == 0, o.defaultWait, NonEmpty(e.name), NonEmpty(e.icon), NonEmpty(e.color),
        NonEmpty(e.target), ExpandTilde(e.dir, o.home), Argv(e.cmd, o.shell))
  }

  /** A text that the entry may leave out: absent exactly when it is empty. */
  ghost predicate Carries(field: Maybe<string>, text: string) {
    if text == "" then field == Nothing else field == Just(text)
  }

  /** A directory as written, but with the home directory for a leading tilde. */
  ghost predicate CarriesDir(field: Maybe<string>, dir: string, home: string) {
    && (dir == "" ==> field == Nothing)
    && (dir == "~" ==> field == Just(home))
    && (forall more: string :: dir == "~/" + more ==> field == Just(home + "/" + more))
    && (dir != "" && dir != "~" && !(|dir| >= 2 && dir[..2] == "~/") ==> field == Just(dir))
  }

  /** The command, run by the user's shell, which then takes its place. */
  ghost predicate CarriesCommand(field: Maybe<seq<string>>, cmd: string, shell: string) {
    && (cmd == "" ==> field == Nothing)
    && (cmd != "" && shell != "" ==> field == Just([shell, "-c", cmd + "; exec " + shell]))
    && (cmd != "" && shell == "" ==> field == Just(["/bin/bash", "-c", cmd + "; exec /bin/bash"]))
  }

  /** The parent is the last entry that has the parent id, if that comes earlier. */
  ghost predicate CarriesParent(entries: seq<Entry>, i: int, parent: int)
    requires 0 <= i < |entries|
  {
    var pid := entries[i].parentId;
    && -1 <= parent < i
    && (parent >= 0 ==> pid != "" && entries[parent].id == pid)
    && (parent >= 0 ==> forall k :: parent < k < |entries| ==> entries[k].id != pid)
    && (parent == -1 ==> pid == "" || (forall k :: 0 <= k < |entries| ==> entries[k].id != pid)
                         || exists k :: i <= k < |entries| && entries[k].id == pid)
  }

  /** Tab `i` shows entry `i`, field by field. */
  ghost predicate ShowsEntry(o: Options, entries: seq<Entry>, i: int, tab: Tab)
    requires 0 <= i < |entries|
  {
    var e := entries[i];
    && CarriesParent(entries, i, tab.parent)
    && (tab.active <==> i == 0)
    && tab.wait == o.defaultWait
    && Carries(tab.name, e.name) && Carries(tab.icon, e.icon)
    && Carries(tab.color, e.color) && Carries(tab.target, e.target)
    && CarriesDir(tab.workingDir, e.dir, o.home)
    && CarriesCommand(tab.argv, e.cmd, o.shell)
  }

  lemma DirIsCarried(dir: string, home: string)
    ensures CarriesDir(ExpandTilde(dir, home), dir, home)
  {
    if dir == "~" {
      assert home + dir[1..] == home;
    }
    forall more: string | dir == "~/" + more
      ensures ExpandTilde(dir, home) == Just(home + "/" + more)
    {
      assert dir[0] == '~' && dir[1] == '/' && dir[1..] == "/" + more;
      assert home + ("/" + more) == home + "/" + more;
    }
    if |dir| >= 2 && dir[0] == '~' && dir[1] == '/' {
      assert dir[..2] == "~/";
    }
  }

  lemma CommandIsCarried(cmd: string, shell: string)
    ensures CarriesCommand(Argv(cmd, shell), cmd, shell)
  {
    assert cmd + "; exec " + "/bin/bash" == cmd + "; exec /bin/bash";
  }

  lemma ParentIsCarried(entries: seq<Entry>, i: int)
    requires 0 <= i < |entries|
    ensures CarriesParent(entries, i, ParentTab(entries, i))
  {
    var r := Resolve(entries, entries[i].parentId);
    if r >= i {
      assert entries[r].id == entries[i].parentId;
    }
  }

  /** No other tab shows the entry, so the expansion is determined field by field. */
  lemma TabShowsEntry(o: Options, entries: seq<Entry>, i: int, tab: Tab)
    requires 0 <= i < |entries|
    ensures ShowsEntry(o, entries, i, tab) <==> tab == TabOf(o, entries, i)
  {
    var e := entries[i];
    DirIsCarried(e.dir, o.home);
    CommandIsCarried(e.cmd, o.shell);
    ParentIsCarried(entries, i);
    if ShowsEntry(o, entries, i, tab) {
      DirIsDetermined(e.dir, o.home, tab.workingDir, ExpandTilde(e.dir, o.home));
      ParentIsDetermined(entries, i, tab.parent, ParentTab(entries, i));
    }
    hide CarriesDir, CarriesParent, ExpandTilde, ParentTab, Argv;
  }

  /** The expansion happens exactly when there is one window with one tab and neither that tab nor the command line
      says what to run or where. */
  lemma TriggersIff(o: Options)
    ensures Triggers(o) <==>
              && o.execArgv == Nothing
              && exists t: Tab :: o.windows == [[t]] && t.argv == Nothing && t.workingDir == Nothing
  {
    if Triggers(o) {
      assert o.windows[0] == [o.windows[0][0]];
      assert o.windows == [[o.windows[0][0]]];
    }
  }

  lemma DirIsDetermined(dir: string, home: string, a: Maybe<string>, b: Maybe<string>)
    requires CarriesDir(a, dir, home) && CarriesDir(b, dir, home)
    ensures a == b
  {
    if |dir| >= 2 && dir[..2] == "~/" {
      assert dir == "~/" + dir[2..];
    }
  }

  lemma ParentIsDetermined(entries: seq<Entry>, i: int, a: int, b: int)
    requires 0 <= i < |entries| && CarriesParent(entries, i, a) && CarriesParent(entries, i, b)
    ensures a == b
  {
  }

  /** The first pass: the index of every id. */
  method IndexIds(entries: seq<Entry>) returns (indexOfId: map<string, int>)
    ensures forall id :: id in indexOfId <==> Resolve(entries, id) >= 0
    ensures forall id :: id in indexOfId ==> id != "" && indexOfId[id] == Resolve(entries, id)
  {
    indexOfId := map[];
    for idx := 0 to |entries|
      invariant Indexes(entries, idx, indexOfId)
    {
      IndexNext(entries, idx, indexOfId);
      if entries[idx].id != "" {
        indexOfId := indexOfId[entries[idx].id := idx];
      }
    }
  }

  /** The table holds the last index of every id among the first `n` entries. */
  ghost predicate Indexes(entries: seq<Entry>, n: nat, m: map<string, int>)
    requires n <= |entries|
  {
    && (forall id :: id in m <==> id != "" && IndexBefore(entries, id, n) >= 0)
    && (forall id :: id in m ==> m[id] == IndexBefore(entries, id, n))
  }

  lemma IndexNext(entries: seq<Entry>, n: nat, m: map<string, int>)
    requires n < |entries| && Indexes(entries, n, m)
    ensures Indexes(entries, n + 1, if entries[n].id == "" then m else m[entries[n].id := n])
  {
  }

  /** Replace the implicit tab by one tab per entry.  The first pass records the index of every id, the second
      resolves parents against it.  Whatever the stored list holds - duplicate, dangling, self or forward
      references - every parent is an earlier tab or none, and exactly the first tab is active. */
  method ExpandEntries(o: Options, entries: seq<Entry>) returns (windows: seq<seq<Tab>>)
    ensures !Triggers(o) || entries == [] ==> windows == o.windows
    ensures Triggers(o) && entries != [] ==>
              && |windows| == 1 && |windows[0]| == |entries|
              && (forall i :: 0 <= i < |entries| ==> ShowsEntry(o, entries, i, windows[0][i]))
              && (forall i :: 0 <= i < |entries| ==> windows[0][i] == TabOf(o, entries, i))
  {
    if |o.windows| == 0 || |o.windows| > 1 {
      return o.windows;
    }
    if |o.windows[0]| != 1 {
      return o.windows;
    }
    var it := o.windows[0][0];
    if it.argv.Just? || it.workingDir.Just? || o.execArgv.Just? {
      return o.windows;
    }
    if entries == [] {
      return o.windows;
    }
    var indexOfId := IndexIds(entries);
    hide NonEmpty, ExpandTilde, Argv, IndexOf;
    var tabs: seq<Tab> := [];
    var first := true;
    for idx := 0 to |entries|
      invariant |tabs| == idx && (first <==> idx == 0)
      invariant forall i :: 0 <= i < idx ==> tabs[i] == TabOf(o, entries, i)
    {
      var e := entries[idx];
      var parent := -1;
      if e.parentId != "" && e.parentId in indexOfId && indexOfId[e.parentId] < idx {
        parent := indexOfId[e.parentId];
      }
      assert parent == ParentTab(entries, idx);
      var active := false;
      if first {
        active := true;
        first := false;
      }
      tabs := tabs + [Tab(parent, active, o.defaultWait, NonEmpty(e.name), NonEmpty(e.icon), NonEmpty(e.color),
                          NonEmpty(e.target), ExpandTilde(e.dir, o.home), Argv(e.cmd, o.shell))];
    }
    windows := [tabs];
    forall i | 0 <= i < |entries|
      ensures ShowsEntry(o, entries, i, tabs[i])
    {
      TabShowsEntry(o, entries, i, tabs[i]);
    }
  }

  /** The tabs show the editor's forest: tab `i` hangs below tab `j` exactly when row `j` is the effective
      parent of row `i`, and on its own exactly when row `i` is a root. */
  ghost predicate ShowsForest(rows: seq<Entry>, entries: seq<Entry>) {
    && |entries| == |rows|
    && forall i :: 0 <= i < |rows| ==> ParentTab(entries, i) == Parents(rows)[i]
  }

  /** What the editor saved expands to the editor's forest exactly when its rows list parents first. */
  lemma SavedExpandsIff(rows: seq<Entry>)
    requires WellNamed(rows)
    ensures ShowsForest(rows, Saved(rows)) <==> ParentFirst(Parents(rows))
  {
    SavedParents(rows);
    var e := Saved(rows);
    assert forall i :: 0 <= i < |rows| ==> Parents(e)[i] == Parents(rows)[i];
    if ShowsForest(rows, e) {
      forall i | 0 <= i < |rows|
        ensures -1 <= Parents(rows)[i] < i
      {
        assert ParentTab(e, i) == Parents(rows)[i];
      }
    }
  }

  /** Loading ends with a setting that shows the displayed forest, whether or not it was rewritten. */
  lemma LoadShowsForest(stored: seq<Entry>, mint: seq<string>)
    requires FreshMint(stored, mint) && WellNamed(Backfilled(stored, mint))
    ensures ShowsForest(LoadState(stored, mint).rows, LoadState(stored, mint).stored)
  {
    var b := Backfilled(stored, mint);
    var s := LoadState(stored, mint);
    LoadHeals(stored, mint, []);
    if s.rows != b {
      SavedExpandsIff(s.rows);
    } else {
      forall i | 0 <= i < |b|
        ensures ParentTab(stored, i) == Parents(b)[i]
      {
        BackfillKeepsForest(stored, mint, i);
      }
    }
  }

  /** While parents come first and the setting shows the forest, every step but a foreign write keeps it so - except
      a move that puts a child before its parent. */
  lemma StepShowsForestIff(s: State, step: Step)
    requires WellNamed(s.rows) && ParentFirst(Parents(s.rows)) && Enabled(s, step)
    requires ShowsForest(s.rows, s.stored) && !step.Replace?
    ensures ShowsForest(Next(s, step).rows, Next(s, step).stored)
            <==> (step.Move? ==> MoveIsSafe(s.rows, step.i, step.up))
  {
    hide Parents, ParentFirst, WellNamed, ShowsForest, Saved, Reordered, MoveIsSafe, Next;
    if step.Load? {
      NextOfLoad(s, step);
      LoadShowsForest(s.stored, step.mint);
    } else {
      StepKeepsNames(s, step);
      StepParentFirstIff(s, step);
      SavedExpandsIff(Next(s, step).rows);
      ClicksSave(s, step);
    }
  }

  lemma NextOfLoad(s: State, step: Step)
    requires Enabled(s, step) && step.Load?
    ensures Next(s, step) == LoadState(s.stored, step.mint)
  {
  }

  /** Every click on a row or on Add that changes the list ends with a save. */
  lemma ClicksSave(s: State, step: Step)
    requires Enabled(s, step) && !step.Replace? && !step.Load?
    ensures Next(s, step) == s || Next(s, step).stored == Saved(Next(s, step).rows)
  {
    match step
    case Add(_) =>
    case Edit(_, _) =>
    case Indent(_) =>
    case Outdent(_) =>
    case Move(_, _) =>
    case Remove(_) =>
  }

  /** Nothing but the editor writes the setting. */
  predicate NoForeignWrites(steps: seq<Step>) {
    forall k :: 0 <= k < |steps| ==> !steps[k].Replace?
  }

  /** End to end: over every run whose moves put no child before its parent - rows of any kind removed, levels of any
      depth - start-up builds exactly the forest the editor displays. */
  lemma {:induction false} RunShowsForest(s: State, steps: seq<Step>)
    requires WellNamed(s.rows) && ParentFirst(Parents(s.rows)) && ShowsForest(s.rows, s.stored)
    requires EnabledRun(s, steps) && SafeRun(s, steps)
    requires NoForeignWrites(steps)
    ensures ShowsForest(Run(s, steps).rows, Run(s, steps).stored)
    decreases |steps|
  {
    hide Parents, ParentFirst, WellNamed, ShowsForest, Next, Enabled, MoveIsSafe;
    if steps != [] {
      StepShowsForestIff(s, steps[0]);
      StepKeepsNames(s, steps[0]);
      StepParentFirstIff(s, steps[0]);
      RunShowsForest(Next(s, steps[0]), steps[1..]);
    }
  }

  /** So it does whenever every move starts in pre-order. */
  lemma OrderlyMovesShowForest(s: State, steps: seq<Step>)
    requires WellNamed(s.rows) && ParentFirst(Parents(s.rows)) && ShowsForest(s.rows, s.stored)
    requires EnabledRun(s, steps) && MovesStartInOrder(s, steps)
    requires NoForeignWrites(steps)
    ensures ShowsForest(Run(s, steps).rows, Run(s, steps).stored)
  {
    hide Parents, ParentFirst, WellNamed, ShowsForest, Next, Enabled, MoveIsSafe;
    MovesInOrderAreSafe(s, steps);
    RunShowsForest(s, steps);
  }
}
