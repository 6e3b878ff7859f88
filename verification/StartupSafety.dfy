/** What every run of the editor keeps: no cycle ever, parents before children as long as no move reverses them,
    pre-order since the last re-sort, and the rows themselves. */
module StartupSafety {
  import opened Forest
  import opened Walk
  import opened Surgery
  import opened DepthScan
  import opened LaunchEntries
  import opened StartupEdits
  import opened StartupRun

  // ------------------------------------------------------------------------------------------------
  // Parents before children
  // ------------------------------------------------------------------------------------------------

  /** No row of the block that a move cuts out has its parent in the block it jumps over. */
  ghost predicate MoveIsSafe(rows: seq<Entry>, i: int, up: bool)
    requires 0 <= i < |rows|
  {
    match MoveBlocks(rows, i, up)
    case NoSibling => true
    case Blocks(a, b, c) => forall x :: b <= x < c ==> !(a <= Parents(rows)[x] < b)
  }

  /** A move keeps parents before children exactly under this condition. */
  lemma MoveParentFirstIff(rows: seq<Entry>, i: int, up: bool)
    requires WellNamed(rows) && ParentFirst(Parents(rows)) && 0 <= i < |rows|
    ensures ParentFirst(Parents(Moved(rows, i, up))) <==> MoveIsSafe(rows, i, up)
  {
    match MoveBlocks(rows, i, up)
    case NoSibling =>
    case Blocks(a, b, c) =>
      hide WellNamed, Parents, ParentFirst, SwapParents, SwapBlocks;
      SwapBlocksParents(rows, a, b, c);
      SwapParentFirstIff(Parents(rows), a, b, c);
  }

  /** Every move from pre-order meets it, also one that the depth cap truncates. */
  lemma PreOrderMovesAreSafe(rows: seq<Entry>, i: int, up: bool)
    requires WellNamed(rows) && InPreOrder(rows) && 0 <= i < |rows|
    ensures MoveIsSafe(rows, i, up)
  {
    match MoveBlocks(rows, i, up)
    case NoSibling =>
    case Blocks(a, b, c) =>
      var p := Parents(rows);
      assert p[a] == p[b] && c == SubtreeScan(p, b);
      hide Parents, PreOrder, WellNamed, SubtreeScan, Resolve, MoveBlocks;
      ScannedBlockIsSafe(p, a, b);
  }

  lemma ScannedBlockIsSafe(p: seq<int>, a: int, b: int)
    requires PreOrder(p) && 0 <= a < b < |p| && p[a] == p[b]
    ensures forall x :: b <= x < SubtreeScan(p, b) ==> !(a <= p[x] < b)
  {
    PreOrderIffNonCrossing(p);
    DepthScanExact(p, b);
    hide PreOrder, SubtreeScan, NonCrossing;
    SiblingBlockFacts(p, a, b, End(p, b));
  }

  /** The steps that end with a re-sort. */
  predicate Resorts(s: State, step: Step) {
    match step
    case Load(_) => true
    case Indent(i) => 0 < i < |s.rows|
    case Outdent(i) => 0 <= i < |s.rows| && s.rows[i].parentId != ""
    case _ => false
  }

  /** From every state with distinct ids, a step that re-sorts ends in pre-order. */
  lemma ResortsToPreOrder(s: State, step: Step)
    requires WellNamed(s.rows) && Enabled(s, step) && Resorts(s, step)
    ensures InPreOrder(Next(s, step).rows)
  {
    hide Parents, PreOrder, WellNamed, Saved;
    match step
    case Load(mint) => ReorderedShape(Backfilled(s.stored, mint));
    case Indent(i) =>
      SetParentParents(s.rows, i, s.rows[i - 1].id);
      ReorderedShape(WithParent(s.rows, i, s.rows[i - 1].id));
    case Outdent(i) =>
      SetParentParents(s.rows, i, Grandparent(s.rows, i));
      ReorderedShape(WithParent(s.rows, i, Grandparent(s.rows, i)));
  }

  /** No step but a move can put a child before its parent, and a move does so exactly when it is not safe. */
  lemma StepParentFirstIff(s: State, step: Step)
    requires WellNamed(s.rows) && ParentFirst(Parents(s.rows)) && Enabled(s, step)
    ensures ParentFirst(Parents(Next(s, step).rows)) <==> (step.Move? ==> MoveIsSafe(s.rows, step.i, step.up))
  {
    var rows := s.rows;
    if Resorts(s, step) {
      hide Parents, WellNamed, ParentFirst, Next;
      ResortsToPreOrder(s, step);
      PreOrderIffNonCrossing(Parents(Next(s, step).rows));
    } else {
      hide Parents, WellNamed, Reordered, MoveIsSafe, Saved, AddRow, EditRow, RemoveRow, Moved;
      match step
      case Replace(_) =>
      case Add(id) => AddParents(rows, id);
      case Edit(i, e) => EditParents(rows, i, e);
      case Indent(_) =>
      case Outdent(_) =>
      case Move(i, up) =>
        MoveParentFirstIff(rows, i, up);
        StaysWithoutSibling(rows, i, up);
      case Remove(i) => RemoveKeepsParentsFirst(rows, i);
    }
  }

  lemma StaysWithoutSibling(rows: seq<Entry>, i: int, up: bool)
    requires 0 <= i < |rows|
    ensures MoveBlocks(rows, i, up).NoSibling? ==> Moved(rows, i, up) == rows
  {
  }

  /** Every move along the run that starts with parents before children is safe. */
  ghost predicate SafeRun(s: State, steps: seq<Step>)
    requires EnabledRun(s, steps)
    decreases |steps|
  {
    steps == [] ||
    (&& (steps[0].Move? && ParentFirst(Parents(s.rows)) ==> MoveIsSafe(s.rows, steps[0].i, steps[0].up))
     && SafeRun(Next(s, steps[0]), steps[1..]))
  }

  /** Over every such run, removals of any row included, parents come before their children. */
  lemma {:induction false} RunKeepsParentFirst(s: State, steps: seq<Step>)
    requires WellNamed(s.rows) && ParentFirst(Parents(s.rows)) && EnabledRun(s, steps) && SafeRun(s, steps)
    ensures WellNamed(Run(s, steps).rows) && ParentFirst(Parents(Run(s, steps).rows))
    decreases |steps|
  {
    hide Parents, WellNamed, ParentFirst, MoveIsSafe, Next, Enabled;
    if steps != [] {
      StepKeepsNames(s, steps[0]);
      StepParentFirstIff(s, steps[0]);
      RunKeepsParentFirst(Next(s, steps[0]), steps[1..]);
    }
  }

  /** Every move along the run starts in pre-order. */
  ghost predicate MovesStartInOrder(s: State, steps: seq<Step>)
    requires EnabledRun(s, steps)
    decreases |steps|
  {
    steps == [] || ((steps[0].Move? ==> InPreOrder(s.rows)) && MovesStartInOrder(Next(s, steps[0]), steps[1..]))
  }

  lemma {:induction false} MovesInOrderAreSafe(s: State, steps: seq<Step>)
    requires WellNamed(s.rows) && EnabledRun(s, steps) && MovesStartInOrder(s, steps)
    ensures SafeRun(s, steps)
    decreases |steps|
  {
    hide Parents, WellNamed, PreOrder, ParentFirst, MoveIsSafe, Next;
    if steps != [] {
      StepKeepsNames(s, steps[0]);
      if steps[0].Move? {
        PreOrderMovesAreSafe(s.rows, steps[0].i, steps[0].up);
      }
      MovesInOrderAreSafe(Next(s, steps[0]), steps[1..]);
    }
  }

  // ------------------------------------------------------------------------------------------------
  // Pre-order
  // ------------------------------------------------------------------------------------------------

  /** Since the last re-sort of the run - or since its start, if that is `ordered` - every move and removal has met
      its condition. */
  ghost predicate OrderlySinceResort(s: State, steps: seq<Step>, ordered: bool)
    requires EnabledRun(s, steps)
    decreases |steps|
  {
    if steps == [] then ordered
    else
      var still := Resorts(s, steps[0]) || (ordered && InPreOrder(s.rows) && KeepsOrder(s, steps[0]));
      OrderlySinceResort(Next(s, steps[0]), steps[1..], still)
  }

  /** Whatever happened before: if the run is orderly since its last re-sort, the list ends as a pre-order walk. */
  lemma {:induction false} RunEndsInPreOrder(s: State, steps: seq<Step>, ordered: bool)
    requires WellNamed(s.rows) && (ordered ==> InPreOrder(s.rows))
    requires EnabledRun(s, steps) && OrderlySinceResort(s, steps, ordered)
    ensures InPreOrder(Run(s, steps).rows)
    decreases |steps|
  {
    hide Parents, WellNamed, PreOrder, Next, KeepsOrder, Resorts;
    if steps != [] {
      StepKeepsNames(s, steps[0]);
      if Resorts(s, steps[0]) {
        ResortsToPreOrder(s, steps[0]);
      } else if InPreOrder(s.rows) {
        StepPreOrderIff(s, steps[0]);
      }
      var still := Resorts(s, steps[0]) || (ordered && InPreOrder(s.rows) && KeepsOrder(s, steps[0]));
      RunEndsInPreOrder(Next(s, steps[0]), steps[1..], still);
    }
  }

  // ------------------------------------------------------------------------------------------------
  // No cycles
  // ------------------------------------------------------------------------------------------------

  lemma ParentFirstIsAcyclic(p: seq<int>)
    requires ParentFirst(p)
    ensures Acyclic(p)
  {
    forall i | 0 <= i < |p| ensures Rooted(p, i) {
      ParentFirstIsRooted(p, i);
    }
  }

  lemma SwapKeepsAcyclic(p: seq<int>, a: int, b: int, c: int)
    requires Acyclic(p) && 0 <= a <= b <= c <= |p|
    ensures Acyclic(SwapParents(p, a, b, c))
  {
    var w, q := SwapOrder(|p|, a, b, c), SwapParents(p, a, b, c);
    SwapLinked(p, a, b, c);
    forall i | 0 <= i < |q| ensures Rooted(q, i) {
      assert Rooted(p, w[i]);
      var k: nat :| Climb(p, w[i], k) == -1;
      LinkedKeepsRooted(p, w, q, i, k);
    }
  }

  lemma RemoveKeepsAcyclic(p: seq<int>, m: int)
    requires Acyclic(p) && 0 <= m < |p|
    ensures Acyclic(RemoveParents(p, m))
  {
    var q := RemoveParents(p, m);
    assert Indexed(q);
    forall i | 0 <= i < |q| ensures Rooted(q, i) {
      assert Rooted(p, SkipFrom(i, m));
      var k: nat :| Climb(p, SkipFrom(i, m), k) == -1;
      RemoveKeepsRooted(p, m, i, k);
    }
  }

  lemma AppendKeepsAcyclic(p: seq<int>)
    requires Acyclic(p)
    ensures Acyclic(p + [-1])
  {
    var q := p + [-1];
    forall i | 0 <= i < |q| ensures Rooted(q, i) {
      RootedStep(q, i);
      if i < |p| {
        assert Rooted(p, i);
        var k: nat :| Climb(p, i, k) == -1;
        AppendKeepsRooted(p, i, k);
      }
    }
  }

  /** Every step keeps the forest free of cycles, from every state, pre-order or not. */
  lemma StepKeepsAcyclic(s: State, step: Step)
    requires WellNamed(s.rows) && Acyclic(Parents(s.rows)) && Enabled(s, step)
    ensures Acyclic(Parents(Next(s, step).rows))
  {
    var rows := s.rows;
    if Resorts(s, step) {
      hide Parents, WellNamed, Acyclic, Next;
      ResortsToPreOrder(s, step);
      ParentFirstIsAcyclic(Parents(Next(s, step).rows));
    } else {
      hide Parents, WellNamed, Acyclic, Reordered, Saved, AddRow, EditRow, RemoveRow;
      match step
      case Replace(_) =>
      case Add(id) =>
        AddParents(rows, id);
        AppendKeepsAcyclic(Parents(rows));
      case Edit(i, e) => EditParents(rows, i, e);
      case Indent(_) =>
      case Outdent(_) =>
      case Move(i, up) =>
        match MoveBlocks(rows, i, up) {
          case NoSibling =>
          case Blocks(a, b, c) =>
            SwapBlocksParents(rows, a, b, c);
            SwapKeepsAcyclic(Parents(rows), a, b, c);
        }
      case Remove(i) =>
        RemoveRowParents(rows, i);
        RemoveKeepsAcyclic(Parents(rows), i);
    }
  }

  /** Over every run whatever, the displayed forest has no cycle. */
  lemma {:induction false} RunKeepsAcyclic(s: State, steps: seq<Step>)
    requires WellNamed(s.rows) && Acyclic(Parents(s.rows)) && EnabledRun(s, steps)
    ensures WellNamed(Run(s, steps).rows) && Acyclic(Parents(Run(s, steps).rows))
    decreases |steps|
  {
    hide Parents, WellNamed, Acyclic, Next, Enabled;
    if steps != [] {
      StepKeepsNames(s, steps[0]);
      StepKeepsAcyclic(s, steps[0]);
      RunKeepsAcyclic(Next(s, steps[0]), steps[1..]);
    }
  }

  // ------------------------------------------------------------------------------------------------
  // Rows
  // ------------------------------------------------------------------------------------------------

  /** Row `j` is row `i` or lies below it, in a list that need not be in any order. */
  ghost predicate Below(p: seq<int>, j: int, i: int)
    requires Indexed(p) && -1 <= j < |p|
  {
    exists n: nat :: Climb(p, j, n) == i
  }

  lemma BelowStep(p: seq<int>, j: int, i: int)
    requires Indexed(p) && 0 <= j < |p| && 0 <= i < |p|
    ensures Below(p, j, i) <==> j == i || (p[j] >= 0 && Below(p, p[j], i))
  {
    if j == i {
      assert Climb(p, j, 0) == i;
    }
    if n: nat :| Climb(p, p[j], n) == i {
      assert Climb(p, j, n + 1) == i;
    }
    if n: nat :| Climb(p, j, n) == i && j != i {
      assert Climb(p, p[j], n - 1) == i;
    }
  }

  /** Redirecting row `i` matters only to the rows below it. */
  lemma {:induction false} RootedAway(p: seq<int>, i: int, t: int, j: int, k: nat)
    requires Indexed(p) && 0 <= i < |p| && 0 <= t < |p| && 0 <= j < |p|
    requires Climb(p, j, k) == -1 && !Below(p, j, i)
    ensures Rooted(p[i := t], j)
    decreases k
  {
    var p' := p[i := t];
    BelowStep(p, j, i);
    if p[j] >= 0 {
      RootedAway(p, i, t, p[j], k - 1);
    }
    RootedStep(p', j);
  }

  lemma {:induction false} RootedThrough(p: seq<int>, i: int, t: int, j: int, k: nat)
    requires Indexed(p) && 0 <= i < |p| && 0 <= t < |p| && 0 <= j < |p|
    requires Climb(p, j, k) == -1 && Rooted(p[i := t], t)
    ensures Rooted(p[i := t], j)
    decreases k
  {
    var p' := p[i := t];
    RootedStep(p', j);
    if j != i && p[j] >= 0 {
      RootedThrough(p, i, t, p[j], k - 1);
    }
  }

  /** If `t` lies below `i`, redirecting `i` to `t` closes a cycle through every row from `t` up to `i`. */
  lemma {:induction false} CycleIsNotRooted(p: seq<int>, i: int, t: int, j: int, k: nat)
    requires Indexed(p) && 0 <= i < |p| && 0 <= t < |p| && 0 <= j < |p|
    requires Below(p, t, i) && Below(p, j, i)
    ensures Climb(p[i := t], j, k) != -1
    decreases k
  {
    var p' := p[i := t];
    BelowStep(p, j, i);
    if k > 0 {
      CycleIsNotRooted(p, i, t, p'[j], k - 1);
    }
  }

  /** Re-parenting row `i` of an acyclic list to row `t` closes a cycle exactly when `t` is `i` or lies below it. */
  lemma RedirectAcyclicIff(p: seq<int>, i: int, t: int)
    requires Acyclic(p) && 0 <= i < |p| && 0 <= t < |p|
    ensures Acyclic(p[i := t]) <==> !Below(p, t, i)
  {
    var p' := p[i := t];
    if Below(p, t, i) {
      forall k: nat
        ensures Climb(p', t, k) != -1
      {
        CycleIsNotRooted(p, i, t, t, k);
      }
      assert !Rooted(p', t);
    } else {
      assert Rooted(p, t);
      var k: nat :| Climb(p, t, k) == -1;
      RootedAway(p, i, t, t, k);
      forall j | 0 <= j < |p|
        ensures Rooted(p', j)
      {
        assert Rooted(p, j);
        var n: nat :| Climb(p, j, n) == -1;
        RootedThrough(p, i, t, j, n);
      }
    }
  }

  lemma {:induction false} ClimbGoesUp(p: seq<int>, j: int, n: nat)
    requires ParentFirst(p) && -1 <= j < |p|
    ensures Indexed(p) && Climb(p, j, n) <= j
    decreases n
  {
    if j >= 0 && n > 0 {
      ClimbGoesUp(p, p[j], n - 1);
    }
  }

  lemma EarlierIsNotBelow(p: seq<int>, j: int, i: int)
    requires ParentFirst(p) && 0 <= j < i < |p|
    ensures !Below(p, j, i)
  {
    if n: nat :| Climb(p, j, n) == i {
      ClimbGoesUp(p, j, n);
    }
  }

  /** Whatever order the rows are in, an indent loses rows exactly when the row above lies below the row that is
      being indented; it loses none while parents come first. */
  lemma IndentKeepsRowsIff(rows: seq<Entry>, i: int)
    requires WellNamed(rows) && Acyclic(Parents(rows)) && 0 < i < |rows|
    ensures multiset(IndentRows(rows, i)) == multiset(WithParent(rows, i, rows[i - 1].id))
            <==> !Below(Parents(rows), i - 1, i)
    ensures ParentFirst(Parents(rows)) ==> !Below(Parents(rows), i - 1, i)
  {
    hide Parents, Reordered, WellNamed, Acyclic, Below, WithParent;
    IndentParents(rows, i);
    ReorderIsPermutationIffAcyclic(WithParent(rows, i, rows[i - 1].id));
    RedirectAcyclicIff(Parents(rows), i, i - 1);
    if ParentFirst(Parents(rows)) {
      EarlierIsNotBelow(Parents(rows), i - 1, i);
    }
  }

  /** Handing a row to its grandparent closes no cycle. */
  lemma {:induction false} OutdentKeepsRooted(p: seq<int>, i: int, j: int, k: nat)
    requires Indexed(p) && 0 <= i < |p| && p[i] >= 0 && 0 <= j < |p| && Climb(p, j, k) == -1
    ensures Rooted(p[i := p[p[i]]], j)
    decreases k
  {
    var q := p[i := p[p[i]]];
    RootedStep(q, j);
    if j == i {
      if p[p[i]] >= 0 {
        OutdentKeepsRooted(p, i, p[p[i]], k - 2);
      }
    } else if p[j] >= 0 {
      OutdentKeepsRooted(p, i, p[j], k - 1);
    }
  }

  lemma OutdentKeepsAcyclic(p: seq<int>, i: int)
    requires Acyclic(p) && 0 <= i < |p| && p[i] >= 0
    ensures Acyclic(p[i := p[p[i]]])
  {
    var q := p[i := p[p[i]]];
    forall j | 0 <= j < |p| ensures Rooted(q, j) {
      assert Rooted(p, j);
      var k: nat :| Climb(p, j, k) == -1;
      OutdentKeepsRooted(p, i, j, k);
    }
  }

  lemma RowOfReordered(rows: seq<Entry>, r: seq<Entry>, i: int)
    requires WellNamed(rows) && WellNamed(r) && (forall a :: 0 <= a < |r| ==> r[a] in rows) && 0 <= i < |rows|
    ensures rows[i] in r <==> IndexOf(r, rows[i].id) >= 0
    ensures rows[i] in r ==> r[IndexOf(r, rows[i].id)] == rows[i]
  {
    var x := IndexOf(r, rows[i].id);
    if x >= 0 {
      assert r[x] in rows;
    }
  }

  lemma ReorderedKeepsLedger(rows: seq<Entry>, r: seq<Entry>)
    requires WellNamed(rows) && WellNamed(r) && (forall a :: 0 <= a < |r| ==> r[a] in rows)
    requires forall i :: 0 <= i < |rows| ==> rows[i] in r
    ensures Ledger(r) == Ledger(rows)
  {
    hide WellNamed, Ledger, IndexOf;
    var f := i => if 0 <= i < |rows| then IndexOf(r, rows[i].id) else 0;
    var g := a => if 0 <= a < |r| then IndexOf(rows, r[a].id) else 0;
    forall i | 0 <= i < |rows| ensures SameRow(rows, i, r, f(i)) {
      RowHasIndex(r, rows[i]);
    }
    forall a | 0 <= a < |r| ensures SameRow(r, a, rows, g(a)) {
      RowHasIndex(rows, r[a]);
    }
    SameLedger(rows, r, f, g);
  }

  lemma LostRowShows(rows: seq<Entry>, r: seq<Entry>, i: int)
    requires WellNamed(rows) && WellNamed(r) && (forall a :: 0 <= a < |r| ==> r[a] in rows)
    requires 0 <= i < |rows| && rows[i] !in r
    ensures Ledger(r) != Ledger(rows)
  {
    IndexOfIs(rows, i);
    hide WellNamed, Ledger, IndexOf;
    RowOfReordered(rows, r, i);
    LedgerOf(r, rows[i].id);
    LedgerOf(rows, rows[i].id);
  }

  /** The re-sort keeps the ledger exactly when the parent pointers have no cycle. */
  lemma ReorderedLedgerIff(rows: seq<Entry>)
    requires WellNamed(rows)
    ensures Ledger(Reordered(rows)) == Ledger(rows) <==> Acyclic(Parents(rows))
  {
    var r, p := Reordered(rows), Parents(rows);
    ReorderedShape(rows);
    hide Reordered, Parents, WellNamed, Ledger, IndexOf, PreOrder;
    if Acyclic(p) {
      forall i | 0 <= i < |rows| ensures rows[i] in r {
        assert Rooted(p, i);
        ReorderedRows(rows, i);
      }
      ReorderedKeepsLedger(rows, r);
    } else {
      assert Indexed(p);
      var i :| 0 <= i < |p| && !Rooted(p, i);
      ReorderedRows(rows, i);
      LostRowShows(rows, r, i);
    }
  }

  lemma RowHasIndex(rows: seq<Entry>, e: Entry)
    requires WellNamed(rows) && e in rows
    ensures 0 <= IndexOf(rows, e.id) < |rows| && rows[IndexOf(rows, e.id)] == e
  {
    var i :| 0 <= i < |rows| && rows[i] == e;
    IndexOfIs(rows, i);
  }

  /** A load keeps every entry of the setting exactly when the parent pointers stored there have no cycle; what it
      loses is gone from the setting as well. */
  lemma LoadConservesIff(stored: seq<Entry>, mint: seq<string>)
    requires |mint| == |stored| && WellNamed(Backfilled(stored, mint))
    ensures Ledger(LoadState(stored, mint).rows) == Ledger(Backfilled(stored, mint))
            <==> Acyclic(Parents(Backfilled(stored, mint)))
    ensures !Acyclic(Parents(Backfilled(stored, mint))) ==>
              Ledger(LoadState(stored, mint).stored) == Ledger(LoadState(stored, mint).rows)
  {
    var b := Backfilled(stored, mint);
    ReorderedShape(b);
    hide Parents, Reordered, WellNamed, Ledger, Acyclic, Saved, Backfilled;
    ReorderedLedgerIff(b);
    SavedLedger(Reordered(b));
  }

  /** Only two kinds of step can lose rows: an indent below a row that itself lies below the indented row, and the
      load of a setting whose parents form a cycle. */
  ghost predicate KeepsRows(s: State, step: Step)
    requires Enabled(s, step)
  {
    match step
    case Load(mint) => Acyclic(Parents(Backfilled(s.stored, mint)))
    case Indent(i) => i > 0 ==> !Below(Parents(s.rows), i - 1, i)
    case _ => true
  }

  /** From every acyclic state, a step loses no row, invents none and changes none except as clicked, if and only
      if it satisfies this condition. */
  lemma StepConservesIff(s: State, step: Step)
    requires WellNamed(s.rows) && Acyclic(Parents(s.rows)) && Enabled(s, step)
    ensures Ledger(Next(s, step).rows) == LedgerAfter(s, step) <==> KeepsRows(s, step)
  {
    hide Parents, Acyclic, Below, Reordered, WellNamed, Saved, Ledger, AddRow, EditRow, RemoveRow, WithParent;
    hide LoadState, Backfilled;
    var rows := s.rows;
    match step
    case Replace(_) =>
    case Load(mint) => LoadConservesIff(s.stored, mint);
    case Add(id) => AddLedger(rows, id);
    case Edit(i, e) => EditLedger(rows, i, e);
    case Indent(i) =>
      if i > 0 {
        IndentParents(rows, i);
        WithParentLedger(rows, i, rows[i - 1].id);
        ReorderedLedgerIff(WithParent(rows, i, rows[i - 1].id));
        RedirectAcyclicIff(Parents(rows), i, i - 1);
      }
    case Outdent(i) =>
      OutdentedIsAcyclic(rows, i);
      WithParentLedger(rows, i, Grandparent(rows, i));
      ReorderedLedgerIff(WithParent(rows, i, Grandparent(rows, i)));
    case Move(i, up) =>
      match MoveBlocks(rows, i, up) {
        case NoSibling =>
        case Blocks(a, b, c) => SwapLedger(rows, a, b, c);
      }
    case Remove(i) => RemoveLedger(rows, i);
  }

  lemma OutdentedIsAcyclic(rows: seq<Entry>, i: int)
    requires WellNamed(rows) && Acyclic(Parents(rows)) && 0 <= i < |rows|
    ensures WellNamed(WithParent(rows, i, Grandparent(rows, i)))
    ensures Acyclic(Parents(WithParent(rows, i, Grandparent(rows, i))))
  {
    var p := Parents(rows);
    hide WellNamed, Acyclic;
    if p[i] < 0 {
      OrphanParents(rows, i);
    } else {
      SetParentParents(rows, i, Grandparent(rows, i));
      assert Resolve(rows, rows[p[i]].parentId) == p[p[i]];
      OutdentKeepsAcyclic(p, i);
    }
  }

  lemma ClicksKeepRows(s: State, step: Step)
    requires ParentFirst(Parents(s.rows)) && Enabled(s, step) && !step.Load?
    ensures KeepsRows(s, step)
  {
    hide Parents, Below, WellNamed;
    if step.Indent? && step.i > 0 {
      EarlierIsNotBelow(Parents(s.rows), step.i - 1, step.i);
    }
  }

  /** In particular no click loses rows while parents come before their children. */
  lemma StepConserves(s: State, step: Step)
    requires WellNamed(s.rows) && ParentFirst(Parents(s.rows)) && Enabled(s, step)
    requires step.Load? ==> KeepsRows(s, step)
    ensures Ledger(Next(s, step).rows) == LedgerAfter(s, step)
  {
    hide Parents, Acyclic, Reordered, WellNamed, Ledger, Next, LedgerAfter, KeepsRows;
    ParentFirstIsAcyclic(Parents(s.rows));
    if !step.Load? {
      ClicksKeepRows(s, step);
    }
    StepConservesIff(s, step);
  }

  // ------------------------------------------------------------------------------------------------
  // Loading what was saved
  // ------------------------------------------------------------------------------------------------

  /** Saving changes nothing but dangling parent ids. */
  lemma SavedLedger(rows: seq<Entry>)
    requires WellNamed(rows)
    ensures WellNamed(Saved(rows)) && Ledger(Saved(rows)) == Ledger(rows)
  {
    SavedParents(rows);
    hide Saved, WellNamed, Ledger;
    SameLedger(Saved(rows), rows, k => k, k => k);
  }

  lemma BackfilledSaved(rows: seq<Entry>, mint: seq<string>)
    requires WellNamed(rows) && |mint| == |Saved(rows)|
    ensures Backfilled(Saved(rows), mint) == Saved(rows)
  {
    SavedParents(rows);
  }

  /** Loading back what was saved keeps every row of a list without cycles, and only of such a list. */
  lemma ReloadConserves(rows: seq<Entry>, mint: seq<string>)
    requires WellNamed(rows) && |mint| == |Saved(rows)|
    ensures Ledger(LoadState(Saved(rows), mint).rows) == Ledger(rows) <==> Acyclic(Parents(rows))
  {
    BackfilledSaved(rows, mint);
    SavedParents(rows);
    SavedLedger(rows);
    hide Parents, Reordered, WellNamed, Ledger, LoadState, Saved, Acyclic;
    LoadConservesIff(Saved(rows), mint);
  }

  /** The setting is the stored form of the rows. */
  ghost predicate Settled(s: State) {
    s.stored == Saved(s.rows)
  }

  lemma SavedIsFixed(rows: seq<Entry>)
    requires WellNamed(rows) && NoDangling(rows)
    ensures Saved(rows) == rows
  {
  }

  /** Only another program unsettles the setting: every click and every load leaves it settled. */
  lemma StepStaysSettled(s: State, step: Step)
    requires WellNamed(s.rows) && Enabled(s, step) && Settled(s) && !step.Replace?
    ensures Settled(Next(s, step))
  {
    if step.Load? {
      BackfilledSaved(s.rows, step.mint);
      SavedParents(s.rows);
      SavedIsFixed(Saved(s.rows));
    }
  }

  lemma FoundSettled(stored: seq<Entry>, mint: seq<string>)
    requires |mint| == |stored| && WellNamed(Backfilled(stored, mint))
    ensures Saved(Backfilled(stored, mint)) == stored <==> Backfilled(stored, mint) == stored && NoDangling(stored)
  {
    var b := Backfilled(stored, mint);
    SavedParents(b);
    hide Saved, Parents, Resolve, IndexOf, NoDangling;
    if Saved(b) == stored {
      assert forall i :: 0 <= i < |b| ==> stored[i].id != "";
      assert b == stored;
    }
    if b == stored && NoDangling(stored) {
      SavedIsFixed(b);
    }
  }

  /** A load settles the setting exactly when it writes the list back, or found every id present and no parent id
      dangling. */
  lemma LoadSettlesIff(stored: seq<Entry>, mint: seq<string>)
    requires |mint| == |stored| && WellNamed(Backfilled(stored, mint))
    ensures Settled(LoadState(stored, mint))
            <==> !InPreOrder(Backfilled(stored, mint)) || (Backfilled(stored, mint) == stored && NoDangling(stored))
  {
    hide Parents, Reordered, Saved, NoDangling, Backfilled, WellNamed, InPreOrder;
    FoundSettled(stored, mint);
    ReorderFixedIffPreOrder(Backfilled(stored, mint));
  }

  /** An entry without id that the re-sort leaves in place is not written back: the next load gives it another id. */
  lemma UnstoredIdsChange(stored: seq<Entry>, mint: seq<string>, mint': seq<string>)
    requires FreshMint(stored, mint) && WellNamed(Backfilled(stored, mint)) && InPreOrder(Backfilled(stored, mint))
    requires FreshMint(stored, mint') && WellNamed(Backfilled(stored, mint'))
    ensures LoadState(stored, mint) == State(Backfilled(stored, mint), stored)
    ensures LoadState(LoadState(stored, mint).stored, mint') == State(Backfilled(stored, mint'), stored)
  {
    var b, b' := Backfilled(stored, mint), Backfilled(stored, mint');
    forall i | 0 <= i < |stored| ensures Parents(b)[i] == Parents(b')[i] {
      BackfillKeepsForest(stored, mint, i);
      BackfillKeepsForest(stored, mint', i);
    }
    assert Parents(b) == Parents(b');
    hide Parents, Backfilled, Reordered, WellNamed, FreshMint;
    ReorderFixedIffPreOrder(b);
    ReorderFixedIffPreOrder(b');
  }

  // ------------------------------------------------------------------------------------------------
  // One row over a whole run
  // ------------------------------------------------------------------------------------------------

  /** The list holds this row, wherever it hangs. */
  ghost predicate Holds(stored: seq<Entry>, e: Entry) {
    exists j :: 0 <= j < |stored| && stored[j].(parentId := "") == e
  }

  /** The step edits or removes the row with this id, or loads a setting with a cycle or with another row. */
  ghost predicate Touches(s: State, step: Step, id: string)
    requires Enabled(s, step)
  {
    match step
    case Load(_) => !(KeepsRows(s, step) && id in Ledger(s.rows) && Holds(s.stored, Ledger(s.rows)[id]))
    case Edit(i, _) => s.rows[i].id == id
    case Remove(i) => s.rows[i].id == id
    case _ => false
  }

  lemma HeldRowIsLoaded(rows: seq<Entry>, stored: seq<Entry>, mint: seq<string>, id: string)
    requires WellNamed(rows) && id in Ledger(rows) && Holds(stored, Ledger(rows)[id])
    requires |mint| == |stored| && WellNamed(Backfilled(stored, mint))
    ensures id in Ledger(Backfilled(stored, mint)) && Ledger(Backfilled(stored, mint))[id] == Ledger(rows)[id]
  {
    var b := Backfilled(stored, mint);
    LedgerOf(rows, id);
    var e := Ledger(rows)[id];
    hide Ledger;
    var j :| 0 <= j < |stored| && stored[j].(parentId := "") == e;
    assert e.id == id && stored[j].(parentId := "").id == stored[j].id;
    assert b[j] == stored[j];
    IndexOfIs(b, j);
    LedgerOf(b, id);
  }

  /** A step that does not touch a row keeps it, unchanged. */
  lemma UntouchedStep(s: State, step: Step, id: string)
    requires WellNamed(s.rows) && ParentFirst(Parents(s.rows)) && Enabled(s, step)
    requires id in Ledger(s.rows) && !Touches(s, step, id)
    ensures id in Ledger(Next(s, step).rows) && Ledger(Next(s, step).rows)[id] == Ledger(s.rows)[id]
  {
    hide Parents, WellNamed, Ledger, Next, Backfilled;
    StepConserves(s, step);
    LedgerOf(s.rows, id);
    if step.Load? {
      HeldRowIsLoaded(s.rows, s.stored, step.mint, id);
    }
  }

  ghost predicate UntouchedIn(s: State, steps: seq<Step>, id: string)
    requires EnabledRun(s, steps)
    decreases |steps|
  {
    steps == [] || (!Touches(s, steps[0], id) && UntouchedIn(Next(s, steps[0]), steps[1..], id))
  }

  /** Over every run with safe moves, a row that the user neither edits nor removes is still there, unchanged. */
  lemma {:induction false} RowSurvives(s: State, steps: seq<Step>, id: string)
    requires WellNamed(s.rows) && ParentFirst(Parents(s.rows)) && EnabledRun(s, steps) && SafeRun(s, steps)
    requires id in Ledger(s.rows) && UntouchedIn(s, steps, id)
    ensures id in Ledger(Run(s, steps).rows) && Ledger(Run(s, steps).rows)[id] == Ledger(s.rows)[id]
    decreases |steps|
  {
    hide Parents, WellNamed, ParentFirst, MoveIsSafe, Ledger, Next, Enabled;
    if steps != [] {
      StepKeepsNames(s, steps[0]);
      StepParentFirstIff(s, steps[0]);
      UntouchedStep(s, steps[0], id);
      RowSurvives(Next(s, steps[0]), steps[1..], id);
    }
  }

  /** The run edits and removes other rows only, and no other program writes the setting; loads are free. */
  ghost predicate UneditedIn(s: State, steps: seq<Step>, id: string)
    requires EnabledRun(s, steps)
    decreases |steps|
  {
    steps == []
    || (&& !steps[0].Replace?
        && (steps[0].Edit? || steps[0].Remove? ==> s.rows[steps[0].i].id != id)
        && UneditedIn(Next(s, steps[0]), steps[1..], id))
  }

  lemma SettledLoadIsHarmless(s: State, mint: seq<string>, id: string)
    requires WellNamed(s.rows) && ParentFirst(Parents(s.rows)) && Settled(s) && Enabled(s, Load(mint))
    requires id in Ledger(s.rows)
    ensures !Touches(s, Load(mint), id)
  {
    BackfilledSaved(s.rows, mint);
    SavedParents(s.rows);
    SavedLedger(s.rows);
    ParentFirstIsAcyclic(Parents(s.rows));
    LedgerOf(s.stored, id);
    hide Parents, Saved, Ledger, Acyclic;
    var j := IndexOf(s.stored, id);
    assert s.stored[j].(parentId := "") == Ledger(s.rows)[id];
  }

  /** Over every session of clicks with safe moves and of saving and loading, from a settled state on: a row that the
      user neither edits nor removes is still there, unchanged, however often the editor is reopened. */
  lemma {:induction false} RowSurvivesSessions(s: State, steps: seq<Step>, id: string)
    requires WellNamed(s.rows) && ParentFirst(Parents(s.rows)) && Settled(s)
    requires EnabledRun(s, steps) && SafeRun(s, steps) && id in Ledger(s.rows) && UneditedIn(s, steps, id)
    ensures id in Ledger(Run(s, steps).rows) && Ledger(Run(s, steps).rows)[id] == Ledger(s.rows)[id]
    decreases |steps|
  {
    hide Parents, WellNamed, ParentFirst, MoveIsSafe, Ledger, Next, Enabled, Settled, KeepsRows;
    if steps != [] {
      StepKeepsNames(s, steps[0]);
      StepParentFirstIff(s, steps[0]);
      StepStaysSettled(s, steps[0]);
      if steps[0].Load? {
        SettledLoadIsHarmless(s, steps[0].mint, id);
      }
      UntouchedStep(s, steps[0], id);
      RowSurvivesSessions(Next(s, steps[0]), steps[1..], id);
    }
  }
}
