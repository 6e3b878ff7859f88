/** What each step of the Startup tab does to the rows and to the setting, row by row and by id, from the step alone. */
module StartupSteps {
  import opened Forest
  import opened Surgery
  import opened DepthScan
  import opened LaunchEntries
  import opened StartupEdits
  import opened StartupRun

  // ------------------------------------------------------------------------------------------------
  // Steps that move no row
  // ------------------------------------------------------------------------------------------------

  /** Add puts one empty root behind the rows there are. */
  lemma AddStep(s: State, id: string)
    requires WellNamed(s.rows) && Enabled(s, Add(id))
    ensures var r, n := Next(s, Add(id)).rows, |s.rows|;
            && |r| == n + 1 && (forall k :: 0 <= k < n ==> r[k] == s.rows[k])
            && r[n] == Entry(id, "", "", "", "", "", "", "")
            && (forall k :: 0 <= k < n ==> Parents(r)[k] == Parents(s.rows)[k]) && Parents(r)[n] == -1
  {
    AddParents(s.rows, id);
  }

  /** An edit overwrites what the user can type into the row at hand: not its id, not its parent, and no other row. */
  lemma EditStep(s: State, i: int, e: Entry)
    requires WellNamed(s.rows) && Enabled(s, Edit(i, e))
    ensures var r := Next(s, Edit(i, e)).rows;
            && |r| == |s.rows| && (forall k :: 0 <= k < |r| && k != i ==> r[k] == s.rows[k])
            && r[i] == Entry(s.rows[i].id, s.rows[i].parentId, e.name, e.dir, e.cmd, e.icon, e.color, e.target)
            && Parents(r) == Parents(s.rows)
  {
    EditParents(s.rows, i, e);
  }

  /** A removal takes the one row out; its children become roots, and every other row keeps its parent. */
  lemma RemoveStep(s: State, i: int)
    requires WellNamed(s.rows) && Enabled(s, Remove(i))
    ensures var r, p := Next(s, Remove(i)).rows, Parents(s.rows);
            && |r| == |s.rows| - 1
            && (forall k :: 0 <= k < |r| ==> r[k] == s.rows[if k < i then k else k + 1])
            && (forall k :: 0 <= k < |r| ==>
                  var m := p[if k < i then k else k + 1];
                  Parents(r)[k] == if m == i then -1 else if m < i then m else m - 1)
  {
    RemoveRowParents(s.rows, i);
  }

  /** From pre-order, an indent nests the row under the row before it and touches nothing else; the first row stays. */
  lemma IndentStep(s: State, i: int)
    requires WellNamed(s.rows) && InPreOrder(s.rows) && Enabled(s, Indent(i))
    ensures i == 0 ==> Next(s, Indent(i)) == s
    ensures var r := Next(s, Indent(i)).rows;
            i > 0 ==>
              && |r| == |s.rows| && (forall k :: 0 <= k < |r| && k != i ==> r[k] == s.rows[k])
              && r[i] == s.rows[i].(parentId := s.rows[i - 1].id)
              && InPreOrder(r) && Parents(r) == Parents(s.rows)[i := i - 1]
  {
    hide Parents, PreOrder, WellNamed, Reordered, Saved, IndentRows, Resolve;
    if i > 0 {
      IndentMovesNothing(s.rows, i);
    }
  }

  /** From any list, it is the re-sort of the list with that one parent id changed. */
  lemma IndentFromAnywhere(s: State, i: int)
    requires WellNamed(s.rows) && Enabled(s, Indent(i)) && i > 0
    ensures IsReordering(s.rows[i := s.rows[i].(parentId := s.rows[i - 1].id)], Next(s, Indent(i)).rows)
  {
    SetParentParents(s.rows, i, s.rows[i - 1].id);
    ReorderedIsReordering(WithParent(s.rows, i, s.rows[i - 1].id));
  }

  // ------------------------------------------------------------------------------------------------
  // Outdent
  // ------------------------------------------------------------------------------------------------

  /** Row `y` of `r` is row `x` of `rows`. */
  predicate IsRow(r: seq<Entry>, y: int, rows: seq<Entry>, x: int) {
    0 <= y < |r| && 0 <= x < |rows| && r[y].id == rows[x].id
  }

  lemma IsRowAt(r: seq<Entry>, y: int, y': int, rows: seq<Entry>, x: int)
    requires WellNamed(r) && IsRow(r, y, rows, x) && IsRow(r, y', rows, x)
    ensures y == y'
  {
  }

  /** A row without parent id stays where it is; of a row whose parent id dangles only that id is cleared. */
  lemma OutdentOfRootStep(s: State, i: int)
    requires WellNamed(s.rows) && InPreOrder(s.rows) && Enabled(s, Outdent(i)) && Parents(s.rows)[i] == -1
    ensures s.rows[i].parentId == "" ==> Next(s, Outdent(i)) == s
    ensures Next(s, Outdent(i)).rows == s.rows[i := s.rows[i].(parentId := "")]
    ensures Parents(Next(s, Outdent(i)).rows) == Parents(s.rows)
  {
    hide Parents, PreOrder, WellNamed, Reordered, Saved, Resolve, OutdentRows;
    OutdentOfOrphan(s.rows, i);
    OrphanParents(s.rows, i);
  }

  /** The rows of the outdented subtree move, in their order, behind the rest of the old parent's subtree; only the
      outdented row's parent id changes, to that of its old parent. */
  lemma OutdentStep(s: State, i: int)
    requires WellNamed(s.rows) && InPreOrder(s.rows) && Enabled(s, Outdent(i)) && Parents(s.rows)[i] >= 0
    ensures var p, r := Parents(s.rows), Next(s, Outdent(i)).rows;
            var m, e, f := p[i], End(p, i), End(p, p[i]);
            var rows := s.rows[i := s.rows[i].(parentId := s.rows[m].parentId)];
            && i < e <= f <= |s.rows|
            && r == rows[..i] + rows[e..f] + rows[i..e] + rows[f..]
            && WellNamed(r) && InPreOrder(r)
  {
    var p := Parents(s.rows);
    OutdentMovesSubtree(s.rows, i);
    OutdentBlocks(p, i);
    assert s.rows[i].parentId != "";
  }

  lemma OutdentBlocks(p: seq<int>, i: int)
    requires PreOrder(p) && 0 <= i < |p| && p[i] >= 0
    ensures i < End(p, i) <= End(p, p[i]) <= |p|
  {
    OutdentLevelOf(p, i, i);
  }

  /** Outdenting hands the row to its parent's parent: that is its effective parent afterwards, and a child of a root
      becomes a root.  It is the next sibling of its old parent, whose subtree ends where the row now stands. */
  lemma OutdentStepParent(s: State, i: int, y: int)
    requires WellNamed(s.rows) && InPreOrder(s.rows) && Enabled(s, Outdent(i)) && Parents(s.rows)[i] >= 0
    requires IsRow(Next(s, Outdent(i)).rows, y, s.rows, i)
    ensures var p, r := Parents(s.rows), Next(s, Outdent(i)).rows;
            var m := p[i];
            && Parents(r)[y] == p[m]
            && (p[m] >= 0 ==> IsRow(r, p[m], s.rows, p[m]))
            && m < y && IsRow(r, m, s.rows, m) && Parents(r)[m] == p[m]
            && InPreOrder(r) && End(Parents(r), m) == y
  {
    assert s.rows[i].parentId != "";
    OutdentNextSibling(s.rows, i);
    OutdentedPlace(s.rows, i, y);
    OutdentKeepsEarlier(s.rows, i, Parents(s.rows)[i]);
    var g := Parents(s.rows)[Parents(s.rows)[i]];
    if g >= 0 {
      OutdentKeepsEarlier(s.rows, i, g);
    }
  }

  lemma OutdentKeepsEarlier(rows: seq<Entry>, i: int, k: int)
    requires WellNamed(rows) && InPreOrder(rows) && 0 <= i < |rows| && Parents(rows)[i] >= 0 && 0 <= k < i
    ensures Parents(rows)[i] < i && Parents(rows)[Parents(rows)[i]] < Parents(rows)[i]
    ensures IsRow(OutdentRows(rows, i), k, rows, k) && Parents(OutdentRows(rows, i))[k] == Parents(rows)[k]
  {
    var p := Parents(rows);
    OutdentMovesSubtree(rows, i);
    OutdentBlocks(p, i);
    assert ParentFirst(p);
    hide Parents, PreOrder;
    assert SwapParents(Outdented(p, i), i, End(p, i), End(p, p[i]))[k] == p[k];
  }

  lemma OutdentedPlace(rows: seq<Entry>, i: int, y: int)
    requires WellNamed(rows) && InPreOrder(rows) && 0 <= i < |rows| && Parents(rows)[i] >= 0
    requires IsRow(OutdentRows(rows, i), y, rows, i)
    ensures y == OutdentTo(Parents(rows), i, i)
  {
    OutdentMovesSubtree(rows, i);
    OutdentRowAt(rows, i, i);
    IsRowAt(OutdentRows(rows, i), y, OutdentTo(Parents(rows), i, i), rows, i);
  }

  /** Each row of the outdented subtree rises exactly one level; every other row keeps its level. */
  lemma OutdentStepLevels(s: State, i: int, x: int, y: int)
    requires WellNamed(s.rows) && InPreOrder(s.rows) && Enabled(s, Outdent(i)) && Parents(s.rows)[i] >= 0
    requires IsRow(Next(s, Outdent(i)).rows, y, s.rows, x)
    ensures var p, r := Parents(s.rows), Next(s, Outdent(i)).rows;
            && InPreOrder(r)
            && Depth(Parents(r), y) == Depth(p, x) - (if Descends(p, x, i) then 1 else 0)
  {
    assert s.rows[i].parentId != "";
    OutdentLevels(s.rows, i, x);
    OutdentMovesSubtree(s.rows, i);
    IsRowAt(OutdentRows(s.rows, i), y, OutdentTo(Parents(s.rows), i, x), s.rows, x);
  }

  /** From any list, it is the re-sort of the list with that one parent id changed, to the parent id of the last row
      that has the old one, or to none. */
  lemma OutdentFromAnywhere(s: State, i: int, m: int)
    requires WellNamed(s.rows) && Enabled(s, Outdent(i)) && s.rows[i].parentId != ""
    requires 0 <= m < |s.rows| ==> s.rows[m].id == s.rows[i].parentId
    requires !(0 <= m < |s.rows|) ==> forall k :: 0 <= k < |s.rows| ==> s.rows[k].id != s.rows[i].parentId
    ensures var pid := if 0 <= m < |s.rows| then s.rows[m].parentId else "";
            IsReordering(s.rows[i := s.rows[i].(parentId := pid)], Next(s, Outdent(i)).rows)
  {
    if 0 <= m < |s.rows| {
      IndexOfIs(s.rows, m);
    }
    var pid := Grandparent(s.rows, i);
    SetParentParents(s.rows, i, pid);
    ReorderedIsReordering(WithParent(s.rows, i, pid));
  }

  // ------------------------------------------------------------------------------------------------
  // Move, load and save
  // ------------------------------------------------------------------------------------------------

  /** A move exchanges the row's block, as the depth scan finds it, with the rows from the nearest sibling in the
      direction of the move on; without such a sibling nothing happens. */
  lemma MoveStep(s: State, i: int, up: bool)
    requires WellNamed(s.rows) && Enabled(s, Move(i, up))
    ensures var rows, e := s.rows, SubtreeScan(Parents(s.rows), i);
            match MoveBlocks(rows, i, up)
            case NoSibling =>
              && Next(s, Move(i, up)) == s
              && forall k :: (if up then 0 else e) <= k < (if up then i else |rows|) ==>
                               rows[k].parentId != rows[i].parentId
            case Blocks(a, b, c) =>
              && Next(s, Move(i, up)).rows == rows[..a] + rows[b..c] + rows[a..b] + rows[c..]
              && rows[a].parentId == rows[b].parentId
              && (forall k :: (if up then a + 1 else e) <= k < b ==> rows[k].parentId != rows[i].parentId)
              && (if up then b == i && c == e else a == i && c == SubtreeScan(Parents(rows), b))
  {
  }

  /** From pre-order without dangling parent ids, that is the exchange of two adjacent sibling subtrees, unless the
      depth cap hides children of the row that comes second. */
  lemma MoveStepExchangesSiblings(s: State, i: int, up: bool)
    requires WellNamed(s.rows) && InPreOrder(s.rows) && NoDangling(s.rows) && Enabled(s, Move(i, up))
    requires MoveBlocks(s.rows, i, up).Blocks?
    ensures var p, rows, r := Parents(s.rows), s.rows, Next(s, Move(i, up)).rows;
            exists a, b, c ::
              && 0 <= a < b < c <= |rows| && i == (if up then b else a) && p[a] == p[b] && SubtreeIs(p, a, b)
              && (SubtreeIs(p, b, c) <==> Depth(p, b) < 128 || End(p, b) == b + 1)
              && r == rows[..a] + rows[b..c] + rows[a..b] + rows[c..]
  {
    hide Parents, PreOrder, WellNamed, NoDangling, SubtreeScan, PrevSibling, NextSibling, Saved, SwapBlocks, Depth,
         SubtreeIs;
    var Blocks(a, b, c) := MoveBlocks(s.rows, i, up);
    MoveExchangesSiblings(s.rows, i, up);
    assert i == (if up then b else a);
  }

  /** A load takes over every stored entry, with a minted id where it has none, and re-sorts. */
  lemma LoadStep(s: State, mint: seq<string>, b: seq<Entry>)
    requires Enabled(s, Load(mint)) && |b| == |s.stored|
    requires forall k :: 0 <= k < |b| ==>
               b[k] == if s.stored[k].id == "" then s.stored[k].(id := mint[k]) else s.stored[k]
    ensures IsReordering(b, Next(s, Load(mint)).rows)
    ensures Next(s, Load(mint)).rows == b ==> Next(s, Load(mint)).stored == s.stored
    ensures Next(s, Load(mint)).rows != b ==> IsStoredForm(Next(s, Load(mint)).rows, Next(s, Load(mint)).stored)
  {
    assert b == Backfilled(s.stored, mint);
    ReorderedIsReordering(b);
    hide Parents, PreOrder, WellNamed, Reordered, Saved, IsStoredForm, Backfilled;
    SavedIsStoredForm(Reordered(b));
  }

  /** The rows as they are stored: in order, all fields, and the parent id only if a row has it. */
  ghost predicate IsStoredForm(rows: seq<Entry>, stored: seq<Entry>) {
    && |stored| == |rows|
    && forall k :: 0 <= k < |rows| ==>
         && ((exists j :: 0 <= j < |rows| && rows[j].id == rows[k].parentId) ==> stored[k] == rows[k])
         && ((forall j :: 0 <= j < |rows| ==> rows[j].id != rows[k].parentId) ==>
               stored[k] == rows[k].(parentId := ""))
  }

  /** What is saved is that form.  Rows without id, of which there are none after a load, would not be stored. */
  lemma SavedIsStoredForm(rows: seq<Entry>)
    requires WellNamed(rows)
    ensures IsStoredForm(rows, Saved(rows))
  {
    var r := Saved(rows);
    forall k | 0 <= k < |rows|
      ensures (exists j :: 0 <= j < |rows| && rows[j].id == rows[k].parentId) ==> r[k] == rows[k]
      ensures (forall j :: 0 <= j < |rows| ==> rows[j].id != rows[k].parentId) ==>
                r[k] == rows[k].(parentId := "")
    {
      assert r[k] == Stored(rows, rows[k]);
    }
  }

  lemma {:induction false} SavedRowsHaveIds(rows: seq<Entry>, n: nat, e: Entry)
    requires n <= |rows|
    ensures e in SavedPrefix(rows, n) <==> exists i :: 0 <= i < n && rows[i].id != "" && e == Stored(rows, rows[i])
    decreases n
  {
    hide Stored;
    if n > 0 {
      SavedRowsHaveIds(rows, n - 1, e);
    }
  }

  /** Every click that changes the rows leaves the setting as the stored form of the new rows. */
  lemma ClickStores(s: State, step: Step)
    requires WellNamed(s.rows) && Enabled(s, step) && !step.Replace? && !step.Load?
    ensures Next(s, step) == s || IsStoredForm(Next(s, step).rows, Next(s, step).stored)
  {
    hide Stored, WellNamed, IsStoredForm;
    StepKeepsNames(s, step);
    SavedIsStoredForm(Next(s, step).rows);
  }
}
