/** The Startup tab as a state machine: the row list, the stored setting, and every edit. */
module StartupRun {
  import opened Forest
  import opened Surgery
  import opened LaunchEntries
  import opened StartupEdits

  // ------------------------------------------------------------------------------------------------
  // Indent and outdent
  // ------------------------------------------------------------------------------------------------

  function WithParent(rows: seq<Entry>, i: int, pid: string): (r: seq<Entry>)
    requires 0 <= i < |rows|
    ensures |r| == |rows|
  {
    rows[i := rows[i].(parentId := pid)]
  }

  /** Nest row `i` under the row before it, then re-sort. */
  ghost function IndentRows(rows: seq<Entry>, i: int): (r: seq<Entry>)
    requires 0 <= i < |rows|
  {
    if i == 0 then rows else Reordered(WithParent(rows, i, rows[i - 1].id))
  }

  /** The parent id an outdent gives to row `i`: that of its parent, or "" if its parent id dangles. */
  function Grandparent(rows: seq<Entry>, i: int): string
    requires 0 <= i < |rows|
  {
    var m := Resolve(rows, rows[i].parentId);
    if m < 0 then "" else rows[m].parentId
  }

  /** Hand row `i` to its grandparent, then re-sort. */
  ghost function OutdentRows(rows: seq<Entry>, i: int): (r: seq<Entry>)
    requires 0 <= i < |rows|
  {
    if rows[i].parentId == "" then rows else Reordered(WithParent(rows, i, Grandparent(rows, i)))
  }

  lemma IndentParents(rows: seq<Entry>, i: int)
    requires WellNamed(rows) && 0 < i < |rows|
    ensures WellNamed(WithParent(rows, i, rows[i - 1].id))
    ensures Parents(WithParent(rows, i, rows[i - 1].id)) == Parents(rows)[i := i - 1]
  {
    IndexOfIs(rows, i - 1);
    SetParentParents(rows, i, rows[i - 1].id);
  }

  /** From pre-order, an indent makes the row a child of the row before it; no row moves, none is lost and no
      cycle arises. */
  lemma IndentMovesNothing(rows: seq<Entry>, i: int)
    requires WellNamed(rows) && InPreOrder(rows) && 0 < i < |rows|
    ensures IndentRows(rows, i) == WithParent(rows, i, rows[i - 1].id)
    ensures WellNamed(IndentRows(rows, i)) && InPreOrder(IndentRows(rows, i))
    ensures Parents(IndentRows(rows, i)) == Parents(rows)[i := i - 1]
  {
    hide Parents, Reordered, PreOrder, WellNamed;
    IndentParents(rows, i);
    IndentKeepsPreOrder(Parents(rows), i);
    ReorderFixedIffPreOrder(WithParent(rows, i, rows[i - 1].id));
  }

  /** From pre-order, outdenting a child moves its subtree right behind the rest of its old parent's subtree,
      where it is the old parent's next sibling; every other row keeps its place in the order. */
  lemma OutdentMovesSubtree(rows: seq<Entry>, i: int)
    requires WellNamed(rows) && InPreOrder(rows) && 0 <= i < |rows| && Parents(rows)[i] >= 0
    ensures var p := Parents(rows);
            var m, e, f := p[i], End(p, i), End(p, p[i]);
            && e <= f
            && OutdentRows(rows, i) == SwapBlocks(WithParent(rows, i, rows[m].parentId), i, e, f)
            && Parents(OutdentRows(rows, i)) == SwapParents(Outdented(p, i), i, e, f)
    ensures WellNamed(OutdentRows(rows, i)) && InPreOrder(OutdentRows(rows, i))
  {
    var p := Parents(rows);
    var m := p[i];
    var rows' := WithParent(rows, i, rows[m].parentId);
    assert rows[i].parentId != "";
    SetParentParents(rows, i, rows[m].parentId);
    assert Parents(rows') == Outdented(p, i);
    OutdentWalk(p, i);
    SwapBlocksIsPick(rows', i, End(p, i), End(p, m));
    ReorderedShape(rows');
  }

  /** Outdenting a row with a dangling parent id only clears that id. */
  lemma OutdentOfOrphan(rows: seq<Entry>, i: int)
    requires WellNamed(rows) && InPreOrder(rows) && 0 <= i < |rows| && Parents(rows)[i] < 0
    ensures OutdentRows(rows, i) == WithParent(rows, i, "")
    ensures Parents(OutdentRows(rows, i)) == Parents(rows)
    ensures WellNamed(OutdentRows(rows, i))
  {
    hide Parents, WellNamed, PreOrder, Reordered;
    OrphanParents(rows, i);
    ReorderFixedIffPreOrder(WithParent(rows, i, ""));
  }

  lemma OrphanParents(rows: seq<Entry>, i: int)
    requires WellNamed(rows) && 0 <= i < |rows| && Parents(rows)[i] < 0
    ensures Grandparent(rows, i) == "" && (rows[i].parentId == "" ==> WithParent(rows, i, "") == rows)
    ensures WellNamed(WithParent(rows, i, "")) && Parents(WithParent(rows, i, "")) == Parents(rows)
  {
    hide WellNamed;
    SetParentParents(rows, i, "");
    assert Parents(rows)[i := -1] == Parents(rows);
  }

  /** Position of the row that was at `x`, after outdenting `i`. */
  ghost function OutdentTo(p: seq<int>, i: int, x: int): int
    requires 0 <= i < |p| && 0 <= p[i] < |p|
  {
    To(x, i, End(p, i), End(p, p[i]))
  }

  lemma OutdentRowAt(rows: seq<Entry>, i: int, x: int)
    requires WellNamed(rows) && InPreOrder(rows) && 0 <= i < |rows| && Parents(rows)[i] >= 0
    requires 0 <= x < |rows|
    ensures var y := OutdentTo(Parents(rows), i, x);
            0 <= y < |OutdentRows(rows, i)| && OutdentRows(rows, i)[y].id == rows[x].id
  {
    var p := Parents(rows);
    OutdentMovesSubtree(rows, i);
    SwapBlocksAt(WithParent(rows, i, rows[p[i]].parentId), i, End(p, i), End(p, p[i]), x);
  }

  lemma OutdentLevelOf(p: seq<int>, i: int, x: int)
    requires PreOrder(p) && 0 <= i < |p| && p[i] >= 0 && 0 <= x < |p|
    ensures End(p, i) <= End(p, p[i])
    ensures var q := SwapParents(Outdented(p, i), i, End(p, i), End(p, p[i]));
            var y := OutdentTo(p, i, x);
            && ParentFirst(q) && 0 <= y < |q|
            && Depth(q, y) == Depth(p, x) - (if Descends(p, x, i) then 1 else 0)
  {
    PreOrderEnd(p, i, End(p, i));
    PreOrderIffNonCrossing(p);
    OutdentFacts(p, i);
    OutdentDepth(p, i, OutdentTo(p, i, x));
  }

  /** Outdent brings every row of the moved subtree up one level and leaves every other row at its level. */
  lemma OutdentLevels(rows: seq<Entry>, i: int, x: int)
    requires WellNamed(rows) && InPreOrder(rows) && 0 <= i < |rows| && Parents(rows)[i] >= 0
    requires 0 <= x < |rows|
    ensures InPreOrder(OutdentRows(rows, i))
    ensures var y := OutdentTo(Parents(rows), i, x);
            && 0 <= y < |OutdentRows(rows, i)| && OutdentRows(rows, i)[y].id == rows[x].id
            && Depth(Parents(OutdentRows(rows, i)), y)
                == Depth(Parents(rows), x) - (if Descends(Parents(rows), x, i) then 1 else 0)
  {
    OutdentRowAt(rows, i, x);
    OutdentLevelOf(Parents(rows), i, x);
    OutdentMovesSubtree(rows, i);
  }

  /** ... and makes the row the next sibling after its old parent. */
  lemma OutdentNextSibling(rows: seq<Entry>, i: int)
    requires WellNamed(rows) && InPreOrder(rows) && 0 <= i < |rows| && Parents(rows)[i] >= 0
    ensures var p, r := Parents(rows), OutdentRows(rows, i);
            var m, y := p[i], OutdentTo(p, i, i);
            && InPreOrder(r)
            && 0 <= m < y < |r| && r[m].id == rows[m].id && r[y].id == rows[i].id
            && Parents(r)[y] == Parents(r)[m] && End(Parents(r), m) == y
  {
    var p := Parents(rows);
    var m, e, f := p[i], End(p, i), End(p, p[i]);
    OutdentMovesSubtree(rows, i);
    PreOrderIffNonCrossing(p);
    OutdentFacts(p, i);
    SwapBlocksIsPick(WithParent(rows, i, rows[m].parentId), i, e, f);
    OutdentOldParentEnd(p, i);
  }

  lemma OutdentOldParentEnd(p: seq<int>, i: int)
    requires ParentFirst(p) && NonCrossing(p) && 0 <= i < |p| && p[i] >= 0
    ensures End(p, i) <= End(p, p[i])
    ensures var q := SwapParents(Outdented(p, i), i, End(p, i), End(p, p[i]));
            var y := OutdentTo(p, i, i);
            p[i] < y < |q| && q[y] == q[p[i]] && End(q, p[i]) == y
  {
    OutdentFacts(p, i);
    var m, e, f := p[i], End(p, i), End(p, p[i]);
    var q := SwapParents(Outdented(p, i), i, e, f);
    var y := i + f - e;
    assert From(y, i, e, f) == i && q[y] == p[m];
    forall k | m < k < y
      ensures q[k] >= m
    {
      var x := From(k, i, e, f);
      assert x < f && x != i && (x < i || e <= x);
    }
    EndIs(q, m, y);
  }

  // ------------------------------------------------------------------------------------------------
  // Add, remove, edit
  // ------------------------------------------------------------------------------------------------

  function AddRow(rows: seq<Entry>, id: string): seq<Entry> {
    rows + [Entry(id, "", "", "", "", "", "", "")]
  }

  /** No row has this id, and no row waits for it as its parent. */
  ghost predicate Fresh(rows: seq<Entry>, id: string) {
    id != "" && forall i :: 0 <= i < |rows| ==> rows[i].id != id && rows[i].parentId != id
  }

  lemma AddParents(rows: seq<Entry>, id: string)
    requires WellNamed(rows) && Fresh(rows, id)
    ensures WellNamed(AddRow(rows, id)) && Parents(AddRow(rows, id)) == Parents(rows) + [-1]
  {
    var r := AddRow(rows, id);
    forall i | 0 <= i < |r|
      ensures Parents(r)[i] == (Parents(rows) + [-1])[i]
    {
      if i < |rows| {
        assert r[i] == rows[i];
        assert r[..|rows|] == rows;
      }
    }
  }

  function RemoveRow(rows: seq<Entry>, m: int): (r: seq<Entry>)
    requires 0 <= m < |rows|
    ensures |r| == |rows| - 1 && forall k :: 0 <= k < |r| ==> r[k] == rows[SkipFrom(k, m)]
  {
    rows[..m] + rows[m + 1..]
  }

  lemma RemoveIndex(rows: seq<Entry>, m: int, id: string)
    requires WellNamed(rows) && 0 <= m < |rows|
    ensures IndexOf(RemoveRow(rows, m), id) == SkipTo(IndexOf(rows, id), m)
  {
    var r := RemoveRow(rows, m);
    var x, y := IndexOf(rows, id), IndexOf(r, id);
    if x >= 0 && x != m {
      assert r[SkipTo(x, m)] == rows[x];
    }
    if y >= 0 {
      IndexOfIs(rows, SkipFrom(y, m));
    }
  }

  lemma RemoveRowParents(rows: seq<Entry>, m: int)
    requires WellNamed(rows) && 0 <= m < |rows|
    ensures WellNamed(RemoveRow(rows, m)) && Parents(RemoveRow(rows, m)) == RemoveParents(Parents(rows), m)
  {
    var r := RemoveRow(rows, m);
    forall k | 0 <= k < |r|
      ensures Parents(r)[k] == RemoveParents(Parents(rows), m)[k]
    {
      RemoveIndex(rows, m, r[k].parentId);
    }
  }

  /** Overwrite everything the user can type into row `i`. */
  function EditRow(rows: seq<Entry>, i: int, e: Entry): (r: seq<Entry>)
    requires 0 <= i < |rows|
    ensures |r| == |rows|
  {
    rows[i := e.(id := rows[i].id, parentId := rows[i].parentId)]
  }

  lemma EditParents(rows: seq<Entry>, i: int, e: Entry)
    requires WellNamed(rows) && 0 <= i < |rows|
    ensures WellNamed(EditRow(rows, i, e)) && Parents(EditRow(rows, i, e)) == Parents(rows)
  {
    var r := EditRow(rows, i, e);
    forall k | 0 <= k < |rows|
      ensures Parents(r)[k] == Parents(rows)[k]
    {
      SameIdsSameIndex(rows, r, r[k].parentId);
    }
  }

  // ------------------------------------------------------------------------------------------------
  // Saving and loading
  // ------------------------------------------------------------------------------------------------

  /** A row as it is stored: a parent id that names no row is not stored. */
  function Stored(rows: seq<Entry>, e: Entry): Entry {
    if e.parentId != "" && IndexOf(rows, e.parentId) < 0 then e.(parentId := "") else e
  }

  /** The stored form of the first `n` rows; rows without id are left out. */
  function SavedPrefix(rows: seq<Entry>, n: nat): (r: seq<Entry>)
    requires n <= |rows|
    ensures (forall i :: 0 <= i < n ==> rows[i].id != "") ==>
              |r| == n && forall i :: 0 <= i < n ==> r[i] == Stored(rows, rows[i])
  {
    if n == 0 then []
    else SavedPrefix(rows, n - 1) + (if rows[n - 1].id == "" then [] else [Stored(rows, rows[n - 1])])
  }

  function Saved(rows: seq<Entry>): seq<Entry> {
    SavedPrefix(rows, |rows|)
  }

  /** Saving keeps the forest, the row order and every field, and leaves no dangling parent id. */
  lemma SavedParents(rows: seq<Entry>)
    requires WellNamed(rows)
    ensures |Saved(rows)| == |rows| && WellNamed(Saved(rows)) && NoDangling(Saved(rows))
    ensures Parents(Saved(rows)) == Parents(rows)
    ensures forall i :: 0 <= i < |rows| ==> Saved(rows)[i].(parentId := rows[i].parentId) == rows[i]
  {
    var r := Saved(rows);
    forall i | 0 <= i < |rows|
      ensures Parents(r)[i] == Parents(rows)[i]
      ensures r[i].parentId != "" ==> IndexOf(r, r[i].parentId) >= 0
    {
      SavedParentAt(rows, i);
    }
    hide IndexOf, Resolve, SavedPrefix;
  }

  lemma SavedParentAt(rows: seq<Entry>, i: int)
    requires WellNamed(rows) && 0 <= i < |rows|
    ensures |Saved(rows)| == |rows| && Parents(Saved(rows))[i] == Parents(rows)[i]
    ensures Saved(rows)[i].parentId != "" ==> IndexOf(Saved(rows), Saved(rows)[i].parentId) >= 0
  {
    var r := Saved(rows);
    assert r[i] == Stored(rows, rows[i]);
    assert forall k :: 0 <= k < |rows| ==> r[k].id == rows[k].id;
    hide Saved, SavedPrefix, IndexOf, WellNamed;
    SameIdsSameIndex(rows, r, r[i].parentId);
  }

  /** The stored list with a minted id for every entry that has none. */
  function Backfilled(stored: seq<Entry>, mint: seq<string>): (r: seq<Entry>)
    requires |mint| == |stored|
    ensures |r| == |stored|
  {
    seq(|stored|, i requires 0 <= i < |stored| =>
      if stored[i].id == "" then stored[i].(id := mint[i]) else stored[i])
  }

  datatype State = State(rows: seq<Entry>, stored: seq<Entry>)

  function Commit(rows: seq<Entry>): State {
    State(rows, Saved(rows))
  }

  /** Minted ids are new: no entry already waits for one as its parent. */
  ghost predicate FreshMint(stored: seq<Entry>, mint: seq<string>) {
    && |mint| == |stored|
    && forall i, j :: 0 <= i < |stored| && 0 <= j < |stored| && stored[i].id == "" ==> mint[i] != stored[j].parentId
  }

  /** Loading gives every entry an id and changes nothing else: the ids there are, all other fields, and the effective
      parents stay. */
  lemma BackfillKeepsForest(stored: seq<Entry>, mint: seq<string>, i: int)
    requires FreshMint(stored, mint) && WellNamed(Backfilled(stored, mint)) && 0 <= i < |stored|
    ensures var b := Backfilled(stored, mint);
            && |b| == |stored| && b[i].id != "" && (stored[i].id != "" ==> b[i] == stored[i])
            && b[i].(id := stored[i].id) == stored[i]
            && Parents(b)[i] == Resolve(stored, stored[i].parentId)
  {
    var b := Backfilled(stored, mint);
    var pid := stored[i].parentId;
    if pid != "" {
      var x, y := IndexOf(stored, pid), IndexOf(b, pid);
      if y >= 0 {
        assert b[y].id == pid;
      }
      if x >= 0 {
        assert b[x].id == pid;
      }
    }
  }

  /** Rows from the setting, re-sorted; the re-sorted list is written back when it differs. */
  ghost function LoadState(stored: seq<Entry>, mint: seq<string>): State
    requires |mint| == |stored|
  {
    var b := Backfilled(stored, mint);
    var r := Reordered(b);
    if r == b then State(r, stored) else Commit(r)
  }

  /** Loading heals: the editor ends in pre-order; and once it has written the healed list back, that list has
      no dangling parent, lists parents first, and no later load changes or rewrites it. */
  lemma LoadHeals(stored: seq<Entry>, mint: seq<string>, mint': seq<string>)
    requires |mint| == |stored| && WellNamed(Backfilled(stored, mint))
    ensures var s := LoadState(stored, mint);
            && WellNamed(s.rows) && InPreOrder(s.rows)
            && (s.rows != Backfilled(stored, mint) ==>
                 && s.stored == Saved(s.rows)
                 && NoDangling(s.stored) && ParentFirst(Parents(s.stored))
                 && (|mint'| == |s.stored| ==> LoadState(s.stored, mint') == State(s.stored, s.stored)))
            && (s.rows == Backfilled(stored, mint) ==> s.stored == stored && InPreOrder(Backfilled(stored, mint)))
  {
    var b := Backfilled(stored, mint);
    var s := LoadState(stored, mint);
    ReorderedShape(b);
    if s.rows != b {
      SavedParents(s.rows);
      if |mint'| == |s.stored| {
        assert Backfilled(s.stored, mint') == s.stored;
        ReorderFixedIffPreOrder(s.stored);
      }
    }
  }

  // ------------------------------------------------------------------------------------------------
  // Runs
  // ------------------------------------------------------------------------------------------------

  datatype Step =
    | Replace(stored: seq<Entry>)       // something else writes the setting
    | Load(mint: seq<string>)
    | Add(id: string)
    | Edit(i: int, e: Entry)
    | Indent(i: int)
    | Outdent(i: int)
    | Move(i: int, up: bool)
    | Remove(i: int)

  /** The click lands on a row; minted ids are new. */
  ghost predicate Enabled(s: State, step: Step) {
    match step
    case Replace(_) => true
    case Load(mint) => FreshMint(s.stored, mint) && WellNamed(Backfilled(s.stored, mint))
    case Add(id) => Fresh(s.rows, id)
    case Edit(i, _) => 0 <= i < |s.rows|
    case Indent(i) => 0 <= i < |s.rows|
    case Outdent(i) => 0 <= i < |s.rows|
    case Move(i, _) => 0 <= i < |s.rows|
    case Remove(i) => 0 <= i < |s.rows|
  }

  ghost function Next(s: State, step: Step): State
    requires Enabled(s, step)
  {
    match step
    case Replace(stored) => s.(stored := stored)
    case Load(mint) => LoadState(s.stored, mint)
    case Add(id) => Commit(AddRow(s.rows, id))
    case Edit(i, e) => Commit(EditRow(s.rows, i, e))
    case Indent(i) => if i == 0 then s else Commit(IndentRows(s.rows, i))
    case Outdent(i) => if s.rows[i].parentId == "" then s else Commit(OutdentRows(s.rows, i))
    case Move(i, up) => if MoveBlocks(s.rows, i, up).NoSibling? then s else Commit(Moved(s.rows, i, up))
    case Remove(i) => Commit(RemoveRow(s.rows, i))
  }

  /** Every step, from every state, keeps ids present and distinct. */
  lemma StepKeepsNames(s: State, step: Step)
    requires WellNamed(s.rows) && Enabled(s, step)
    ensures WellNamed(Next(s, step).rows)
  {
    var rows := s.rows;
    match step
    case Replace(_) =>
    case Load(mint) => ReorderedShape(Backfilled(s.stored, mint));
    case Add(id) => AddParents(rows, id);
    case Edit(i, e) => EditParents(rows, i, e);
    case Indent(i) =>
      if i > 0 {
        SetParentParents(rows, i, rows[i - 1].id);
        ReorderedShape(WithParent(rows, i, rows[i - 1].id));
      }
    case Outdent(i) =>
      SetParentParents(rows, i, Grandparent(rows, i));
      ReorderedShape(WithParent(rows, i, Grandparent(rows, i)));
    case Move(i, up) =>
      match MoveBlocks(rows, i, up) {
        case NoSibling =>
        case Blocks(a, b, c) => SwapBlocksParents(rows, a, b, c);
      }
    case Remove(i) => RemoveRowParents(rows, i);
  }

  /** What a step must satisfy to keep a pre-order list in pre-order.  Only two kinds of step can break it: a
      move whose block the depth cap truncates, and the removal of a row with children when a non-root row
      follows its subtree. */
  ghost predicate KeepsOrder(s: State, step: Step)
    requires Enabled(s, step) && InPreOrder(s.rows)
  {
    match step
    case Move(i, up) => Movable(s.rows, i, up)
    case Remove(i) => Removable(Parents(s.rows), i)
    case _ => true
  }

  /** From pre-order, a step leads to pre-order if and only if it satisfies this condition. */
  lemma StepPreOrderIff(s: State, step: Step)
    requires WellNamed(s.rows) && InPreOrder(s.rows) && Enabled(s, step)
    ensures InPreOrder(Next(s, step).rows) <==> KeepsOrder(s, step)
  {
    hide Parents, PreOrder, Reordered, WellNamed, Saved, Removable, Movable;
    var rows := s.rows;
    match step
    case Replace(_) =>
    case Load(mint) => ReorderedShape(Backfilled(s.stored, mint));
    case Add(id) =>
      AddParents(rows, id);
      AppendRootKeepsPreOrder(Parents(rows));
    case Edit(i, e) => EditParents(rows, i, e);
    case Indent(i) =>
      if i > 0 {
        IndentMovesNothing(rows, i);
      }
    case Outdent(i) =>
      if Parents(rows)[i] >= 0 {
        OutdentMovesSubtree(rows, i);
      } else {
        OutdentOfOrphan(rows, i);
      }
    case Move(i, up) => MovePreOrderIff(rows, i, up);
    case Remove(i) =>
      RemoveRowParents(rows, i);
      RemovePreOrderIff(Parents(rows), i);
  }

  /** Removing any row at all still leaves every parent before its children. */
  lemma RemoveKeepsParentsFirst(rows: seq<Entry>, i: int)
    requires WellNamed(rows) && ParentFirst(Parents(rows)) && 0 <= i < |rows|
    ensures ParentFirst(Parents(RemoveRow(rows, i)))
  {
    RemoveRowParents(rows, i);
    RemoveKeepsParentFirst(Parents(rows), i);
  }

  // ------------------------------------------------------------------------------------------------
  // What the rows hold
  // ------------------------------------------------------------------------------------------------

  /** Everything a row holds besides its place in the forest, by id. */
  ghost function Ledger(rows: seq<Entry>): (m: map<string, Entry>) {
    map id | id in (set i | 0 <= i < |rows| :: rows[i].id) :: rows[IndexOf(rows, id)].(parentId := "")
  }

  lemma LedgerOf(rows: seq<Entry>, id: string)
    ensures id in Ledger(rows) <==> IndexOf(rows, id) >= 0
    ensures id in Ledger(rows) ==> Ledger(rows)[id] == rows[IndexOf(rows, id)].(parentId := "")
  {
  }

  /** Row `i` of one list is row `j` of the other, up to its parent id. */
  predicate SameRow(a: seq<Entry>, i: int, b: seq<Entry>, j: int) {
    0 <= i < |a| && 0 <= j < |b| && a[i].(parentId := "") == b[j].(parentId := "")
  }

  lemma SameRowIndex(a: seq<Entry>, i: int, b: seq<Entry>, j: int)
    requires WellNamed(b) && SameRow(a, i, b, j)
    ensures IndexOf(b, a[i].id) == j
  {
    assert a[i].(parentId := "").id == a[i].id && b[j].(parentId := "").id == b[j].id;
    IndexOfIs(b, j);
  }

  /** Two lists have the same ledger when every row of one occurs in the other, up to its parent id. */
  lemma SameLedgerAt(a: seq<Entry>, b: seq<Entry>, f: int -> int, g: int -> int, id: string)
    requires WellNamed(a) && WellNamed(b)
    requires forall i :: 0 <= i < |a| ==> SameRow(a, i, b, f(i))
    requires forall j :: 0 <= j < |b| ==> SameRow(b, j, a, g(j))
    ensures id in Ledger(a) <==> id in Ledger(b)
    ensures id in Ledger(a) ==> Ledger(a)[id] == Ledger(b)[id]
  {
    LedgerOf(a, id);
    LedgerOf(b, id);
    hide Ledger, IndexOf, WellNamed;
    var i, j := IndexOf(a, id), IndexOf(b, id);
    if i >= 0 {
      SameRowIndex(a, i, b, f(i));
    }
    if j >= 0 {
      SameRowIndex(b, j, a, g(j));
    }
  }

  lemma SameLedger(a: seq<Entry>, b: seq<Entry>, f: int -> int, g: int -> int)
    requires WellNamed(a) && WellNamed(b)
    requires forall i :: 0 <= i < |a| ==> SameRow(a, i, b, f(i))
    requires forall j :: 0 <= j < |b| ==> SameRow(b, j, a, g(j))
    ensures Ledger(a) == Ledger(b)
  {
    hide Ledger, WellNamed, SameRow;
    forall id: string
      ensures id in Ledger(a) <==> id in Ledger(b)
      ensures id in Ledger(a) ==> Ledger(a)[id] == Ledger(b)[id]
    {
      SameLedgerAt(a, b, f, g, id);
    }
  }

  lemma SwapLedger(rows: seq<Entry>, a: int, b: int, c: int)
    requires WellNamed(rows) && 0 <= a <= b <= c <= |rows|
    ensures WellNamed(SwapBlocks(rows, a, b, c)) && Ledger(SwapBlocks(rows, a, b, c)) == Ledger(rows)
  {
    hide SwapBlocks, Parents, WellNamed, Ledger;
    SwapBlocksParents(rows, a, b, c);
    var r := SwapBlocks(rows, a, b, c);
    var f, g := k => From(k, a, b, c), x => To(x, a, b, c);
    forall k | 0 <= k < |r|
      ensures SameRow(r, k, rows, f(k))
    {
      SwapBlocksAt(rows, a, b, c, From(k, a, b, c));
    }
    forall x | 0 <= x < |rows|
      ensures SameRow(rows, x, r, g(x))
    {
      SwapBlocksAt(rows, a, b, c, x);
    }
    SameLedger(r, rows, f, g);
  }

  lemma WithParentLedger(rows: seq<Entry>, i: int, pid: string)
    requires WellNamed(rows) && 0 <= i < |rows|
    ensures WellNamed(WithParent(rows, i, pid)) && Ledger(WithParent(rows, i, pid)) == Ledger(rows)
  {
    SetParentParents(rows, i, pid);
    SameLedger(WithParent(rows, i, pid), rows, k => k, k => k);
  }

  /** What a step should do to the ledger: add, edit and remove change it for the row at hand, and a load takes
      over every entry of the setting. */
  ghost function LedgerAfter(s: State, step: Step): map<string, Entry>
    requires Enabled(s, step)
  {
    match step
    case Load(mint) => Ledger(Backfilled(s.stored, mint))
    case Add(id) => Ledger(s.rows)[id := Entry(id, "", "", "", "", "", "", "")]
    case Edit(i, e) => Ledger(s.rows)[s.rows[i].id := e.(id := s.rows[i].id, parentId := "")]
    case Remove(i) => Ledger(s.rows) - {s.rows[i].id}
    case _ => Ledger(s.rows)
  }

  lemma AddLedgerAt(rows: seq<Entry>, id: string, x: string)
    requires WellNamed(rows) && Fresh(rows, id)
    ensures x in Ledger(AddRow(rows, id)) <==> x in Ledger(rows) || x == id
    ensures x in Ledger(AddRow(rows, id)) ==>
              Ledger(AddRow(rows, id))[x] == if x == id then Entry(id, "", "", "", "", "", "", "") else Ledger(rows)[x]
  {
    var r := AddRow(rows, id);
    AddParents(rows, id);
    LedgerOf(rows, x);
    LedgerOf(r, x);
    hide Ledger, IndexOf, Parents;
    var i := IndexOf(rows, x);
    if x == id {
      IndexOfIs(r, |rows|);
    } else if i >= 0 {
      assert r[i] == rows[i];
      IndexOfIs(r, i);
    } else {
      assert forall k :: 0 <= k < |rows| ==> r[k] == rows[k];
    }
  }

  lemma AddLedger(rows: seq<Entry>, id: string)
    requires WellNamed(rows) && Fresh(rows, id)
    ensures Ledger(AddRow(rows, id)) == Ledger(rows)[id := Entry(id, "", "", "", "", "", "", "")]
  {
    hide Ledger, WellNamed, Fresh, AddRow;
    var m := Ledger(rows)[id := Entry(id, "", "", "", "", "", "", "")];
    forall x: string
      ensures x in Ledger(AddRow(rows, id)) <==> x in m
      ensures x in m ==> Ledger(AddRow(rows, id))[x] == m[x]
    {
      AddLedgerAt(rows, id, x);
    }
  }

  lemma EditLedgerAt(rows: seq<Entry>, i: int, e: Entry, x: string)
    requires WellNamed(rows) && 0 <= i < |rows|
    ensures x in Ledger(EditRow(rows, i, e)) <==> x in Ledger(rows)
    ensures x in Ledger(rows) ==>
              Ledger(EditRow(rows, i, e))[x] ==
                if x == rows[i].id then e.(id := rows[i].id, parentId := "") else Ledger(rows)[x]
  {
    var r := EditRow(rows, i, e);
    LedgerOf(rows, x);
    LedgerOf(r, x);
    hide Ledger;
    SameIdsSameIndex(rows, r, x);
    hide IndexOf;
    IndexOfIs(rows, i);
  }

  lemma EditLedger(rows: seq<Entry>, i: int, e: Entry)
    requires WellNamed(rows) && 0 <= i < |rows|
    ensures Ledger(EditRow(rows, i, e)) == Ledger(rows)[rows[i].id := e.(id := rows[i].id, parentId := "")]
  {
    hide WellNamed, EditRow;
    LedgerOf(rows, rows[i].id);
    IndexOfHas(rows, i);
    hide Ledger;
    var m := Ledger(rows)[rows[i].id := e.(id := rows[i].id, parentId := "")];
    forall x: string
      ensures x in Ledger(EditRow(rows, i, e)) <==> x in m
      ensures x in m ==> Ledger(EditRow(rows, i, e))[x] == m[x]
    {
      EditLedgerAt(rows, i, e, x);
    }
  }

  lemma IndexOfHas(rows: seq<Entry>, i: int)
    requires 0 <= i < |rows|
    ensures IndexOf(rows, rows[i].id) >= 0
  {
  }

  lemma RemoveLedgerAt(rows: seq<Entry>, m: int, id: string)
    requires WellNamed(rows) && 0 <= m < |rows|
    ensures id in Ledger(RemoveRow(rows, m)) <==> id in Ledger(rows) && id != rows[m].id
    ensures id in Ledger(RemoveRow(rows, m)) ==> Ledger(RemoveRow(rows, m))[id] == Ledger(rows)[id]
  {
    hide Ledger, DistinctIds, IndexOf;
    LedgerOf(rows, id);
    LedgerOf(RemoveRow(rows, m), id);
    RemoveIndex(rows, m, id);
    IndexOfIs(rows, m);
  }

  lemma RemoveLedger(rows: seq<Entry>, m: int)
    requires WellNamed(rows) && 0 <= m < |rows|
    ensures Ledger(RemoveRow(rows, m)) == Ledger(rows) - {rows[m].id}
  {
    hide Ledger, WellNamed, RemoveRow;
    forall id: string
      ensures id in Ledger(RemoveRow(rows, m)) <==> id in Ledger(rows) && id != rows[m].id
      ensures id in Ledger(RemoveRow(rows, m)) ==> Ledger(RemoveRow(rows, m))[id] == Ledger(rows)[id]
    {
      RemoveLedgerAt(rows, m, id);
    }
  }

  ghost predicate EnabledRun(s: State, steps: seq<Step>)
    decreases |steps|
  {
    steps == [] || (Enabled(s, steps[0]) && EnabledRun(Next(s, steps[0]), steps[1..]))
  }

  ghost function Run(s: State, steps: seq<Step>): State
    requires EnabledRun(s, steps)
    decreases |steps|
  {
    if steps == [] then s else Run(Next(s, steps[0]), steps[1..])
  }

  /** Over every run, ids stay present and distinct. */
  lemma {:induction false} RunKeepsNames(s: State, steps: seq<Step>)
    requires WellNamed(s.rows) && EnabledRun(s, steps)
    ensures WellNamed(Run(s, steps).rows)
    decreases |steps|
  {
    if steps != [] {
      StepKeepsNames(s, steps[0]);
      RunKeepsNames(Next(s, steps[0]), steps[1..]);
    }
  }
}
