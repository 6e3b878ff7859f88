/** Where the editor's guarantees stop: clicks that lose rows, a move that is not undone, a move and a removal that
    leave pre-order, and a stored list on which the re-sort does not end. */
module StartupLimits {
  import opened Forest
  import opened Walk
  import opened Surgery
  import opened DepthScan
  import opened IdWalk
  import opened LaunchEntries
  import opened StartupEdits
  import opened StartupRun

  // ------------------------------------------------------------------------------------------------
  // Concrete lists
  // ------------------------------------------------------------------------------------------------

  function Row(id: char, parent: char): Entry {
    Entry([id], if parent == '-' then "" else [parent], "", "", "", "", "", "")
  }

  /** Rows with one-letter ids and parent ids; '-' is no parent. */
  function Rows(ids: string, parents: string): (r: seq<Entry>)
    requires |ids| == |parents|
    ensures |r| == |ids| && forall i :: 0 <= i < |r| ==> r[i] == Row(ids[i], parents[i])
  {
    seq(|ids|, i requires 0 <= i < |ids| => Row(ids[i], parents[i]))
  }

  ghost predicate Distinct(ids: string) {
    forall i, j :: 0 <= i < j < |ids| ==> ids[i] != ids[j]
  }

  /** Row `i` hangs below row `q[i]`, or is a root. */
  ghost predicate Hangs(ids: string, parents: string, q: seq<int>)
    requires |ids| == |parents|
  {
    && Distinct(ids) && |q| == |ids|
    && forall i :: 0 <= i < |ids| ==>
         if q[i] < 0 then q[i] == -1 && (parents[i] == '-' || parents[i] !in ids)
         else q[i] < |ids| && parents[i] != '-' && ids[q[i]] == parents[i]
  }

  lemma RowsHang(ids: string, parents: string, q: seq<int>)
    requires |ids| == |parents| && Hangs(ids, parents, q)
    ensures WellNamed(Rows(ids, parents)) && Parents(Rows(ids, parents)) == q
  {
    var rows := Rows(ids, parents);
    assert WellNamed(rows) by {
      forall i, j | 0 <= i < j < |rows| ensures rows[i].id != rows[j].id {
        assert rows[i].id[0] == ids[i] && rows[j].id[0] == ids[j];
      }
    }
    forall i | 0 <= i < |rows| ensures Parents(rows)[i] == q[i] {
      if q[i] >= 0 {
        IndexOfIs(rows, q[i]);
      }
    }
  }

  lemma SwappedRows(ids: string, parents: string, a: int, b: int, c: int, ids': string, parents': string)
    requires |ids| == |parents| && 0 <= a <= b <= c <= |ids|
    requires ids' == ids[..a] + ids[b..c] + ids[a..b] + ids[c..]
    requires parents' == parents[..a] + parents[b..c] + parents[a..b] + parents[c..]
    ensures SwapBlocks(Rows(ids, parents), a, b, c) == Rows(ids', parents')
  {
  }

  lemma RemovedRows(ids: string, parents: string, m: int, ids': string, parents': string)
    requires |ids| == |parents| && 0 <= m < |ids|
    requires ids' == ids[..m] + ids[m + 1..] && parents' == parents[..m] + parents[m + 1..]
    ensures RemoveRow(Rows(ids, parents), m) == Rows(ids', parents')
  {
  }

  /** Rows `i..e` are deeper than row `i`, and row `e` is not. */
  lemma ScanIs(p: seq<int>, i: int, e: int)
    requires ParentFirst(p) && 0 <= i < e <= |p| && Depth(p, i) < DEPTH_CAP
    requires forall k :: i < k < e ==> Depth(p, k) > Depth(p, i)
    requires e < |p| ==> Depth(p, e) <= Depth(p, i)
    ensures SubtreeScan(p, i) == e
  {
    CappedDepthIsDepth(p, i, DEPTH_CAP);
    ScanFromIs(p, Depth(p, i), i + 1, e);
  }

  lemma {:induction false} ScanFromIs(p: seq<int>, d: nat, k: int, e: int)
    requires ParentFirst(p) && 0 <= k <= e <= |p| && d < DEPTH_CAP
    requires forall x :: k <= x < e ==> Depth(p, x) > d
    requires e < |p| ==> Depth(p, e) <= d
    ensures ScanFrom(p, d, k) == e
    decreases e - k
  {
    if k < |p| {
      CappedDepthIsDepth(p, k, DEPTH_CAP);
    }
    if k < e {
      ScanFromIs(p, d, k + 1, e);
    }
  }

  /** A move up exchanges a..b with b..c. */
  lemma UpIs(ids: string, parents: string, p: seq<int>, a: int, b: int, c: int, ids': string, parents': string)
    requires |ids| == |parents| && Hangs(ids, parents, p) && ParentFirst(p) && 0 <= a < b < |ids|
    requires parents[a] == parents[b] && SubtreeScan(p, b) == c && forall k :: a < k < b ==> parents[k] != parents[b]
    requires ids' == ids[..a] + ids[b..c] + ids[a..b] + ids[c..]
    requires parents' == parents[..a] + parents[b..c] + parents[a..b] + parents[c..]
    ensures MoveBlocks(Rows(ids, parents), b, true) == Blocks(a, b, c)
    ensures Moved(Rows(ids, parents), b, true) == Rows(ids', parents')
  {
    var rows := Rows(ids, parents);
    RowsHang(ids, parents, p);
    forall k | a < k < b ensures rows[k].parentId != rows[b].parentId {
      ParentIdsDiffer(parents[k], parents[b]);
    }
    hide Parents, SubtreeScan, Hangs;
    SwappedRows(ids, parents, a, b, c, ids', parents');
  }

  lemma ParentIdsDiffer(x: char, y: char)
    requires x != y
    ensures Row(x, x).parentId != Row(y, y).parentId
  {
    if x != '-' && y != '-' {
      assert Row(x, x).parentId[0] == x && Row(y, y).parentId[0] == y;
    }
  }

  /** A move down from the start of a..b exchanges it with b..c. */
  lemma DownIs(ids: string, parents: string, p: seq<int>, a: int, b: int, c: int, ids': string, parents': string)
    requires |ids| == |parents| && Hangs(ids, parents, p) && ParentFirst(p) && 0 <= a < b < |ids|
    requires parents[a] == parents[b] && SubtreeScan(p, a) == b && SubtreeScan(p, b) == c
    requires ids' == ids[..a] + ids[b..c] + ids[a..b] + ids[c..]
    requires parents' == parents[..a] + parents[b..c] + parents[a..b] + parents[c..]
    ensures MoveBlocks(Rows(ids, parents), a, false) == Blocks(a, b, c)
    ensures Moved(Rows(ids, parents), a, false) == Rows(ids', parents')
  {
    RowsHang(ids, parents, p);
    hide Parents, SubtreeScan, Hangs;
    SwappedRows(ids, parents, a, b, c, ids', parents');
  }

  lemma NextOfRun(s: State, step: Step, s': State, rest: seq<Step>)
    requires Enabled(s, step) && Next(s, step) == s' && EnabledRun(s', rest)
    ensures EnabledRun(s, [step] + rest) && Run(s, [step] + rest) == Run(s', rest)
  {
    assert ([step] + rest)[1..] == rest;
  }

  lemma LoadIs(rows: seq<Entry>, mint: seq<string>)
    requires WellNamed(rows) && InPreOrder(rows) && |mint| == |rows|
    ensures Enabled(State([], rows), Load(mint)) && Next(State([], rows), Load(mint)) == State(rows, rows)
  {
    assert Backfilled(rows, mint) == rows;
    ReorderFixedIffPreOrder(rows);
  }

  // ------------------------------------------------------------------------------------------------
  // Clicks that lose rows
  // ------------------------------------------------------------------------------------------------

  lemma SevenHang()
    ensures Hangs("KabQMDY", "-KKbQMQ", [-1, 0, 0, 2, 3, 4, 3])
  {
    assert Distinct("KabQMDY");
  }

  lemma SevenAreNested(p: seq<int>)
    requires p == [-1, 0, 0, 2, 3, 4, 3]
    ensures PreOrder(p)
  {
    assert ParentFirst(p) && NonCrossing(p);
    hide NonCrossing, ParentFirst;
    PreOrderIffNonCrossing(p);
  }

  lemma SevenIsPreOrder()
    ensures WellNamed(Rows("KabQMDY", "-KKbQMQ")) && InPreOrder(Rows("KabQMDY", "-KKbQMQ"))
  {
    hide Hangs, PreOrder, Rows, WellNamed, Parents;
    var p := [-1, 0, 0, 2, 3, 4, 3];
    SevenHang();
    SevenAreNested(p);
    RowsHang("KabQMDY", "-KKbQMQ", p);
  }

  lemma SixHang()
    ensures Hangs("KabQDY", "-KKbMQ", [-1, 0, 0, 2, -1, 3])
  {
    assert Distinct("KabQDY");
  }

  lemma SixScan(p: seq<int>)
    requires p == [-1, 0, 0, 2, -1, 3]
    ensures ParentFirst(p) && SubtreeScan(p, 2) == 4
  {
    assert Depth(p, 2) == 1 + Depth(p, 0) && Depth(p, 3) == 1 + Depth(p, 2) && Depth(p, 4) == 0;
    hide SubtreeScan, ParentFirst;
    ScanIs(p, 2, 4);
  }

  lemma SixStrings()
    ensures "KbQaDY" == "KabQDY"[..1] + "KabQDY"[2..4] + "KabQDY"[1..2] + "KabQDY"[4..]
    ensures "-KbKMQ" == "-KKbMQ"[..1] + "-KKbMQ"[2..4] + "-KKbMQ"[1..2] + "-KKbMQ"[4..]
  {
  }

  lemma SixMoves()
    ensures var rows := Rows("KabQDY", "-KKbMQ");
            WellNamed(rows) && MoveBlocks(rows, 2, true).Blocks? && Moved(rows, 2, true) == Rows("KbQaDY", "-KbKMQ")
  {
    var p := [-1, 0, 0, 2, -1, 3];
    hide SubtreeScan, Rows, Hangs, WellNamed, MoveBlocks, Moved, ParentFirst;
    SixHang();
    SixScan(p);
    SixStrings();
    RowsHang("KabQDY", "-KKbMQ", p);
    UpIs("KabQDY", "-KKbMQ", p, 1, 2, 4, "KbQaDY", "-KbKMQ");
  }

  lemma FiveHang()
    ensures Hangs("KbQaY", "-KbKQ", [-1, 0, 1, 0, 2])
  {
    assert Distinct("KbQaY");
  }

  lemma FiveScan(p: seq<int>)
    requires p == [-1, 0, 1, 0, 2]
    ensures ParentFirst(p) && SubtreeScan(p, 3) == 5
  {
    assert Depth(p, 3) == 1 + Depth(p, 0) && Depth(p, 1) == 1 + Depth(p, 0);
    assert Depth(p, 2) == 1 + Depth(p, 1) && Depth(p, 4) == 1 + Depth(p, 2);
    hide SubtreeScan, ParentFirst;
    ScanIs(p, 3, 5);
  }

  lemma FiveStrings()
    ensures "KaYbQ" == "KbQaY"[..1] + "KbQaY"[3..5] + "KbQaY"[1..3] + "KbQaY"[5..]
    ensures "-KQKb" == "-KbKQ"[..1] + "-KbKQ"[3..5] + "-KbKQ"[1..3] + "-KbKQ"[5..]
  {
  }

  lemma FiveMoves()
    ensures var rows := Rows("KbQaY", "-KbKQ");
            WellNamed(rows) && MoveBlocks(rows, 3, true).Blocks? && Moved(rows, 3, true) == Rows("KaYbQ", "-KQKb")
  {
    var p := [-1, 0, 1, 0, 2];
    hide SubtreeScan, Rows, Hangs, WellNamed, MoveBlocks, Moved, ParentFirst;
    FiveHang();
    FiveScan(p);
    FiveStrings();
    RowsHang("KbQaY", "-KbKQ", p);
    UpIs("KbQaY", "-KbKQ", p, 1, 3, 5, "KaYbQ", "-KQKb");
  }

  lemma CycleHangs()
    ensures Hangs("KaYbQ", "-KQYb", [-1, 0, 4, 2, 3])
  {
    assert Distinct("KaYbQ");
  }

  lemma TwoWalk(p: seq<int>)
    requires p == [-1, 0, 4, 2, 3]
    ensures Indexed(p) && WalkOf(p) == ([0, 1], [-1, 0])
  {
    var w, q := [0, 1], [-1, 0];
    assert Indexed(p) && Linked(p, w, q) && ParentFirst(q) && NonCrossing(q);
    assert SiblingsInOrder(w, q) && ClosedUpTo(p, w, 2);
    PreOrderIffNonCrossing(q);
    hide Linked, ParentFirst, NonCrossing, PreOrder, SiblingsInOrder, ClosedUpTo;
    WalkIsUnique(p, w, q);
  }

  lemma IndentLosesThree()
    ensures IndentRows(Rows("KaYbQ", "-KQKb"), 3) == Rows("Ka", "-K")
  {
    var p := [-1, 0, 4, 2, 3];
    assert WithParent(Rows("KaYbQ", "-KQKb"), 3, "Y") == Rows("KaYbQ", "-KQYb");
    assert Pick(Rows("KaYbQ", "-KQYb"), [0, 1]) == Rows("Ka", "-K");
    assert Rows("KaYbQ", "-KQKb")[2].id == "Y";
    hide Hangs, Rows, WithParent, WellNamed, Parents, Pick;
    CycleHangs();
    RowsHang("KaYbQ", "-KQYb", p);
    TwoWalk(p);
  }

  lemma MovesTo(s: State, i: int, up: bool, rows: seq<Entry>)
    requires 0 <= i < |s.rows| && MoveBlocks(s.rows, i, up).Blocks? && Moved(s.rows, i, up) == rows
    ensures Enabled(s, Move(i, up)) && Next(s, Move(i, up)) == Commit(rows)
  {
  }

  lemma RemovesTo(s: State, m: int, rows: seq<Entry>)
    requires 0 <= m < |s.rows| && RemoveRow(s.rows, m) == rows
    ensures Enabled(s, Remove(m)) && Next(s, Remove(m)) == Commit(rows)
  {
  }

  lemma TwoIsSaved()
    ensures Saved(Rows("Ka", "-K")) == Rows("Ka", "-K")
  {
    assert Distinct("Ka") && Hangs("Ka", "-K", [-1, 0]);
    RowsHang("Ka", "-K", [-1, 0]);
    SavedParents(Rows("Ka", "-K"));
    IndexOfIs(Rows("Ka", "-K"), 0);
  }

  /** Clicks that lose rows.  Load K, a and b below K, Q below b, M and Y below Q, D below M; remove M, move b up,
      remove D and move a up.  Now Y stands before its parent Q, and b stands right behind Y, so that indenting b
      closes a cycle of b, Y and Q: all three vanish, from the list and from the setting. */
  lemma IndentCanLoseRows(mint: seq<string>)
    requires |mint| == 7
    ensures var s := State([], Rows("KabQMDY", "-KKbQMQ"));
            var steps := [Load(mint), Remove(4), Move(2, true), Remove(4), Move(3, true)];
            && EnabledRun(s, steps)
            && var t := Run(s, steps);
               && t.rows == Rows("KaYbQ", "-KQKb") && Enabled(t, Indent(3))
               && Next(t, Indent(3)) == State(Rows("Ka", "-K"), Rows("Ka", "-K"))
  {
    RemovedRows("KabQMDY", "-KKbQMQ", 4, "KabQDY", "-KKbMQ");
    RemovedRows("KbQaDY", "-KbKMQ", 4, "KbQaY", "-KbKQ");
    RowCounts();
    hide Rows, Next, Enabled, EnabledRun, Run, IndentRows, Moved, MoveBlocks, RemoveRow, WellNamed, PreOrder, Saved;
    SevenIsPreOrder();
    SixMoves();
    FiveMoves();
    IndentLosesThree();
    TwoIsSaved();
    SixClicks(Rows("KabQMDY", "-KKbQMQ"), Rows("KabQDY", "-KKbMQ"), Rows("KbQaDY", "-KbKMQ"), Rows("KbQaY", "-KbKQ"),
              Rows("KaYbQ", "-KQKb"), Rows("Ka", "-K"), mint);
  }

  lemma RowCounts()
    ensures |Rows("KabQMDY", "-KKbQMQ")| == 7 && |Rows("KabQDY", "-KKbMQ")| == |Rows("KbQaDY", "-KbKMQ")| == 6
    ensures |Rows("KbQaY", "-KbKQ")| == |Rows("KaYbQ", "-KQKb")| == 5
  {
  }

  lemma SixClicks(r0: seq<Entry>, r1: seq<Entry>, r2: seq<Entry>, r3: seq<Entry>, r4: seq<Entry>, r5: seq<Entry>,
                  mint: seq<string>)
    requires WellNamed(r0) && InPreOrder(r0) && |mint| == |r0| == 7 && |r1| == |r2| == 6 && |r3| == |r4| == 5
    requires RemoveRow(r0, 4) == r1 && MoveBlocks(r1, 2, true).Blocks? && Moved(r1, 2, true) == r2
    requires RemoveRow(r2, 4) == r3 && MoveBlocks(r3, 3, true).Blocks? && Moved(r3, 3, true) == r4
    requires IndentRows(r4, 3) == r5 && Saved(r5) == r5
    ensures var s, steps := State([], r0), [Load(mint), Remove(4), Move(2, true), Remove(4), Move(3, true)];
            && EnabledRun(s, steps)
            && Run(s, steps).rows == r4 && Enabled(Run(s, steps), Indent(3))
            && Next(Run(s, steps), Indent(3)) == State(r5, r5)
  {
    hide Next, Enabled, EnabledRun, Run, IndentRows, Moved, MoveBlocks, RemoveRow, WellNamed, PreOrder, Saved;
    LoadIs(r0, mint);
    RemovesTo(State(r0, r0), 4, r1);
    MovesTo(Commit(r1), 2, true, r2);
    RemovesTo(Commit(r2), 4, r3);
    MovesTo(Commit(r3), 3, true, r4);
    RunOfFive(State([], r0), Load(mint), State(r0, r0), Remove(4), Commit(r1), Move(2, true), Commit(r2), Remove(4),
              Commit(r3), Move(3, true), Commit(r4));
    IndentsTo(Commit(r4), 3, r5);
  }

  lemma RunOfFive(s: State, a: Step, sa: State, b: Step, sb: State, c: Step, sc: State, d: Step, sd: State, e: Step,
                  se: State)
    requires Enabled(s, a) && Next(s, a) == sa && Enabled(sa, b) && Next(sa, b) == sb && Enabled(sb, c)
    requires Next(sb, c) == sc && Enabled(sc, d) && Next(sc, d) == sd && Enabled(sd, e) && Next(sd, e) == se
    ensures EnabledRun(s, [a, b, c, d, e]) && Run(s, [a, b, c, d, e]) == se
  {
    assert EnabledRun(se, []) && Run(se, []) == se;
    hide Next, Enabled, EnabledRun, Run;
    NextOfRun(sd, e, se, []);
    NextOfRun(sc, d, sd, [e] + []);
    NextOfRun(sb, c, sc, [d] + ([e] + []));
    NextOfRun(sa, b, sb, [c] + ([d] + ([e] + [])));
    NextOfRun(s, a, sa, [b] + ([c] + ([d] + ([e] + []))));
    InOneList(a, b, c, d, e);
  }

  lemma InOneList(a: Step, b: Step, c: Step, d: Step, e: Step)
    ensures [a] + ([b] + ([c] + ([d] + ([e] + [])))) == [a, b, c, d, e]
  {
    assert [d] + ([e] + []) == [d, e];
    assert [c] + [d, e] == [c, d, e];
    assert [b] + [c, d, e] == [b, c, d, e];
  }

  lemma IndentsTo(s: State, i: int, rows: seq<Entry>)
    requires 0 < i < |s.rows| && IndentRows(s.rows, i) == rows
    ensures Enabled(s, Indent(i)) && Next(s, Indent(i)) == State(rows, Saved(rows))
  {
  }

  // ------------------------------------------------------------------------------------------------
  // Up and down again
  // ------------------------------------------------------------------------------------------------

  lemma GroupIsPreOrder()
    ensures WellNamed(Rows("Gaxuc", "-GGxG")) && InPreOrder(Rows("Gaxuc", "-GGxG"))
  {
    var p := [-1, 0, 0, 2, 0];
    assert Distinct("Gaxuc") && Hangs("Gaxuc", "-GGxG", p);
    hide Hangs, Rows, WellNamed, Parents;
    RowsHang("Gaxuc", "-GGxG", p);
    GroupIsNested(p);
  }

  lemma GroupIsNested(p: seq<int>)
    requires p == [-1, 0, 0, 2, 0]
    ensures PreOrder(p)
  {
    assert ParentFirst(p) && NonCrossing(p);
    PreOrderIffNonCrossing(p);
  }

  lemma ThreeRootsScan(p: seq<int>, i: int)
    requires p == [-1, -1, -1] && 0 <= i < 3
    ensures ParentFirst(p) && SubtreeScan(p, i) == i + 1
  {
    assert forall k :: 0 <= k < 3 ==> Depth(p, k) == 0;
    ScanIs(p, i, i + 1);
  }

  lemma OrphansMoveUp()
    ensures var rows := Rows("auc", "GxG");
            MoveBlocks(rows, 2, true).Blocks? && Moved(rows, 2, true) == Rows("cau", "GGx")
  {
    assert Distinct("auc") && Hangs("auc", "GxG", [-1, -1, -1]);
    hide SubtreeScan, Rows, Hangs, MoveBlocks, Moved, ParentFirst;
    ThreeRootsScan([-1, -1, -1], 2);
    UpIs("auc", "GxG", [-1, -1, -1], 0, 2, 3, "cau", "GGx");
  }

  lemma OrphansMoveDown()
    ensures var rows := Rows("cau", "GGx");
            MoveBlocks(rows, 0, false).Blocks? && Moved(rows, 0, false) == Rows("acu", "GGx")
  {
    assert Distinct("cau") && Hangs("cau", "GGx", [-1, -1, -1]);
    hide SubtreeScan, Rows, Hangs, MoveBlocks, Moved, ParentFirst;
    ThreeRootsScan([-1, -1, -1], 0);
    ThreeRootsScan([-1, -1, -1], 1);
    DownIs("cau", "GGx", [-1, -1, -1], 0, 1, 2, "acu", "GGx");
  }

  /** Up and down again is not always the way back.  Load G, a, x and c below G, u below x; remove G and x, which
      leaves a, u, c; move c up, over u and a, and down again: that leaves a, c, u. */
  lemma UpThenDownCanDiffer(mint: seq<string>)
    requires |mint| == 5
    ensures var s := State([], Rows("Gaxuc", "-GGxG"));
            var steps := [Load(mint), Remove(0), Remove(1), Move(2, true), Move(0, false)];
            && EnabledRun(s, [Load(mint), Remove(0), Remove(1)]) && EnabledRun(s, steps)
            && Run(s, [Load(mint), Remove(0), Remove(1)]).rows == Rows("auc", "GxG")
            && Run(s, steps).rows == Rows("acu", "GGx")
  {
    RemovedRows("Gaxuc", "-GGxG", 0, "axuc", "GGxG");
    RemovedRows("axuc", "GGxG", 1, "auc", "GxG");
    var r0, r1, r2 := Rows("Gaxuc", "-GGxG"), Rows("axuc", "GGxG"), Rows("auc", "GxG");
    var r3, r4 := Rows("cau", "GGx"), Rows("acu", "GGx");
    assert |r0| == 5 && |r1| == 4 && |r2| == |r3| == 3;
    hide Rows, Next, Enabled, EnabledRun, Run, Moved, MoveBlocks, RemoveRow, WellNamed, PreOrder, Saved;
    GroupIsPreOrder();
    OrphansMoveUp();
    OrphansMoveDown();
    LoadIs(r0, mint);
    RemovesTo(State(r0, r0), 0, r1);
    RemovesTo(Commit(r1), 1, r2);
    MovesTo(Commit(r2), 2, true, r3);
    MovesTo(Commit(r3), 0, false, r4);
    RunOfThree(State([], r0), Load(mint), State(r0, r0), Remove(0), Commit(r1), Remove(1), Commit(r2));
    RunOfFive(State([], r0), Load(mint), State(r0, r0), Remove(0), Commit(r1), Remove(1), Commit(r2), Move(2, true),
              Commit(r3), Move(0, false), Commit(r4));
  }

  lemma RunOfThree(s: State, a: Step, sa: State, b: Step, sb: State, c: Step, sc: State)
    requires Enabled(s, a) && Next(s, a) == sa && Enabled(sa, b) && Next(sa, b) == sb && Enabled(sb, c)
    requires Next(sb, c) == sc
    ensures EnabledRun(s, [a, b, c]) && Run(s, [a, b, c]) == sc
  {
    assert EnabledRun(sc, []) && Run(sc, []) == sc;
    hide Next, Enabled, EnabledRun, Run;
    NextOfRun(sb, c, sc, []);
    NextOfRun(sa, b, sb, [c] + []);
    NextOfRun(s, a, sa, [b] + ([c] + []));
    ThreeInOneList(a, b, c);
  }

  lemma ThreeInOneList(a: Step, b: Step, c: Step)
    ensures [a] + ([b] + ([c] + [])) == [a, b, c]
  {
    assert [b] + ([c] + []) == [b, c];
  }

  // ------------------------------------------------------------------------------------------------
  // Below the depth cap
  // ------------------------------------------------------------------------------------------------

  /** A chain of rows 0 to 128, and two more: a sibling 129 of the last one with a child 130, or - `below` - a child 129
      of the last one and a sibling 130. */
  function DeepParent(below: bool, k: int): int {
    if k == 129 then (if below then 128 else 127) else if k == 130 then (if below then 127 else 129) else k - 1
  }

  function DeepParents(below: bool): (p: seq<int>)
    ensures |p| == 131 && forall k :: 0 <= k < 131 ==> p[k] == DeepParent(below, k)
  {
    seq(131, k => DeepParent(below, k))
  }

  /** An id of its own for every number. */
  function Mark(n: nat): string {
    seq(n, _ => 'x')
  }

  function DeepRow(below: bool, k: nat): Entry {
    Entry(Mark(k + 1), if k == 0 || k > 130 then "" else Mark(DeepParent(below, k) + 1), "", "", "", "", "", "")
  }

  function DeepRows(below: bool): (rows: seq<Entry>)
    ensures |rows| == 131 && forall k :: 0 <= k < 131 ==> rows[k] == DeepRow(below, k)
  {
    seq(131, k requires 0 <= k < 131 => DeepRow(below, k))
  }

  lemma DeepRowsHang(below: bool)
    ensures WellNamed(DeepRows(below)) && Parents(DeepRows(below)) == DeepParents(below)
  {
    var rows := DeepRows(below);
    assert forall i :: 0 <= i < |rows| ==> |rows[i].id| == i + 1;
    assert WellNamed(rows);
    forall i | 0 <= i < |rows| ensures Parents(rows)[i] == DeepParents(below)[i] {
      if i > 0 {
        IndexOfIs(rows, DeepParent(below, i));
      }
    }
  }

  lemma DeepIsPreOrder(below: bool)
    ensures PreOrder(DeepParents(below)) && ParentFirst(DeepParents(below))
  {
    assert ParentFirst(DeepParents(below)) && NonCrossing(DeepParents(below));
    PreOrderIffNonCrossing(DeepParents(below));
  }

  lemma {:induction false} ChainDepth(below: bool, k: int)
    requires 0 <= k <= 128 && ParentFirst(DeepParents(below))
    ensures Depth(DeepParents(below), k) == k
    decreases k
  {
    if k > 0 {
      ChainDepth(below, k - 1);
    }
  }

  /** A loaded list of 131 rows, all in pre-order, on which one click on "up" breaks pre-order: the block of row 129
      is cut out without its child, since both lie below the depth cap. */
  lemma DeepMoveCanBreakPreOrder(mint: seq<string>)
    requires |mint| == 131
    ensures var rows := DeepRows(false);
            && Enabled(State([], rows), Load(mint)) && Next(State([], rows), Load(mint)).rows == rows
            && InPreOrder(rows) && !InPreOrder(Moved(rows, 129, true))
  {
    var rows := DeepRows(false);
    DeepRowsHang(false);
    DeepIsPreOrder(false);
    LoadIs(rows, mint);
    DeepMoveIsCut();
    hide DeepRows, Movable, Moved, PreOrder, WellNamed;
    MovePreOrderIff(rows, 129, true);
  }

  lemma DeepMoveIsCut()
    requires WellNamed(DeepRows(false)) && Parents(DeepRows(false)) == DeepParents(false)
    requires PreOrder(DeepParents(false))
    ensures !Movable(DeepRows(false), 129, true)
  {
    NeighbourBlocks();
    DeepBlockIsCut();
    hide DeepRows, DeepParents, MoveBlocks, PreOrder, ScanWorks, SubtreeScan;
  }

  lemma NeighbourBlocks()
    requires Parents(DeepRows(false)) == DeepParents(false)
    ensures MoveBlocks(DeepRows(false), 129, true) == Blocks(128, 129, SubtreeScan(DeepParents(false), 129))
  {
    hide SubtreeScan;
    assert DeepRows(false)[128].parentId == DeepRows(false)[129].parentId;
  }

  lemma DeepBlockIsCut()
    requires PreOrder(DeepParents(false))
    ensures !ScanWorks(DeepParents(false), 129)
  {
    ChainDepth(false, 127);
    assert DeepParents(false)[129] == 127;
    EndIs(DeepParents(false), 129, 131);
  }

  /** The same list with the child below row 128: no parent id dangles, yet moving row 130 up, over row 128 and its
      child, and down again does not restore it. */
  lemma DeepUpThenDownCanDiffer()
    ensures var rows := DeepRows(true);
            && WellNamed(rows) && InPreOrder(rows) && NoDangling(rows)
            && Moved(Moved(rows, 130, true), 128, false) != rows
  {
    hide DeepRows, DeepParents, MoveBlocks, Moved, PreOrder, WellNamed, NoDangling, SubtreeScan, Parents, ScanWorks;
    DeepRowsHang(true);
    DeepIsPreOrder(true);
    DeepDangleNot();
    DeepBlocks();
    DeepScanFails();
    UpThenDownRestores(DeepRows(true), 130, 128, SubtreeScan(DeepParents(true), 130));
  }

  lemma DeepScanFails()
    requires PreOrder(DeepParents(true))
    ensures !ScanWorks(DeepParents(true), 128)
  {
    ChainDepth(true, 128);
    EndIs(DeepParents(true), 128, 130);
  }

  lemma DeepDangleNot()
    requires WellNamed(DeepRows(true)) && Parents(DeepRows(true)) == DeepParents(true)
    ensures NoDangling(DeepRows(true))
  {
    forall i | 0 <= i < 131 && DeepRows(true)[i].parentId != ""
      ensures IndexOf(DeepRows(true), DeepRows(true)[i].parentId) >= 0
    {
      assert Parents(DeepRows(true))[i] == DeepParent(true, i);
    }
  }

  lemma DeepBlocks()
    requires Parents(DeepRows(true)) == DeepParents(true)
    ensures MoveBlocks(DeepRows(true), 130, true) == Blocks(128, 130, SubtreeScan(DeepParents(true), 130))
  {
    var rows := DeepRows(true);
    assert rows[130].parentId == rows[128].parentId && |rows[129].parentId| == 129 && |rows[130].parentId| == 128;
    hide SubtreeScan;
    assert PrevSibling(rows, 129, rows[130].parentId) == 128;
  }

  // ------------------------------------------------------------------------------------------------
  // Removal
  // ------------------------------------------------------------------------------------------------

  /** Removing the middle row of a, b below a, c below b, d below a strands c between a and its child d. */
  lemma RemoveCanBreakPreOrder()
    ensures exists rows: seq<Entry>, m: int ::
              WellNamed(rows) && InPreOrder(rows) && 0 <= m < |rows| && !InPreOrder(RemoveRow(rows, m))
  {
    var a, b := Entry("a", "", "", "", "", "", "", ""), Entry("b", "a", "", "", "", "", "", "");
    var c, d := Entry("c", "b", "", "", "", "", "", ""), Entry("d", "a", "", "", "", "", "", "");
    var rows := [a, b, c, d];
    assert WellNamed(rows);
    IndexOfIs(rows, 0);
    IndexOfIs(rows, 1);
    var p := Parents(rows);
    assert p[0] == -1 && p[1] == 0 && p[2] == 1 && p[3] == 0;
    PreOrderIffNonCrossing(p);
    EndIs(p, 1, 3);
    RemovePreOrderIff(p, 1);
    RemoveRowParents(rows, 1);
  }

  // ------------------------------------------------------------------------------------------------
  // Repeated ids
  // ------------------------------------------------------------------------------------------------

  /** Whenever a root and another row share an id and the other row is stored as a child of that id, the walk goes from
      the other row to itself for ever. */
  lemma DuplicateIdsDiverge(rows: seq<Entry>, i: int, j: int)
    requires 0 <= i < |rows| && 0 <= j < |rows| && rows[i].id == rows[j].id != ""
    requires RowKey(rows, i) == "" && rows[j].parentId == rows[j].id
    ensures !WalkEnds(rows)
  {
    assert IndexOf(rows, rows[j].id) >= 0;
    var w := [i, j, j];
    assert Chain(rows, w) && w[1] == w[2];
    RepeatNeverEnds(rows, w);
  }

  /** A setting that hangs the editor.  An entry x and a second entry x below x: loading finds no id to mint, and the
      walk goes from the second x to the second x for ever. */
  lemma TwoEntriesHang(mint: seq<string>)
    requires |mint| == 2
    ensures var b := Backfilled(Rows("xx", "-x"), mint);
            b == Rows("xx", "-x") && !WalkEnds(b)
  {
    var rows := Rows("xx", "-x");
    assert Backfilled(rows, mint) == rows;
    assert rows[0].id == rows[1].id == rows[1].parentId;
    DuplicateIdsDiverge(rows, 0, 1);
  }

  lemma TwinKeys(rows: seq<Entry>)
    requires rows == Rows("xx", "--")
    ensures |rows| == 2 && rows[0].id == rows[1].id == "x"
    ensures RowKey(rows, 0) == RowKey(rows, 1) == ""
  {
  }

  lemma TwinBucket(rows: seq<Entry>, key: string)
    requires |rows| == 2 && RowKey(rows, 0) == RowKey(rows, 1) == ""
    ensures RowsUnder(rows, key, 2) == if key == "" then [0, 1] else []
  {
    hide RowKey;
    assert RowsUnder(rows, key, 1) == RowsUnder(rows, key, 0) + (if RowKey(rows, 0) == key then [0] else []);
    assert RowsUnder(rows, key, 2) == RowsUnder(rows, key, 1) + (if RowKey(rows, 1) == key then [1] else []);
    assert RowsUnder(rows, key, 0) == [];
    hide RowsUnder;
  }

  lemma TwinVisits(rows: seq<Entry>)
    requires |rows| == 2 && rows[0].id == rows[1].id == "x"
    requires RowsUnder(rows, "", 2) == [0, 1] && RowsUnder(rows, "x", 2) == []
    ensures Roots(rows) == [0, 1] && StackFrom(rows, [0, 1], 2) == [] && Visits(rows, [0, 1], 2) == [0, 1]
  {
    hide RowsUnder;
    assert [] + [0, 1][1..] == [1] && [] + [1][1..] == [];
    assert Visit(rows, [0, 1]) == [1] && Visit(rows, [1]) == [];
    hide Visit;
    assert Visits(rows, [1], 1) == [1] && StackFrom(rows, [1], 1) == [];
  }

  /** Repeated ids alone do no harm: two entries x next to each other are walked in order. */
  lemma RepeatedIdsCanEnd()
    ensures var rows := Rows("xx", "--");
            WalkEnds(rows) && Visited(rows) == [0, 1] && !WellNamed(rows)
  {
    var rows := Rows("xx", "--");
    TwinKeys(rows);
    hide Rows, RowKey, RowsUnder, Visit, Visits, StackFrom, Roots;
    TwinBucket(rows, "");
    TwinBucket(rows, "x");
    TwinVisits(rows);
    VisitedIs(rows, 2);
  }
}
