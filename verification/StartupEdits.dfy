/** The edits of the Startup tab, as functions of the row list, and what they keep. */
module StartupEdits {
  import opened Forest
  import opened Surgery
  import opened DepthScan
  import opened LaunchEntries

  // ------------------------------------------------------------------------------------------------
  // Moving a subtree among its siblings
  // ------------------------------------------------------------------------------------------------

  /** The nearest row before `i` with this stored parent id, or -1. */
  function PrevSibling(rows: seq<Entry>, i: int, pid: string): (r: int)
    requires 0 <= i <= |rows|
    ensures -1 <= r < i
    ensures r >= 0 ==> rows[r].parentId == pid
    ensures forall k :: r < k < i ==> rows[k].parentId != pid
  {
    if i == 0 then -1 else if rows[i - 1].parentId == pid then i - 1 else PrevSibling(rows, i - 1, pid)
  }

  /** The nearest row from `i` on with this stored parent id, or -1. */
  function NextSibling(rows: seq<Entry>, i: int, pid: string): (r: int)
    requires 0 <= i <= |rows|
    ensures r == -1 || i <= r < |rows|
    ensures r >= 0 ==> rows[r].parentId == pid
    ensures forall k :: i <= k < (if r < 0 then |rows| else r) ==> rows[k].parentId != pid
    decreases |rows| - i
  {
    if i == |rows| then -1 else if rows[i].parentId == pid then i else NextSibling(rows, i + 1, pid)
  }

  /** Exchange the adjacent blocks a..b and b..c. */
  function SwapBlocks(rows: seq<Entry>, a: int, b: int, c: int): (r: seq<Entry>)
    requires 0 <= a <= b <= c <= |rows|
    ensures |r| == |rows|
  {
    rows[..a] + rows[b..c] + rows[a..b] + rows[c..]
  }

  /** The two blocks a move exchanges, or NoSibling when there is no sibling on that side. */
  datatype Blocks = NoSibling | Blocks(a: int, b: int, c: int)

  function MoveBlocks(rows: seq<Entry>, i: int, up: bool): (r: Blocks)
    requires 0 <= i < |rows|
    ensures r.Blocks? ==> 0 <= r.a < r.b < r.c <= |rows|
    ensures r.Blocks? ==> r.c == SubtreeScan(Parents(rows), r.b) && rows[r.a].parentId == rows[r.b].parentId
    ensures r.Blocks? ==> i == if up then r.b else r.a
  {
    var pid := rows[i].parentId;
    if up then
      var prev := PrevSibling(rows, i, pid);
      if prev < 0 then NoSibling else Blocks(prev, i, SubtreeScan(Parents(rows), i))
    else
      var next := NextSibling(rows, SubtreeScan(Parents(rows), i), pid);
      if next < 0 then NoSibling else Blocks(i, next, SubtreeScan(Parents(rows), next))
  }

  /** The rows after moving the subtree of row `i` one sibling slot up or down. */
  function Moved(rows: seq<Entry>, i: int, up: bool): (r: seq<Entry>)
    requires 0 <= i < |rows|
    ensures |r| == |rows|
  {
    match MoveBlocks(rows, i, up)
    case NoSibling => rows
    case Blocks(a, b, c) => SwapBlocks(rows, a, b, c)
  }

  lemma SwapBlocksIsPick(rows: seq<Entry>, a: int, b: int, c: int)
    requires 0 <= a <= b <= c <= |rows|
    ensures forall k :: 0 <= k < |rows| ==> 0 <= SwapOrder(|rows|, a, b, c)[k] < |rows|
    ensures SwapBlocks(rows, a, b, c) == Pick(rows, SwapOrder(|rows|, a, b, c))
  {
    var s, t := SwapBlocks(rows, a, b, c), Pick(rows, SwapOrder(|rows|, a, b, c));
    forall k | 0 <= k < |rows|
      ensures s[k] == t[k]
    {
    }
  }

  lemma SwapBlocksAt(rows: seq<Entry>, a: int, b: int, c: int, x: int)
    requires 0 <= a <= b <= c <= |rows| && 0 <= x < |rows|
    ensures 0 <= To(x, a, b, c) < |rows| && SwapBlocks(rows, a, b, c)[To(x, a, b, c)] == rows[x]
  {
    SwapBlocksIsPick(rows, a, b, c);
  }

  lemma SwapBlocksParents(rows: seq<Entry>, a: int, b: int, c: int)
    requires WellNamed(rows) && 0 <= a <= b <= c <= |rows|
    ensures WellNamed(SwapBlocks(rows, a, b, c))
    ensures Parents(SwapBlocks(rows, a, b, c)) == SwapParents(Parents(rows), a, b, c)
  {
    SwapBlocksIsPick(rows, a, b, c);
    SwapLinked(Parents(rows), a, b, c);
    PickParents(rows, SwapOrder(|rows|, a, b, c), SwapParents(Parents(rows), a, b, c));
  }

  lemma SwapBlocksMultiset(rows: seq<Entry>, a: int, b: int, c: int)
    requires 0 <= a <= b <= c <= |rows|
    ensures multiset(SwapBlocks(rows, a, b, c)) == multiset(rows)
  {
    assert rows == rows[..a] + rows[a..b] + rows[b..c] + rows[c..];
  }

  /** A move rearranges whole rows: it loses none, adds none and rewrites no parent id, in every state. */
  lemma MoveIsPermutation(rows: seq<Entry>, i: int, up: bool)
    requires 0 <= i < |rows|
    ensures multiset(Moved(rows, i, up)) == multiset(rows)
  {
    match MoveBlocks(rows, i, up)
    case NoSibling =>
    case Blocks(a, b, c) =>
      SwapBlocksMultiset(rows, a, b, c);
  }

  /** The subtree that a move cuts out can be cut out by the depth scan. */
  ghost predicate Movable(rows: seq<Entry>, i: int, up: bool)
    requires InPreOrder(rows) && 0 <= i < |rows|
  {
    var m := MoveBlocks(rows, i, up);
    m.NoSibling? || ScanWorks(Parents(rows), m.b)
  }

  /** A move keeps pre-order exactly when the depth cap does not hide children of the block it cuts out. */
  lemma MovePreOrderIff(rows: seq<Entry>, i: int, up: bool)
    requires WellNamed(rows) && InPreOrder(rows) && 0 <= i < |rows|
    ensures InPreOrder(Moved(rows, i, up)) <==> Movable(rows, i, up)
    ensures WellNamed(Moved(rows, i, up))
  {
    match MoveBlocks(rows, i, up)
    case NoSibling =>
    case Blocks(a, b, c) =>
      var p := Parents(rows);
      var q := SwapParents(p, a, b, c);
      PreOrderIffNonCrossing(p);
      PreOrderIffNonCrossing(q);
      SwapBlocksParents(rows, a, b, c);
      DepthScanExact(Parents(rows), b);
      if ScanWorks(Parents(rows), b) {
        SwapKeepsNonCrossing(p, a, b, c);
      } else {
        SwapOfBareRootCrosses(p, a, b);
      }
  }

  lemma ResolvedIdsDiffer(rows: seq<Entry>, a: int, x: int)
    requires WellNamed(rows) && NoDangling(rows) && 0 <= a < |rows| && 0 <= x < |rows|
    requires rows[x].parentId != rows[a].parentId
    ensures Parents(rows)[x] != Parents(rows)[a]
  {
  }

  /** Without dangling parent ids, the block that a move jumps over is the subtree of a sibling, right before the block
      it cuts out.  That one is the whole subtree of its row exactly when the depth cap hides no child of the row. */
  lemma MoveExchangesSiblings(rows: seq<Entry>, i: int, up: bool)
    requires WellNamed(rows) && InPreOrder(rows) && NoDangling(rows) && 0 <= i < |rows|
    requires MoveBlocks(rows, i, up).Blocks?
    ensures var p := Parents(rows);
            var Blocks(a, b, c) := MoveBlocks(rows, i, up);
            && p[a] == p[b] && SubtreeIs(p, a, b) && (SubtreeIs(p, b, c) <==> Movable(rows, i, up))
            && Moved(rows, i, up) == rows[..a] + rows[b..c] + rows[a..b] + rows[c..]
  {
    var p := Parents(rows);
    var Blocks(a, b, c) := MoveBlocks(rows, i, up);
    DepthScanExact(p, b);
    DepthScanExact(p, a);
    forall x | a < x < b
      ensures p[x] != p[a]
    {
      if !up && x < SubtreeScan(p, a) {
        PreOrderIffNonCrossing(p);
      } else {
        ResolvedIdsDiffer(rows, a, x);
      }
    }
    NeighbouringSiblings(p, a, b);
    PreOrderEnd(p, a, b);
  }

  lemma SwapBack(rows: seq<Entry>, a: int, b: int, c: int)
    requires 0 <= a <= b <= c <= |rows|
    ensures SwapBlocks(SwapBlocks(rows, a, b, c), a, a + c - b, c) == rows
  {
    var r := SwapBlocks(rows, a, b, c);
    var m := a + c - b;
    assert r[..a] == rows[..a];
    assert r[a..m] == rows[b..c];
    assert r[m..c] == rows[a..b];
    assert r[c..] == rows[c..];
    assert rows == rows[..a] + rows[a..b] + rows[b..c] + rows[c..];
  }

  lemma SwappedParentIds(rows: seq<Entry>, r: seq<Entry>, a: int, b: int, c: int)
    requires 0 <= a < b < c <= |rows| && rows[a].parentId == rows[b].parentId && r == SwapBlocks(rows, a, b, c)
    ensures r[a].parentId == r[a + c - b].parentId
  {
    SwapBlocksIsPick(rows, a, b, c);
  }

  lemma DownBlocks(rows: seq<Entry>, a: int, d: int)
    requires 0 <= a < d < |rows| && SubtreeScan(Parents(rows), a) == d && rows[d].parentId == rows[a].parentId
    ensures MoveBlocks(rows, a, false) == Blocks(a, d, SubtreeScan(Parents(rows), d))
  {
  }

  /** After a move up, moving the row down again exchanges it with the first subtree it jumped over. */
  lemma DownAfterUp(p: seq<int>, r: seq<Entry>, a: int, b: int, c: int)
    requires PreOrder(p) && 0 <= a < b < |p| && p[a] == p[b] && c == End(p, b) && Depth(p, b) < DEPTH_CAP
    requires Parents(r) == SwapParents(p, a, b, c) && r[a].parentId == r[a + c - b].parentId
    ensures a < End(p, a) <= b
    ensures MoveBlocks(r, a, false) == Blocks(a, a + c - b, End(p, a) + c - b)
  {
    ScansAfterSwap(p, a, b, c);
    DownBlocks(r, a, a + c - b);
  }

  lemma TwoSwaps(rows: seq<Entry>, r: seq<Entry>, s: seq<Entry>, a: int, b: int, c: int, e: int)
    requires DistinctIds(rows) && 0 <= a < e <= b < c <= |rows|
    requires r == SwapBlocks(rows, a, b, c) && s == SwapBlocks(r, a, a + c - b, e + c - b)
    ensures s == rows <==> e == b
  {
    if e == b {
      SwapBack(rows, a, b, c);
    } else {
      assert s[e] == r[a] == rows[b];
      assert rows[e].id != rows[b].id;
    }
  }

  lemma UpDownBlocks(rows: seq<Entry>, a: int, b: int, c: int)
    requires WellNamed(rows) && InPreOrder(rows) && 0 <= a < b < |rows|
    requires rows[a].parentId == rows[b].parentId && c == End(Parents(rows), b)
    requires Depth(Parents(rows), b) < DEPTH_CAP
    ensures a < End(Parents(rows), a) <= b
    ensures MoveBlocks(SwapBlocks(rows, a, b, c), a, false) == Blocks(a, a + c - b, End(Parents(rows), a) + c - b)
  {
    SwapBlocksParents(rows, a, b, c);
    SwappedParentIds(rows, SwapBlocks(rows, a, b, c), a, b, c);
    DownAfterUp(Parents(rows), SwapBlocks(rows, a, b, c), a, b, c);
  }

  lemma SameParentIds(rows: seq<Entry>, a: int, b: int)
    requires 0 <= a < |rows| && 0 <= b < |rows| && rows[a].parentId == rows[b].parentId
    ensures Parents(rows)[a] == Parents(rows)[b]
  {
    assert Parents(rows)[a] == Resolve(rows, rows[a].parentId);
  }

  /** The same at or below the cap, where the scan takes every row for bare. */
  lemma DeepDownAfterUp(p: seq<int>, r: seq<Entry>, a: int, b: int)
    requires PreOrder(p) && |p| == |r| && 0 <= a < b < |p| && p[a] == p[b] && Depth(p, b) >= DEPTH_CAP
    requires Parents(r) == SwapParents(p, a, b, b + 1) && r[a].parentId == r[a + 1].parentId
    ensures MoveBlocks(r, a, false) == Blocks(a, a + 1, a + 2)
  {
    DeepScansAfterSwap(p, a, b);
    hide Parents, PreOrder, SubtreeScan, Depth, SwapParents, MoveBlocks;
    DownBlocks(r, a, a + 1);
  }

  lemma DeepSwap(rows: seq<Entry>, r: seq<Entry>, a: int, b: int)
    requires WellNamed(rows) && 0 <= a < b < |rows| && rows[a].parentId == rows[b].parentId
    requires r == SwapBlocks(rows, a, b, b + 1)
    ensures |r| == |rows| && r[a].parentId == r[a + 1].parentId
    ensures Parents(r) == SwapParents(Parents(rows), a, b, b + 1)
  {
    hide Parents, SwapBlocks, SwapParents, WellNamed;
    SwapBlocksParents(rows, a, b, b + 1);
    SwappedParentIds(rows, r, a, b, b + 1);
  }

  lemma DeepDown(rows: seq<Entry>, r: seq<Entry>, a: int, b: int)
    requires WellNamed(rows) && InPreOrder(rows) && 0 <= a < b < |rows| && rows[a].parentId == rows[b].parentId
    requires Depth(Parents(rows), b) >= DEPTH_CAP && r == SwapBlocks(rows, a, b, b + 1)
    ensures MoveBlocks(r, a, false) == Blocks(a, a + 1, a + 2)
  {
    hide Parents, PreOrder, SwapBlocks, SwapParents, WellNamed, Depth, MoveBlocks;
    SameParentIds(rows, a, b);
    DeepSwap(rows, r, a, b);
    hide InPreOrder;
    DeepDownAfterUp(Parents(rows), r, a, b);
  }

  lemma UpBlocks(rows: seq<Entry>, i: int, a: int, c: int)
    requires 0 <= i < |rows| && MoveBlocks(rows, i, true) == Blocks(a, i, c)
    ensures 0 <= a < i < c <= |rows| && c == SubtreeScan(Parents(rows), i)
    ensures rows[a].parentId == rows[i].parentId && Parents(rows)[a] == Parents(rows)[i]
  {
    hide SubtreeScan, PrevSibling;
  }

  lemma MovedIs(rows: seq<Entry>, i: int, up: bool, a: int, b: int, c: int)
    requires 0 <= i < |rows| && MoveBlocks(rows, i, up) == Blocks(a, b, c)
    ensures Moved(rows, i, up) == SwapBlocks(rows, a, b, c)
  {
    hide MoveBlocks, SwapBlocks;
  }

  /** Two moves that each exchange two blocks: the second undoes the first exactly when its blocks are the same. */
  lemma TwoMoves(rows: seq<Entry>, r: seq<Entry>, i: int, a: int, c: int, e: int)
    requires DistinctIds(rows) && 0 <= a < e <= i < c <= |rows| && r == SwapBlocks(rows, a, i, c)
    requires MoveBlocks(rows, i, true) == Blocks(a, i, c)
    requires MoveBlocks(r, a, false) == Blocks(a, a + c - i, e + c - i)
    ensures Moved(rows, i, true) == r
    ensures Moved(r, a, false) == rows <==> e == i
  {
    hide MoveBlocks, DistinctIds, Moved, SwapBlocks;
    MovedIs(rows, i, true, a, i, c);
    MovedIs(r, a, false, a, a + c - i, e + c - i);
    TwoSwaps(rows, r, Moved(r, a, false), a, i, c, e);
  }

  lemma UpThenDownShallow(rows: seq<Entry>, i: int, a: int, c: int)
    requires WellNamed(rows) && InPreOrder(rows) && 0 <= i < |rows| && Depth(Parents(rows), i) < DEPTH_CAP
    requires MoveBlocks(rows, i, true) == Blocks(a, i, c)
    ensures Moved(Moved(rows, i, true), a, false) == rows <==> SubtreeScan(Parents(rows), a) == i
  {
    var p := Parents(rows);
    UpBlocks(rows, i, a, c);
    hide Parents, PreOrder, SubtreeScan, SwapBlocks, DistinctIds, Depth, MoveBlocks, Moved;
    SameParentSameDepth(p, a, i);
    ScanIsEnd(p, i);
    ScanIsEnd(p, a);
    UpDownBlocks(rows, a, i, c);
    TwoMoves(rows, SwapBlocks(rows, a, i, c), i, a, c, End(p, a));
  }

  /** At or below the cap a move cuts out bare rows. */
  lemma BareBlocks(rows: seq<Entry>, i: int, a: int, c: int)
    requires InPreOrder(rows) && 0 <= i < |rows| && Depth(Parents(rows), i) >= DEPTH_CAP
    requires MoveBlocks(rows, i, true) == Blocks(a, i, c)
    ensures 0 <= a < i && c == i + 1 && rows[a].parentId == rows[i].parentId
    ensures SubtreeScan(Parents(rows), a) == a + 1
  {
    var p := Parents(rows);
    UpBlocks(rows, i, a, c);
    assert ParentFirst(p);
    hide Parents, PreOrder, ParentFirst, SubtreeScan, MoveBlocks;
    SameParentSameDepth(p, a, i);
    DeepScanIsBare(p, a);
    DeepScanIsBare(p, i);
  }

  lemma UpThenDownDeep(rows: seq<Entry>, i: int, a: int, c: int)
    requires WellNamed(rows) && InPreOrder(rows) && 0 <= i < |rows| && Depth(Parents(rows), i) >= DEPTH_CAP
    requires MoveBlocks(rows, i, true) == Blocks(a, i, c)
    ensures Moved(Moved(rows, i, true), a, false) == rows <==> SubtreeScan(Parents(rows), a) == i
  {
    hide Parents, PreOrder, SubtreeScan, SwapBlocks, DistinctIds, Depth, MoveBlocks, Moved;
    BareBlocks(rows, i, a, c);
    var r := SwapBlocks(rows, a, i, i + 1);
    DeepDown(rows, r, a, i);
    TwoMoves(rows, r, i, a, i + 1, a + 1);
  }

  /** Moving a row up and then down again restores the list exactly when the row directly followed what the depth scan
      takes for the subtree of the row it jumped over - at every depth, below the cap too. */
  lemma UpThenDown(rows: seq<Entry>, i: int, a: int, c: int)
    requires WellNamed(rows) && InPreOrder(rows) && 0 <= i < |rows| && MoveBlocks(rows, i, true) == Blocks(a, i, c)
    ensures Moved(Moved(rows, i, true), a, false) == rows <==> SubtreeScan(Parents(rows), a) == i
  {
    assert ParentFirst(Parents(rows));
    hide Parents, PreOrder, ParentFirst, SubtreeScan, MoveBlocks, Moved, WellNamed;
    if Depth(Parents(rows), i) < DEPTH_CAP {
      UpThenDownShallow(rows, i, a, c);
    } else {
      UpThenDownDeep(rows, i, a, c);
    }
  }

  /** When no parent id dangles it does so exactly when the depth cap hides no child of the row it jumped over. */
  lemma UpThenDownRestores(rows: seq<Entry>, i: int, a: int, c: int)
    requires WellNamed(rows) && InPreOrder(rows) && NoDangling(rows) && 0 <= i < |rows|
    requires MoveBlocks(rows, i, true) == Blocks(a, i, c)
    ensures Moved(Moved(rows, i, true), a, false) == rows <==> ScanWorks(Parents(rows), a)
  {
    var p := Parents(rows);
    forall x | a < x < i ensures p[x] != p[a] {
      ResolvedIdsDiffer(rows, a, x);
    }
    assert p[a] == p[i];
    hide Parents, PreOrder, SubtreeScan, MoveBlocks, Moved, WellNamed;
    NeighbouringSiblings(p, a, i);
    DepthScanExact(p, a);
    UpThenDown(rows, i, a, c);
  }
}
