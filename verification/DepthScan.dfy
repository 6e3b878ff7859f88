/** The depth scan that stands in for "the subtree of this row", and the exchange of sibling subtrees. */
module DepthScan {
  import opened Forest
  import opened Surgery

  const DEPTH_CAP: nat := 128

  /** Depth of row `i` as the editor computes it: parent steps, at most 128. */
  function RowDepth(p: seq<int>, i: int): nat
    requires 0 <= i < |p| && forall k :: 0 <= k < |p| ==> -1 <= p[k] < |p|
  {
    CappedDepth(p, i, DEPTH_CAP)
  }

  /** The first row from `e` on that is no deeper than `d`. */
  function ScanFrom(p: seq<int>, d: nat, e: int): (r: int)
    requires 0 <= e <= |p| && forall k :: 0 <= k < |p| ==> -1 <= p[k] < |p|
    ensures e <= r <= |p|
    decreases |p| - e
  {
    if e == |p| || RowDepth(p, e) <= d then e else ScanFrom(p, d, e + 1)
  }

  /** The end of the subtree of row `i` as the editor computes it, from depths alone. */
  function SubtreeScan(p: seq<int>, i: int): (r: int)
    requires 0 <= i < |p| && forall k :: 0 <= k < |p| ==> -1 <= p[k] < |p|
    ensures i < r <= |p|
  {
    ScanFrom(p, RowDepth(p, i), i + 1)
  }

  /** From the root of a subtree on, rows are deeper than the root exactly as long as the subtree lasts. */
  lemma DeeperMeansInside(p: seq<int>, i: int, e: int)
    requires PreOrder(p) && 0 <= i < |p| && i < e <= End(p, i) && e < |p|
    ensures Depth(p, e) > Depth(p, i) <==> e < End(p, i)
  {
    PreOrderIffNonCrossing(p);
    if e < End(p, i) {
      InsideDescends(p, e, i);
      DescendantIsDeeper(p, e, i);
    } else {
      RowAfterSubtreeIsNoDeeper(p, i);
    }
  }

  lemma {:induction false} ScanFindsEnd(p: seq<int>, i: int, e: int)
    requires PreOrder(p) && 0 <= i < |p| && i < e <= End(p, i)
    requires Depth(p, i) < DEPTH_CAP
    ensures ScanFrom(p, Depth(p, i), e) == End(p, i)
    decreases |p| - e
  {
    if e < |p| {
      CappedDepthIsDepth(p, e, DEPTH_CAP);
      DeeperMeansInside(p, i, e);
      if e < End(p, i) {
        ScanFindsEnd(p, i, e + 1);
      }
    }
  }

  /** A row whose depth the cap does not cut, or that has no children. */
  ghost predicate ScanWorks(p: seq<int>, i: int)
    requires PreOrder(p) && 0 <= i < |p|
  {
    Depth(p, i) < DEPTH_CAP || End(p, i) == i + 1
  }

  lemma DeepScanIsBare(p: seq<int>, i: int)
    requires ParentFirst(p) && 0 <= i < |p| && Depth(p, i) >= DEPTH_CAP
    ensures SubtreeScan(p, i) == i + 1
  {
    CappedDepthIsDepth(p, i, DEPTH_CAP);
  }

  /** In a pre-order list the depth scan returns the end of the descendant set exactly for the rows whose
      depth is below the cap and for leaves; for any other row it returns just the row itself. */
  lemma DepthScanExact(p: seq<int>, i: int)
    requires PreOrder(p) && 0 <= i < |p|
    ensures SubtreeIs(p, i, SubtreeScan(p, i)) <==> ScanWorks(p, i)
    ensures ScanWorks(p, i) <==> Depth(p, i) < 128 || End(p, i) == i + 1
    ensures SubtreeScan(p, i) == if ScanWorks(p, i) then End(p, i) else i + 1
  {
    CappedDepthIsDepth(p, i, DEPTH_CAP);
    PreOrderEnd(p, i, SubtreeScan(p, i));
    if Depth(p, i) < DEPTH_CAP {
      ScanFindsEnd(p, i, i + 1);
    } else {
      DeepScanIsBare(p, i);
    }
  }

  lemma ScanIsEnd(p: seq<int>, i: int)
    requires PreOrder(p) && 0 <= i < |p| && Depth(p, i) < DEPTH_CAP
    ensures SubtreeScan(p, i) == End(p, i)
  {
    DepthScanExact(p, i);
  }

  /** Between two neighbouring children of one parent lies exactly the subtree of the first. */
  lemma NeighbouringSiblings(p: seq<int>, a: int, b: int)
    requires PreOrder(p) && 0 <= a < b < |p| && p[a] == p[b]
    requires forall x :: a < x < b ==> p[x] != p[a]
    ensures End(p, a) == b
  {
    PreOrderIffNonCrossing(p);
    forall x | a < x < b
      ensures p[x] >= a
    {
      assert p[b] <= p[x];
    }
  }

  /** Depth does not change when sibling blocks are exchanged. */
  lemma {:induction false} SwapKeepsDepth(p: seq<int>, a: int, b: int, c: int, k: int)
    requires 0 <= a <= b <= c <= |p| && 0 <= k < |p|
    requires ParentFirst(p) && ParentFirst(SwapParents(p, a, b, c))
    ensures Depth(SwapParents(p, a, b, c), k) == Depth(p, From(k, a, b, c))
    decreases k
  {
    var q := SwapParents(p, a, b, c);
    if q[k] >= 0 {
      SwapKeepsDepth(p, a, b, c, q[k]);
    }
  }

  /** Where the subtree that was moved ends after the exchange. */
  lemma MovedEnd(p: seq<int>, a: int, b: int, c: int)
    requires ParentFirst(p) && NonCrossing(p) && 0 <= a < b < |p| && p[a] == p[b] && c == End(p, b)
    ensures End(SwapParents(p, a, b, c), a) == a + c - b
  {
    SiblingBlockFacts(p, a, b, c);
    EndIs(SwapParents(p, a, b, c), a, a + c - b);
  }

  /** Where the subtree it jumped over first ends after the exchange. */
  lemma JumpedEnd(p: seq<int>, a: int, b: int, c: int)
    requires ParentFirst(p) && NonCrossing(p) && 0 <= a < b < |p| && p[a] == p[b] && c == End(p, b)
    ensures End(p, a) <= b
    ensures End(SwapParents(p, a, b, c), a + c - b) == End(p, a) + c - b
  {
    SiblingBlockFacts(p, a, b, c);
    hide NonCrossing;
    var q, d, e := SwapParents(p, a, b, c), a + c - b, End(p, a);
    assert e <= b by {
      assert p[b] < a;
    }
    forall k | d < k < e + c - b
      ensures q[k] >= d
    {
      assert p[From(k, a, b, c)] >= a;
    }
    if e < b {
      assert q[e + c - b] == To(p[e], a, b, c) < d;
    } else if c < |p| {
      assert q[c] == p[c] < d;
    }
    EndIs(q, d, e + c - b);
  }

  /** Exchanging a subtree with earlier siblings keeps pre-order and depths; the two ends move along. */
  lemma SwapFacts(p: seq<int>, a: int, b: int, c: int)
    requires PreOrder(p) && 0 <= a < b < |p| && p[a] == p[b] && c == End(p, b)
    ensures var q, d := SwapParents(p, a, b, c), a + c - b;
            && PreOrder(q)
            && Depth(q, a) == Depth(p, b) == Depth(q, d)
            && End(p, a) <= b
            && End(q, a) == d
            && End(q, d) == End(p, a) + c - b
  {
    PreOrderIffNonCrossing(p);
    PreOrderIffNonCrossing(SwapParents(p, a, b, c));
    SwapKeepsNonCrossing(p, a, b, c);
    SwapKeepsDepth(p, a, b, c, a);
    SwapKeepsDepth(p, a, b, c, a + c - b);
    MovedEnd(p, a, b, c);
    JumpedEnd(p, a, b, c);
  }

  /** The depth scan finds both exchanged subtrees in the new list. */
  lemma ScansAfterSwap(p: seq<int>, a: int, b: int, c: int)
    requires PreOrder(p) && 0 <= a < b < |p| && p[a] == p[b] && c == End(p, b) && Depth(p, b) < DEPTH_CAP
    ensures var q := SwapParents(p, a, b, c);
            && PreOrder(q)
            && SubtreeScan(q, a) == a + c - b
            && SubtreeScan(q, a + c - b) == End(p, a) + c - b
            && a < End(p, a) <= b
  {
    var q := SwapParents(p, a, b, c);
    SwapFacts(p, a, b, c);
    ScanIsEnd(q, a);
    ScanIsEnd(q, a + c - b);
  }

  lemma SameParentSameDepth(p: seq<int>, a: int, b: int)
    requires ParentFirst(p) && 0 <= a < |p| && 0 <= b < |p| && p[a] == p[b]
    ensures Depth(p, a) == Depth(p, b)
  {
  }

  lemma BareSwapParentsFirst(p: seq<int>, a: int, b: int)
    requires PreOrder(p) && 0 <= a < b < |p| && p[a] == p[b]
    ensures ParentFirst(p) && ParentFirst(SwapParents(p, a, b, b + 1))
  {
    assert ParentFirst(p) && p[b] < a;
    hide PreOrder, ParentFirst;
    SwapParentFirstIff(p, a, b, b + 1);
  }

  lemma BareSwapDepths(p: seq<int>, q: seq<int>, a: int, b: int)
    requires ParentFirst(p) && 0 <= a < b < |p| && p[a] == p[b]
    requires q == SwapParents(p, a, b, b + 1) && ParentFirst(q)
    ensures Depth(q, a) == Depth(p, b) == Depth(q, a + 1)
  {
    SameParentSameDepth(p, a, b);
    hide Depth, SwapParents, ParentFirst;
    SwapKeepsDepth(p, a, b, b + 1, a);
    SwapKeepsDepth(p, a, b, b + 1, a + 1);
  }

  /** Exchanging a row at or below the cap with earlier siblings: the scan takes both rows for bare in the new list
      too. */
  lemma DeepScansAfterSwap(p: seq<int>, a: int, b: int)
    requires PreOrder(p) && 0 <= a < b < |p| && p[a] == p[b] && Depth(p, b) >= DEPTH_CAP
    ensures var q := SwapParents(p, a, b, b + 1);
            SubtreeScan(q, a) == a + 1 && SubtreeScan(q, a + 1) == a + 2
  {
    hide Depth, SubtreeScan, SwapParents, PreOrder, ParentFirst;
    var q := SwapParents(p, a, b, b + 1);
    BareSwapParentsFirst(p, a, b);
    BareSwapDepths(p, q, a, b);
    DeepScanIsBare(q, a);
    DeepScanIsBare(q, a + 1);
  }
}
