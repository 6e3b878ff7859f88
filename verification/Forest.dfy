/** Forests as parent-index sequences.

    A list of rows whose parent pointers have been resolved is a sequence `p` of integers: `p[i]` is the
    index of the parent of row `i`, or -1 when row `i` is a root.  This module says what it means for such
    a list to be a pre-order walk of its forest, and proves the facts the list editor relies on.
  */
module Forest {
  import opened Common

  /** Every parent pointer is a row of the list or "root".  Self, forward and cyclic pointers are allowed. */
  ghost predicate Indexed(p: seq<int>) {
    forall i :: 0 <= i < |p| ==> -1 <= p[i] < |p|
  }

  /** Every parent comes before its children. */
  ghost predicate ParentFirst(p: seq<int>) {
    forall i :: 0 <= i < |p| ==> -1 <= p[i] < i
  }

  /** Row `j` is row `i` or lies below it. */
  ghost predicate Descends(p: seq<int>, j: int, i: int)
    requires ParentFirst(p) && -1 <= j < |p|
    decreases j + 1
  {
    j >= 0 && (j == i || Descends(p, p[j], i))
  }

  /** The subtree of row `i` is exactly the run of rows `i..e`. */
  ghost predicate SubtreeIs(p: seq<int>, i: int, e: int)
    requires ParentFirst(p)
  {
    i < e <= |p| && forall j :: 0 <= j < |p| ==> (Descends(p, j, i) <==> i <= j < e)
  }

  ghost predicate Contiguous(p: seq<int>, i: int)
    requires ParentFirst(p)
  {
    exists e :: SubtreeIs(p, i, e)
  }

  /** The list is a pre-order walk: parents first, and every subtree is one contiguous run of rows. */
  ghost predicate PreOrder(p: seq<int>) {
    ParentFirst(p) && forall i :: 0 <= i < |p| ==> Contiguous(p, i)
  }

  /** No parent edge jumps out of a subtree that is still open. */
  ghost predicate NonCrossing(p: seq<int>) {
    forall i, j :: 0 <= j < i < |p| && p[i] < j ==> p[i] <= p[j]
  }

  /** Row `e` is the first row after `i` whose parent lies before `i`, or the end of the list. */
  ghost predicate EndsAt(p: seq<int>, i: int, e: int) {
    && 0 <= i < e <= |p|
    && (forall k :: i < k < e ==> p[k] >= i)
    && (e < |p| ==> p[e] < i)
  }

  lemma EndExists(p: seq<int>, i: int, e: int)
    requires 0 <= i < e <= |p| && forall k :: i < k < e ==> p[k] >= i
    ensures exists r :: EndsAt(p, i, r)
    decreases |p| - e
  {
    if e == |p| || p[e] < i {
      assert EndsAt(p, i, e);
    } else {
      EndExists(p, i, e + 1);
    }
  }

  /** One past the last row of the subtree of `i`, in a pre-order list. */
  ghost function End(p: seq<int>, i: int): (r: int)
    requires 0 <= i < |p|
    ensures EndsAt(p, i, r)
  {
    EndExists(p, i, i + 1);
    var r :| EndsAt(p, i, r);
    r
  }

  lemma EndIs(p: seq<int>, i: int, e: int)
    requires EndsAt(p, i, e)
    ensures End(p, i) == e
  {
  }

  lemma DescendsIsLater(p: seq<int>, j: int, i: int)
    requires ParentFirst(p) && -1 <= j < |p| && Descends(p, j, i)
    ensures i <= j
    decreases j + 1
  {
    if j != i {
      DescendsIsLater(p, p[j], i);
    }
  }

  lemma {:induction false} InsideDescends(p: seq<int>, j: int, i: int)
    requires ParentFirst(p) && 0 <= i <= j < |p| && j < End(p, i)
    ensures Descends(p, j, i)
    decreases j
  {
    if j != i {
      InsideDescends(p, p[j], i);
    }
  }

  lemma {:induction false} OutsideDoesNotDescend(p: seq<int>, j: int, i: int)
    requires ParentFirst(p) && NonCrossing(p) && 0 <= i < |p| && End(p, i) <= j < |p|
    ensures !Descends(p, j, i)
    decreases j
  {
    var e := End(p, i);
    if p[j] >= e {
      OutsideDoesNotDescend(p, p[j], i);
    } else {
      assert p[j] < i;
      if Descends(p, p[j], i) {
        DescendsIsLater(p, p[j], i);
      }
    }
  }

  /** In a non-crossing list the scan for a smaller parent finds exactly the subtree. */
  lemma EndIsSubtreeEnd(p: seq<int>, i: int)
    requires ParentFirst(p) && NonCrossing(p) && 0 <= i < |p|
    ensures SubtreeIs(p, i, End(p, i))
  {
    forall j | 0 <= j < |p|
      ensures Descends(p, j, i) <==> i <= j < End(p, i)
    {
      if j < i {
        if Descends(p, j, i) {
          DescendsIsLater(p, j, i);
        }
      } else if j < End(p, i) {
        InsideDescends(p, j, i);
      } else {
        OutsideDoesNotDescend(p, j, i);
      }
    }
  }

  /** Contiguous subtrees and non-crossing parent edges are the same thing. */
  lemma PreOrderIffNonCrossing(p: seq<int>)
    ensures PreOrder(p) <==> ParentFirst(p) && NonCrossing(p)
  {
    if ParentFirst(p) && NonCrossing(p) {
      forall i | 0 <= i < |p|
        ensures Contiguous(p, i)
      {
        EndIsSubtreeEnd(p, i);
      }
    }
    if PreOrder(p) {
      forall i, j | 0 <= j < i < |p| && p[i] < j
        ensures p[i] <= p[j]
      {
        var a := p[i];
        if a >= 0 {
          assert Contiguous(p, a);
          var e :| SubtreeIs(p, a, e);
          assert Descends(p, a, a) && Descends(p, i, a);
          assert Descends(p, j, a);
          DescendsIsLater(p, p[j], a);
        }
      }
    }
  }

  /** Subtree ends are unique, so `End` is the end of the descendant set in every pre-order list. */
  lemma PreOrderEnd(p: seq<int>, i: int, e: int)
    requires PreOrder(p) && 0 <= i < |p|
    ensures SubtreeIs(p, i, e) <==> e == End(p, i)
  {
    PreOrderIffNonCrossing(p);
    EndIsSubtreeEnd(p, i);
    var f := End(p, i);
    if SubtreeIs(p, i, e) {
      assert e < |p| ==> !Descends(p, e, i);
      assert f < |p| ==> !Descends(p, f, i);
    }
  }

  // ------------------------------------------------------------------------------------------------
  // Depth
  // ------------------------------------------------------------------------------------------------

  /** Number of proper ancestors. */
  ghost function Depth(p: seq<int>, i: int): nat
    requires ParentFirst(p) && 0 <= i < |p|
    decreases i
  {
    if p[i] < 0 then 0 else 1 + Depth(p, p[i])
  }

  /** Number of parent steps from row `i`, never more than `cap`.  Defined on cyclic lists too. */
  function CappedDepth(p: seq<int>, i: int, cap: nat): (d: nat)
    requires 0 <= i < |p| && forall k :: 0 <= k < |p| ==> -1 <= p[k] < |p|
    ensures d <= cap
    decreases cap, p
  {
    if cap == 0 || p[i] < 0 then 0 else 1 + CappedDepth(p, p[i], cap - 1)
  }

  lemma {:induction false} CappedDepthIsDepth(p: seq<int>, i: int, cap: nat)
    requires ParentFirst(p) && 0 <= i < |p|
    ensures CappedDepth(p, i, cap) == Min(Depth(p, i), cap)
    decreases cap
  {
    if cap != 0 && p[i] >= 0 {
      CappedDepthIsDepth(p, p[i], cap - 1);
    }
  }

  lemma {:induction false} DescendantIsDeeper(p: seq<int>, j: int, i: int)
    requires ParentFirst(p) && 0 <= j < |p| && 0 <= i < |p| && Descends(p, j, i)
    ensures if j == i then Depth(p, j) == Depth(p, i) else Depth(p, j) > Depth(p, i)
    decreases j
  {
    if j != i {
      DescendantIsDeeper(p, p[j], i);
    }
  }

  /** The row right after a subtree is no deeper than the subtree's root. */
  lemma RowAfterSubtreeIsNoDeeper(p: seq<int>, i: int)
    requires ParentFirst(p) && NonCrossing(p) && 0 <= i < |p| && End(p, i) < |p|
    ensures Depth(p, End(p, i)) <= Depth(p, i)
  {
    var e := End(p, i);
    var a := p[e];
    if a >= 0 {
      EndIsSubtreeEnd(p, a);
      assert Descends(p, e, a);
      assert Descends(p, i, a);
      DescendantIsDeeper(p, i, a);
    }
  }

  // ------------------------------------------------------------------------------------------------
  // Rows reachable from the roots
  // ------------------------------------------------------------------------------------------------

  /** The row reached from `i` by `k` parent steps, or -1 once the walk has left the forest. */
  ghost function Climb(p: seq<int>, i: int, k: nat): (r: int)
    requires Indexed(p) && -1 <= i < |p|
    ensures -1 <= r < |p|
    decreases k
  {
    if i < 0 || k == 0 then i else Climb(p, p[i], k - 1)
  }

  /** Row `i` hangs below a root: it is neither on a parent cycle nor below one. */
  ghost predicate Rooted(p: seq<int>, i: int)
    requires Indexed(p) && 0 <= i < |p|
  {
    exists k: nat :: Climb(p, i, k) == -1
  }

  ghost predicate Acyclic(p: seq<int>) {
    Indexed(p) && forall i :: 0 <= i < |p| ==> Rooted(p, i)
  }

  lemma RootedStep(p: seq<int>, i: int)
    requires Indexed(p) && 0 <= i < |p|
    ensures Rooted(p, i) <==> p[i] < 0 || Rooted(p, p[i])
  {
    if p[i] < 0 {
      assert Climb(p, i, 1) == Climb(p, p[i], 0) == -1;
    } else {
      if k: nat :| Climb(p, p[i], k) == -1 {
        assert Climb(p, i, k + 1) == -1;
      }
      if k: nat :| Climb(p, i, k) == -1 {
        assert Climb(p, p[i], k - 1) == -1;
      }
    }
  }

  lemma {:induction false} ParentFirstIsRooted(p: seq<int>, i: int)
    requires ParentFirst(p) && 0 <= i < |p|
    ensures Rooted(p, i)
    decreases i
  {
    if p[i] >= 0 {
      ParentFirstIsRooted(p, p[i]);
    }
    RootedStep(p, i);
  }

  /** The capped depth walk stops below its cap exactly when it reaches a root within the cap. */
  lemma {:induction false} CappedDepthBelowCap(p: seq<int>, i: int, cap: nat)
    requires Indexed(p) && 0 <= i < |p|
    ensures CappedDepth(p, i, cap) < cap <==> Climb(p, i, cap) == -1
    decreases cap
  {
    if cap > 0 {
      if p[i] < 0 {
        assert Climb(p, i, cap) == -1;
      } else {
        CappedDepthBelowCap(p, p[i], cap - 1);
      }
    }
  }
}
