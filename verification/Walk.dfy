/** The stack-driven pre-order walk of a list with arbitrary parent pointers.

    `w` is the sequence of row indices already emitted followed by those still on the stack (top first), and
    `k` counts the emitted ones.  Popping the top of the stack only moves the boundary `k`; pushing the
    children of the popped row inserts them right behind it.
  */
module Walk {
  import opened Forest

  /** The rows before `n` whose parent is `i` (-1: the roots), in list order. */
  function KidsBefore(p: seq<int>, i: int, n: nat): (ks: seq<int>)
    requires n <= |p|
    ensures forall a :: 0 <= a < |ks| ==> 0 <= ks[a] < n && p[ks[a]] == i
    ensures forall a, b :: 0 <= a < b < |ks| ==> ks[a] < ks[b]
    ensures forall x :: 0 <= x < n && p[x] == i ==> x in ks
  {
    if n == 0 then []
    else
      var ks := KidsBefore(p, i, n - 1);
      if p[n - 1] == i then ks + [n - 1] else ks
  }

  function Kids(p: seq<int>, i: int): (ks: seq<int>)
    ensures forall a :: 0 <= a < |ks| ==> 0 <= ks[a] < |p| && p[ks[a]] == i
    ensures forall a, b :: 0 <= a < b < |ks| ==> ks[a] < ks[b]
    ensures forall x :: 0 <= x < |p| && p[x] == i ==> x in ks
  {
    KidsBefore(p, i, |p|)
  }

  ghost predicate NoRepeats(w: seq<int>) {
    forall a, b :: 0 <= a < b < |w| ==> w[a] != w[b]
  }

  /** `q[a]` is the position in `w` of the parent of row `w[a]`, or -1 for a root. */
  ghost predicate Linked(p: seq<int>, w: seq<int>, q: seq<int>) {
    && |q| == |w|
    && (forall a :: 0 <= a < |w| ==> 0 <= w[a] < |p|)
    && NoRepeats(w)
    && Indexed(q)
    && (forall a :: 0 <= a < |w| ==> p[w[a]] == if q[a] < 0 then -1 else w[q[a]])
  }

  ghost predicate Placed(p: seq<int>, w: seq<int>, q: seq<int>) {
    Linked(p, w, q) && ParentFirst(q)
  }

  /** Siblings keep the order they had in the list. */
  ghost predicate SiblingsInOrder(w: seq<int>, q: seq<int>)
    requires |q| == |w|
  {
    forall a, b :: 0 <= a < b < |w| && q[a] == q[b] ==> w[a] < w[b]
  }

  /** All roots, and all children of the first `k` rows, have been found. */
  ghost predicate ClosedUpTo(p: seq<int>, w: seq<int>, k: nat)
    requires k <= |w|
  {
    && (forall x :: 0 <= x < |p| && p[x] == -1 ==> x in w)
    && (forall a, x :: 0 <= a < k && 0 <= x < |p| && p[x] == w[a] ==> x in w)
  }

  ghost predicate Frontier(p: seq<int>, w: seq<int>, q: seq<int>, k: nat) {
    && Placed(p, w, q)
    && k <= |w|
    && (forall a :: 0 <= a < |w| ==> q[a] < k)
    && NonCrossing(q)
    && SiblingsInOrder(w, q)
    && ClosedUpTo(p, w, k)
  }

  /** `w` is a finished pre-order walk of `p`, with parent positions `q`: it holds the roots and, with every
      row, all its children; each row once, parents first, subtrees contiguous, siblings in list order. */
  ghost predicate IsWalk(p: seq<int>, w: seq<int>, q: seq<int>) {
    && Placed(p, w, q)
    && PreOrder(q)
    && SiblingsInOrder(w, q)
    && ClosedUpTo(p, w, |w|)
  }

  lemma FinishedFrontierIsWalk(p: seq<int>, w: seq<int>, q: seq<int>)
    ensures Frontier(p, w, q, |w|) <==> IsWalk(p, w, q)
  {
    PreOrderIffNonCrossing(q);
  }

  lemma {:induction false} NoRepeatsBound(w: seq<int>, n: nat)
    requires NoRepeats(w) && forall a :: 0 <= a < |w| ==> 0 <= w[a] < n
    ensures |w| <= n
    decreases n
  {
    if w != [] {
      assert 0 <= w[0] < n;
      if a :| 0 <= a < |w| && w[a] == n - 1 {
        var v := w[..a] + w[a + 1..];
        NoRepeatsBound(v, n - 1);
      } else {
        NoRepeatsBound(w, n - 1);
      }
    }
  }

  function Constant(n: nat, k: int): (r: seq<int>)
    ensures |r| == n && forall a :: 0 <= a < n ==> r[a] == k
  {
    seq(n, _ => k)
  }

  /** Insert `kids` right behind position `k`. */
  function InsertAfter(w: seq<int>, k: nat, kids: seq<int>): (r: seq<int>)
    requires k < |w|
    ensures |r| == |w| + |kids|
    ensures forall a :: 0 <= a <= k ==> r[a] == w[a]
    ensures forall a :: k < a <= k + |kids| ==> r[a] == kids[a - k - 1]
    ensures forall a :: k + |kids| < a < |r| ==> r[a] == w[a - |kids|]
  {
    w[..k + 1] + kids + w[k + 1..]
  }

  lemma InsertAfterHas(w: seq<int>, k: nat, kids: seq<int>, x: int)
    requires k < |w| && (x in w || x in kids)
    ensures x in InsertAfter(w, k, kids)
  {
    assert w == w[..k + 1] + w[k + 1..];
  }

  lemma FrontierStart(p: seq<int>)
    requires Indexed(p)
    ensures Frontier(p, Kids(p, -1), Constant(|Kids(p, -1)|, -1), 0)
  {
  }

  lemma KidsAreNew(p: seq<int>, w: seq<int>, q: seq<int>, k: nat, a: nat, b: nat)
    requires Placed(p, w, q) && k < |w| && (forall a :: 0 <= a < |w| ==> q[a] < k)
    requires a < |w| && b < |Kids(p, w[k])|
    ensures w[a] != Kids(p, w[k])[b]
  {
    assert p[w[a]] == if q[a] < 0 then -1 else w[q[a]];
  }

  lemma StepNoRepeats(p: seq<int>, w: seq<int>, q: seq<int>, k: nat)
    requires Placed(p, w, q) && k < |w| && (forall a :: 0 <= a < |w| ==> q[a] < k)
    ensures NoRepeats(InsertAfter(w, k, Kids(p, w[k])))
  {
    var kids := Kids(p, w[k]);
    var w' := InsertAfter(w, k, kids);
    forall a, b | 0 <= a < b < |w'|
      ensures w'[a] != w'[b]
    {
      if k < a <= k + |kids| < b {
        KidsAreNew(p, w, q, k, b - |kids|, a - k - 1);
      } else if a <= k < b <= k + |kids| {
        KidsAreNew(p, w, q, k, a, b - k - 1);
      }
    }
  }

  lemma StepPlaced(p: seq<int>, w: seq<int>, q: seq<int>, k: nat)
    requires Placed(p, w, q) && k < |w| && (forall a :: 0 <= a < |w| ==> q[a] < k)
    ensures var kids := Kids(p, w[k]);
            Placed(p, InsertAfter(w, k, kids), InsertAfter(q, k, Constant(|kids|, k)))
  {
    StepNoRepeats(p, w, q, k);
    var kids := Kids(p, w[k]);
    var w', q' := InsertAfter(w, k, kids), InsertAfter(q, k, Constant(|kids|, k));
    forall a | 0 <= a < |w'|
      ensures 0 <= w'[a] < |p| && -1 <= q'[a] < a && p[w'[a]] == if q'[a] < 0 then -1 else w'[q'[a]]
    {
      if k + |kids| < a {
        var c := a - |kids|;
        assert p[w[c]] == if q[c] < 0 then -1 else w[q[c]];
      }
    }
  }

  lemma StepNonCrossing(q: seq<int>, k: nat, n: nat)
    requires ParentFirst(q) && NonCrossing(q) && k < |q| && (forall a :: 0 <= a < |q| ==> q[a] < k)
    ensures NonCrossing(InsertAfter(q, k, Constant(n, k)))
  {
  }

  lemma SiblingPairInOrder(w: seq<int>, q: seq<int>, k: nat, kids: seq<int>, a: int, b: int)
    requires k < |w| == |q| && (forall a :: 0 <= a < |q| ==> q[a] < k) && SiblingsInOrder(w, q)
    requires forall a, b :: 0 <= a < b < |kids| ==> kids[a] < kids[b]
    requires 0 <= a < b < |w| + |kids|
    requires InsertAfter(q, k, Constant(|kids|, k))[a] == InsertAfter(q, k, Constant(|kids|, k))[b]
    ensures InsertAfter(w, k, kids)[a] < InsertAfter(w, k, kids)[b]
  {
    var n := |kids|;
    if k < a <= k + n {
      assert b <= k + n;
    } else {
      assert !(k < b <= k + n);
      var a', b' := if a <= k then a else a - n, if b <= k then b else b - n;
      assert q[a'] == q[b'];
    }
  }

  lemma StepSiblingsInOrder(p: seq<int>, w: seq<int>, q: seq<int>, k: nat)
    requires Placed(p, w, q) && k < |w| && (forall a :: 0 <= a < |w| ==> q[a] < k) && SiblingsInOrder(w, q)
    ensures var kids := Kids(p, w[k]);
            SiblingsInOrder(InsertAfter(w, k, kids), InsertAfter(q, k, Constant(|kids|, k)))
  {
    var kids := Kids(p, w[k]);
    var w', q' := InsertAfter(w, k, kids), InsertAfter(q, k, Constant(|kids|, k));
    forall a, b | 0 <= a < b < |w'| && q'[a] == q'[b]
      ensures w'[a] < w'[b]
    {
      SiblingPairInOrder(w, q, k, kids, a, b);
    }
  }

  lemma StepClosed(p: seq<int>, w: seq<int>, k: nat)
    requires k < |w| && ClosedUpTo(p, w, k)
    ensures ClosedUpTo(p, InsertAfter(w, k, Kids(p, w[k])), k + 1)
  {
    var kids := Kids(p, w[k]);
    var w' := InsertAfter(w, k, kids);
    forall x | 0 <= x < |p| && p[x] == -1
      ensures x in w'
    {
      InsertAfterHas(w, k, kids, x);
    }
    forall a, x | 0 <= a < k + 1 && 0 <= x < |p| && p[x] == w'[a]
      ensures x in w'
    {
      assert w'[a] == w[a];
      InsertAfterHas(w, k, kids, x);
    }
  }

  /** Visiting one row keeps the invariant of the walk. */
  lemma FrontierStep(p: seq<int>, w: seq<int>, q: seq<int>, k: nat)
    requires Frontier(p, w, q, k) && k < |w|
    ensures var kids := Kids(p, w[k]);
            Frontier(p, InsertAfter(w, k, kids), InsertAfter(q, k, Constant(|kids|, k)), k + 1)
  {
    StepPlaced(p, w, q, k);
    StepNonCrossing(q, k, |Kids(p, w[k])|);
    StepSiblingsInOrder(p, w, q, k);
    StepClosed(p, w, k);
  }

  /** Run the walk from a frontier to its end. */
  ghost function Finish(p: seq<int>, w: seq<int>, q: seq<int>, k: nat): (r: (seq<int>, seq<int>))
    requires Frontier(p, w, q, k)
    ensures IsWalk(p, r.0, r.1)
    decreases |p| - k
  {
    if k == |w| then
      FinishedFrontierIsWalk(p, w, q);
      (w, q)
    else
      FrontierStep(p, w, q, k);
      NoRepeatsBound(w, |p|);
      var kids := Kids(p, w[k]);
      Finish(p, InsertAfter(w, k, kids), InsertAfter(q, k, Constant(|kids|, k)), k + 1)
  }

  lemma FinishStep(p: seq<int>, w: seq<int>, q: seq<int>, k: nat)
    requires Frontier(p, w, q, k) && k < |w|
    ensures var kids := Kids(p, w[k]);
            var w', q' := InsertAfter(w, k, kids), InsertAfter(q, k, Constant(|kids|, k));
            Frontier(p, w', q', k + 1) && Finish(p, w', q', k + 1) == Finish(p, w, q, k)
  {
    FrontierStep(p, w, q, k);
  }

  lemma FrontierBounds(p: seq<int>, w: seq<int>, q: seq<int>, k: nat)
    requires Frontier(p, w, q, k)
    ensures k <= |w| == |q| <= |p| && forall a :: 0 <= a < |w| ==> 0 <= w[a] < |p|
  {
    NoRepeatsBound(w, |p|);
  }

  ghost function WalkOf(p: seq<int>): (r: (seq<int>, seq<int>))
    requires Indexed(p)
    ensures IsWalk(p, r.0, r.1)
  {
    FrontierStart(p);
    Finish(p, Kids(p, -1), Constant(|Kids(p, -1)|, -1), 0)
  }

  // ------------------------------------------------------------------------------------------------
  // The walk is determined by the parent pointers
  // ------------------------------------------------------------------------------------------------

  /** If two walks part at position `k`, the first goes on at least as deep as the second, and with the
      earlier row if both go on below the same parent. */
  lemma WhereWalksPart(p: seq<int>, w: seq<int>, q: seq<int>, w': seq<int>, q': seq<int>, k: nat)
    requires IsWalk(p, w, q) && IsWalk(p, w', q')
    requires k < |w| && k < |w'| && w[..k] == w'[..k] && q[..k] == q'[..k] && w[k] != w'[k]
    ensures q'[k] <= q[k] && (q'[k] == q[k] ==> w[k] < w'[k])
  {
    PreOrderIffNonCrossing(q);
    var y := WalkHoldsNext(p, w, q, w', q', k);
    assert k < y && q[y] == q'[k] < k;
  }

  /** If two walks agree up to position `k` and both go on, they agree at `k`. */
  lemma NextRowIsDetermined(p: seq<int>, w: seq<int>, q: seq<int>, w': seq<int>, q': seq<int>, k: nat)
    requires IsWalk(p, w, q) && IsWalk(p, w', q')
    requires k < |w| && k < |w'| && w[..k] == w'[..k] && q[..k] == q'[..k]
    ensures w[k] == w'[k] && q[k] == q'[k]
  {
    if w[k] != w'[k] {
      WhereWalksPart(p, w, q, w', q', k);
      WhereWalksPart(p, w', q', w, q, k);
    } else {
      PrefixAt(w, w', k);
      assert p[w[k]] == p[w'[k]];
      if q[k] >= 0 && q'[k] >= 0 {
        assert w[q[k]] == w[q'[k]];
      }
    }
  }

  lemma PrefixAt(w: seq<int>, w': seq<int>, k: nat)
    requires k <= |w| && k <= |w'| && w[..k] == w'[..k]
    ensures forall a :: 0 <= a < k ==> w[a] == w'[a]
  {
    forall a | 0 <= a < k ensures w[a] == w'[a] {
      assert w[..k][a] == w'[..k][a];
    }
  }

  /** The next row of one walk occurs later in the other. */
  lemma WalkHoldsNext(p: seq<int>, w: seq<int>, q: seq<int>, w': seq<int>, q': seq<int>, k: nat) returns (y: nat)
    requires IsWalk(p, w, q) && IsWalk(p, w', q')
    requires k <= |w| && k < |w'| && w[..k] == w'[..k] && q[..k] == q'[..k]
    ensures k <= y < |w| && w[y] == w'[k] && q[y] == q'[k]
  {
    PrefixAt(w, w', k);
    var x := w'[k];
    assert x in w by {
      if q'[k] >= 0 {
        assert p[x] == w'[q'[k]] == w[q'[k]];
      }
    }
    y :| 0 <= y < |w| && w[y] == x;
    if q[y] >= 0 && q'[k] >= 0 {
      assert w[q[y]] == w[q'[k]];
    }
  }

  lemma WalkShape(p: seq<int>, w: seq<int>, q: seq<int>)
    requires IsWalk(p, w, q)
    ensures |w| == |q|
  {
  }

  lemma {:induction false} WalksAgree(p: seq<int>, w: seq<int>, q: seq<int>, w': seq<int>, q': seq<int>, k: nat)
    requires IsWalk(p, w, q) && IsWalk(p, w', q')
    requires k <= |w| && k <= |w'| && w[..k] == w'[..k] && q[..k] == q'[..k]
    ensures w == w' && q == q'
    decreases |w| - k
  {
    hide IsWalk;
    WalkShape(p, w, q);
    WalkShape(p, w', q');
    if k == |w| && k == |w'| {
      assert w == w[..k] && w' == w'[..k] && q == q[..k] && q' == q'[..k];
    } else if k == |w| {
      var y := WalkHoldsNext(p, w, q, w', q', k);
    } else if k == |w'| {
      var y := WalkHoldsNext(p, w', q', w, q, k);
    } else {
      NextRowIsDetermined(p, w, q, w', q', k);
      assert w[..k + 1] == w[..k] + [w[k]] && w'[..k + 1] == w'[..k] + [w'[k]];
      assert q[..k + 1] == q[..k] + [q[k]] && q'[..k + 1] == q'[..k] + [q'[k]];
      WalksAgree(p, w, q, w', q', k + 1);
    }
  }

  /** Parent pointers and list order determine the pre-order walk: there is exactly one. */
  lemma WalkIsUnique(p: seq<int>, w: seq<int>, q: seq<int>)
    requires Indexed(p) && IsWalk(p, w, q)
    ensures WalkOf(p) == (w, q)
  {
    var r := WalkOf(p);
    WalksAgree(p, w, q, r.0, r.1, 0);
  }

  // ------------------------------------------------------------------------------------------------
  // What the walk emits
  // ------------------------------------------------------------------------------------------------

  lemma {:induction false} EmittedIsRooted(p: seq<int>, w: seq<int>, q: seq<int>, a: nat)
    requires Indexed(p) && IsWalk(p, w, q) && a < |w|
    ensures Rooted(p, w[a])
    decreases a
  {
    if q[a] >= 0 {
      EmittedIsRooted(p, w, q, q[a]);
    }
    RootedStep(p, w[a]);
  }

  /** Rearranging rows together with their parent pointers closes no cycle. */
  lemma {:induction false} LinkedKeepsRooted(p: seq<int>, w: seq<int>, q: seq<int>, a: int, k: nat)
    requires Indexed(p) && Linked(p, w, q) && 0 <= a < |w| && Climb(p, w[a], k) == -1
    ensures Rooted(q, a)
    decreases k
  {
    RootedStep(q, a);
    if q[a] >= 0 {
      LinkedKeepsRooted(p, w, q, q[a], k - 1);
    }
  }

  lemma {:induction false} RootedIsEmitted(p: seq<int>, w: seq<int>, q: seq<int>, i: int, k: nat)
    requires Indexed(p) && IsWalk(p, w, q) && 0 <= i < |p| && Climb(p, i, k) == -1
    ensures i in w
    decreases k
  {
    if p[i] >= 0 {
      RootedIsEmitted(p, w, q, p[i], k - 1);
      var a :| 0 <= a < |w| && w[a] == p[i];
    }
  }

  /** The walk emits exactly the rows reachable from the roots. */
  lemma WalkEmitsRooted(p: seq<int>, i: int)
    requires Indexed(p) && 0 <= i < |p|
    ensures i in WalkOf(p).0 <==> Rooted(p, i)
  {
    var (w, q) := WalkOf(p);
    if i in w {
      var a :| 0 <= a < |w| && w[a] == i;
      EmittedIsRooted(p, w, q, a);
    }
    if k: nat :| Climb(p, i, k) == -1 {
      RootedIsEmitted(p, w, q, i, k);
    }
  }

  /** A duplicate-free sequence of `n` numbers below `n` misses none. */
  lemma {:induction false} FullHasAll(w: seq<int>, n: nat, x: int)
    requires NoRepeats(w) && (forall a :: 0 <= a < |w| ==> 0 <= w[a] < n) && |w| == n && 0 <= x < n
    ensures x in w
  {
    if x !in w {
      var v := w + [x];
      NoRepeatsBound(v, n);
    }
  }

  lemma {:induction false} AllMakesFull(w: seq<int>, n: nat)
    requires NoRepeats(w) && (forall a :: 0 <= a < |w| ==> 0 <= w[a] < n)
    requires forall x :: 0 <= x < n ==> x in w
    ensures |w| == n
    decreases n
  {
    if n == 0 {
      NoRepeatsBound(w, 0);
    } else {
      assert n - 1 in w;
      var a :| 0 <= a < |w| && w[a] == n - 1;
      var v := w[..a] + w[a + 1..];
      forall x | 0 <= x < n - 1 ensures x in v {
        assert x in w;
        var b :| 0 <= b < |w| && w[b] == x;
        assert if b < a then v[b] == x else v[b - 1] == x;
      }
      AllMakesFull(v, n - 1);
    }
  }

  /** Nothing is dropped exactly when the parent pointers have no cycle. */
  lemma WalkIsFullIffAcyclic(p: seq<int>)
    requires Indexed(p)
    ensures |WalkOf(p).0| == |p| <==> Acyclic(p)
  {
    var w := WalkOf(p).0;
    if |w| == |p| {
      forall i | 0 <= i < |p| ensures Rooted(p, i) {
        FullHasAll(w, |p|, i);
        WalkEmitsRooted(p, i);
      }
    }
    if Acyclic(p) {
      forall i | 0 <= i < |p| ensures i in w {
        WalkEmitsRooted(p, i);
      }
      AllMakesFull(w, |p|);
    }
  }

  function Identity(n: nat): (r: seq<int>)
    ensures |r| == n && forall a :: 0 <= a < n ==> r[a] == a
  {
    seq(n, a => a)
  }

  /** A list that is in pre-order already is its own walk. */
  lemma PreOrderIsFixed(p: seq<int>)
    requires PreOrder(p)
    ensures Indexed(p) && WalkOf(p) == (Identity(|p|), p)
  {
    var w := Identity(|p|);
    forall x | 0 <= x < |p| ensures x in w {
      assert w[x] == x;
    }
    WalkIsUnique(p, w, p);
  }

  /** ... and only such a list is. */
  lemma FixedIsPreOrder(p: seq<int>)
    requires Indexed(p) && WalkOf(p).0 == Identity(|p|)
    ensures PreOrder(p)
  {
    var (w, q) := WalkOf(p);
    forall a | 0 <= a < |p| ensures q[a] == p[a] {
      assert p[w[a]] == if q[a] < 0 then -1 else w[q[a]];
    }
    assert q == p;
  }
}
