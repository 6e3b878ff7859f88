/** What the list editor's elementary edits do to a pre-order list of parent indices. */
module Surgery {
  import opened Forest
  import opened Walk

  // ------------------------------------------------------------------------------------------------
  // Exchanging the adjacent blocks a..b and b..c
  // ------------------------------------------------------------------------------------------------

  /** The old index of the row at new index `k`. */
  function From(k: int, a: int, b: int, c: int): int {
    if k < a || k >= c then k else if k < a + c - b then k + b - a else k - (c - b)
  }

  /** The new index of the row at old index `x`. */
  function To(x: int, a: int, b: int, c: int): int {
    if x < a || x >= c then x else if x < b then x + (c - b) else x - (b - a)
  }

  function SwapOrder(n: nat, a: int, b: int, c: int): (w: seq<int>)
    ensures |w| == n && forall k :: 0 <= k < n ==> w[k] == From(k, a, b, c)
  {
    seq(n, k => From(k, a, b, c))
  }

  /** The parent indices after the exchange. */
  function SwapParents(p: seq<int>, a: int, b: int, c: int): (q: seq<int>)
    requires 0 <= a <= b <= c <= |p|
    ensures |q| == |p| && forall k :: 0 <= k < |q| ==> q[k] == To(p[From(k, a, b, c)], a, b, c)
  {
    seq(|p|, k requires 0 <= k < |p| => To(p[From(k, a, b, c)], a, b, c))
  }

  /** Where the parents of a list lie relative to two adjacent sibling blocks. */
  lemma SiblingBlockFacts(p: seq<int>, a: int, b: int, c: int)
    requires ParentFirst(p) && NonCrossing(p) && 0 <= a < b < |p| && p[a] == p[b] && c == End(p, b)
    ensures forall x :: a <= x < b ==> p[x] == p[a] || a <= p[x]
    ensures forall x :: b < x < c ==> b <= p[x]
    ensures forall x :: c <= x < |p| ==> p[x] <= p[a] || c <= p[x]
  {
    forall x | c <= x < |p|
      ensures p[x] <= p[a] || c <= p[x]
    {
      assert p[c] < b;
      if p[x] < c {
        assert x != c ==> p[x] <= p[c];
        assert p[x] < b && p[x] <= p[b];
      }
    }
    forall x | a <= x < b
      ensures p[x] == p[a] || a <= p[x]
    {
      assert p[b] <= p[x];
    }
  }

  /** Where the parent `px` of row `x` may lie when a..b and b..c are blocks of siblings below `top`. */
  predicate SiblingBlocks(a: int, b: int, c: int, top: int, x: int, px: int) {
    && px < x
    && (a <= x < b ==> px == top || a <= px)
    && (x == b ==> px == top)
    && (b < x < c ==> b <= px)
    && (c <= x ==> px <= top || c <= px)
  }

  lemma SwapPair(a: int, b: int, c: int, top: int, x: int, px: int, y: int, py: int)
    requires top < a < b < c
    requires SiblingBlocks(a, b, c, top, x, px) && SiblingBlocks(a, b, c, top, y, py)
    requires y < x && px < y ==> px <= py
    ensures To(px, a, b, c) < To(x, a, b, c)
    ensures To(px, a, b, c) < To(y, a, b, c) < To(x, a, b, c) ==> To(px, a, b, c) <= To(py, a, b, c)
  {
  }

  lemma SiblingBlocksAt(p: seq<int>, a: int, b: int, c: int, x: int)
    requires ParentFirst(p) && NonCrossing(p) && 0 <= a < b < |p| && p[a] == p[b] && c == End(p, b)
    requires 0 <= x < |p|
    ensures SiblingBlocks(a, b, c, p[a], x, p[x])
  {
    SiblingBlockFacts(p, a, b, c);
  }

  lemma SwapPairAt(p: seq<int>, a: int, b: int, c: int, i: int, j: int)
    requires ParentFirst(p) && NonCrossing(p) && 0 <= a < b < |p| && p[a] == p[b] && c == End(p, b)
    requires 0 <= j <= i < |p|
    ensures var q := SwapParents(p, a, b, c);
            -1 <= q[i] < i && (j < i && q[i] < j ==> q[i] <= q[j])
  {
    var x, y := From(i, a, b, c), From(j, a, b, c);
    SiblingBlocksAt(p, a, b, c, x);
    SiblingBlocksAt(p, a, b, c, y);
    SwapPair(a, b, c, p[a], x, p[x], y, p[y]);
  }

  /** Moving a subtree in front of an earlier sibling keeps pre-order. */
  lemma SwapKeepsNonCrossing(p: seq<int>, a: int, b: int, c: int)
    requires ParentFirst(p) && NonCrossing(p) && 0 <= a < b < |p| && p[a] == p[b] && c == End(p, b)
    ensures ParentFirst(SwapParents(p, a, b, c)) && NonCrossing(SwapParents(p, a, b, c))
  {
    var q := SwapParents(p, a, b, c);
    forall i, j | 0 <= j <= i < |p|
      ensures -1 <= q[i] < i && (j < i && q[i] < j ==> q[i] <= q[j])
    {
      SwapPairAt(p, a, b, c, i, j);
    }
  }

  /** Moving only the root of a subtree that has children breaks pre-order. */
  lemma SwapOfBareRootCrosses(p: seq<int>, a: int, b: int)
    requires ParentFirst(p) && NonCrossing(p) && 0 <= a < b < |p| && p[a] == p[b] && b + 1 < End(p, b)
    ensures !NonCrossing(SwapParents(p, a, b, b + 1))
  {
    var q := SwapParents(p, a, b, b + 1);
    assert q[b + 1] == a && q[a + 1] < a;
  }

  /** Exchanging two blocks keeps parents first exactly when no row of the second block has its parent in the
      first. */
  lemma SwapParentFirstIff(p: seq<int>, a: int, b: int, c: int)
    requires ParentFirst(p) && 0 <= a < b < c <= |p|
    ensures ParentFirst(SwapParents(p, a, b, c)) <==> forall x :: b <= x < c ==> !(a <= p[x] < b)
  {
    var q := SwapParents(p, a, b, c);
    if forall x :: b <= x < c ==> !(a <= p[x] < b) {
      forall k | 0 <= k < |q|
        ensures -1 <= q[k] < k
      {
        var x := From(k, a, b, c);
        assert q[k] == To(p[x], a, b, c) && p[x] < x;
      }
    } else {
      var x :| b <= x < c && a <= p[x] < b;
      var k := x - (b - a);
      assert From(k, a, b, c) == x && q[k] >= k;
    }
  }

  lemma SwapIsPermutation(n: nat, a: int, b: int, c: int)
    requires 0 <= a <= b <= c <= n
    ensures var w := SwapOrder(n, a, b, c);
            && NoRepeats(w)
            && (forall k :: 0 <= k < n ==> 0 <= w[k] < n)
            && (forall x :: 0 <= x < n ==> x in w)
  {
    var w := SwapOrder(n, a, b, c);
    forall x | 0 <= x < n
      ensures x in w
    {
      assert w[To(x, a, b, c)] == x;
    }
  }

  lemma SwapLinked(p: seq<int>, a: int, b: int, c: int)
    requires 0 <= a <= b <= c <= |p| && Indexed(p)
    ensures Linked(p, SwapOrder(|p|, a, b, c), SwapParents(p, a, b, c))
  {
    SwapIsPermutation(|p|, a, b, c);
  }

  // ------------------------------------------------------------------------------------------------
  // Indent and outdent
  // ------------------------------------------------------------------------------------------------

  /** Nesting a row under the row before it keeps pre-order. */
  lemma IndentKeepsPreOrder(p: seq<int>, i: int)
    requires PreOrder(p) && 0 < i < |p|
    ensures PreOrder(p[i := i - 1])
  {
    PreOrderIffNonCrossing(p);
    PreOrderIffNonCrossing(p[i := i - 1]);
  }

  /** Parent pointers after row `i` has been handed to its grandparent, before any row is moved. */
  function Outdented(p: seq<int>, i: int): (r: seq<int>)
    requires 0 <= i < |p| && 0 <= p[i] < |p|
    ensures |r| == |p|
  {
    p[i := p[p[i]]]
  }

  lemma OutdentFacts(p: seq<int>, i: int)
    requires ParentFirst(p) && NonCrossing(p) && 0 <= i < |p| && p[i] >= 0
    ensures End(p, i) <= End(p, p[i])
    ensures var m, e, f := p[i], End(p, i), End(p, p[i]);
            && (forall x :: m < x < i ==> m <= p[x])
            && (forall x :: i < x < e ==> i <= p[x])
            && (forall x :: e <= x < f ==> m <= p[x] < i || e <= p[x])
            && (forall x :: f <= x < |p| ==> p[x] <= p[m] || f <= p[x])
  {
    var m, e, f := p[i], End(p, i), End(p, p[i]);
    forall x | m < x < e
      ensures m <= p[x]
    {
    }
    forall x | f <= x < |p|
      ensures p[x] <= p[m] || f <= p[x]
    {
      if p[x] < f {
        assert x != f ==> p[x] <= p[f];
        assert p[x] < m && p[x] <= p[m];
      }
    }
    forall x | e <= x < f
      ensures m <= p[x] < i || e <= p[x]
    {
      if p[x] < e {
        assert x != e ==> p[x] <= p[e];
      }
    }
  }

  /** Where the parent `px` of row `x` may lie when row `i`, with subtree i..e, leaves the subtree m..f. */
  predicate OutdentBlocks(m: int, top: int, i: int, e: int, f: int, x: int, px: int) {
    && px < x
    && (m < x < i ==> m <= px)
    && (x == i ==> px == m)
    && (i < x < e ==> i <= px)
    && (e <= x < f ==> m <= px < i || e <= px)
    && (f <= x ==> px <= top || f <= px)
  }

  lemma OutdentPair(m: int, top: int, i: int, e: int, f: int, x: int, px: int, y: int, py: int)
    requires top < m < i < e <= f
    requires OutdentBlocks(m, top, i, e, f, x, px) && OutdentBlocks(m, top, i, e, f, y, py)
    requires y < x && px < y ==> px <= py
    requires x == i && top < y < m ==> top <= py
    requires y == m ==> py == top
    ensures var qx, qy := if x == i then top else px, if y == i then top else py;
            && To(qx, i, e, f) < To(x, i, e, f)
            && (To(qx, i, e, f) < To(y, i, e, f) < To(x, i, e, f) ==> To(qx, i, e, f) <= To(qy, i, e, f))
  {
  }

  lemma OutdentBlocksAt(p: seq<int>, i: int, x: int)
    requires ParentFirst(p) && NonCrossing(p) && 0 <= i < |p| && p[i] >= 0 && 0 <= x < |p|
    ensures OutdentBlocks(p[i], p[p[i]], i, End(p, i), End(p, p[i]), x, p[x])
  {
    OutdentFacts(p, i);
  }

  lemma OutdentParentAt(p: seq<int>, i: int, k: int)
    requires ParentFirst(p) && 0 <= i < |p| && p[i] >= 0 && 0 <= k < |p| && End(p, i) <= End(p, p[i])
    ensures var e, f := End(p, i), End(p, p[i]);
            var x := From(k, i, e, f);
            SwapParents(Outdented(p, i), i, e, f)[k] == To(if x == i then p[p[i]] else p[x], i, e, f)
            && SwapParents(Outdented(p, i), i, e, f)[k] >= -1
  {
  }

  lemma OutdentPairAt(p: seq<int>, i: int, s: int, t: int)
    requires ParentFirst(p) && NonCrossing(p) && 0 <= i < |p| && p[i] >= 0 && 0 <= t <= s < |p|
    requires End(p, i) <= End(p, p[i])
    ensures var q := SwapParents(Outdented(p, i), i, End(p, i), End(p, p[i]));
            -1 <= q[s] < s && (t < s && q[s] < t ==> q[s] <= q[t])
  {
    var m, e, f := p[i], End(p, i), End(p, p[i]);
    var x, y := From(s, i, e, f), From(t, i, e, f);
    assert 0 <= x < |p| && 0 <= y < |p| && (y < x && p[x] < y ==> p[x] <= p[y]);
    assert p[m] < y < m ==> p[m] <= p[y];
    assert To(x, i, e, f) == s && To(y, i, e, f) == t;
    hide NonCrossing, EndsAt, To, From;
    OutdentBlocksAt(p, i, x);
    OutdentBlocksAt(p, i, y);
    OutdentPair(m, p[m], i, e, f, x, p[x], y, p[y]);
    OutdentParentAt(p, i, s);
    OutdentParentAt(p, i, t);
  }

  lemma OutdentNonCrossing(p: seq<int>, i: int)
    requires ParentFirst(p) && NonCrossing(p) && 0 <= i < |p| && p[i] >= 0
    ensures End(p, i) <= End(p, p[i])
    ensures var q := SwapParents(Outdented(p, i), i, End(p, i), End(p, p[i]));
            ParentFirst(q) && NonCrossing(q)
  {
    OutdentFacts(p, i);
    var q := SwapParents(Outdented(p, i), i, End(p, i), End(p, p[i]));
    forall s, t | 0 <= t <= s < |p|
      ensures -1 <= q[s] < s && (t < s && q[s] < t ==> q[s] <= q[t])
    {
      OutdentPairAt(p, i, s, t);
    }
  }

  lemma OutdentSiblingsInOrder(p: seq<int>, i: int)
    requires ParentFirst(p) && NonCrossing(p) && 0 <= i < |p| && p[i] >= 0
    ensures End(p, i) <= End(p, p[i])
    ensures var e, f := End(p, i), End(p, p[i]);
            SiblingsInOrder(SwapOrder(|p|, i, e, f), SwapParents(Outdented(p, i), i, e, f))
  {
    OutdentFacts(p, i);
    var e, f := End(p, i), End(p, p[i]);
    var w, q := SwapOrder(|p|, i, e, f), SwapParents(Outdented(p, i), i, e, f);
    forall a, b | 0 <= a < b < |w| && q[a] == q[b]
      ensures w[a] < w[b]
    {
      var x, y := w[a], w[b];
      assert x < y || (e <= x < f && i <= y < e);
    }
  }

  /** The re-sort after an outdent moves the subtree of `i` right behind the rest of its old parent's subtree,
      and moves nothing else. */
  lemma OutdentWalk(p: seq<int>, i: int)
    requires PreOrder(p) && 0 <= i < |p| && p[i] >= 0
    ensures Indexed(Outdented(p, i)) && End(p, i) <= End(p, p[i])
    ensures var e, f := End(p, i), End(p, p[i]);
            WalkOf(Outdented(p, i)) == (SwapOrder(|p|, i, e, f), SwapParents(Outdented(p, i), i, e, f))
  {
    PreOrderIffNonCrossing(p);
    OutdentNonCrossing(p, i);
    OutdentSiblingsInOrder(p, i);
    var e, f := End(p, i), End(p, p[i]);
    var p' := Outdented(p, i);
    var w, q := SwapOrder(|p|, i, e, f), SwapParents(p', i, e, f);
    SwapLinked(p', i, e, f);
    PreOrderIffNonCrossing(q);
    assert ClosedUpTo(p', w, |w|) by {
      SwapIsPermutation(|p|, i, e, f);
    }
    WalkIsUnique(p', w, q);
  }

  /** Outdent brings the moved subtree up by one level and leaves every other row at its level. */
  lemma {:induction false} OutdentDepth(p: seq<int>, i: int, k: int)
    requires PreOrder(p) && 0 <= i < |p| && p[i] >= 0 && 0 <= k < |p|
    ensures End(p, i) <= End(p, p[i])
    ensures var e, f := End(p, i), End(p, p[i]);
            var q := SwapParents(Outdented(p, i), i, e, f);
            var x := From(k, i, e, f);
            ParentFirst(q) && Depth(q, k) == Depth(p, x) - (if i <= x < e then 1 else 0)
    decreases k
  {
    PreOrderIffNonCrossing(p);
    OutdentFacts(p, i);
    OutdentNonCrossing(p, i);
    hide NonCrossing;
    var m, e, f := p[i], End(p, i), End(p, p[i]);
    var p' := Outdented(p, i);
    var q := SwapParents(p', i, e, f);
    var x := From(k, i, e, f);
    if q[k] >= 0 {
      OutdentDepth(p, i, q[k]);
      assert From(q[k], i, e, f) == p'[x];
    }
    if x == i {
      assert Depth(p, i) == 1 + Depth(p, m);
      assert q[k] == p[m];
    }
  }

  // ------------------------------------------------------------------------------------------------
  // Removing a row: its children become roots
  // ------------------------------------------------------------------------------------------------

  function SkipFrom(k: int, m: int): int { if k < m then k else k + 1 }

  function SkipTo(x: int, m: int): int { if x < m then x else if x == m then -1 else x - 1 }

  function RemoveParents(p: seq<int>, m: int): (q: seq<int>)
    requires 0 <= m < |p|
    ensures |q| == |p| - 1 && forall k :: 0 <= k < |q| ==> q[k] == SkipTo(p[SkipFrom(k, m)], m)
  {
    seq(|p| - 1, k requires 0 <= k < |p| - 1 => SkipTo(p[SkipFrom(k, m)], m))
  }

  /** Row `m` is a leaf, or nothing but a root follows its subtree. */
  ghost predicate Removable(p: seq<int>, m: int)
    requires 0 <= m < |p|
  {
    var e := End(p, m);
    e == m + 1 || e == |p| || p[e] == -1
  }

  lemma RemoveKeepsParentFirst(p: seq<int>, m: int)
    requires ParentFirst(p) && 0 <= m < |p|
    ensures ParentFirst(RemoveParents(p, m))
  {
  }

  /** ... and closes no cycle. */
  lemma {:induction false} RemoveKeepsRooted(p: seq<int>, m: int, i: int, k: nat)
    requires Indexed(p) && 0 <= m < |p| && 0 <= i < |p| - 1 && Climb(p, SkipFrom(i, m), k) == -1
    ensures Indexed(RemoveParents(p, m)) && Rooted(RemoveParents(p, m), i)
    decreases k
  {
    var q := RemoveParents(p, m);
    RootedStep(q, i);
    if q[i] >= 0 {
      assert SkipFrom(q[i], m) == p[SkipFrom(i, m)];
      RemoveKeepsRooted(p, m, q[i], k - 1);
    }
  }

  lemma {:induction false} AppendKeepsRooted(p: seq<int>, i: int, k: nat)
    requires Indexed(p) && 0 <= i < |p| && Climb(p, i, k) == -1
    ensures Indexed(p + [-1]) && Rooted(p + [-1], i)
    decreases k
  {
    var q := p + [-1];
    RootedStep(q, i);
    if p[i] >= 0 {
      AppendKeepsRooted(p, p[i], k - 1);
    }
  }

  lemma RemovePairAt(p: seq<int>, m: int, i: int, j: int)
    requires ParentFirst(p) && NonCrossing(p) && 0 <= m < |p| && Removable(p, m)
    requires 0 <= j < i < |p| - 1 && RemoveParents(p, m)[i] < j
    ensures RemoveParents(p, m)[i] <= RemoveParents(p, m)[j]
  {
    var e := End(p, m);
    var x, y := SkipFrom(i, m), SkipFrom(j, m);
    if p[x] != m {
      assert p[x] <= p[y];
      if p[y] == m {
        assert p[x] < m && y < e <= x;
        assert x == e || p[x] <= p[e];
      }
    }
  }

  lemma RemovableKeepsNonCrossing(p: seq<int>, m: int)
    requires ParentFirst(p) && NonCrossing(p) && 0 <= m < |p| && Removable(p, m)
    ensures NonCrossing(RemoveParents(p, m))
  {
    var q := RemoveParents(p, m);
    forall i, j | 0 <= j < i < |q| && q[i] < j
      ensures q[i] <= q[j]
    {
      RemovePairAt(p, m, i, j);
    }
  }

  /** Removing a row keeps pre-order exactly when the row is removable in this sense. */
  lemma RemovePreOrderIff(p: seq<int>, m: int)
    requires PreOrder(p) && 0 <= m < |p|
    ensures PreOrder(RemoveParents(p, m)) <==> Removable(p, m)
  {
    PreOrderIffNonCrossing(p);
    var q := RemoveParents(p, m);
    PreOrderIffNonCrossing(q);
    RemoveKeepsParentFirst(p, m);
    if Removable(p, m) {
      RemovableKeepsNonCrossing(p, m);
    } else {
      var e := End(p, m);
      assert p[m + 1] == m && q[m] == -1 && q[e - 1] == p[e];
    }
  }

  /** A root may always be removed, and so may a leaf. */
  lemma RootsAndLeavesAreRemovable(p: seq<int>, m: int)
    requires PreOrder(p) && 0 <= m < |p| && (p[m] == -1 || End(p, m) == m + 1)
    ensures Removable(p, m)
  {
    PreOrderIffNonCrossing(p);
  }

  /** A new last row that is a root keeps pre-order. */
  lemma AppendRootKeepsPreOrder(p: seq<int>)
    requires PreOrder(p)
    ensures PreOrder(p + [-1])
  {
    PreOrderIffNonCrossing(p);
    PreOrderIffNonCrossing(p + [-1]);
  }
}
