/** Launch entries: the rows of the Startup tab, linked by string ids. */
module LaunchEntries {
  import opened Forest
  import opened Walk

  /** One `default-launch-entries` tuple, and one row of the editor. */
  datatype Entry = Entry(id: string, parentId: string, name: string, dir: string, cmd: string,
                         icon: string, color: string, target: string)

  /** The index of the last of the first `n` rows with this id, or -1. */
  function IndexBefore(rows: seq<Entry>, id: string, n: nat): (r: int)
    requires n <= |rows|
    ensures -1 <= r < n
    ensures r >= 0 ==> rows[r].id == id
    ensures forall k :: r < k < n ==> rows[k].id != id
  {
    if n == 0 then -1
    else if rows[n - 1].id == id then n - 1
    else IndexBefore(rows, id, n - 1)
  }

  /** The index of the last row with this id, or -1: a hash table filled front to back keeps the last one. */
  function IndexOf(rows: seq<Entry>, id: string): (r: int)
    ensures -1 <= r < |rows|
    ensures r >= 0 ==> rows[r].id == id
    ensures forall k :: r < k < |rows| ==> rows[k].id != id
  {
    IndexBefore(rows, id, |rows|)
  }

  /** The row a parent id stands for; an empty or dangling id stands for no row. */
  function Resolve(rows: seq<Entry>, pid: string): (r: int)
    ensures -1 <= r < |rows|
  {
    if pid == "" then -1 else IndexOf(rows, pid)
  }

  /** The effective parents of all rows. */
  function Parents(rows: seq<Entry>): (p: seq<int>)
    ensures |p| == |rows|
    ensures forall i {:trigger p[i]} :: 0 <= i < |p| ==> p[i] == Resolve(rows, rows[i].parentId)
    ensures forall i :: 0 <= i < |p| ==> -1 <= p[i] < |p|
  {
    seq(|rows|, i requires 0 <= i < |rows| => Resolve(rows, rows[i].parentId))
  }

  /** A row is a root exactly when its parent id is empty or no row has it; otherwise its parent is the last row that
      has it. */
  lemma EffectiveParent(rows: seq<Entry>, i: int)
    requires 0 <= i < |rows|
    ensures var r, pid := Parents(rows)[i], rows[i].parentId;
            && (r == -1 <==> pid == "" || forall k :: 0 <= k < |rows| ==> rows[k].id != pid)
            && (r >= 0 ==> rows[r].id == pid && forall k :: r < k < |rows| ==> rows[k].id != pid)
  {
    var x := IndexOf(rows, rows[i].parentId);
    if x >= 0 {
      assert rows[x].id == rows[i].parentId;
    }
  }

  ghost predicate DistinctIds(rows: seq<Entry>) {
    forall i, j :: 0 <= i < j < |rows| ==> rows[i].id != rows[j].id
  }

  /** Every row has an id of its own. */
  ghost predicate WellNamed(rows: seq<Entry>) {
    DistinctIds(rows) && forall i :: 0 <= i < |rows| ==> rows[i].id != ""
  }

  /** The list is a pre-order walk of its forest. */
  ghost predicate InPreOrder(rows: seq<Entry>) {
    PreOrder(Parents(rows))
  }

  /** No non-empty parent id points outside the list. */
  ghost predicate NoDangling(rows: seq<Entry>) {
    forall i :: 0 <= i < |rows| && rows[i].parentId != "" ==> IndexOf(rows, rows[i].parentId) >= 0
  }

  lemma IndexOfIs(rows: seq<Entry>, i: int)
    requires DistinctIds(rows) && 0 <= i < |rows|
    ensures IndexOf(rows, rows[i].id) == i
  {
    var r := IndexOf(rows, rows[i].id);
    assert rows[r].id == rows[i].id;
  }

  /** The rows with the given indices, in that order. */
  function Pick(rows: seq<Entry>, w: seq<int>): (r: seq<Entry>)
    requires forall k :: 0 <= k < |w| ==> 0 <= w[k] < |rows|
    ensures |r| == |w| && forall k :: 0 <= k < |w| ==> r[k] == rows[w[k]]
  {
    seq(|w|, k requires 0 <= k < |w| => rows[w[k]])
  }

  /** Rearranging the rows, without separating a row from its parent, rearranges the parent indices. */
  lemma PickParents(rows: seq<Entry>, w: seq<int>, q: seq<int>)
    requires WellNamed(rows) && Linked(Parents(rows), w, q)
    ensures WellNamed(Pick(rows, w)) && Parents(Pick(rows, w)) == q
  {
    var r := Pick(rows, w);
    var p := Parents(rows);
    assert DistinctIds(r) by {
      forall a, b | 0 <= a < b < |r|
        ensures r[a].id != r[b].id
      {
        assert w[a] != w[b];
        assert rows[w[a]].id != rows[w[b]].id;
      }
    }
    forall a | 0 <= a < |r|
      ensures Parents(r)[a] == q[a]
    {
      var pid := r[a].parentId;
      assert p[w[a]] == Resolve(rows, pid);
      if q[a] >= 0 {
        assert r[q[a]].id == pid;
        IndexOfIs(r, q[a]);
      }
    }
  }

  /** Overwriting the parent id of row `i` redirects its parent pointer and no other. */
  lemma SetParentParents(rows: seq<Entry>, i: int, pid: string)
    requires WellNamed(rows) && 0 <= i < |rows|
    ensures var r := rows[i := rows[i].(parentId := pid)];
            WellNamed(r) && Parents(r) == Parents(rows)[i := Resolve(rows, pid)]
  {
    var r := rows[i := rows[i].(parentId := pid)];
    assert forall k :: 0 <= k < |rows| ==> r[k].id == rows[k].id;
    forall id: string
      ensures IndexOf(r, id) == IndexOf(rows, id)
    {
      SameIdsSameIndex(rows, r, id);
    }
    forall k | 0 <= k < |rows|
      ensures Parents(r)[k] == Parents(rows)[i := Resolve(rows, pid)][k]
    {
    }
  }

  lemma SameIdsSameIndex(rows: seq<Entry>, r: seq<Entry>, id: string)
    requires |r| == |rows| && forall k :: 0 <= k < |rows| ==> r[k].id == rows[k].id
    ensures IndexOf(r, id) == IndexOf(rows, id)
  {
    var a, b := IndexOf(r, id), IndexOf(rows, id);
    if a >= 0 { assert rows[a].id == id; }
    if b >= 0 { assert r[b].id == id; }
  }

  // ------------------------------------------------------------------------------------------------
  // Re-sorting into pre-order
  // ------------------------------------------------------------------------------------------------

  /** The list in pre-order, siblings in their current order; rows on or below a parent cycle are gone. */
  ghost function Reordered(rows: seq<Entry>): (r: seq<Entry>) {
    Pick(rows, WalkOf(Parents(rows)).0)
  }

  /** Row `i` hangs below a root of the list. */
  ghost predicate Reachable(rows: seq<Entry>, i: int)
    requires 0 <= i < |rows|
  {
    Rooted(Parents(rows), i)
  }

  /** Id of the effective parent, "" for a root. */
  function ParentKey(rows: seq<Entry>, i: int): string
    requires 0 <= i < |rows|
  {
    var r := Resolve(rows, rows[i].parentId);
    if r < 0 then "" else rows[r].id
  }

  /** `r` is a pre-order arrangement of the reachable rows of `rows`: it has exactly those rows, each once,
      below the same parents, every subtree contiguous and siblings in the order they have in `rows`. */
  ghost predicate IsReordering(rows: seq<Entry>, r: seq<Entry>) {
    && WellNamed(r)
    && InPreOrder(r)
    && (forall a :: 0 <= a < |r| ==> r[a] in rows)
    && (forall i :: 0 <= i < |rows| ==> (rows[i] in r <==> Reachable(rows, i)))
    && (forall a, b :: 0 <= a < b < |r| && ParentKey(r, a) == ParentKey(r, b)
                      ==> IndexOf(rows, r[a].id) < IndexOf(rows, r[b].id))
  }

  lemma ReorderedRows(rows: seq<Entry>, i: int)
    requires WellNamed(rows) && 0 <= i < |rows|
    ensures rows[i] in Reordered(rows) <==> Reachable(rows, i)
  {
    var w := WalkOf(Parents(rows)).0;
    var r := Reordered(rows);
    WalkEmitsRooted(Parents(rows), i);
    if i in w {
      var a :| 0 <= a < |w| && w[a] == i;
      assert r[a] == rows[i];
    }
    if rows[i] in r {
      var a :| 0 <= a < |r| && r[a] == rows[i];
      assert rows[w[a]].id == rows[i].id;
      assert i in w;
    }
  }

  /** Where the rows of an arrangement stand in the list they come from. */
  ghost predicate OrderOf(rows: seq<Entry>, r: seq<Entry>, w: seq<int>) {
    |w| == |r| && forall k :: 0 <= k < |r| ==> 0 <= w[k] < |rows| && rows[w[k]] == r[k]
  }

  /** Rows below one parent, by id, are rows below one parent, by index. */
  lemma SiblingsById(rows: seq<Entry>, r: seq<Entry>, w: seq<int>, a: int, b: int)
    requires WellNamed(rows) && WellNamed(r) && OrderOf(rows, r, w) && SiblingsInOrder(w, Parents(r))
    requires 0 <= a < b < |r| && ParentKey(r, a) == ParentKey(r, b)
    ensures IndexOf(rows, r[a].id) < IndexOf(rows, r[b].id)
  {
    IndexOfIs(rows, w[a]);
    IndexOfIs(rows, w[b]);
    var q := Parents(r);
    if q[a] >= 0 && q[b] >= 0 {
      IndexOfIs(r, q[a]);
      IndexOfIs(r, q[b]);
    }
  }

  lemma ReorderedSiblings(rows: seq<Entry>, a: int, b: int)
    requires WellNamed(rows)
    ensures var r := Reordered(rows);
            0 <= a < b < |r| && ParentKey(r, a) == ParentKey(r, b) ==> IndexOf(rows, r[a].id) < IndexOf(rows, r[b].id)
  {
    var (w, q) := WalkOf(Parents(rows));
    var r := Reordered(rows);
    PickParents(rows, w, q);
    assert OrderOf(rows, r, w) && SiblingsInOrder(w, Parents(r));
    hide WellNamed, Parents, IsWalk, OrderOf, SiblingsInOrder, IndexOf;
    if 0 <= a < b < |r| && ParentKey(r, a) == ParentKey(r, b) {
      SiblingsById(rows, r, w, a, b);
    }
  }

  lemma ReorderedShape(rows: seq<Entry>)
    requires WellNamed(rows)
    ensures WellNamed(Reordered(rows)) && InPreOrder(Reordered(rows))
    ensures Parents(Reordered(rows)) == WalkOf(Parents(rows)).1
    ensures forall a :: 0 <= a < |Reordered(rows)| ==> Reordered(rows)[a] in rows
  {
    var (w, q) := WalkOf(Parents(rows));
    PickParents(rows, w, q);
  }

  /** The re-sort yields such an arrangement, for every list with distinct ids whatever its parent ids. */
  lemma ReorderedIsReordering(rows: seq<Entry>)
    requires WellNamed(rows)
    ensures IsReordering(rows, Reordered(rows))
  {
    var r := Reordered(rows);
    ReorderedShape(rows);
    forall i | 0 <= i < |rows|
      ensures rows[i] in r <==> Reachable(rows, i)
    {
      ReorderedRows(rows, i);
    }
    forall a, b | 0 <= a < b < |r| && ParentKey(r, a) == ParentKey(r, b)
      ensures IndexOf(rows, r[a].id) < IndexOf(rows, r[b].id)
    {
      ReorderedSiblings(rows, a, b);
    }
  }

  /** A row of an arrangement keeps its parent. */
  lemma ReorderingKeepsParent(rows: seq<Entry>, r: seq<Entry>, w: seq<int>, a: int)
    requires WellNamed(rows) && IsReordering(rows, r) && 0 <= a < |r|
    requires |w| == |r| && forall k :: 0 <= k < |r| ==> 0 <= w[k] < |rows| && rows[w[k]] == r[k]
    ensures Parents(rows)[w[a]] == if Parents(r)[a] < 0 then -1 else w[Parents(r)[a]]
  {
    var pid := r[a].parentId;
    var x, y := Resolve(rows, pid), Resolve(r, pid);
    if x >= 0 {
      RootedStep(Parents(rows), w[a]);
      assert rows[w[a]] in r;
      assert Reachable(rows, x);
      var b :| 0 <= b < |r| && r[b] == rows[x];
      IndexOfIs(r, b);
      IndexOfIs(rows, w[b]);
    }
  }

  lemma ReorderingCloses(rows: seq<Entry>, r: seq<Entry>, w: seq<int>, x: int)
    requires WellNamed(rows) && IsReordering(rows, r) && 0 <= x < |rows|
    requires |w| == |r| && forall k :: 0 <= k < |r| ==> 0 <= w[k] < |rows| && rows[w[k]] == r[k]
    requires Parents(rows)[x] == -1 || Parents(rows)[x] in w
    ensures x in w
  {
    var p := Parents(rows);
    RootedStep(p, x);
    if p[x] >= 0 {
      var a :| 0 <= a < |w| && w[a] == p[x];
      assert rows[p[x]] in r;
      assert Reachable(rows, p[x]);
    }
    assert rows[x] in r;
    var b :| 0 <= b < |r| && r[b] == rows[x];
    assert rows[w[b]].id == rows[x].id;
    assert w[b] == x;
  }

  lemma OrderExists(rows: seq<Entry>, r: seq<Entry>) returns (w: seq<int>)
    requires WellNamed(rows) && forall a :: 0 <= a < |r| ==> r[a] in rows
    ensures OrderOf(rows, r, w) && forall a :: 0 <= a < |r| ==> w[a] == IndexOf(rows, r[a].id)
  {
    w := seq(|r|, a requires 0 <= a < |r| => IndexOf(rows, r[a].id));
    forall a | 0 <= a < |r|
      ensures 0 <= w[a] < |rows| && rows[w[a]] == r[a]
    {
      var i :| 0 <= i < |rows| && rows[i] == r[a];
      IndexOfIs(rows, i);
    }
  }

  lemma OrderIsPlaced(rows: seq<Entry>, r: seq<Entry>, w: seq<int>)
    requires WellNamed(rows) && IsReordering(rows, r) && OrderOf(rows, r, w)
    ensures Placed(Parents(rows), w, Parents(r))
  {
    var p, q := Parents(rows), Parents(r);
    forall a | 0 <= a < |r|
      ensures p[w[a]] == if q[a] < 0 then -1 else w[q[a]]
    {
      ReorderingKeepsParent(rows, r, w, a);
    }
    assert NoRepeats(w) by {
      forall a, b | 0 <= a < b < |w|
        ensures w[a] != w[b]
      {
        assert r[a].id != r[b].id;
      }
    }
  }

  lemma OrderIsClosed(rows: seq<Entry>, r: seq<Entry>, w: seq<int>)
    requires WellNamed(rows) && IsReordering(rows, r) && OrderOf(rows, r, w)
    ensures ClosedUpTo(Parents(rows), w, |w|)
  {
    hide IsReordering, WellNamed;
    var p := Parents(rows);
    forall x | 0 <= x < |p| && (p[x] == -1 || p[x] in w)
      ensures x in w
    {
      ReorderingCloses(rows, r, w, x);
    }
  }

  lemma OrderKeepsSiblings(rows: seq<Entry>, r: seq<Entry>, w: seq<int>)
    requires IsReordering(rows, r) && |w| == |r| && forall a :: 0 <= a < |r| ==> w[a] == IndexOf(rows, r[a].id)
    ensures SiblingsInOrder(w, Parents(r))
  {
    var q := Parents(r);
    forall a, b | 0 <= a < b < |w| && q[a] == q[b]
      ensures w[a] < w[b]
    {
      assert ParentKey(r, a) == ParentKey(r, b);
    }
  }

  /** ... and it is the only one. */
  lemma ReorderingIsUnique(rows: seq<Entry>, r: seq<Entry>)
    requires WellNamed(rows) && IsReordering(rows, r)
    ensures r == Reordered(rows)
  {
    var w := OrderExists(rows, r);
    OrderIsPlaced(rows, r, w);
    OrderIsClosed(rows, r, w);
    OrderKeepsSiblings(rows, r, w);
    assert InPreOrder(r);
    hide Parents, WellNamed, IsReordering, Placed, ClosedUpTo, SiblingsInOrder, PreOrder, IndexOf;
    assert IsWalk(Parents(rows), w, Parents(r));
    WalkIsUnique(Parents(rows), w, Parents(r));
    assert r == Pick(rows, w);
  }

  /** The re-sort leaves a list alone exactly when it is in pre-order already. */
  lemma ReorderFixedIffPreOrder(rows: seq<Entry>)
    requires WellNamed(rows)
    ensures Reordered(rows) == rows <==> InPreOrder(rows)
  {
    var p := Parents(rows);
    if InPreOrder(rows) {
      PreOrderIsFixed(p);
      assert Pick(rows, Identity(|rows|)) == rows;
    }
    if Reordered(rows) == rows {
      ReorderedIsReordering(rows);
    }
  }

  lemma {:induction false} DistinctMultiset(rows: seq<Entry>, e: Entry)
    requires DistinctIds(rows)
    ensures multiset(rows)[e] == if e in rows then 1 else 0
  {
    if rows != [] {
      var n := |rows| - 1;
      assert rows == rows[..n] + [rows[n]];
      DistinctMultiset(rows[..n], e);
      if e in rows[..n] {
        var k :| 0 <= k < n && rows[k] == e;
        assert rows[k].id != rows[n].id;
      }
    }
  }

  lemma SameRowsSameMultiset(rows: seq<Entry>, r: seq<Entry>)
    requires DistinctIds(rows) && DistinctIds(r) && forall e :: e in rows <==> e in r
    ensures multiset(rows) == multiset(r)
  {
    forall e: Entry
      ensures multiset(rows)[e] == multiset(r)[e]
    {
      DistinctMultiset(rows, e);
      DistinctMultiset(r, e);
    }
  }

  /** The re-sort loses no row exactly when the parent pointers have no cycle. */
  lemma ReorderIsPermutationIffAcyclic(rows: seq<Entry>)
    requires WellNamed(rows)
    ensures multiset(Reordered(rows)) == multiset(rows) <==> Acyclic(Parents(rows))
  {
    var p := Parents(rows);
    var r := Reordered(rows);
    ReorderedIsReordering(rows);
    WalkIsFullIffAcyclic(p);
    if Acyclic(p) {
      forall e
        ensures e in rows <==> e in r
      {
        if e in rows {
          var i :| 0 <= i < |rows| && rows[i] == e;
          assert Reachable(rows, i);
        }
      }
      SameRowsSameMultiset(rows, r);
    }
    if multiset(r) == multiset(rows) {
      assert |multiset(r)| == |r| && |multiset(rows)| == |rows|;
    }
  }
}
