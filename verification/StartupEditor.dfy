/** The Startup tab editor, step by step as the program runs it. */
module StartupEditor {
  import opened Forest
  import opened Walk
  import opened DepthScan
  import opened IdWalk
  import opened LaunchEntries
  import opened StartupEdits
  import opened StartupRun

  /** Hash-table lookup of a row index; -1 stands for a null result. */
  function Lookup(m: map<string, int>, id: string): int {
    if id in m then m[id] else -1
  }

  ghost predicate IsIdMap(rows: seq<Entry>, m: map<string, int>) {
    forall id :: Lookup(m, id) == Resolve(rows, id)
  }

  /** Hash-table lookup of a bucket of children; an absent bucket is empty. */
  function Bucket(m: map<string, seq<int>>, key: string): seq<int> {
    if key in m then m[key] else []
  }

  /** Comparing row by row tells whether the re-sort changes the list. */
  lemma PickIsIdentity(rows: seq<Entry>, w: seq<int>)
    requires DistinctIds(rows) && forall k :: 0 <= k < |w| ==> 0 <= w[k] < |rows|
    ensures Pick(rows, w) == rows <==> w == Identity(|rows|)
  {
    if Pick(rows, w) == rows {
      forall k | 0 <= k < |rows|
        ensures w[k] == k
      {
        assert Pick(rows, w)[k] == rows[w[k]];
        assert rows[w[k]].id == rows[k].id;
      }
    }
    if w == Identity(|rows|) {
      assert Pick(rows, w) == rows;
    }
  }

  /** The first `n` rows are in their buckets. */
  ghost predicate Bucketed(rows: seq<Entry>, kids: map<string, seq<int>>, n: nat)
    requires n <= |rows|
  {
    forall key :: Bucket(kids, key) == RowsUnder(rows, key, n)
  }

  lemma NoBuckets(rows: seq<Entry>)
    ensures Bucketed(rows, map[], 0)
  {
  }

  lemma AddToBucket(rows: seq<Entry>, kids: map<string, seq<int>>, n: nat)
    requires n < |rows| && Bucketed(rows, kids, n)
    ensures Bucketed(rows, kids[RowKey(rows, n) := Bucket(kids, RowKey(rows, n)) + [n]], n + 1)
  {
    hide RowKey;
    var kids' := kids[RowKey(rows, n) := Bucket(kids, RowKey(rows, n)) + [n]];
    forall key: string
      ensures Bucket(kids', key) == RowsUnder(rows, key, n + 1)
    {
      assert Bucket(kids, key) == RowsUnder(rows, key, n);
    }
  }

  lemma VisitByBucket(rows: seq<Entry>, kids: map<string, seq<int>>, stack: seq<int>)
    requires Bucketed(rows, kids, |rows|) && AreRows(rows, stack) && stack != []
    ensures Visit(rows, stack) == Bucket(kids, rows[stack[0]].id) + stack[1..]
  {
    assert Bucket(kids, rows[stack[0]].id) == RowsUnder(rows, rows[stack[0]].id, |rows|);
  }

  lemma NothingVisited(rows: seq<Entry>, desired: seq<int>, n: nat)
    ensures AreRows(rows, []) && desired + Visits(rows, [], n) == desired
  {
  }

  lemma RootsByBucket(rows: seq<Entry>, kids: map<string, seq<int>>)
    requires Bucketed(rows, kids, |rows|)
    ensures Roots(rows) == Bucket(kids, "")
  {
  }

  lemma VisitsStep(rows: seq<Entry>, desired: seq<int>, stack: seq<int>, left: nat)
    requires AreRows(rows, stack) && stack != [] && StackFrom(rows, stack, left) == []
    ensures left > 0 && StackFrom(rows, Visit(rows, stack), left - 1) == []
    ensures (desired + [stack[0]]) + Visits(rows, Visit(rows, stack), left - 1) == desired + Visits(rows, stack, left)
  {
    hide Visit;
  }

  /** Where the walk just counts the rows, sorting by it leaves the list alone. */
  lemma UnsortedByWalk(rows: seq<Entry>)
    requires WalkEnds(rows) && NoRepeats(Visited(rows))
    ensures Visited(rows) == Identity(|rows|) ==> Pick(rows, Visited(rows)) == rows
    ensures rows == [] ==> Visited(rows) == Identity(|rows|)
  {
    hide WalkEnds, Visited;
    var w := Visited(rows);
    NoRepeatsBound(w, |rows|);
    if w == Identity(|rows|) {
      assert Pick(rows, w) == rows;
    }
  }

  /** With distinct ids, sorting by the walk is the re-sort, and it changes the list exactly when the walk does not just
      count the rows. */
  lemma SortedByWalk(rows: seq<Entry>)
    ensures WellNamed(rows) ==>
              && WalkEnds(rows) && Pick(rows, Visited(rows)) == Reordered(rows)
              && (Reordered(rows) == rows <==> Visited(rows) == Identity(|rows|))
  {
    if WellNamed(rows) {
      NamedWalkEnds(rows);
      hide WalkEnds, Visited, WalkOf, Parents;
      PickIsIdentity(rows, Visited(rows));
    }
  }

  /** One row fewer: row `i` goes after all rows i + 1..end. */
  lemma TakeOutStep(was: seq<Entry>, i: int, end: int)
    requires 0 <= i < end <= |was|
    ensures var r := was[..i + 1] + was[end..];
            r[..i] + r[i + 1..] == was[..i] + was[end..]
  {
    var r := was[..i + 1] + was[end..];
    assert r[..i] == was[..i];
    assert r[i + 1..] == was[end..];
  }

  /** One row more: row `start + i` comes back at `at + i`. */
  lemma PutBackStep(was: seq<Entry>, at: int, start: int, end: int, i: int)
    requires 0 <= at <= start <= start + i < end <= |was|
    requires i >= 0
    ensures var r := was[..at] + was[start..start + i] + was[at..start] + was[end..];
            r[..at + i] + [was[start + i]] + r[at + i..]
            == was[..at] + was[start..start + i + 1] + was[at..start] + was[end..]
  {
    var r := was[..at] + was[start..start + i] + was[at..start] + was[end..];
    assert r[..at + i] == was[..at] + was[start..start + i];
    assert r[at + i..] == was[at..start] + was[end..];
    assert was[start..start + i + 1] == was[start..start + i] + [was[start + i]];
  }

  class Editor {
    var rows: seq<Entry>
    var stored: seq<Entry>

    ghost function Current(): State
      reads this
    {
      State(rows, stored)
    }

    constructor (setting: seq<Entry>)
      ensures rows == [] && stored == setting
    {
      rows, stored := [], setting;
    }

    method BuildIdMap() returns (m: map<string, int>)
      ensures IsIdMap(rows, m)
    {
      m := map[];
      for n := 0 to |rows|
        invariant forall id :: Lookup(m, id) == if id == "" then -1 else IndexBefore(rows, id, n)
      {
        if rows[n].id != "" {
          m := m[rows[n].id := n];
        }
      }
    }

    /** The depth walk ends for every parent map, cyclic ones included. */
    method DepthOf(i: int, idMap: map<string, int>) returns (d: nat)
      requires 0 <= i < |rows| && IsIdMap(rows, idMap)
      ensures d == RowDepth(Parents(rows), i)
    {
      ghost var p, cur := Parents(rows), i;
      d := 0;
      var pid := rows[i].parentId;
      while pid != "" && d < 128
        invariant d <= 128 && 0 <= cur < |rows| && pid == rows[cur].parentId
        invariant RowDepth(p, i) == d + CappedDepth(p, cur, 128 - d)
      {
        var parent := Lookup(idMap, pid);
        assert p[cur] == parent;
        if parent < 0 {
          break;
        }
        d := d + 1;
        cur := parent;
        pid := rows[parent].parentId;
      }
      assert d == 128 || p[cur] < 0;
    }

    method FindSibling(from: int, direction: int, pid: string) returns (r: int)
      requires 0 <= from < |rows| && (direction == 1 || direction == -1)
      ensures direction < 0 ==> r == PrevSibling(rows, from, pid)
      ensures direction > 0 ==> r == NextSibling(rows, from + 1, pid)
    {
      var i := from;
      while true
        invariant 0 <= i < |rows|
        invariant direction < 0 ==> i <= from && PrevSibling(rows, i, pid) == PrevSibling(rows, from, pid)
        invariant direction > 0 ==> from <= i && NextSibling(rows, i + 1, pid) == NextSibling(rows, from + 1, pid)
        decreases if direction < 0 then i else |rows| - i
      {
        i := i + direction;
        if i < 0 || i >= |rows| {
          return -1;
        }
        if rows[i].parentId == pid {
          return i;
        }
      }
    }

    method SubtreeEnd(start: int, idMap: map<string, int>) returns (r: int)
      requires IsIdMap(rows, idMap)
      ensures r == if 0 <= start < |rows| then SubtreeScan(Parents(rows), start) else start
    {
      hide Parents, RowDepth;
      if start < 0 || start >= |rows| {
        return start;
      }
      var depth := DepthOf(start, idMap);
      r := start + 1;
      while r < |rows|
        invariant start < r <= |rows|
        invariant ScanFrom(Parents(rows), depth, r) == SubtreeScan(Parents(rows), start)
      {
        var d := DepthOf(r, idMap);
        if d <= depth {
          return;
        }
        r := r + 1;
      }
    }

    /** Take the rows start..end out, back to front, and put them back one by one from index `at` on. */
    method Relocate(start: int, end: int, at: int)
      requires 0 <= at <= start <= end <= |rows|
      modifies this`rows
      ensures rows == SwapBlocks(old(rows), at, start, end)
    {
      ghost var was := rows;
      var moving := rows[start..end];
      for i := end downto start
        invariant rows == was[..i] + was[end..]
      {
        TakeOutStep(was, i, end);
        rows := rows[..i] + rows[i + 1..];
      }
      for i := 0 to |moving|
        invariant rows == was[..at] + was[start..start + i] + was[at..start] + was[end..]
      {
        PutBackStep(was, at, start, end, i);
        rows := rows[..at + i] + [moving[i]] + rows[at + i..];
      }
    }

    method MoveRow(i: int, direction: int)
      requires 0 <= i < |rows| && (direction == 1 || direction == -1)
      modifies this
      ensures Current() == Next(old(Current()), Move(i, direction < 0))
    {
      hide SubtreeScan, Parents, PrevSibling, NextSibling, SwapBlocks, Saved, Reordered, WellNamed, InPreOrder, Resolve;
      var idMap := BuildIdMap();
      var myEnd := SubtreeEnd(i, idMap);
      var myParent := rows[i].parentId;
      if direction < 0 {
        var prev := FindSibling(i, -1, myParent);
        if prev < 0 {
          return;
        }
        Relocate(i, myEnd, prev);
      } else {
        var next := FindSibling(myEnd - 1, 1, myParent);
        if next < 0 {
          return;
        }
        var nextEnd := SubtreeEnd(next, idMap);
        Relocate(next, nextEnd, i);
      }
      Save();
    }

    method KnownIds() returns (known: set<string>)
      ensures forall id :: id in known <==> id != "" && IndexOf(rows, id) >= 0
    {
      known := {};
      for n := 0 to |rows|
        invariant forall id :: id in known <==> id != "" && IndexBefore(rows, id, n) >= 0
      {
        if rows[n].id != "" {
          known := known + {rows[n].id};
        }
      }
    }

    /** The bucket of row `n`: orphans go with the roots. */
    method KeyFor(n: int, known: set<string>) returns (key: string)
      requires 0 <= n < |rows| && forall id :: id in known <==> id != "" && IndexOf(rows, id) >= 0
      ensures key == RowKey(rows, n)
    {
      key := rows[n].parentId;
      if key != "" && key !in known {
        key := "";
      }
    }

    /** The buckets of all rows, in list order; roots and orphans go under "". */
    method CollectKids() returns (kids: map<string, seq<int>>)
      ensures Bucketed(rows, kids, |rows|)
    {
      hide Bucketed, Bucket, RowsUnder, IndexOf, RowKey;
      var known := KnownIds();
      kids := map[];
      NoBuckets(rows);
      for n := 0 to |rows|
        invariant Bucketed(rows, kids, n)
      {
        var pid := KeyFor(n, known);
        AddToBucket(rows, kids, n);
        kids := kids[pid := Bucket(kids, pid) + [n]];
      }
    }

    /** Put `xs` on top of the stack, last one first. */
    method PushAll(stack: seq<int>, xs: seq<int>) returns (r: seq<int>)
      ensures r == xs + stack
    {
      r := stack;
      for i := |xs| downto 0
        invariant r == xs[i..] + stack
      {
        r := [xs[i]] + r;
      }
    }

    /** Pops the top row and pushes its bucket. */
    method VisitTop(kids: map<string, seq<int>>, stack: seq<int>) returns (r: seq<int>)
      requires Bucketed(rows, kids, |rows|) && AreRows(rows, stack) && stack != []
      ensures r == Visit(rows, stack)
    {
      VisitByBucket(rows, kids, stack);
      r := PushAll(stack[1..], Bucket(kids, rows[stack[0]].id));
    }

    /** The iterative depth-first walk, on every list on which it ends. */
    method WalkRows(kids: map<string, seq<int>>) returns (desired: seq<int>)
      requires Bucketed(rows, kids, |rows|) && WalkEnds(rows)
      ensures desired == Visited(rows)
    {
      hide RowsUnder, Roots, Bucketed, Bucket, Visit, Visits, StackFrom, WalkEnds, Visited, AreRows;
      ghost var left := WalkLength(rows);
      RootsByBucket(rows, kids);
      desired := [];
      var stack := PushAll([], Bucket(kids, ""));
      assert stack == Roots(rows);
      while stack != []
        invariant AreRows(rows, stack) && StackFrom(rows, stack, left) == []
        invariant Visited(rows) == desired + Visits(rows, stack, left)
        decreases left
      {
        VisitsStep(rows, desired, stack, left);
        left := left - 1;
        desired := desired + [stack[0]];
        stack := VisitTop(kids, stack);
      }
      NothingVisited(rows, desired, left);
    }

    /** Compares the walk with the list, row by row. */
    method DiffersFrom(desired: seq<int>) returns (differs: bool)
      ensures differs <==> desired != Identity(|rows|)
    {
      var k := 0;
      while k < |rows|
        invariant 0 <= k <= |rows| && k <= |desired| && forall a :: 0 <= a < k ==> desired[a] == a
      {
        if k >= |desired| || desired[k] != k {
          return true;
        }
        k := k + 1;
      }
      differs := k != |desired|;
      assert !differs ==> desired == Identity(|rows|);
    }

    /** Takes all rows out and puts them back in the given order. */
    method Rearrange(desired: seq<int>)
      requires AreRows(rows, desired)
      modifies this`rows
      ensures rows == Pick(old(rows), desired)
    {
      var was := rows;
      rows := [];
      for i := 0 to |desired|
        invariant rows == Pick(was, desired)[..i]
      {
        rows := rows + [was[desired[i]]];
      }
    }

    /** Puts the rows in the order of the walk.  The walk must end, and must not emit a row twice; with distinct
        non-empty ids both hold, and the result is the pre-order arrangement of the reachable rows. */
    method ReorderToPreOrder() returns (differs: bool)
      requires WalkEnds(rows) && NoRepeats(Visited(rows))
      modifies this`rows
      ensures rows == Pick(old(rows), Visited(old(rows)))
      ensures differs <==> Visited(old(rows)) != Identity(|old(rows)|)
      ensures WellNamed(old(rows)) ==> rows == Reordered(old(rows)) && (differs <==> rows != old(rows))
    {
      SortedByWalk(rows);
      UnsortedByWalk(rows);
      hide Visited, WalkEnds, WellNamed, Reordered, Bucketed, Pick, AreRows, NoRepeats;
      if |rows| == 0 {
        return false;
      }
      var kids := CollectKids();
      var desired := WalkRows(kids);
      differs := DiffersFrom(desired);
      if differs {
        Rearrange(desired);
      }
    }

    method Save()
      modifies this`stored
      ensures stored == Saved(rows)
    {
      var idMap := BuildIdMap();
      var out := [];
      for n := 0 to |rows|
        invariant out == SavedPrefix(rows, n)
      {
        var row := rows[n];
        if row.id != "" {
          var pid := row.parentId;
          if pid != "" && Lookup(idMap, pid) < 0 {
            pid := "";
          }
          out := out + [row.(parentId := pid)];
        }
      }
      stored := out;
    }

    /** Loads any stored list on which the re-sort ends without emitting a row twice; with distinct ids after backfill
        that is the load step. */
    method LoadEntries(mint: seq<string>)
      requires |mint| == |stored| && WalkEnds(Backfilled(stored, mint)) && NoRepeats(Visited(Backfilled(stored, mint)))
      modifies this
      ensures var b := Backfilled(old(stored), mint);
              && rows == Pick(b, Visited(b))
              && stored == if Visited(b) == Identity(|b|) then old(stored) else Saved(rows)
      ensures Enabled(old(Current()), Load(mint)) ==> Current() == Next(old(Current()), Load(mint))
    {
      hide Parents, Saved, Reordered, WellNamed, SavedPrefix, Visited, WalkEnds;
      ghost var b := Backfilled(stored, mint);
      rows := [];
      for n := 0 to |stored|
        invariant stored == old(stored)
        invariant rows == b[..n]
      {
        var e := stored[n];
        if e.id == "" {
          e := e.(id := mint[n]);
        }
        rows := rows + [e];
      }
      assert rows == b;
      var differs := ReorderToPreOrder();
      if differs {
        Save();
      }
    }

    method AddClicked(id: string)
      requires Fresh(rows, id)
      modifies this
      ensures Current() == Next(old(Current()), Add(id))
    {
      rows := rows + [Entry(id, "", "", "", "", "", "", "")];
      Save();
    }

    method EntryChanged(i: int, e: Entry)
      requires 0 <= i < |rows|
      modifies this
      ensures Current() == Next(old(Current()), Edit(i, e))
    {
      rows := rows[i := Entry(rows[i].id, rows[i].parentId, e.name, e.dir, e.cmd, e.icon, e.color, e.target)];
      Save();
    }

    method RemoveClicked(i: int)
      requires 0 <= i < |rows|
      modifies this
      ensures Current() == Next(old(Current()), Remove(i))
    {
      rows := rows[..i] + rows[i + 1..];
      Save();
    }

    /** Hangs a row below another parent id and re-sorts. */
    method Rehang(i: int, pid: string)
      requires WellNamed(rows) && 0 <= i < |rows|
      modifies this`rows
      ensures rows == Reordered(WithParent(old(rows), i, pid))
    {
      hide Parents, Saved, Reordered, IndexOf, Visited, WalkEnds, NoRepeats, WellNamed;
      SetParentParents(rows, i, pid);
      rows := WithParent(rows, i, pid);
      NamedWalkEnds(rows);
      var _ := ReorderToPreOrder();
    }

    method IndentClicked(i: int)
      requires WellNamed(rows) && 0 <= i < |rows|
      modifies this
      ensures Current() == Next(old(Current()), Indent(i))
    {
      hide Saved, Reordered, WithParent, WellNamed;
      if i <= 0 {
        return;
      }
      Rehang(i, rows[i - 1].id);
      Save();
    }

    method OutdentClicked(i: int)
      requires WellNamed(rows) && 0 <= i < |rows|
      modifies this
      ensures Current() == Next(old(Current()), Outdent(i))
    {
      hide Parents, Saved, Reordered, WithParent, IndexOf, WellNamed;
      var pid := rows[i].parentId;
      if pid == "" {
        return;
      }
      var idMap := BuildIdMap();
      var parent := Lookup(idMap, pid);
      var grandparent := if parent >= 0 then rows[parent].parentId else "";
      assert grandparent == Grandparent(rows, i);
      Rehang(i, grandparent);
      Save();
    }
  }
}
