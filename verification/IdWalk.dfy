/** The stack walk as the program runs it: by the ids of the rows, whether these are distinct, repeated or empty.  It
    ends on some lists and not on others; this module says exactly on which. */
module IdWalk {
  import opened Forest
  import opened Walk
  import opened LaunchEntries

  // ------------------------------------------------------------------------------------------------
  // Running the stack
  // ------------------------------------------------------------------------------------------------

  /** The bucket a row goes into: that of its parent id, or the root bucket "" if no row has that id. */
  function RowKey(rows: seq<Entry>, j: int): string
    requires 0 <= j < |rows|
  {
    if rows[j].parentId != "" && IndexOf(rows, rows[j].parentId) < 0 then "" else rows[j].parentId
  }

  /** What a bucket holds of the first `n` rows. */
  function RowsUnder(rows: seq<Entry>, key: string, n: nat): (ks: seq<int>)
    requires n <= |rows|
    ensures forall a :: 0 <= a < |ks| ==> 0 <= ks[a] < n && RowKey(rows, ks[a]) == key
    ensures forall j :: 0 <= j < n && RowKey(rows, j) == key ==> j in ks
  {
    if n == 0 then []
    else RowsUnder(rows, key, n - 1) + (if RowKey(rows, n - 1) == key then [n - 1] else [])
  }

  ghost predicate AreRows(rows: seq<Entry>, s: seq<int>) {
    forall a :: 0 <= a < |s| ==> 0 <= s[a] < |rows|
  }

  /** The stack after visiting its top row. */
  function Visit(rows: seq<Entry>, s: seq<int>): (r: seq<int>)
    requires AreRows(rows, s)
    ensures AreRows(rows, r)
  {
    if s == [] then [] else RowsUnder(rows, rows[s[0]].id, |rows|) + s[1..]
  }

  /** The stack after `n` visits. */
  function StackFrom(rows: seq<Entry>, s: seq<int>, n: nat): (r: seq<int>)
    requires AreRows(rows, s)
    ensures AreRows(rows, r)
    decreases n
  {
    if n == 0 then s else StackFrom(rows, Visit(rows, s), n - 1)
  }

  function Roots(rows: seq<Entry>): (s: seq<int>)
    ensures AreRows(rows, s)
  {
    RowsUnder(rows, "", |rows|)
  }

  /** The walk runs out of rows. */
  ghost predicate WalkEnds(rows: seq<Entry>) {
    exists n: nat :: StackFrom(rows, Roots(rows), n) == []
  }

  lemma {:induction false} StackAdds(rows: seq<Entry>, s: seq<int>, m: nat, n: nat)
    requires AreRows(rows, s)
    ensures StackFrom(rows, s, m + n) == StackFrom(rows, StackFrom(rows, s, m), n)
    decreases m
  {
    hide Visit;
    if m > 0 {
      StackAdds(rows, Visit(rows, s), m - 1, n);
    }
  }

  // ------------------------------------------------------------------------------------------------
  // When the walk ends
  // ------------------------------------------------------------------------------------------------

  /** A way down the buckets from the roots: each row is in the bucket of the id of the row before it. */
  ghost predicate Chain(rows: seq<Entry>, w: seq<int>) {
    && AreRows(rows, w)
    && (w != [] ==> RowKey(rows, w[0]) == "")
    && forall k, l :: 0 <= k < l < |w| && l == k + 1 ==> RowKey(rows, w[l]) == rows[w[k]].id
  }

  /** No way down meets a row twice. */
  ghost predicate ChainsAreSimple(rows: seq<Entry>) {
    forall w :: Chain(rows, w) ==> NoRepeats(w)
  }

  lemma Longer(rows: seq<Entry>, w: seq<int>, j: int)
    requires Chain(rows, w) && 0 <= j < |rows|
    requires RowKey(rows, j) == if w == [] then "" else rows[w[|w| - 1]].id
    ensures Chain(rows, w + [j])
  {
    hide RowKey;
  }

  /** The rows `ks` are in the bucket below the end of `w`. */
  ghost predicate AreBelow(rows: seq<Entry>, w: seq<int>, ks: seq<int>)
    requires AreRows(rows, w)
  {
    AreRows(rows, ks)
    && forall a :: 0 <= a < |ks| ==> RowKey(rows, ks[a]) == if w == [] then "" else rows[w[|w| - 1]].id
  }

  lemma ShortChain(rows: seq<Entry>, w: seq<int>)
    requires ChainsAreSimple(rows) && Chain(rows, w)
    ensures AreRows(rows, w) && |w| <= |rows|
  {
    NoRepeatsBound(w, |rows|);
  }

  lemma NextChain(rows: seq<Entry>, w: seq<int>, ks: seq<int>)
    requires Chain(rows, w) && AreBelow(rows, w, ks) && ks != []
    ensures 0 <= ks[0] < |rows| && Chain(rows, w + [ks[0]]) && AreBelow(rows, w, ks[1..])
  {
    Longer(rows, w, ks[0]);
  }

  lemma VisitTop(rows: seq<Entry>, ks: seq<int>, rest: seq<int>)
    requires AreRows(rows, ks) && AreRows(rows, rest) && ks != []
    ensures AreRows(rows, ks + rest) && 0 <= ks[0] < |rows|
    ensures AreRows(rows, ks[1..] + rest)
    ensures Visit(rows, ks + rest) == RowsUnder(rows, rows[ks[0]].id, |rows|) + (ks[1..] + rest)
  {
    SplitTop(rows, ks, rest);
    hide RowsUnder, AreRows;
    TopOf(ks, rest);
    var s := ks + rest;
    assert s[0] == ks[0] && s[1..] == ks[1..] + rest;
  }

  lemma TopOf(ks: seq<int>, rest: seq<int>)
    requires ks != []
    ensures ks + rest != [] && (ks + rest)[0] == ks[0] && (ks + rest)[1..] == ks[1..] + rest
  {
  }

  lemma SplitTop(rows: seq<Entry>, ks: seq<int>, rest: seq<int>)
    requires AreRows(rows, ks) && AreRows(rows, rest)
    ensures AreRows(rows, ks + rest) && (ks != [] ==> 0 <= ks[0] < |rows| && AreRows(rows, ks[1..] + rest))
  {
  }

  lemma KidsAreBelow(rows: seq<Entry>, w: seq<int>, i: int)
    requires AreRows(rows, w) && 0 <= i < |rows|
    ensures AreRows(rows, w + [i]) && AreBelow(rows, w + [i], RowsUnder(rows, rows[i].id, |rows|))
  {
    assert (w + [i])[|w|] == i;
  }

  lemma NothingToDrain(rows: seq<Entry>, rest: seq<int>)
    requires AreRows(rows, rest)
    ensures [] + rest == rest && StackFrom(rows, rest, 0) == rest
  {
  }

  lemma BelowAreRows(rows: seq<Entry>, w: seq<int>, ks: seq<int>)
    requires Chain(rows, w)
    ensures AreRows(rows, w) && (AreBelow(rows, w, ks) ==> AreRows(rows, ks))
  {
  }

  /** Rows at the end of a way down, on top of the stack, are worked off without touching what lies below them. */
  lemma {:induction false} Drain(rows: seq<Entry>, w: seq<int>, ks: seq<int>, rest: seq<int>) returns (n: nat)
    requires ChainsAreSimple(rows) && Chain(rows, w) && AreRows(rows, w) && AreBelow(rows, w, ks) && AreRows(rows, rest)
    ensures AreRows(rows, ks + rest) && StackFrom(rows, ks + rest, n) == rest
    decreases |rows| + 1 - |w|, |ks|
  {
    hide RowsUnder, Visit, StackFrom, ChainsAreSimple, Chain, AreBelow, AreRows;
    if ks == [] {
      NothingToDrain(rows, rest);
      n := 0;
    } else {
      BelowAreRows(rows, w, ks);
      NextChain(rows, w, ks);
      ShortChain(rows, w + [ks[0]]);
      KidsAreBelow(rows, w, ks[0]);
      VisitTop(rows, ks, rest);
      var kids, below := RowsUnder(rows, rows[ks[0]].id, |rows|), ks[1..] + rest;
      var n1 := Drain(rows, w + [ks[0]], kids, below);
      var n2 := Drain(rows, w, ks[1..], rest);
      OneVisit(rows, ks + rest, n1 + n2);
      StackAdds(rows, kids + below, n1, n2);
      n := 1 + (n1 + n2);
    }
  }

  lemma OneVisit(rows: seq<Entry>, s: seq<int>, n: nat)
    requires AreRows(rows, s)
    ensures StackFrom(rows, s, 1 + n) == StackFrom(rows, Visit(rows, s), n)
  {
  }

  /** Some row of `w` is on the stack. */
  ghost predicate Holds(w: seq<int>, s: seq<int>) {
    exists k :: 0 <= k < |w| && w[k] in s
  }

  lemma VisitHolds(rows: seq<Entry>, w: seq<int>, a: int, s: seq<int>)
    requires Chain(rows, w) && AreRows(rows, s) && Holds(w, s)
    requires 0 <= a < |w| - 1 && w[a] == w[|w| - 1]
    ensures Holds(w, Visit(rows, s))
  {
    var k :| 0 <= k < |w| && w[k] in s;
    var kids := RowsUnder(rows, rows[s[0]].id, |rows|);
    if w[k] == s[0] {
      var l := if k == |w| - 1 then a else k;
      assert RowKey(rows, w[l + 1]) == rows[w[l]].id;
      assert w[l + 1] in kids;
      assert w[l + 1] in Visit(rows, s);
    } else {
      assert s == [s[0]] + s[1..];
      assert w[k] in s[1..];
      assert w[k] in Visit(rows, s);
    }
  }

  /** A way down that returns to one of its rows keeps the stack busy for ever. */
  lemma {:induction false} StaysBusy(rows: seq<Entry>, w: seq<int>, a: int, s: seq<int>, n: nat)
    requires Chain(rows, w) && AreRows(rows, s) && Holds(w, s)
    requires 0 <= a < |w| - 1 && w[a] == w[|w| - 1]
    ensures StackFrom(rows, s, n) != []
    decreases n
  {
    hide Chain, Visit;
    if n > 0 {
      VisitHolds(rows, w, a, s);
      StaysBusy(rows, w, a, Visit(rows, s), n - 1);
    }
  }

  lemma RepeatNeverEnds(rows: seq<Entry>, w: seq<int>)
    requires Chain(rows, w) && !NoRepeats(w)
    ensures !WalkEnds(rows)
  {
    var a, b :| 0 <= a < b < |w| && w[a] == w[b];
    var v := w[..b + 1];
    assert Chain(rows, v);
    assert v[0] in Roots(rows);
    assert Holds(v, Roots(rows));
    forall n: nat ensures StackFrom(rows, Roots(rows), n) != [] {
      StaysBusy(rows, v, a, Roots(rows), n);
    }
  }

  /** For every list, whatever its ids and parent ids: the walk ends if and only if no way down from the roots meets a
      row twice. */
  lemma WalkEndsIff(rows: seq<Entry>)
    ensures WalkEnds(rows) <==> ChainsAreSimple(rows)
  {
    if ChainsAreSimple(rows) {
      assert Chain(rows, []);
      var roots := Roots(rows);
      hide RowKey, RowsUnder, StackFrom;
      var n := Drain(rows, [], roots, []);
      assert roots + [] == roots;
    } else {
      var w :| Chain(rows, w) && !NoRepeats(w);
      RepeatNeverEnds(rows, w);
    }
  }

  // ------------------------------------------------------------------------------------------------
  // What the walk emits
  // ------------------------------------------------------------------------------------------------

  /** The rows visited in the next `n` visits, in order. */
  function Visits(rows: seq<Entry>, s: seq<int>, n: nat): (r: seq<int>)
    requires AreRows(rows, s)
    ensures AreRows(rows, r)
    decreases n
  {
    if n == 0 || s == [] then [] else [s[0]] + Visits(rows, Visit(rows, s), n - 1)
  }

  lemma {:induction false} EmptyStays(rows: seq<Entry>, n: nat)
    ensures StackFrom(rows, [], n) == []
    decreases n
  {
    if n > 0 {
      EmptyStays(rows, n - 1);
    }
  }

  /** How long one looks does not matter once the stack is empty. */
  lemma {:induction false} VisitsSettle(rows: seq<Entry>, s: seq<int>, m: nat, n: nat)
    requires AreRows(rows, s) && StackFrom(rows, s, m) == [] && StackFrom(rows, s, n) == []
    ensures Visits(rows, s, m) == Visits(rows, s, n)
    decreases m
  {
    hide Visit;
    if s != [] {
      VisitsSettle(rows, Visit(rows, s), m - 1, n - 1);
    }
  }

  /** All rows that the walk emits, in order. */
  ghost function Visited(rows: seq<Entry>): (r: seq<int>)
    requires WalkEnds(rows)
    ensures AreRows(rows, r)
  {
    var n: nat :| StackFrom(rows, Roots(rows), n) == [];
    Visits(rows, Roots(rows), n)
  }

  lemma VisitedIs(rows: seq<Entry>, n: nat)
    requires StackFrom(rows, Roots(rows), n) == []
    ensures WalkEnds(rows) && Visited(rows) == Visits(rows, Roots(rows), n)
  {
    var m: nat :| StackFrom(rows, Roots(rows), m) == [] && Visited(rows) == Visits(rows, Roots(rows), m);
    VisitsSettle(rows, Roots(rows), m, n);
  }

  lemma WalkLength(rows: seq<Entry>) returns (n: nat)
    requires WalkEnds(rows)
    ensures StackFrom(rows, Roots(rows), n) == [] && Visited(rows) == [] + Visits(rows, Roots(rows), n)
  {
    n :| StackFrom(rows, Roots(rows), n) == [];
    VisitedIs(rows, n);
  }

  // ------------------------------------------------------------------------------------------------
  // Lists with distinct ids
  // ------------------------------------------------------------------------------------------------

  /** The bucket key of the children of row `i`; the roots hang below "". */
  function KeyOf(rows: seq<Entry>, i: int): string
    requires -1 <= i < |rows|
  {
    if i < 0 then "" else rows[i].id
  }

  lemma KeysDiffer(rows: seq<Entry>, i: int, j: int)
    requires WellNamed(rows) && -1 <= i < |rows| && -1 <= j < |rows| && i != j
    ensures KeyOf(rows, i) != KeyOf(rows, j)
  {
  }

  lemma KeyOfParent(rows: seq<Entry>, n: int)
    requires WellNamed(rows) && 0 <= n < |rows|
    ensures KeyOf(rows, Parents(rows)[n]) == RowKey(rows, n)
  {
    assert Parents(rows)[n] == Resolve(rows, rows[n].parentId);
  }

  /** With distinct ids, the bucket of a row's id holds its children. */
  lemma {:induction false} UnderAreKids(rows: seq<Entry>, i: int, n: nat)
    requires WellNamed(rows) && -1 <= i < |rows| && n <= |rows|
    ensures RowsUnder(rows, KeyOf(rows, i), n) == KidsBefore(Parents(rows), i, n)
    decreases n
  {
    hide KeyOf, RowKey, WellNamed, Parents;
    if n > 0 {
      UnderAreKids(rows, i, n - 1);
      KeyOfParent(rows, n - 1);
      var j := Parents(rows)[n - 1];
      if j != i {
        KeysDiffer(rows, i, j);
      }
    }
  }

  /** One visit: the popped row joins the output and its children go on top of the stack. */
  lemma VisitStep(p: seq<int>, desired: seq<int>, stack: seq<int>, q: seq<int>)
    requires stack != [] && Frontier(p, desired + stack, q, |desired|)
    ensures |desired| < |p| && |desired| < |q|
    ensures var kids := Kids(p, stack[0]);
            var desired', stack' := desired + [stack[0]], kids + stack[1..];
            var q' := InsertAfter(q, |desired|, Constant(|kids|, |desired|));
            && Frontier(p, desired' + stack', q', |desired'|)
            && Finish(p, desired' + stack', q', |desired'|) == Finish(p, desired + stack, q, |desired|)
  {
    hide Frontier, Finish, Kids;
    var w, k := desired + stack, |desired|;
    var kids := Kids(p, stack[0]);
    assert w[k] == stack[0];
    FrontierBounds(p, w, q, k);
    FinishStep(p, w, q, k);
    assert InsertAfter(w, k, kids) == (desired + [stack[0]]) + (kids + stack[1..]);
  }

  lemma FinishEnds(p: seq<int>, w: seq<int>, q: seq<int>)
    requires Frontier(p, w, q, |w|)
    ensures Finish(p, w, q, |w|) == (w, q)
  {
  }

  lemma StackAreRows(rows: seq<Entry>, desired: seq<int>, stack: seq<int>, q: seq<int>)
    requires Frontier(Parents(rows), desired + stack, q, |desired|)
    ensures AreRows(rows, stack)
  {
    FrontierBounds(Parents(rows), desired + stack, q, |desired|);
    forall a | 0 <= a < |stack| ensures 0 <= stack[a] < |rows| {
      assert (desired + stack)[|desired| + a] == stack[a];
    }
  }

  lemma NamedVisit(rows: seq<Entry>, s: seq<int>)
    requires WellNamed(rows) && AreRows(rows, s) && s != []
    ensures Visit(rows, s) == Kids(Parents(rows), s[0]) + s[1..]
  {
    UnderAreKids(rows, s[0], |rows|);
  }

  /** From any state of the walk on, the stack empties, having emitted the rest of the abstract walk. */
  lemma {:induction false} NamedWalk(rows: seq<Entry>, desired: seq<int>, stack: seq<int>, q: seq<int>) returns (n: nat)
    requires WellNamed(rows) && Frontier(Parents(rows), desired + stack, q, |desired|)
    ensures AreRows(rows, stack) && StackFrom(rows, stack, n) == []
    ensures desired + Visits(rows, stack, n) == Finish(Parents(rows), desired + stack, q, |desired|).0
    decreases |rows| - |desired|
  {
    hide WellNamed, Parents, Frontier, Finish, Visit, AreRows, Kids;
    var p := Parents(rows);
    StackAreRows(rows, desired, stack, q);
    if stack == [] {
      n := 0;
      assert desired + stack == desired;
      FinishEnds(p, desired, q);
      assert desired + Visits(rows, stack, 0) == desired;
    } else {
      VisitStep(p, desired, stack, q);
      NamedVisit(rows, stack);
      var kids := Kids(p, stack[0]);
      var q' := InsertAfter(q, |desired|, Constant(|kids|, |desired|));
      var m := NamedWalk(rows, desired + [stack[0]], kids + stack[1..], q');
      n := m + 1;
      assert (desired + [stack[0]]) + Visits(rows, kids + stack[1..], m)
          == desired + ([stack[0]] + Visits(rows, kids + stack[1..], m));
    }
  }

  lemma RootsAreKids(rows: seq<Entry>)
    requires WellNamed(rows)
    ensures Roots(rows) == Kids(Parents(rows), -1)
  {
    UnderAreKids(rows, -1, |rows|);
  }

  /** With distinct non-empty ids the walk ends for all parent ids, and emits the one pre-order walk of the reachable
      rows. */
  lemma NamedWalkEnds(rows: seq<Entry>)
    requires WellNamed(rows)
    ensures WalkEnds(rows) && Visited(rows) == WalkOf(Parents(rows)).0 && NoRepeats(Visited(rows))
  {
    hide WellNamed, Parents, Frontier, Finish, Kids, StackFrom, Visits, Visited, WalkEnds, NoRepeats;
    var p := Parents(rows);
    var roots := Kids(p, -1);
    FrontierStart(p);
    RootsAreKids(rows);
    assert [] + roots == roots;
    assert WalkOf(p) == Finish(p, roots, Constant(|roots|, -1), 0);
    hide WalkOf, Roots, Constant;
    var n := NamedWalk(rows, [], roots, Constant(|roots|, -1));
    VisitedIs(rows, n);
    assert [] + Visits(rows, roots, n) == Visits(rows, roots, n);
  }
}
