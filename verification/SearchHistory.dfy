/** The search box's history: a bounded most-recently-used list. */
module SearchHistory {
  import opened Common

  const MIN_ITEM_LEN: nat := 3
  const HISTORY_LENGTH: nat := 10

  /** The list without the first occurrence of `x`. */
  function Without(s: seq<string>, x: string): (r: seq<string>)
    ensures x !in s ==> r == s
    ensures x in s ==> |r| == |s| - 1
  {
    if s == [] then [] else if s[0] == x then s[1..] else [s[0]] + Without(s[1..], x)
  }

  predicate NoDuplicates(s: seq<string>) {
    forall i, j :: 0 <= i < j < |s| ==> s[i] != s[j]
  }

  /** Texts of at most three characters, and everything while history is off, are not recorded. */
  predicate Recorded(enabled: bool, text: string) {
    enabled && |text| > MIN_ITEM_LEN
  }

  /** The history that would be kept without any bound: latest first, every text once. */
  function FullHistory(inserts: seq<(bool, string)>): (r: seq<string>) {
    if inserts == [] then []
    else
      var n := |inserts| - 1;
      var h := FullHistory(inserts[..n]);
      if Recorded(inserts[n].0, inserts[n].1) then [inserts[n].1] + Without(h, inserts[n].1) else h
  }

  function Take(s: seq<string>, n: nat): (r: seq<string>)
    ensures |r| == Min(n, |s|)
  {
    s[..Min(n, |s|)]
  }

  /** The store after one insertion. */
  function Inserted(store: seq<string>, enabled: bool, text: string): seq<string> {
    if !Recorded(enabled, text) then store
    else if text in store then [text] + Without(store, text)
    else [text] + Take(store, HISTORY_LENGTH - 2)
  }

  lemma {:induction false} WithoutAt(s: seq<string>, x: string, i: nat)
    requires i < |s| && s[i] == x && x !in s[..i]
    ensures Without(s, x) == s[..i] + s[i + 1..]
  {
    if i > 0 {
      assert s[..i] == [s[0]] + s[1..][..i - 1];
      WithoutAt(s[1..], x, i - 1);
      assert Without(s, x) == [s[0]] + Without(s[1..], x);
      hide Without;
      assert s[1..][i..] == s[i + 1..];
    }
  }

  class History {
    var store: seq<string>

    constructor ()
      ensures store == []
    {
      store := [];
    }

    method RemoveItem(text: string) returns (found: bool)
      modifies this
      ensures found <==> text in old(store)
      ensures store == Without(old(store), text)
    {
      var i := 0;
      while i < |store|
        invariant 0 <= i <= |store| && store == old(store) && text !in store[..i]
      {
        if store[i] == text {
          WithoutAt(store, text, i);
          store := store[..i] + store[i + 1..];
          return true;
        }
        assert store[..i + 1] == store[..i] + [store[i]];
        i := i + 1;
      }
      assert store[..i] == store;
      return false;
    }

    /** Removes the row at index `max` - 1 until there is none: one row fewer than asked for remains. */
    method Clamp(max: nat)
      requires max > 0
      modifies this
      ensures store == Take(old(store), max - 1)
    {
      while max - 1 < |store|
        invariant |store| <= |old(store)|
        invariant store[..Min(max - 1, |store|)] == Take(old(store), max - 1)
        invariant |store| >= Min(max - 1, |old(store)|)
        decreases |store|
      {
        store := store[..max - 1] + store[max..];
      }
      assert store == store[..|store|];
    }

    method Insert(enabled: bool, text: string)
      modifies this
      ensures store == Inserted(old(store), enabled, text)
    {
      if !enabled {
        return;
      }
      if |text| <= 3 {
        return;
      }
      var found := RemoveItem(text);
      if !found {
        Clamp(HISTORY_LENGTH - 1);
      }
      store := [text] + store;
    }
  }

  lemma WithoutMembers(s: seq<string>, x: string)
    requires NoDuplicates(s)
    ensures NoDuplicates(Without(s, x)) && x !in Without(s, x)
  {
    if x in s {
      var i :| 0 <= i < |s| && s[i] == x;
      WithoutAt(s, x, i);
      SpliceKeepsDistinct(s, i);
    }
  }

  lemma SpliceKeepsDistinct(s: seq<string>, i: int)
    requires NoDuplicates(s) && 0 <= i < |s|
    ensures NoDuplicates(s[..i] + s[i + 1..]) && s[i] !in s[..i] + s[i + 1..]
  {
    var r := s[..i] + s[i + 1..];
    forall a | 0 <= a < |r|
      ensures r[a] == s[if a < i then a else a + 1]
    {
    }
    forall a, b | 0 <= a < b < |r|
      ensures r[a] != r[b]
    {
      assert s[if a < i then a else a + 1] != s[if b < i then b else b + 1];
    }
  }

  lemma {:induction false} WithoutTake(s: seq<string>, x: string, n: nat)
    requires NoDuplicates(s) && n > 0
    ensures x in Take(s, n) ==> Without(Take(s, n), x) == Take(Without(s, x), n - 1)
    ensures x !in Take(s, n) ==> Take(s, n - 1) == Take(Without(s, x), n - 1)
    decreases |s|
  {
    if s != [] {
      TakeStep(s, n);
      if s[0] == x {
        assert Without(s, x) == s[1..];
      } else if n > 1 {
        WithoutTake(s[1..], x, n - 1);
        TakeStep(s, n - 1);
        TakeStep(Without(s, x), n - 1);
        assert Without(s, x)[1..] == Without(s[1..], x);
        hide NoDuplicates, Take;
        InTail(Take(s, n), x);
      }
    }
  }

  lemma TakeStep(s: seq<string>, n: nat)
    requires s != [] && n > 0
    ensures Take(s, n) == [s[0]] + Take(s[1..], n - 1)
    ensures Take(s, n)[0] == s[0] && Take(s, n)[1..] == Take(s[1..], n - 1)
  {
  }

  lemma InTail(t: seq<string>, x: string)
    requires t != [] && t[0] != x
    ensures x in t <==> x in t[1..]
    ensures Without(t, x) == [t[0]] + Without(t[1..], x)
  {
  }

  /** The store after a run of insertions, starting empty. */
  function StoreAfter(inserts: seq<(bool, string)>): seq<string> {
    if inserts == [] then []
    else
      var n := |inserts| - 1;
      Inserted(StoreAfter(inserts[..n]), inserts[n].0, inserts[n].1)
  }

  /** After any run of insertions the store has no duplicates and holds the first nine texts of the unbounded
      history: nine and not ten, because the clamp before an insertion keeps eight. */
  lemma {:induction false} StoreIsRecentHistory(inserts: seq<(bool, string)>)
    ensures StoreAfter(inserts) == Take(FullHistory(inserts), 9)
    ensures NoDuplicates(FullHistory(inserts)) && NoDuplicates(StoreAfter(inserts))
    decreases |inserts|
  {
    if inserts != [] {
      var n := |inserts| - 1;
      var (enabled, text) := inserts[n];
      StoreIsRecentHistory(inserts[..n]);
      var h, s := FullHistory(inserts[..n]), StoreAfter(inserts[..n]);
      if Recorded(enabled, text) {
        WithoutMembers(h, text);
        WithoutTake(h, text, 9);
        assert Take([text] + Without(h, text), 9) == [text] + Take(Without(h, text), 8);
        assert Take(Take(h, 9), 8) == Take(h, 8);
      }
    }
  }

  /** Nothing is recorded while the history is off, and no text of up to three characters; any other comes first. */
  lemma InsertionIsRecorded(store: seq<string>, enabled: bool, text: string)
    ensures !enabled || |text| <= 3 ==> Inserted(store, enabled, text) == store
    ensures enabled && |text| >= 4 ==>
              Inserted(store, enabled, text) != [] && Inserted(store, enabled, text)[0] == text
  {
  }

  /** When `x` was last inserted with the history on, or -1. */
  function LastAt(inserts: seq<(bool, string)>, x: string): (r: int)
    ensures -1 <= r < |inserts|
    ensures r >= 0 ==> inserts[r] == (true, x)
    ensures forall i :: r < i < |inserts| ==> inserts[i] != (true, x)
  {
    if inserts == [] then -1
    else if inserts[|inserts| - 1] == (true, x) then |inserts| - 1
    else LastAt(inserts[..|inserts| - 1], x)
  }

  /** The unbounded history holds exactly the texts of four characters or more that were inserted while it was on
      ... */
  lemma {:induction false} HistoryMembers(inserts: seq<(bool, string)>, x: string)
    ensures x in FullHistory(inserts) <==> |x| >= 4 && (true, x) in inserts
    decreases |inserts|
  {
    if inserts != [] {
      var n := |inserts| - 1;
      HistoryMembers(inserts[..n], x);
      assert inserts == inserts[..n] + [inserts[n]];
      if inserts[n].1 != x {
        WithoutOthers(FullHistory(inserts[..n]), inserts[n].1, x);
      }
    }
  }

  lemma {:induction false} WithoutOthers(s: seq<string>, x: string, y: string)
    requires x != y
    ensures y in Without(s, x) <==> y in s
    decreases |s|
  {
    if s != [] {
      assert s == [s[0]] + s[1..];
      if s[0] != x {
        WithoutOthers(s[1..], x, y);
      }
    }
  }

  /** An insertion leaves the date of every other recorded text alone. */
  lemma DateStays(inserts: seq<(bool, string)>, x: string)
    requires inserts != [] && |x| >= 4
    requires Recorded(inserts[|inserts| - 1].0, inserts[|inserts| - 1].1) ==> x != inserts[|inserts| - 1].1
    ensures LastAt(inserts, x) == LastAt(inserts[..|inserts| - 1], x)
  {
  }

  lemma MemberHasDate(inserts: seq<(bool, string)>, x: string)
    requires x in FullHistory(inserts)
    ensures LastAt(inserts, x) >= 0 && |x| >= 4
  {
    HistoryMembers(inserts, x);
  }

  lemma NothingRecorded(inserts: seq<(bool, string)>)
    requires inserts != [] && !Recorded(inserts[|inserts| - 1].0, inserts[|inserts| - 1].1)
    ensures FullHistory(inserts) == FullHistory(inserts[..|inserts| - 1])
  {
  }

  lemma RecordedFirst(inserts: seq<(bool, string)>, b: int)
    requires inserts != [] && Recorded(inserts[|inserts| - 1].0, inserts[|inserts| - 1].1)
    requires 0 <= b < |FullHistory(inserts)|
    ensures var n, h := |inserts| - 1, FullHistory(inserts);
            var rest := Without(FullHistory(inserts[..n]), inserts[n].1);
            && LastAt(inserts, inserts[n].1) == n
            && (b == 0 ==> h[b] == inserts[n].1)
            && (b > 0 ==> b - 1 < |rest| && h[b] == rest[b - 1] && h[b] != inserts[n].1)
  {
    var n := |inserts| - 1;
    var rest := Without(FullHistory(inserts[..n]), inserts[n].1);
    assert FullHistory(inserts) == [inserts[n].1] + rest;
    StoreIsRecentHistory(inserts[..n]);
    WithoutMembers(FullHistory(inserts[..n]), inserts[n].1);
  }

  /** ... latest first.  With the lemma above: the store is the nine texts inserted last. */
  lemma {:induction false} LatestFirst(inserts: seq<(bool, string)>, a: int, b: int)
    requires 0 <= a < b < |FullHistory(inserts)|
    ensures LastAt(inserts, FullHistory(inserts)[a]) > LastAt(inserts, FullHistory(inserts)[b]) >= 0
    decreases |inserts|
  {
    assert inserts != [];
    hide FullHistory, LastAt, Without, Recorded;
    var n := |inserts| - 1;
    var h := FullHistory(inserts);
    MemberHasDate(inserts, h[a]);
    MemberHasDate(inserts, h[b]);
    if !Recorded(inserts[n].0, inserts[n].1) {
      NothingRecorded(inserts);
      LatestFirst(inserts[..n], a, b);
      DateStays(inserts, h[a]);
      DateStays(inserts, h[b]);
    } else {
      RecordedFirst(inserts, a);
      RecordedFirst(inserts, b);
      DateStays(inserts, h[b]);
      if a > 0 {
        var x, y := WithoutKeepsOrder(FullHistory(inserts[..n]), inserts[n].1, a - 1, b - 1);
        LatestFirst(inserts[..n], x, y);
        DateStays(inserts, h[a]);
      }
    }
  }

  lemma WithoutItem(h: seq<string>, x: string, j: nat)
    requires j < |Without(h, x)|
    ensures h != []
    ensures h[0] == x ==> j + 1 < |h| && Without(h, x)[j] == h[j + 1]
    ensures h[0] != x && j == 0 ==> Without(h, x)[j] == h[0]
    ensures h[0] != x && j > 0 ==> j - 1 < |Without(h[1..], x)| && Without(h, x)[j] == Without(h[1..], x)[j - 1]
  {
  }

  /** Taking one item out does not change the order of the others. */
  lemma {:induction false} WithoutKeepsOrder(h: seq<string>, x: string, i: nat, j: nat) returns (p: nat, q: nat)
    requires i < j < |Without(h, x)|
    ensures p < q < |h| && h[p] == Without(h, x)[i] && h[q] == Without(h, x)[j]
    decreases |h|
  {
    hide Without;
    WithoutItem(h, x, i);
    WithoutItem(h, x, j);
    if h[0] == x {
      p, q := i + 1, j + 1;
    } else if i == 0 {
      var k := WithoutPlace(h[1..], x, j - 1);
      p, q := 0, k + 1;
    } else {
      p, q := WithoutKeepsOrder(h[1..], x, i - 1, j - 1);
      p, q := p + 1, q + 1;
    }
  }

  lemma {:induction false} WithoutPlace(h: seq<string>, x: string, j: nat) returns (q: nat)
    requires j < |Without(h, x)|
    ensures q < |h| && h[q] == Without(h, x)[j]
    decreases |h|
  {
    hide Without;
    WithoutItem(h, x, j);
    if h[0] == x {
      q := j + 1;
    } else if j == 0 {
      q := 0;
    } else {
      q := WithoutPlace(h[1..], x, j - 1);
      q := q + 1;
    }
  }
}
