/** Icon registries that were written or changed by hand: blanks, commas and comments wherever they may stand. */
module HandWrittenRegistry {
  import opened IconRegistry

  /** What may stand between two names: spaces, tabs, line ends, commas, and comments up to the end of their line. */
  ghost predicate IsGap(g: string)
    decreases |g|
  {
    || g == ""
    || (g[0] in {' ', '\t', '\n', '\r', ','} && IsGap(g[1..]))
    || (g[0] == '#' && exists k :: 0 < k < |g| && IsComment(g, k) && IsGap(g[k..]))
  }

  /** The line that begins `g` ends at `k`. */
  ghost predicate IsComment(g: string, k: int)
    requires 0 < k < |g|
  {
    g[k] == '\n' && forall j :: 0 <= j < k ==> g[j] != '\n'
  }

  /** Names in quotes, each behind its gap, and a last gap before the closing bracket. */
  function Body(entries: seq<(string, string)>, last: string): string {
    if entries == [] then last + "]"
    else entries[0].0 + (("\"" + entries[0].1 + "\"") + Body(entries[1..], last))
  }

  function Names(entries: seq<(string, string)>): seq<string> {
    if entries == [] then [] else [entries[0].1] + Names(entries[1..])
  }

  lemma OneBlank(s: string, p: nat)
    requires p < |s| && s[p] in {' ', '\t', '\n', '\r', ','}
    ensures Items(s, p) == Items(s, p + 1)
  {
    assert SkipBlanks(s, p) == SkipBlanks(s, p + 1);
    if p + 1 < |s| && s[p + 1] == ']' {
      assert SkipBlanks(s, p + 1) == p + 1;
    }
  }

  lemma OneComment(s: string, p: nat, k: nat)
    requires 0 < k && p + k < |s| && s[p] == '#' && s[p + k] == '\n' && forall i :: p <= i < p + k ==> s[i] != '\n'
    ensures Items(s, p) == Items(s, p + k)
  {
    assert SkipBlanks(s, p) == p;
    FindTo(s, p, p + k, '\n');
  }

  lemma OccursFrom(s: string, p: nat, g: string, k: nat)
    requires Occurs(s, p, g) && k <= |g|
    ensures Occurs(s, p + k, g[k..])
    ensures forall j :: 0 <= j < |g| ==> s[p + j] == g[j]
  {
    forall i | 0 <= i < |g| - k
      ensures s[p + k + i] == g[k..][i]
    {
      assert s[p + (k + i)] == g[k + i];
    }
  }

  /** The parser passes over a gap. */
  lemma {:induction false} GapIsSkipped(s: string, p: nat, g: string)
    requires IsGap(g) && Occurs(s, p, g)
    ensures Items(s, p) == Items(s, p + |g|)
    decreases |g|
  {
    hide Items, Occurs;
    if g != "" {
      OccursFrom(s, p, g, 1);
      assert s[p + 0] == g[0];
      if g[0] == '#' {
        var k :| 0 < k < |g| && IsComment(g, k) && IsGap(g[k..]);
        OccursFrom(s, p, g, k);
        CommentOccurs(s, p, g, k);
        OneComment(s, p, k);
        GapIsSkipped(s, p + k, g[k..]);
      } else {
        OccursIsInside(s, p, g);
        OneBlank(s, p);
        GapIsSkipped(s, p + 1, g[1..]);
      }
    }
  }

  lemma OccursIsInside(s: string, p: nat, g: string)
    requires Occurs(s, p, g)
    ensures p + |g| <= |s|
  {
  }

  lemma CommentOccurs(s: string, p: nat, g: string, k: int)
    requires Occurs(s, p, g) && 0 < k < |g| && IsComment(g, k)
    ensures p + k < |s| && s[p + k] == '\n' && forall i :: p <= i < p + k ==> s[i] != '\n'
  {
    assert s[p + k] == g[k];
    forall i | p <= i < p + k
      ensures s[i] != '\n'
    {
      assert s[p + (i - p)] == g[i - p];
    }
  }

  /** Whatever stands between them, the names in quotes are what the parser reads. */
  lemma {:induction false} BodyIsRead(s: string, p: nat, entries: seq<(string, string)>, last: string)
    requires Occurs(s, p, Body(entries, last)) && IsGap(last)
    requires forall i :: 0 <= i < |entries| ==> IsGap(entries[i].0) && '"' !in entries[i].1
    ensures Items(s, p) == Ok(Names(entries))
    decreases |entries|
  {
    hide Occurs, Items, IsGap;
    if entries == [] {
      OccursSplit(s, p, last, "]");
      OccursIsInside(s, p, last);
      GapIsSkipped(s, p, last);
      LastBracket(s, p + |last|, "]");
      EmptyBody(s, p + |last|);
    } else {
      var gap, name := entries[0].0, entries[0].1;
      var quoted, more := "\"" + name + "\"", Body(entries[1..], last);
      OccursSplit(s, p, gap, quoted + more);
      GapIsSkipped(s, p, gap);
      OccursSplit(s, p + |gap|, quoted, more);
      QuotedEntry(s, p + |gap|, p + |gap|, name);
      BodyIsRead(s, p + |gap| + |quoted|, entries[1..], last);
    }
  }

  ghost predicate StandsAt(s: string, k: nat) {
    k + 5 <= |s| && s[k..k + 5] == "icons"
  }

  lemma StandsIff(s: string, k: nat)
    ensures StandsAt(s, k) <==> Occurs(s, k, "icons")
  {
    var w := "icons";
    if k + 5 <= |s| {
      if Occurs(s, k, w) {
        assert s[k..k + 5] == w;
      }
    }
  }

  /** A file without the word has no icons, whatever else it holds. */
  lemma NoWordNoIcons(contents: string)
    requires forall k: nat :: k <= |contents| ==> !StandsAt(contents, k)
    ensures Parsed(contents) == Ok([])
  {
    hide StandsAt, Occurs, Items;
    forall k: nat | k <= |contents|
      ensures !Occurs(contents, k, "icons")
    {
      StandsIff(contents, k);
    }
  }

  /** Neither has one without an opening bracket behind the word. */
  lemma NoBracketNoIcons(before: string, after: string)
    requires '[' !in before && '[' !in after
    ensures Parsed(before + ("icons" + after)) == Ok([])
  {
    var s := before + ("icons" + after);
    assert forall k :: 0 <= k < |s| ==> s[k] != '[';
  }

  lemma BodyThenRest(s: string, p: nat, entries: seq<(string, string)>, last: string, after: string)
    requires Occurs(s, p, Body(entries, last) + after) && IsGap(last)
    requires forall i :: 0 <= i < |entries| ==> IsGap(entries[i].0) && '"' !in entries[i].1
    ensures p <= |s| && Items(s, p) == Ok(Names(entries))
  {
    OccursIsInside(s, p, Body(entries, last) + after);
    hide *;
    OccursSplit(s, p, Body(entries, last), after);
    BodyIsRead(s, p, entries, last);
  }

  /** The file as a user may leave it: anything without a bracket up to the array, in which the word occurs, then names
      in quotes with gaps between them, then anything at all. */
  lemma HandWrittenIsRead(before: string, between: string, entries: seq<(string, string)>, last: string, after: string)
    requires '[' !in before && '[' !in between && IsGap(last)
    requires forall i :: 0 <= i < |entries| ==> IsGap(entries[i].0) && '"' !in entries[i].1
    ensures Parsed((before + ("icons" + between)) + ("[" + (Body(entries, last) + after))) == Ok(Names(entries))
  {
    hide *;
    var head, rest := before + ("icons" + between), Body(entries, last) + after;
    WordThenBracket(before, between, rest);
    OccursAfter(head, "[", rest);
    BodyThenRest(head + ("[" + rest), |head| + 1, entries, last, after);
  }

  lemma WordThenBracket(before: string, between: string, rest: string)
    requires '[' !in before && '[' !in between
    ensures var head := before + ("icons" + between);
            Parsed(head + ("[" + rest)) == Items(head + ("[" + rest), |head| + 1)
  {
    var head := before + ("icons" + between);
    var s := head + ("[" + rest);
    WordOccurs(before, between, rest);
    hide Items, Occurs;
    var a := FindWord(s, 0, "icons");
    assert a <= |before|;
    forall k | a <= k < |head|
      ensures s[k] != '['
    {
      assert s[k] == head[k];
      HeadHasNoBracket(before, between, k);
    }
    FindTo(s, a, |head|, '[');
  }

  lemma WordOccurs(before: string, between: string, rest: string)
    ensures Occurs((before + ("icons" + between)) + ("[" + rest), |before|, "icons")
  {
  }

  lemma HeadHasNoBracket(before: string, between: string, k: nat)
    requires '[' !in before && '[' !in between && k < |before + ("icons" + between)|
    ensures (before + ("icons" + between))[k] != '['
  {
    if |before| <= k < |before| + 5 {
      assert (before + ("icons" + between))[k] == "icons"[k - |before|];
    }
  }
}
