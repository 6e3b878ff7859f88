/** The path part of a URL: brackets only if balanced. */
module Brackets {
  import opened Common
  import opened Regex

  const LETTERS: set<char> := set c: char | 'a' <= c <= 'z' || 'A' <= c <= 'Z' || '0' <= c <= '9'

  /** PATHCHARS_CLASS, with the ASCII reading of its letters and digits: all a path may hold besides brackets. */
  const PATH_CHARS: set<char> :=
    LETTERS + {'-', '_', '$', '.', '+', '!', '*', ',', ':', ';', '@', '&', '=', '?', '/', '~', '#', '|', '%', '\''}

  // The characters of a path by section 3.3 of RFC 3986.

  predicate IsUnreserved(c: char) {
    || 'A' <= c <= 'Z' || 'a' <= c <= 'z' || '0' <= c <= '9'
    || c == '-' || c == '.' || c == '_' || c == '~'
  }

  predicate IsSubDelim(c: char) {
    || c == '!' || c == '$' || c == '&' || c == '\'' || c == '(' || c == ')' || c == '*' || c == '+' || c == ','
    || c == ';' || c == '='
  }

  /** pchar, with the percent sign that begins an encoded character. */
  predicate IsPchar(c: char) {
    IsUnreserved(c) || c == '%' || IsSubDelim(c) || c == ':' || c == '@'
  }

  /** The class holds the characters of RFC 3986 paths without the brackets, the marks around paths, queries and
      fragments, and the bar: so neither blanks nor control characters nor quotes nor angle brackets. */
  lemma PathCharsArePchars(c: char)
    ensures c in PATH_CHARS
            <==> (IsPchar(c) && c != '(' && c != ')') || c == '/' || c == '?' || c == '#' || c == '|'
    ensures c in PATH_CHARS ==> ' ' < c < '\U{7f}' && c != '"' && c != '<' && c != '>' && c != '\\'
  {
  }

  /** All that matters about the class of path characters. */
  predicate NoBrackets(cs: set<char>) {
    '(' !in cs && ')' !in cs && '[' !in cs && ']' !in cs
  }

  const ROUND: Regex := Cat(Chars({'('}), Cat(Self, Chars({')'})))
  const SQUARE: Regex := Cat(Chars({'['}), Cat(Self, Chars({']'})))

  function Path(cs: set<char>): Regex { Star(Chars(cs)) }

  function Item(cs: set<char>): Regex { Cat(Path(cs), Alt(ROUND, SQUARE)) }

  /** PATH_INNER: (?: chars* (?: \( self \) | \[ self \] ) )* chars* */
  function PathInner(cs: set<char>): Regex { Cat(Star(Item(cs)), Path(cs)) }

  function Closing(c: char): char {
    if c == '(' then ')' else ']'
  }

  /** The bracket checker: read the word with a stack of the brackets still open. */
  predicate Balanced(cs: set<char>, open: seq<char>, s: string)
    decreases |s|
  {
    if s == "" then open == []
    else if s[0] == '(' || s[0] == '[' then Balanced(cs, [s[0]] + open, s[1..])
    else if s[0] == ')' || s[0] == ']' then open != [] && s[0] == Closing(open[0]) && Balanced(cs, open[1..], s[1..])
    else s[0] in cs && Balanced(cs, open, s[1..])
  }

  /** A word after which the checker is back where it was, whatever was open and whatever follows. */
  ghost predicate Neutral(cs: set<char>, s: string) {
    forall open: seq<char>, t: string :: Balanced(cs, open, s + t) == Balanced(cs, open, t)
  }

  lemma {:induction false} CharsAreNeutral(cs: set<char>, s: string)
    requires NoBrackets(cs)
    requires AllIn(s, cs)
    ensures Neutral(cs, s)
    decreases |s|
  {
    if s == "" {
      assert forall t: string :: s + t == t;
    } else {
      CharsAreNeutral(cs, s[1..]);
      forall open: seq<char>, t: string
        ensures Balanced(cs, open, s + t) == Balanced(cs, open, t)
      {
        assert (s + t)[1..] == s[1..] + t;
      }
    }
  }

  lemma CatIsNeutral(cs: set<char>, s: string, t: string)
    requires Neutral(cs, s) && Neutral(cs, t)
    ensures Neutral(cs, s + t)
  {
    forall open: seq<char>, u: string
      ensures Balanced(cs, open, (s + t) + u) == Balanced(cs, open, u)
    {
      assert (s + t) + u == s + (t + u);
    }
  }

  lemma PairIsNeutral(cs: set<char>, c: char, s: string)
    requires (c == '(' || c == '[') && Neutral(cs, s)
    ensures Neutral(cs, [c] + (s + [Closing(c)]))
  {
    var w := [c] + (s + [Closing(c)]);
    forall open: seq<char>, t: string
      ensures Balanced(cs, open, w + t) == Balanced(cs, open, t)
    {
      var u := [Closing(c)] + t;
      assert (w + t)[1..] == s + u;
      assert Balanced(cs, open, w + t) == Balanced(cs, [c] + open, s + u) == Balanced(cs, [c] + open, u);
      assert u[1..] == t && ([c] + open)[1..] == open;
    }
  }

  lemma {:induction false} MatchIsNeutral(cs: set<char>, d: nat, s: string, rest: string)
    requires NoBrackets(cs)
    requires Matches(PathInner(cs), d, PathInner(cs), s, rest)
    ensures Neutral(cs, s)
    decreases d, 1, 0
  {
    var a, b := CatElim(PathInner(cs), d, Star(Item(cs)), Path(cs), s, rest);
    var n := StarElim(PathInner(cs), d, Item(cs), a, b + rest);
    ItemsAreNeutral(cs, d, n, a, b + rest);
    StarChars(PathInner(cs), d, cs, b, rest);
    CharsAreNeutral(cs, b);
    CatIsNeutral(cs, a, b);
  }

  lemma {:induction false} ItemsAreNeutral(cs: set<char>, d: nat, n: nat, s: string, rest: string)
    requires NoBrackets(cs)
    requires Times(PathInner(cs), d, Item(cs), n, s, rest)
    ensures Neutral(cs, s)
    decreases d, 0, n
  {
    if n == 0 {
      CharsAreNeutral(cs, "");
    } else {
      var item, more := TimesElim(PathInner(cs), d, Item(cs), n, s, rest);
      ItemsAreNeutral(cs, d, n - 1, more, rest);
      var a, b := CatElim(PathInner(cs), d, Path(cs), Alt(ROUND, SQUARE), item, more + rest);
      StarChars(PathInner(cs), d, cs, a, b + (more + rest));
      CharsAreNeutral(cs, a);
      if Matches(PathInner(cs), d, ROUND, b, more + rest) {
        GroupIsNeutral(cs, d, '(', b, more + rest);
      } else {
        GroupIsNeutral(cs, d, '[', b, more + rest);
      }
      CatIsNeutral(cs, a, b);
      CatIsNeutral(cs, item, more);
    }
  }

  lemma {:induction false} GroupIsNeutral(cs: set<char>, d: nat, c: char, s: string, rest: string)
    requires NoBrackets(cs)
    requires c == '(' || c == '['
    requires Matches(PathInner(cs), d, Cat(Chars({c}), Cat(Self, Chars({Closing(c)}))), s, rest)
    ensures Neutral(cs, s)
    decreases d, 0, 0
  {
    hide Neutral, Matches, PathInner;
    var a, b := CatElim(PathInner(cs), d, Chars({c}), Cat(Self, Chars({Closing(c)})), s, rest);
    CharsMatch(PathInner(cs), d, {c}, a, b + rest);
    var x, y := CatElim(PathInner(cs), d, Self, Chars({Closing(c)}), b, rest);
    CharsMatch(PathInner(cs), d, {Closing(c)}, y, rest);
    SelfElim(PathInner(cs), d, x, y + rest);
    MatchIsNeutral(cs, d - 1, x, y + rest);
    PairIsNeutral(cs, c, x);
    assert a == [c] && y == [Closing(c)];
  }

  // ------------------------------------------------------------------------------------------------
  // Every balanced word is matched
  // ------------------------------------------------------------------------------------------------

  /** The bracket on top of the stack is closed somewhere, by a word that is balanced on its own. */
  lemma {:induction false} FindClosing(cs: set<char>, open: seq<char>, s: string) returns (k: nat)
    requires open != [] && (open[0] == '(' || open[0] == '[') && Balanced(cs, open, s)
    ensures k < |s| && s[k] == Closing(open[0]) && Balanced(cs, [], s[..k]) && Balanced(cs, open[1..], s[k + 1..])
    decreases |s|
  {
    if s[0] == ')' || s[0] == ']' {
      k := 0;
    } else if s[0] == '(' || s[0] == '[' {
      assert Balanced(cs, [s[0]] + open, s[1..]);
      hide Balanced;
      var inner := FindClosing(cs, [s[0]] + open, s[1..]);
      assert ([s[0]] + open)[1..] == open;
      var outer := FindClosing(cs, open, s[1..][inner + 1..]);
      k := inner + 2 + outer;
      AroundNested(cs, s, inner, outer);
    } else {
      assert s[0] in cs && Balanced(cs, open, s[1..]);
      hide Balanced;
      var m := FindClosing(cs, open, s[1..]);
      k := m + 1;
      AfterPlain(cs, s, m);
    }
  }

  /** Positions inside a word that starts with a plain character. */
  lemma AfterPlain(cs: set<char>, s: string, m: nat)
    requires s != "" && s[0] in cs && s[0] !in {'(', ')', '[', ']'} && m < |s| - 1 && Balanced(cs, [], s[1..][..m])
    ensures Balanced(cs, [], s[..m + 1])
    ensures s[1..][m] == s[m + 1] && s[1..][m + 1..] == s[m + 2..]
  {
    assert s[..m + 1][1..] == s[1..][..m];
  }

  /** Positions inside a word that opens with a nested pair. */
  lemma AroundNested(cs: set<char>, s: string, inner: nat, outer: nat)
    requires s != "" && (s[0] == '(' || s[0] == '[') && inner < |s| - 1 && outer < |s| - inner - 2
    requires s[inner + 1] == Closing(s[0])
    requires Balanced(cs, [], s[1..][..inner]) && Balanced(cs, [], s[1..][inner + 1..][..outer])
    ensures Balanced(cs, [], s[..inner + 2 + outer])
    ensures s[1..][inner + 1..][outer] == s[inner + 2 + outer]
    ensures s[1..][inner + 1..][outer + 1..] == s[inner + 2 + outer + 1..]
  {
    hide Balanced;
    var after := s[1..][inner + 1..];
    BalancedPair(cs, s[0], s[1..][..inner], after[..outer]);
    assert s[..inner + 2 + outer] == [s[0]] + (s[1..][..inner] + ([Closing(s[0])] + after[..outer]));
  }

  /** Closing a balanced word and going on with a balanced word is balanced. */
  lemma BalancedPair(cs: set<char>, c: char, s: string, t: string)
    requires (c == '(' || c == '[') && Balanced(cs, [], s) && Balanced(cs, [], t)
    ensures Balanced(cs, [], [c] + (s + ([Closing(c)] + t)))
  {
    var u := [Closing(c)] + t;
    BalancedThenOpen(cs, [], s, [c], u);
    assert ([c] + (s + u))[1..] == s + u;
    assert [] + [c] == [c] == [c] + [];
    assert u[1..] == t;
  }

  /** A word that leaves exactly nothing open leaves any outer brackets alone. */
  lemma {:induction false} BalancedThenOpen(cs: set<char>, open: seq<char>, s: string, outer: seq<char>, t: string)
    requires Balanced(cs, open, s)
    ensures Balanced(cs, open + outer, s + t) == Balanced(cs, outer, t)
    decreases |s|
  {
    if s == "" {
      assert s + t == t && open + outer == outer;
    } else {
      assert (s + t)[1..] == s[1..] + t;
      if s[0] == '(' || s[0] == '[' {
        BalancedThenOpen(cs, [s[0]] + open, s[1..], outer, t);
        assert [s[0]] + open + outer == [s[0]] + (open + outer);
      } else if s[0] == ')' || s[0] == ']' {
        BalancedThenOpen(cs, open[1..], s[1..], outer, t);
        assert (open + outer)[1..] == open[1..] + outer;
      } else {
        BalancedThenOpen(cs, open, s[1..], outer, t);
      }
    }
  }

  /** A balanced word starts with a bracket that is then open, or with a plain character. */
  lemma BalancedStart(cs: set<char>, s: string)
    requires s != "" && Balanced(cs, [], s)
    ensures if s[0] == '(' || s[0] == '[' then Balanced(cs, [s[0]], s[1..])
            else s[0] in cs && Balanced(cs, [], s[1..])
  {
    assert [s[0]] + [] == [s[0]];
  }

  /** A balanced word that starts with a bracket is a closed pair around a balanced word, then a balanced word. */
  lemma FirstPair(cs: set<char>, s: string) returns (x: string, after: string)
    requires s != "" && (s[0] == '(' || s[0] == '[') && Balanced(cs, [], s)
    ensures s == ([s[0]] + (x + [Closing(s[0])])) + after
    ensures Balanced(cs, [], x) && Balanced(cs, [], after)
  {
    BalancedStart(cs, s);
    hide Balanced;
    var t := s[1..];
    var k := FindClosing(cs, [s[0]], t);
    assert [s[0]][1..] == [];
    x, after := t[..k], t[k + 1..];
    assert t == x + [Closing(s[0])] + after;
    assert s == [s[0]] + t;
  }

  /** A balanced word is a run of items followed by plain characters. */
  lemma {:induction false} Decompose(cs: set<char>, d: nat, s: string, rest: string)
    returns (n: nat, a: string, b: string)
    requires Balanced(cs, [], s) && |s| <= d
    ensures s == a + b && Times(PathInner(cs), d, Item(cs), n, a, b + rest) && AllIn(b, cs)
    decreases |s|, 0
  {
    if s != "" {
      BalancedStart(cs, s);
    }
    hide Times, Matches, Balanced, PathInner, Item;
    if s == "" {
      n, a, b := 0, "", "";
      TimesZero(PathInner(cs), d, Item(cs), "", "" + rest);
    } else if s[0] == '(' || s[0] == '[' {
      var x, after := FirstPair(cs, s);
      var m, a', b' := Decompose(cs, d, after, rest);
      BalancedIsMatched(cs, d - 1, x, [Closing(s[0])] + (a' + (b' + rest)));
      AddItem(cs, d, m, s[0], x, a', b' + rest);
      var pair := [s[0]] + (x + [Closing(s[0])]);
      n, a, b := m + 1, pair + a', b';
      CatAssoc(pair, a', b');
    } else {
      n, a, b := PrependPlain(cs, d, s, rest);
    }
  }

  lemma {:induction false} PrependPlain(cs: set<char>, d: nat, s: string, rest: string)
    returns (n: nat, a: string, b: string)
    requires s != "" && s[0] in cs && Balanced(cs, [], s[1..]) && |s| <= d
    ensures s == a + b && Times(PathInner(cs), d, Item(cs), n, a, b + rest) && AllIn(b, cs)
    decreases |s| - 1, 2
  {
    hide Times, Matches, Balanced, PathInner, Item;
    var m, a', b' := Decompose(cs, d, s[1..], rest);
    assert s == [s[0]] + s[1..];
    if m == 0 {
      n, a, b := 0, "", s;
      TimesZero(PathInner(cs), d, Item(cs), a', b' + rest);
      TimesZero(PathInner(cs), d, Item(cs), "", s + rest);
    } else {
      n, a, b := m, [s[0]] + a', b';
      CatAssoc([s[0]], a', b');
      PrependChar(cs, d, m, s[0], a', b' + rest);
    }
  }

  lemma ItemIntro(cs: set<char>, d: nat, c: char, x: string, rest: string)
    requires d > 0 && (c == '(' || c == '[')
    requires Matches(PathInner(cs), d - 1, PathInner(cs), x, [Closing(c)] + rest)
    ensures Matches(PathInner(cs), d, Item(cs), [c] + (x + [Closing(c)]), rest)
  {
    var g := PathInner(cs);
    CatIntro(g, d, Self, Chars({Closing(c)}), x, [Closing(c)], rest);
    CatIntro(g, d, Chars({c}), Cat(Self, Chars({Closing(c)})), [c], x + [Closing(c)], rest);
    var w := [c] + (x + [Closing(c)]);
    assert Matches(g, d, Alt(ROUND, SQUARE), w, rest);
    StarChars(g, d, cs, "", w + rest);
    CatIntro(g, d, Path(cs), Alt(ROUND, SQUARE), "", w, rest);
    assert "" + w == w;
  }

  lemma AddItem(cs: set<char>, d: nat, n: nat, c: char, x: string, a: string, rest: string)
    requires d > 0 && (c == '(' || c == '[') && Times(PathInner(cs), d, Item(cs), n, a, rest)
    requires Matches(PathInner(cs), d - 1, PathInner(cs), x, [Closing(c)] + (a + rest))
    ensures Times(PathInner(cs), d, Item(cs), n + 1, [c] + (x + [Closing(c)]) + a, rest)
  {
    ItemIntro(cs, d, c, x, a + rest);
    TimesIntro(PathInner(cs), d, Item(cs), n, [c] + (x + [Closing(c)]), a, rest);
  }

  lemma PrependChar(cs: set<char>, d: nat, n: nat, c: char, a: string, rest: string)
    requires n > 0 && c in cs && Times(PathInner(cs), d, Item(cs), n, a, rest)
    ensures Times(PathInner(cs), d, Item(cs), n, [c] + a, rest)
  {
    var g := PathInner(cs);
    var item, more := TimesElim(g, d, Item(cs), n, a, rest);
    var p, grp := CatElim(g, d, Path(cs), Alt(ROUND, SQUARE), item, more + rest);
    StarChars(g, d, cs, p, grp + (more + rest));
    StarChars(g, d, cs, [c] + p, grp + (more + rest));
    CatIntro(g, d, Path(cs), Alt(ROUND, SQUARE), [c] + p, grp, more + rest);
    TimesIntro(g, d, Item(cs), n - 1, ([c] + p) + grp, more, rest);
    assert ([c] + p) + grp + more == [c] + a;
  }

  lemma {:induction false} BalancedIsMatched(cs: set<char>, d: nat, s: string, rest: string)
    requires Balanced(cs, [], s) && |s| <= d
    ensures Matches(PathInner(cs), d, PathInner(cs), s, rest)
    decreases |s|, 1
  {
    var n, a, b := Decompose(cs, d, s, rest);
    StarChars(PathInner(cs), d, cs, b, rest);
    assert Matches(PathInner(cs), d, Star(Item(cs)), a, b + rest);
    CatIntro(PathInner(cs), d, Star(Item(cs)), Path(cs), a, b, rest);
  }

  lemma PathCharsHaveNoBrackets()
    ensures NoBrackets(PATH_CHARS)
  {
  }

  /** PATH_INNER accepts exactly the words that the stack-based bracket checker accepts, whatever characters besides
      brackets the class stands for: the ASCII ones, or more under Unicode character properties. */
  lemma PathInnerIsBalanced(cs: set<char>, s: string)
    requires NoBrackets(cs)
    ensures Accepts(PathInner(cs), s) <==> Balanced(cs, [], s)
  {
    if d: nat :| Matches(PathInner(cs), d, PathInner(cs), s, "") {
      MatchIsNeutral(cs, d, s, "");
      assert Balanced(cs, [], s + "") == Balanced(cs, [], "");
      assert s + "" == s;
    }
    if Balanced(cs, [], s) {
      BalancedIsMatched(cs, |s|, s, "");
    }
  }

  /** In particular with the ASCII reading of the class. */
  lemma AsciiPathInnerIsBalanced(s: string)
    ensures Accepts(PathInner(PATH_CHARS), s) <==> Balanced(PATH_CHARS, [], s)
  {
    PathCharsHaveNoBrackets();
    PathInnerIsBalanced(PATH_CHARS, s);
  }

  lemma WrappedIsBalanced(cs: set<char>, s: string, l: char, r: char)
    requires Neutral(cs, s) && (l == '(' || l == '[') && (r == ')' || r == ']')
    ensures Balanced(cs, [], [l] + (s + [r])) <==> (l == '(' && r == ')') || (l == '[' && r == ']')
  {
    var w := [l] + (s + [r]);
    assert w[1..] == s + [r] && [l] + [] == [l];
    assert Balanced(cs, [l], s + [r]) == Balanced(cs, [l], [r]);
    assert [r][1..] == "" && [l][1..] == [];
  }

  /** A path may be put between two brackets if and only if they are of the same kind. */
  lemma WrappedIsAccepted(cs: set<char>, s: string, l: char, r: char)
    requires NoBrackets(cs) && Accepts(PathInner(cs), s) && (l == '(' || l == '[') && (r == ')' || r == ']')
    ensures Accepts(PathInner(cs), [l] + (s + [r])) <==> (l == '(' && r == ')') || (l == '[' && r == ']')
  {
    hide Matches, Balanced, Neutral;
    var d: nat :| Matches(PathInner(cs), d, PathInner(cs), s, "");
    MatchIsNeutral(cs, d, s, "");
    WrappedIsBalanced(cs, s, l, r);
    PathInnerIsBalanced(cs, [l] + (s + [r]));
  }
}
