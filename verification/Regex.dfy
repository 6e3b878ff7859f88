/** Regular expressions with bounded repetition, negative lookahead and recursion, as sets of words.

    A word `s` is matched in a right context `rest`: that is the text a lookahead sees beyond `s`.
  */
module Regex {

  datatype Regex =
    | Empty
    | Chars(cs: set<char>)
    | Cat(a: Regex, b: Regex)
    | Alt(a: Regex, b: Regex)
    | Rep(r: Regex, lo: nat, hi: nat)   // r{lo,hi}
    | Star(r: Regex)                    // r*
    | NotAhead(r: Regex)                // (?! r )
    | Self                              // call of the whole named pattern

  /** `r` matches `s` when `rest` follows, with calls of the pattern `g` nested at most `d` deep. */
  ghost predicate Matches(g: Regex, d: nat, r: Regex, s: string, rest: string)
    decreases d, r, 0
  {
    match r
    case Empty => s == ""
    case Chars(cs) => |s| == 1 && s[0] in cs
    case Cat(a, b) =>
      exists k :: 0 <= k <= |s| && Matches(g, d, a, s[..k], s[k..] + rest) && Matches(g, d, b, s[k..], rest)
    case Alt(a, b) => Matches(g, d, a, s, rest) || Matches(g, d, b, s, rest)
    case Rep(x, lo, hi) => exists n: nat :: lo <= n <= hi && Times(g, d, x, n, s, rest)
    case Star(x) => exists n: nat :: Times(g, d, x, n, s, rest)
    case NotAhead(x) => s == "" && forall k :: 0 <= k <= |rest| ==> !Matches(g, d, x, rest[..k], rest[k..])
    case Self => d > 0 && Matches(g, d - 1, g, s, rest)
  }

  /** `s` is a sequence of exactly `n` words matched by `r`. */
  ghost predicate Times(g: Regex, d: nat, r: Regex, n: nat, s: string, rest: string)
    decreases d, r, n + 1
  {
    if n == 0 then s == ""
    else
      exists k :: 0 <= k <= |s|
                  && Matches(g, d, r, s[..k], s[k..] + rest)
                  && Times(g, d, r, n - 1, s[k..], rest)
  }

  /** Whole-string membership of a pattern that may call itself. */
  ghost predicate Accepts(g: Regex, s: string) {
    exists d: nat :: Matches(g, d, g, s, "")
  }

  lemma CharsMatch(g: Regex, d: nat, cs: set<char>, s: string, rest: string)
    ensures Matches(g, d, Chars(cs), s, rest) <==> |s| == 1 && s[0] in cs
  {
  }

  lemma SelfElim(g: Regex, d: nat, s: string, rest: string)
    requires Matches(g, d, Self, s, rest)
    ensures d > 0 && Matches(g, d - 1, g, s, rest)
  {
  }

  lemma CatIntro(g: Regex, d: nat, a: Regex, b: Regex, s: string, t: string, rest: string)
    requires Matches(g, d, a, s, t + rest) && Matches(g, d, b, t, rest)
    ensures Matches(g, d, Cat(a, b), s + t, rest)
  {
    var u := s + t;
    assert u[..|s|] == s && u[|s|..] == t;
  }

  lemma CatElim(g: Regex, d: nat, a: Regex, b: Regex, u: string, rest: string) returns (s: string, t: string)
    requires Matches(g, d, Cat(a, b), u, rest)
    ensures u == s + t && Matches(g, d, a, s, t + rest) && Matches(g, d, b, t, rest)
  {
    var k :| 0 <= k <= |u| && Matches(g, d, a, u[..k], u[k..] + rest) && Matches(g, d, b, u[k..], rest);
    s, t := u[..k], u[k..];
  }

  lemma TimesIntro(g: Regex, d: nat, r: Regex, n: nat, s: string, t: string, rest: string)
    requires Matches(g, d, r, s, t + rest) && Times(g, d, r, n, t, rest)
    ensures Times(g, d, r, n + 1, s + t, rest)
  {
    var u := s + t;
    assert u[..|s|] == s && u[|s|..] == t;
  }

  lemma TimesElim(g: Regex, d: nat, r: Regex, n: nat, u: string, rest: string) returns (s: string, t: string)
    requires n > 0 && Times(g, d, r, n, u, rest)
    ensures u == s + t && Matches(g, d, r, s, t + rest) && Times(g, d, r, n - 1, t, rest)
  {
    var k :| 0 <= k <= |u| && Matches(g, d, r, u[..k], u[k..] + rest) && Times(g, d, r, n - 1, u[k..], rest);
    s, t := u[..k], u[k..];
  }

  lemma TimesZero(g: Regex, d: nat, r: Regex, s: string, rest: string)
    ensures Times(g, d, r, 0, s, rest) <==> s == ""
  {
  }

  lemma AltMatches(g: Regex, d: nat, a: Regex, b: Regex, s: string, rest: string)
    ensures Matches(g, d, Alt(a, b), s, rest) <==> Matches(g, d, a, s, rest) || Matches(g, d, b, s, rest)
  {
  }

  lemma StarElim(g: Regex, d: nat, r: Regex, s: string, rest: string) returns (n: nat)
    requires Matches(g, d, Star(r), s, rest)
    ensures Times(g, d, r, n, s, rest)
  {
    n :| Times(g, d, r, n, s, rest);
  }

  lemma RepElim(g: Regex, d: nat, r: Regex, lo: nat, hi: nat, s: string, rest: string) returns (n: nat)
    requires Matches(g, d, Rep(r, lo, hi), s, rest)
    ensures lo <= n <= hi && Times(g, d, r, n, s, rest)
  {
    n :| lo <= n <= hi && Times(g, d, r, n, s, rest);
  }

  ghost predicate AllIn(s: string, cs: set<char>) {
    forall i :: 0 <= i < |s| ==> s[i] in cs
  }

  /** `n` characters of a class. */
  lemma {:induction false} TimesChars(g: Regex, d: nat, cs: set<char>, n: nat, s: string, rest: string)
    ensures Times(g, d, Chars(cs), n, s, rest) <==> |s| == n && AllIn(s, cs)
    decreases n
  {
    hide Matches, Times;
    if n == 0 {
      TimesZero(g, d, Chars(cs), s, rest);
    } else {
      if Times(g, d, Chars(cs), n, s, rest) {
        var a, b := TimesElim(g, d, Chars(cs), n, s, rest);
        CharsMatch(g, d, cs, a, b + rest);
        TimesChars(g, d, cs, n - 1, b, rest);
      }
      if |s| == n && AllIn(s, cs) {
        TimesChars(g, d, cs, n - 1, s[1..], rest);
        CharsMatch(g, d, cs, s[..1], s[1..] + rest);
        assert s == s[..1] + s[1..];
        TimesIntro(g, d, Chars(cs), n - 1, s[..1], s[1..], rest);
      }
    }
  }

  lemma StarChars(g: Regex, d: nat, cs: set<char>, s: string, rest: string)
    ensures Matches(g, d, Star(Chars(cs)), s, rest) <==> AllIn(s, cs)
  {
    if Matches(g, d, Star(Chars(cs)), s, rest) {
      var n := StarElim(g, d, Chars(cs), s, rest);
      TimesChars(g, d, cs, n, s, rest);
    }
    if AllIn(s, cs) {
      TimesChars(g, d, cs, |s|, s, rest);
    }
  }

  lemma RepChars(g: Regex, d: nat, cs: set<char>, lo: nat, hi: nat, s: string, rest: string)
    ensures Matches(g, d, Rep(Chars(cs), lo, hi), s, rest) <==> lo <= |s| <= hi && AllIn(s, cs)
  {
    if Matches(g, d, Rep(Chars(cs), lo, hi), s, rest) {
      var n := RepElim(g, d, Chars(cs), lo, hi, s, rest);
      TimesChars(g, d, cs, n, s, rest);
    }
    if AllIn(s, cs) {
      TimesChars(g, d, cs, |s|, s, rest);
    }
  }

  lemma NotAheadChars(g: Regex, d: nat, cs: set<char>, s: string, rest: string)
    ensures Matches(g, d, NotAhead(Chars(cs)), s, rest) <==> s == "" && (rest == "" || rest[0] !in cs)
  {
    if s == "" && (rest == "" || rest[0] !in cs) {
      forall k | 0 <= k <= |rest|
        ensures !Matches(g, d, Chars(cs), rest[..k], rest[k..])
      {
      }
    }
    if rest != "" {
      assert rest[..1] == [rest[0]];
      assert Matches(g, d, Chars(cs), rest[..1], rest[1..]) <==> rest[0] in cs;
    }
  }
}
