/** IPv6 addresses: the pattern of the program and the grammar of RFC 3986 both denote the texts of `Address`. */
module Ipv6 {
  import opened Common
  import opened Regex
  import opened Addresses

  /** An IPv6 address as it may be written: eight groups, or six and a dotted quad; or a run of groups, "::", and
      another run, with at least one group left out. */
  datatype Address =
    | Full(xs: seq<string>)
    | FullV4(xs: seq<string>, v4: string)
    | Short(xs: seq<string>, ys: seq<string>)
    | ShortV4(xs: seq<string>, ys: seq<string>, v4: string)

  ghost predicate Group(g: string) {
    1 <= |g| <= 4 && AllIn(g, HEX_DIGITS)
  }

  ghost predicate Groups(xs: seq<string>) {
    forall i :: 0 <= i < |xs| ==> Group(xs[i])
  }

  /** Groups, each followed by a colon. */
  function Pre(xs: seq<string>): string {
    if xs == [] then "" else (xs[0] + ":") + Pre(xs[1..])
  }

  /** Groups, each preceded by a colon. */
  function Post(xs: seq<string>): string {
    if xs == [] then "" else (":" + xs[0]) + Post(xs[1..])
  }

  /** Groups with colons between them. */
  function Join(xs: seq<string>): string {
    if xs == [] then "" else xs[0] + Post(xs[1..])
  }

  ghost predicate Ok(a: Address) {
    match a
    case Full(xs) => Groups(xs) && |xs| == 8
    case FullV4(xs, v4) => Groups(xs) && |xs| == 6 && IsV4(v4)
    case Short(xs, ys) => Groups(xs) && Groups(ys) && |xs| + |ys| <= 7
    case ShortV4(xs, ys, v4) => Groups(xs) && Groups(ys) && |xs| + |ys| <= 5 && IsV4(v4)
  }

  function Text(a: Address): string {
    match a
    case Full(xs) => Join(xs)
    case FullV4(xs, v4) => Pre(xs) + v4
    case Short(xs, ys) => Join(xs) + ("::" + Join(ys))
    case ShortV4(xs, ys, v4) => Join(xs) + ("::" + (Pre(ys) + v4))
  }

  ghost predicate IsAddress(s: string) {
    exists a :: Ok(a) && s == Text(a)
  }

  // ------------------------------------------------------------------------------------------------
  // Group lists
  // ------------------------------------------------------------------------------------------------

  lemma {:induction false} PreIsJoin(xs: seq<string>)
    requires xs != []
    ensures Pre(xs) == Join(xs) + ":"
    decreases |xs|
  {
    if |xs| == 1 {
      assert Pre(xs[1..]) == "" && Post(xs[1..]) == "";
    } else {
      PreIsJoin(xs[1..]);
      assert Post(xs[1..]) == ":" + Join(xs[1..]);
    }
  }

  lemma PostIsJoin(ys: seq<string>)
    requires ys != []
    ensures Post(ys) == ":" + Join(ys)
  {
  }

  lemma {:induction false} PreThen(zs: seq<string>, h: string)
    ensures Join(zs + [h]) == Pre(zs) + h
    decreases |zs|
  {
    if zs == [] {
      assert zs + [h] == [h] && Post([h][1..]) == "";
    } else {
      PreThen(zs[1..], h);
      assert (zs + [h])[1..] == zs[1..] + [h] && (zs + [h])[0] == zs[0];
      PostIsJoin(zs[1..] + [h]);
      assert Join(zs + [h]) == zs[0] + Post(zs[1..] + [h]);
      assert Pre(zs) == (zs[0] + ":") + Pre(zs[1..]);
      hide Join, Post, Pre;
      GroupCat(zs[0], Pre(zs[1..]), h);
    }
  }

  lemma GroupCat(a: string, b: string, h: string)
    ensures a + (":" + (b + h)) == ((a + ":") + b) + h
  {
  }

  lemma {:induction false} PreCat(xs: seq<string>, ys: seq<string>)
    ensures Pre(xs + ys) == Pre(xs) + Pre(ys)
    decreases |xs|
  {
    if xs == [] {
      assert xs + ys == ys;
    } else {
      PreCat(xs[1..], ys);
      assert (xs + ys)[1..] == xs[1..] + ys;
    }
  }

  lemma GroupMatches(s: string, rest: string)
    ensures M(S6, s, rest) <==> Group(s)
  {
    RepChars(Empty, 0, HEX_DIGITS, 1, 4, s, rest);
  }

  lemma GroupColon(s: string, rest: string)
    ensures M(S6C, s, rest) <==> s != "" && s[|s| - 1] == ':' && Group(s[..|s| - 1])
  {
    ThenChar(S6, {':'}, s, rest);
    if s != "" {
      GroupMatches(s[..|s| - 1], [s[|s| - 1]] + rest);
    }
  }

  lemma ColonGroup(s: string, rest: string)
    ensures M(CS6, s, rest) <==> s != "" && s[0] == ':' && Group(s[1..])
  {
    CharThen({':'}, S6, s, rest);
    if s != "" {
      GroupMatches(s[1..], rest);
    }
  }

  lemma {:induction false} PreElim(n: nat, s: string, rest: string) returns (xs: seq<string>)
    requires MT(S6C, n, s, rest)
    ensures |xs| == n && Groups(xs) && s == Pre(xs)
    decreases n
  {
    if n == 0 {
      xs := [];
    } else {
      var x, t := TimesElim(Empty, 0, S6C, n, s, rest);
      GroupColon(x, t + rest);
      var ys := PreElim(n - 1, t, rest);
      xs := [x[..|x| - 1]] + ys;
      assert x == x[..|x| - 1] + ":";
      assert xs[1..] == ys;
    }
  }

  lemma {:induction false} PreIntro(xs: seq<string>, rest: string)
    requires Groups(xs)
    ensures MT(S6C, |xs|, Pre(xs), rest)
    decreases |xs|
  {
    if xs != [] {
      PreIntro(xs[1..], rest);
      var x := xs[0] + ":";
      assert x[..|x| - 1] == xs[0];
      GroupColon(x, Pre(xs[1..]) + rest);
      TimesIntro(Empty, 0, S6C, |xs| - 1, x, Pre(xs[1..]), rest);
    }
  }

  lemma {:induction false} PostElim(n: nat, s: string, rest: string) returns (xs: seq<string>)
    requires MT(CS6, n, s, rest)
    ensures |xs| == n && Groups(xs) && s == Post(xs)
    decreases n
  {
    if n == 0 {
      xs := [];
    } else {
      var x, t := TimesElim(Empty, 0, CS6, n, s, rest);
      ColonGroup(x, t + rest);
      var ys := PostElim(n - 1, t, rest);
      xs := [x[1..]] + ys;
      assert x == ":" + x[1..];
      assert xs[1..] == ys;
    }
  }

  lemma {:induction false} PostIntro(xs: seq<string>, rest: string)
    requires Groups(xs)
    ensures MT(CS6, |xs|, Post(xs), rest)
    decreases |xs|
  {
    if xs != [] {
      PostIntro(xs[1..], rest);
      var x := ":" + xs[0];
      assert x[1..] == xs[0];
      ColonGroup(x, Post(xs[1..]) + rest);
      TimesIntro(Empty, 0, CS6, |xs| - 1, x, Post(xs[1..]), rest);
    }
  }

  lemma RepPreElim(lo: nat, hi: nat, s: string, rest: string) returns (xs: seq<string>)
    requires M(Rep(S6C, lo, hi), s, rest)
    ensures lo <= |xs| <= hi && Groups(xs) && s == Pre(xs)
  {
    var n := RepElim(Empty, 0, S6C, lo, hi, s, rest);
    xs := PreElim(n, s, rest);
  }

  lemma RepPreIntro(lo: nat, hi: nat, xs: seq<string>, rest: string)
    requires lo <= |xs| <= hi && Groups(xs)
    ensures M(Rep(S6C, lo, hi), Pre(xs), rest)
  {
    PreIntro(xs, rest);
    RepIntro(S6C, lo, hi, |xs|, Pre(xs), rest);
  }

  lemma RepPostElim(lo: nat, hi: nat, s: string, rest: string) returns (xs: seq<string>)
    requires M(Rep(CS6, lo, hi), s, rest)
    ensures lo <= |xs| <= hi && Groups(xs) && s == Post(xs)
  {
    var n := RepElim(Empty, 0, CS6, lo, hi, s, rest);
    xs := PostElim(n, s, rest);
  }

  lemma RepPostIntro(lo: nat, hi: nat, xs: seq<string>, rest: string)
    requires lo <= |xs| <= hi && Groups(xs)
    ensures M(Rep(CS6, lo, hi), Post(xs), rest)
  {
    PostIntro(xs, rest);
    RepIntro(CS6, lo, hi, |xs|, Post(xs), rest);
  }

  // ------------------------------------------------------------------------------------------------
  // The colon-counting lookahead
  // ------------------------------------------------------------------------------------------------

  function Colons(s: string): nat {
    if s == "" then 0 else (if s[0] == ':' then 1 else 0) + Colons(s[1..])
  }

  lemma {:induction false} ColonsCat(s: string, t: string)
    ensures Colons(s + t) == Colons(s) + Colons(t)
    decreases |s|
  {
    if s == "" {
      assert s + t == t;
    } else {
      ColonsCat(s[1..], t);
      assert (s + t)[1..] == s[1..] + t;
    }
  }

  lemma {:induction false} NoColons(s: string)
    requires ':' !in s
    ensures Colons(s) == 0
    decreases |s|
  {
    if s != "" {
      assert s[0] in s;
      assert forall c :: c in s[1..] ==> c in s;
      NoColons(s[1..]);
    }
  }

  lemma HexHasNoColons(s: string)
    requires AllIn(s, HEX_DIGITS)
    ensures Colons(s) == 0
  {
    NoColons(s);
  }

  const HC: Regex := Cat(Star(HEX), COLON)

  lemma HexColon(s: string, rest: string)
    ensures M(HC, s, rest) <==> s != "" && s[|s| - 1] == ':' && AllIn(s[..|s| - 1], HEX_DIGITS)
  {
    ThenChar(Star(HEX), {':'}, s, rest);
    if s != "" {
      StarChars(Empty, 0, HEX_DIGITS, s[..|s| - 1], [s[|s| - 1]] + rest);
    }
  }

  lemma {:induction false} TimesCountsColons(n: nat, s: string, rest: string)
    requires MT(HC, n, s, rest)
    ensures Colons(s) == n
    decreases n
  {
    if n > 0 {
      var x, t := TimesElim(Empty, 0, HC, n, s, rest);
      HexColon(x, t + rest);
      TimesCountsColons(n - 1, t, rest);
      HexHasNoColons(x[..|x| - 1]);
      assert x == x[..|x| - 1] + ":";
      ColonsCat(x[..|x| - 1], ":");
      ColonsCat(x, t);
    }
  }

  lemma {:induction false} TimesOfTokens(zs: seq<string>, rest: string)
    requires forall i :: 0 <= i < |zs| ==> AllIn(zs[i], HEX_DIGITS)
    ensures MT(HC, |zs|, Pre(zs), rest)
    decreases |zs|
  {
    if zs != [] {
      TimesOfTokens(zs[1..], rest);
      var x := zs[0] + ":";
      assert x[..|x| - 1] == zs[0];
      HexColon(x, Pre(zs[1..]) + rest);
      TimesIntro(Empty, 0, HC, |zs| - 1, x, Pre(zs[1..]), rest);
    }
  }

  /** What may follow an address: no dot, no colon and no hexadecimal digit. */
  ghost predicate EndsAddress(rest: string) {
    || rest == ""
    || !(rest[0] == '.' || rest[0] == ':' || '0' <= rest[0] <= '9' || 'a' <= rest[0] <= 'f' || 'A' <= rest[0] <= 'F')
  }

  ghost predicate HexOrColon(s: string) {
    forall i :: 0 <= i < |s| ==> s[i] == ':' || s[i] in HEX_DIGITS
  }

  lemma {:induction false} TimesAreHexOrColon(n: nat, s: string, rest: string)
    requires MT(HC, n, s, rest)
    ensures HexOrColon(s)
    decreases n
  {
    if n > 0 {
      var x, t := TimesElim(Empty, 0, HC, n, s, rest);
      HexColon(x, t + rest);
      TimesAreHexOrColon(n - 1, t, rest);
      assert forall i :: 0 <= i < |x| - 1 ==> x[i] == x[..|x| - 1][i];
    }
  }

  /** The lookahead lets a text with fewer colons pass, when nothing that continues it follows ... */
  lemma FewColonsPass(n: nat, t: string, rest: string)
    requires Colons(t) < n && EndsAddress(rest)
    ensures M(FewerColonsThan(n), "", t + rest)
  {
    var u := t + rest;
    forall k | 0 <= k <= |u|
      ensures !Matches(Empty, 0, Rep(HC, n, n), u[..k], u[k..])
    {
      if Matches(Empty, 0, Rep(HC, n, n), u[..k], u[k..]) {
        var m := RepElim(Empty, 0, HC, n, n, u[..k], u[k..]);
        EnoughColons(n, t, rest, k);
      }
    }
  }

  lemma HexStaysInside(t: string, rest: string, k: nat)
    requires EndsAddress(rest) && k <= |t + rest|
    ensures HexOrColon((t + rest)[..k]) ==> k <= |t|
  {
    if k > |t| {
      assert (t + rest)[..k][|t|] == rest[0];
    }
  }

  lemma EnoughColons(n: nat, t: string, rest: string, k: nat)
    requires EndsAddress(rest) && k <= |t + rest| && MT(HC, n, (t + rest)[..k], (t + rest)[k..])
    ensures n <= Colons(t)
  {
    var u := t + rest;
    TimesCountsColons(n, u[..k], u[k..]);
    TimesAreHexOrColon(n, u[..k], u[k..]);
    hide Matches, Times, EndsAddress;
    HexStaysInside(t, rest, k);
    assert u[..k] == t[..k] && t == t[..k] + t[k..];
    ColonsCat(t[..k], t[k..]);
  }

  lemma PrefixAt(a: string, b: string)
    ensures (a + b)[..|a|] == a && (a + b)[|a|..] == b
  {
  }

  lemma LookaheadFails(r: Regex, a: string, b: string)
    requires M(r, a, b)
    ensures !M(NotAhead(r), "", a + b)
  {
    PrefixAt(a, b);
    assert Matches(Empty, 0, r, (a + b)[..|a|], (a + b)[|a|..]);
  }

  /** ... and stops one that begins with that many hexadecimal tokens and colons. */
  lemma ManyColonsStop(n: nat, zs: seq<string>, tail: string)
    requires n <= |zs| && forall i :: 0 <= i < |zs| ==> AllIn(zs[i], HEX_DIGITS)
    ensures !M(FewerColonsThan(n), "", Pre(zs) + tail)
  {
    hide Matches, Times, AllIn, Pre;
    var u, v := zs[..n], zs[n..];
    assert zs == u + v;
    PreCat(u, v);
    var after := Pre(v) + tail;
    CatAssoc(Pre(u), Pre(v), tail);
    TimesOfTokens(u, after);
    RepIntro(HC, n, n, n, Pre(u), after);
    LookaheadFails(Rep(HC, n, n), Pre(u), after);
  }

  lemma {:induction false} PreColons(xs: seq<string>)
    requires Groups(xs)
    ensures Colons(Pre(xs)) == |xs|
    decreases |xs|
  {
    if xs != [] {
      PreColons(xs[1..]);
      HexHasNoColons(xs[0]);
      ColonsCat(xs[0], ":");
      ColonsCat(xs[0] + ":", Pre(xs[1..]));
    }
  }

  lemma {:induction false} PostColons(xs: seq<string>)
    requires Groups(xs)
    ensures Colons(Post(xs)) == |xs|
    decreases |xs|
  {
    if xs != [] {
      PostColons(xs[1..]);
      HexHasNoColons(xs[0]);
      ColonsCat(":", xs[0]);
      ColonsCat(":" + xs[0], Post(xs[1..]));
    }
  }

  lemma V4HasNoColons(s: string)
    requires IsV4(s)
    ensures Colons(s) == 0
  {
    var a, b, c, e :| IsOctet(a) && IsOctet(b) && IsOctet(c) && IsOctet(e) && s == Quad(a, b, c, e);
    NoColons(s);
  }

  lemma TokensCat(p: string, q: string, x: string)
    ensures p + (":" + (q + x)) == ((p + ("" + ":")) + q) + x
  {
  }

  /** "h:h:" followed by ":h:h" is a run of tokens, one of them empty, each followed by a colon. */
  lemma MiddleTokens(xs: seq<string>, ys: seq<string>)
    requires Groups(xs) && Groups(ys) && ys != []
    ensures var zs := xs + [""] + ys[..|ys| - 1];
            && (forall i :: 0 <= i < |zs| ==> AllIn(zs[i], HEX_DIGITS))
            && Pre(xs) + Post(ys) == Pre(zs) + ys[|ys| - 1]
  {
    var last := |ys| - 1;
    var init := ys[..last];
    assert ys == init + [ys[last]];
    PostIsJoin(ys);
    PreThen(init, ys[last]);
    PreCat(xs + [""], init);
    PreCat(xs, [""]);
    PreOne("");
    hide Pre, Post, Join;
    TokensCat(Pre(xs), Pre(init), ys[last]);
  }

  // ------------------------------------------------------------------------------------------------
  // The program's pattern denotes addresses
  // ------------------------------------------------------------------------------------------------

  lemma ColonMatches(s: string, rest: string)
    ensures M(COLON, s, rest) <==> s == ":"
  {
  }

  lemma NullElim(s: string, rest: string)
    requires M(IPV6_NULL, s, rest)
    ensures IsAddress(s)
  {
    CatChars({':'}, {':'}, s, rest);
    assert s == Text(Short([], []));
  }

  lemma LeftElim(s: string, rest: string)
    requires M(IPV6_LEFT, s, rest)
    ensures IsAddress(s)
  {
    hide Matches, Times, Pre, Post;
    var c, t := CatElim(Empty, 0, COLON, Rep(CS6, 1, 7), s, rest);
    ColonMatches(c, t + rest);
    var ys := RepPostElim(1, 7, t, rest);
    LeftText(ys);
    assert Ok(Short([], ys));
  }

  lemma LeftText(ys: seq<string>)
    requires ys != []
    ensures ":" + Post(ys) == Text(Short([], ys))
  {
    PostIsJoin(ys);
    CatAssoc(":", ":", Join(ys));
  }

  lemma RightText(xs: seq<string>)
    requires xs != []
    ensures Pre(xs) + ":" == Text(Short(xs, []))
  {
    PreIsJoin(xs);
    CatAssoc(Join(xs), ":", ":");
  }

  lemma MidText(xs: seq<string>, ys: seq<string>)
    requires xs != [] && ys != []
    ensures Pre(xs) + Post(ys) == Text(Short(xs, ys))
  {
    PreIsJoin(xs);
    PostIsJoin(ys);
    MidCat(Join(xs), Join(ys));
  }

  lemma MidCat(x: string, y: string)
    ensures (x + ":") + (":" + y) == x + ("::" + y)
  {
  }

  lemma V4LeftText(ys: seq<string>, v: string)
    ensures (":" + (":" + Pre(ys))) + v == Text(ShortV4([], ys, v))
  {
    hide Pre;
    V4LeftCat(Pre(ys), v);
  }

  lemma V4LeftCat(y: string, v: string)
    ensures (":" + (":" + y)) + v == "" + ("::" + (y + v))
  {
  }

  lemma V4RightText(xs: seq<string>, v: string)
    requires xs != []
    ensures (Pre(xs) + ":") + v == Text(ShortV4(xs, [], v))
  {
    PreIsJoin(xs);
    V4RightCat(Join(xs), v);
  }

  lemma V4RightCat(x: string, v: string)
    ensures ((x + ":") + ":") + v == x + ("::" + ("" + v))
  {
  }

  lemma MidElim(s: string, rest: string)
    requires M(IPV6_MID, s, rest)
    ensures IsAddress(s)
  {
    hide Matches, Times, Pre, Post, Text;
    var e, t := CatElim(Empty, 0, FewerColonsThan(8), Cat(Rep(S6C, 1, 6), Rep(CS6, 1, 6)), s, rest);
    LookaheadIsEmpty(8, e, t + rest);
    assert s == t;
    var u, v := CatElim(Empty, 0, Rep(S6C, 1, 6), Rep(CS6, 1, 6), t, rest);
    var xs := RepPreElim(1, 6, u, v + rest);
    var ys := RepPostElim(1, 6, v, rest);
    MiddleTokens(xs, ys);
    var zs, last := xs + [""] + ys[..|ys| - 1], ys[|ys| - 1];
    CatAssoc(Pre(zs), last, rest);
    if |xs| + |ys| > 7 {
      ManyColonsStop(8, zs, last + rest);
    }
    MidText(xs, ys);
    assert Ok(Short(xs, ys));
  }

  lemma LookaheadIsEmpty(n: nat, s: string, rest: string)
    requires M(FewerColonsThan(n), s, rest)
    ensures s == ""
  {
  }

  lemma RightElim(s: string, rest: string)
    requires M(IPV6_RIGHT, s, rest)
    ensures IsAddress(s)
  {
    hide Matches, Times, Pre, Text;
    var u, c := CatElim(Empty, 0, Rep(S6C, 1, 7), COLON, s, rest);
    ColonMatches(c, rest);
    var xs := RepPreElim(1, 7, u, c + rest);
    RightText(xs);
    assert Ok(Short(xs, []));
  }

  lemma FullElim(s: string, rest: string)
    requires M(IPV6_FULL, s, rest)
    ensures IsAddress(s)
  {
    hide Matches, Times, Pre, Join;
    var u, h := CatElim(Empty, 0, Rep(S6C, 7, 7), S6, s, rest);
    GroupMatches(h, rest);
    var xs := RepPreElim(7, 7, u, h + rest);
    PreThen(xs, h);
    assert Ok(Full(xs + [h]));
  }

  lemma V4FullElim(s: string, v: string, rest: string)
    requires M(IPV6V4_FULL, s, rest) && IsV4(v)
    ensures IsAddress(s + v)
  {
    hide Matches, Times, Pre, IsV4;
    var xs := RepPreElim(6, 6, s, rest);
    assert s + v == Text(FullV4(xs, v)) && Ok(FullV4(xs, v));
  }

  lemma V4LeftElim(s: string, v: string, rest: string)
    requires M(IPV6V4_LEFT, s, rest) && IsV4(v)
    ensures IsAddress(s + v)
  {
    hide Matches, Times, Pre, IsV4, Text;
    var c, t := CatElim(Empty, 0, COLON, Cat(COLON, Rep(S6C, 0, 5)), s, rest);
    ColonMatches(c, t + rest);
    var c', u := CatElim(Empty, 0, COLON, Rep(S6C, 0, 5), t, rest);
    ColonMatches(c', u + rest);
    var ys := RepPreElim(0, 5, u, rest);
    V4LeftText(ys, v);
    assert Ok(ShortV4([], ys, v));
  }

  /** With a colon behind it, the last group of the middle form is a token too. */
  lemma MiddleTokensColon(xs: seq<string>, ys: seq<string>, w: string) returns (zs: seq<string>)
    requires Groups(xs) && Groups(ys) && ys != []
    ensures |zs| == |xs| + 1 + |ys| && forall i :: 0 <= i < |zs| ==> AllIn(zs[i], HEX_DIGITS)
    ensures (Pre(xs) + Post(ys)) + (":" + w) == Pre(zs) + w
  {
    MiddleTokens(xs, ys);
    var init, last := xs + [""] + ys[..|ys| - 1], ys[|ys| - 1];
    zs := init + [last];
    PreCat(init, [last]);
    PreOne(last);
    hide Pre, Post;
    ColonCat(Pre(init), last, w);
  }

  lemma ColonCat(p: string, x: string, w: string)
    ensures (p + x) + (":" + w) == (p + (x + ":")) + w
  {
  }

  lemma V4MidText(xs: seq<string>, ys: seq<string>, v: string)
    requires xs != [] && ys != []
    ensures ((Pre(xs) + Post(ys)) + ":") + v == Text(ShortV4(xs, ys, v))
  {
    PreIsJoin(xs);
    PostIsJoin(ys);
    PreIsJoin(ys);
    hide Pre, Post, Join;
    V4MidCat(Join(xs), Join(ys), v);
  }

  lemma V4MidCat(x: string, y: string, v: string)
    ensures (((x + ":") + (":" + y)) + ":") + v == x + ("::" + ((y + ":") + v))
  {
  }

  lemma V4MidElim(s: string, v: string, rest: string)
    requires M(IPV6V4_MID, s, v + rest) && IsV4(v)
    ensures IsAddress(s + v)
  {
    hide Matches, Times, IsV4, Pre, Post, Text;
    var inner := Cat(Rep(S6C, 1, 4), Rep(CS6, 1, 4));
    var p, c := CatElim(Empty, 0, Cat(FewerColonsThan(7), inner), COLON, s, v + rest);
    ColonMatches(c, v + rest);
    var after := ":" + (v + rest);
    var e, t := CatElim(Empty, 0, FewerColonsThan(7), inner, p, after);
    LookaheadIsEmpty(7, e, t + after);
    var u, w := CatElim(Empty, 0, Rep(S6C, 1, 4), Rep(CS6, 1, 4), t, after);
    var xs := RepPreElim(1, 4, u, w + after);
    var ys := RepPostElim(1, 4, w, after);
    var zs := MiddleTokensColon(xs, ys, v + rest);
    if |xs| + |ys| > 5 {
      ManyColonsStop(7, zs, v + rest);
    }
    V4MidText(xs, ys, v);
    assert p == t;
    assert Ok(ShortV4(xs, ys, v));
  }

  lemma V4RightElim(s: string, v: string, rest: string)
    requires M(IPV6V4_RIGHT, s, rest) && IsV4(v)
    ensures IsAddress(s + v)
  {
    hide Matches, Times, Pre, IsV4, Text;
    var u, c := CatElim(Empty, 0, Rep(S6C, 1, 5), COLON, s, rest);
    ColonMatches(c, rest);
    var xs := RepPreElim(1, 5, u, c + rest);
    V4RightText(xs, v);
    assert Ok(ShortV4(xs, [], v));
  }

  /** The alternatives of the pattern, spelled out. */
  lemma BodyAlternatives(s: string, rest: string)
    ensures M(IPV6_BODY, s, rest) <==>
              || M(IPV6_NULL, s, rest) || M(IPV6_LEFT, s, rest) || M(IPV6_MID, s, rest)
              || M(IPV6_RIGHT, s, rest) || M(IPV6_FULL, s, rest) || M(Cat(IPV6V4, IPV4), s, rest)
  {
    hide Matches;
    AltMatches(Empty, 0, IPV6_NULL, IPV6_BODY.b, s, rest);
    AltMatches(Empty, 0, IPV6_LEFT, IPV6_BODY.b.b, s, rest);
    AltMatches(Empty, 0, IPV6_MID, IPV6_BODY.b.b.b, s, rest);
    AltMatches(Empty, 0, IPV6_RIGHT, IPV6_BODY.b.b.b.b, s, rest);
    AltMatches(Empty, 0, IPV6_FULL, IPV6_BODY.b.b.b.b.b, s, rest);
  }

  lemma V4Alternatives(s: string, rest: string)
    ensures M(IPV6V4, s, rest) <==>
              || M(IPV6V4_FULL, s, rest) || M(IPV6V4_LEFT, s, rest)
              || M(IPV6V4_MID, s, rest) || M(IPV6V4_RIGHT, s, rest)
  {
    hide Matches;
    AltMatches(Empty, 0, IPV6V4_FULL, IPV6V4.b, s, rest);
    AltMatches(Empty, 0, IPV6V4_LEFT, IPV6V4.b.b, s, rest);
    AltMatches(Empty, 0, IPV6V4_MID, IPV6V4.b.b.b, s, rest);
  }

  lemma V4BodyElim(s: string, rest: string)
    requires M(Cat(IPV6V4, IPV4), s, rest)
    ensures IsAddress(s)
  {
    hide Matches, IsV4, IsAddress;
    var u, v := CatElim(Empty, 0, IPV6V4, IPV4, s, rest);
    V4Elim(v, rest);
    V4Alternatives(u, v + rest);
    if M(IPV6V4_FULL, u, v + rest) {
      V4FullElim(u, v, v + rest);
    } else if M(IPV6V4_LEFT, u, v + rest) {
      V4LeftElim(u, v, v + rest);
    } else if M(IPV6V4_MID, u, v + rest) {
      V4MidElim(u, v, rest);
    } else {
      V4RightElim(u, v, v + rest);
    }
  }

  const STOP: set<char> := HEX_DIGITS + {'.', ':'}

  lemma StopIs(rest: string)
    ensures EndsAddress(rest) <==> rest == "" || rest[0] !in STOP
  {
  }

  lemma PatternIsAddress(s: string, rest: string)
    requires M(IPV6, s, rest)
    ensures IsAddress(s) && EndsAddress(rest)
  {
    StopIs(rest);
    hide Matches, IsAddress, EndsAddress;
    var u, e := CatElim(Empty, 0, IPV6_BODY, NotAhead(Chars(STOP)), s, rest);
    NotAheadChars(Empty, 0, STOP, e, rest);
    assert u == s && e + rest == rest;
    BodyAlternatives(s, rest);
    if M(IPV6_NULL, s, rest) {
      NullElim(s, rest);
    } else if M(IPV6_LEFT, s, rest) {
      LeftElim(s, rest);
    } else if M(IPV6_MID, s, rest) {
      MidElim(s, rest);
    } else if M(IPV6_RIGHT, s, rest) {
      RightElim(s, rest);
    } else if M(IPV6_FULL, s, rest) {
      FullElim(s, rest);
    } else {
      V4BodyElim(s, rest);
    }
  }

  // ------------------------------------------------------------------------------------------------
  // Every address is matched by the program's pattern
  // ------------------------------------------------------------------------------------------------

  lemma ShortIntro(xs: seq<string>, ys: seq<string>, rest: string)
    requires Ok(Short(xs, ys)) && EndsAddress(rest)
    ensures M(IPV6_BODY, Text(Short(xs, ys)), rest)
  {
    hide Matches, Times, Pre, Post, EndsAddress;
    var s := Text(Short(xs, ys));
    BodyAlternatives(s, rest);
    if xs == [] && ys == [] {
      CatChars({':'}, {':'}, s, rest);
    } else if xs == [] {
      LeftText(ys);
      RepPostIntro(1, 7, ys, rest);
      ColonMatches(":", Post(ys) + rest);
      CatIntro(Empty, 0, COLON, Rep(CS6, 1, 7), ":", Post(ys), rest);
    } else if ys == [] {
      RightText(xs);
      RepPreIntro(1, 7, xs, ":" + rest);
      ColonMatches(":", rest);
      CatIntro(Empty, 0, Rep(S6C, 1, 7), COLON, Pre(xs), ":", rest);
    } else {
      MidIntro(xs, ys, rest);
    }
  }

  lemma MidIntro(xs: seq<string>, ys: seq<string>, rest: string)
    requires Ok(Short(xs, ys)) && xs != [] && ys != [] && EndsAddress(rest)
    ensures M(IPV6_MID, Text(Short(xs, ys)), rest)
  {
    hide Matches, Times, Pre, Post, Text, Colons, EndsAddress;
    var t := Pre(xs) + Post(ys);
    MidText(xs, ys);
    RepPreIntro(1, 6, xs, Post(ys) + rest);
    RepPostIntro(1, 6, ys, rest);
    CatIntro(Empty, 0, Rep(S6C, 1, 6), Rep(CS6, 1, 6), Pre(xs), Post(ys), rest);
    PreColons(xs);
    PostColons(ys);
    ColonsCat(Pre(xs), Post(ys));
    assert "" + t == t;
    FewColonsPass(8, t, rest);
    CatIntro(Empty, 0, FewerColonsThan(8), Cat(Rep(S6C, 1, 6), Rep(CS6, 1, 6)), "", t, rest);
  }

  lemma FullIntro(xs: seq<string>, rest: string)
    requires Ok(Full(xs))
    ensures M(IPV6_FULL, Text(Full(xs)), rest)
  {
    hide Matches, Times;
    var init, h := xs[..7], xs[7];
    assert xs == init + [h];
    PreThen(init, h);
    RepPreIntro(7, 7, init, h + rest);
    GroupMatches(h, rest);
    CatIntro(Empty, 0, Rep(S6C, 7, 7), S6, Pre(init), h, rest);
  }

  lemma V4BodyIntro(u: string, v: string, rest: string)
    requires M(IPV6V4, u, v + rest) && IsV4(v) && EndsAddress(rest)
    ensures M(Cat(IPV6V4, IPV4), u + v, rest)
  {
    hide Matches, IsV4;
    V4Intro(v, rest);
    CatIntro(Empty, 0, IPV6V4, IPV4, u, v, rest);
  }

  lemma MiddleColons(xs: seq<string>, ys: seq<string>, v: string)
    requires Groups(xs) && Groups(ys) && IsV4(v)
    ensures Colons((Pre(xs) + Post(ys)) + (":" + v)) == |xs| + |ys| + 1
  {
    PreColons(xs);
    PostColons(ys);
    ColonsCat(Pre(xs), Post(ys));
    V4HasNoColons(v);
    assert (":" + v)[1..] == v;
    hide Pre, Post, IsV4;
    ColonsCat(Pre(xs) + Post(ys), ":" + v);
  }

  lemma V4MidIntro(xs: seq<string>, ys: seq<string>, v: string, rest: string)
    requires Ok(ShortV4(xs, ys, v)) && xs != [] && ys != [] && EndsAddress(rest)
    ensures M(IPV6V4_MID, (Pre(xs) + Post(ys)) + ":", v + rest)
  {
    hide Matches, Times, IsV4, Pre, Post, Colons, EndsAddress;
    var inner := Cat(Rep(S6C, 1, 4), Rep(CS6, 1, 4));
    var t := Pre(xs) + Post(ys);
    var after := ":" + (v + rest);
    RepPreIntro(1, 4, xs, Post(ys) + after);
    RepPostIntro(1, 4, ys, after);
    CatIntro(Empty, 0, Rep(S6C, 1, 4), Rep(CS6, 1, 4), Pre(xs), Post(ys), after);
    MiddleColons(xs, ys, v);
    FewColonsPass(7, t + (":" + v), rest);
    AfterCat(t, v, rest);
    CatIntro(Empty, 0, FewerColonsThan(7), inner, "", t, after);
    assert "" + t == t;
    ColonMatches(":", v + rest);
    CatIntro(Empty, 0, Cat(FewerColonsThan(7), inner), COLON, t, ":", v + rest);
  }

  lemma AfterCat(t: string, v: string, rest: string)
    ensures (t + (":" + v)) + rest == t + (":" + (v + rest))
  {
  }

  lemma ShortV4Intro(xs: seq<string>, ys: seq<string>, v: string, rest: string)
    requires Ok(ShortV4(xs, ys, v)) && EndsAddress(rest)
    ensures M(Cat(IPV6V4, IPV4), Text(ShortV4(xs, ys, v)), rest)
  {
    hide Matches, Times, IsV4, Pre, Post, Text, EndsAddress;
    var w := v + rest;
    var u: string;
    if xs == [] {
      u := ":" + (":" + Pre(ys));
      RepPreIntro(0, 5, ys, w);
      ColonMatches(":", Pre(ys) + w);
      CatIntro(Empty, 0, COLON, Rep(S6C, 0, 5), ":", Pre(ys), w);
      ColonMatches(":", (":" + Pre(ys)) + w);
      CatIntro(Empty, 0, COLON, Cat(COLON, Rep(S6C, 0, 5)), ":", ":" + Pre(ys), w);
      V4LeftText(ys, v);
    } else if ys == [] {
      u := Pre(xs) + ":";
      RepPreIntro(1, 5, xs, ":" + w);
      ColonMatches(":", w);
      CatIntro(Empty, 0, Rep(S6C, 1, 5), COLON, Pre(xs), ":", w);
      V4RightText(xs, v);
    } else {
      u := (Pre(xs) + Post(ys)) + ":";
      V4MidIntro(xs, ys, v, rest);
      V4MidText(xs, ys, v);
    }
    V4Alternatives(u, w);
    V4BodyIntro(u, v, rest);
  }

  lemma FullV4Intro(xs: seq<string>, v: string, rest: string)
    requires Ok(FullV4(xs, v)) && EndsAddress(rest)
    ensures M(Cat(IPV6V4, IPV4), Text(FullV4(xs, v)), rest)
  {
    hide Matches, Times, IsV4, EndsAddress;
    RepPreIntro(6, 6, xs, v + rest);
    V4Alternatives(Pre(xs), v + rest);
    V4BodyIntro(Pre(xs), v, rest);
  }

  lemma AddressIsMatched(a: Address, rest: string)
    requires Ok(a) && EndsAddress(rest)
    ensures M(IPV6, Text(a), rest)
  {
    StopIs(rest);
    hide Matches, Times, IsV4, Text, Ok, EndsAddress;
    var s := Text(a);
    BodyAlternatives(s, rest);
    match a {
      case Full(xs) => FullIntro(xs, rest);
      case FullV4(xs, v) => FullV4Intro(xs, v, rest);
      case Short(xs, ys) => ShortIntro(xs, ys, rest);
      case ShortV4(xs, ys, v) => ShortV4Intro(xs, ys, v, rest);
    }
    NotAheadChars(Empty, 0, STOP, "", rest);
    assert "" + rest == rest && s + "" == s;
    CatIntro(Empty, 0, IPV6_BODY, NotAhead(Chars(STOP)), s, "", rest);
  }

  // ------------------------------------------------------------------------------------------------
  // The grammar of RFC 3986 denotes addresses
  // ------------------------------------------------------------------------------------------------

  /** m( h16 ":" ) ls32, as the grammar writes it for each m. */
  function Tail(m: nat): Regex {
    if m == 0 then LS32 else if m == 1 then Cat(H16C, LS32) else Cat(Rep(H16C, m, m), LS32)
  }

  /** [ at most `n` groups ] "::" tail, as the grammar writes it for each n. */
  function Compressed(n: nat, tail: Regex): Regex {
    if n == 0 then Cat(DCOLON, tail)
    else if n == 1 then Cat(Opt(H16), Cat(DCOLON, tail))
    else Cat(Head(n - 1), Cat(DCOLON, tail))
  }

  ghost predicate CompressedAt(n: nat, s: string)
    requires n <= 5
  {
    M(Compressed(n, Tail(5 - n)), s, "")
  }

  lemma GrammarAlternatives(s: string)
    ensures M(IPV6_ADDRESS, s, "") <==>
              || M(Tail(6), s, "")
              || (exists n: nat :: n <= 5 && CompressedAt(n, s))
              || M(Compressed(6, H16), s, "")
              || M(Cat(Head(6), DCOLON), s, "")
  {
    hide Matches;
    var r := IPV6_ADDRESS;
    AltMatches(Empty, 0, r.a, r.b, s, "");
    AltMatches(Empty, 0, r.b.a, r.b.b, s, "");
    AltMatches(Empty, 0, r.b.b.a, r.b.b.b, s, "");
    AltMatches(Empty, 0, r.b.b.b.a, r.b.b.b.b, s, "");
    AltMatches(Empty, 0, r.b.b.b.b.a, r.b.b.b.b.b, s, "");
    AltMatches(Empty, 0, r.b.b.b.b.b.a, r.b.b.b.b.b.b, s, "");
    AltMatches(Empty, 0, r.b.b.b.b.b.b.a, r.b.b.b.b.b.b.b, s, "");
    AltMatches(Empty, 0, r.b.b.b.b.b.b.b.a, r.b.b.b.b.b.b.b.b, s, "");
    assert r.a == Tail(6) && r.b.a == Compressed(0, Tail(5)) && r.b.b.a == Compressed(1, Tail(4));
    assert r.b.b.b.a == Compressed(2, Tail(3)) && r.b.b.b.b.a == Compressed(3, Tail(2));
    assert r.b.b.b.b.b.a == Compressed(4, Tail(1)) && r.b.b.b.b.b.b.a == Compressed(5, Tail(0));
    assert CompressedAt(0, s) || CompressedAt(1, s) || CompressedAt(2, s) || CompressedAt(3, s)
        || CompressedAt(4, s) || CompressedAt(5, s)
        || forall n: nat :: n <= 5 ==> !CompressedAt(n, s);
  }

  lemma Ls32Elim(s: string, rest: string) returns (hex: bool, x: string, y: string)
    requires M(LS32, s, rest)
    ensures if hex then Group(x) && Group(y) && s == x + (":" + y) else IsV4(s)
  {
    hide IsV4;
    AltMatches(Empty, 0, LS32.a, LS32.b, s, rest);
    x, y := "", "";
    hex := M(LS32.a, s, rest);
    if hex {
      var t: string;
      x, t := CatElim(Empty, 0, H16, Cat(COLON, H16), s, rest);
      GroupMatches(x, t + rest);
      var c: string;
      c, y := CatElim(Empty, 0, COLON, H16, t, rest);
      ColonMatches(c, y + rest);
      GroupMatches(y, rest);
    } else {
      V4Address(s, rest);
    }
  }

  lemma Ls32Hex(x: string, y: string, rest: string)
    requires Group(x) && Group(y)
    ensures M(LS32, x + (":" + y), rest)
  {
    hide Matches;
    GroupMatches(y, rest);
    ColonMatches(":", y + rest);
    CatIntro(Empty, 0, COLON, H16, ":", y, rest);
    GroupMatches(x, (":" + y) + rest);
    CatIntro(Empty, 0, H16, Cat(COLON, H16), x, ":" + y, rest);
    AltMatches(Empty, 0, LS32.a, LS32.b, x + (":" + y), rest);
  }

  lemma Ls32V4(v: string, rest: string)
    requires IsV4(v)
    ensures M(LS32, v, rest)
  {
    hide IsV4;
    V4Address(v, rest);
    AltMatches(Empty, 0, LS32.a, LS32.b, v, rest);
  }

  /** The tail is `m` groups with colons, then an ls32. */
  lemma TailSplit(m: nat, s: string, rest: string) returns (zs: seq<string>, t: string)
    requires M(Tail(m), s, rest)
    ensures |zs| == m && Groups(zs) && s == Pre(zs) + t && M(LS32, t, rest)
  {
    hide Matches, Times;
    if m == 0 {
      zs, t := [], s;
    } else if m == 1 {
      var u: string;
      u, t := CatElim(Empty, 0, H16C, LS32, s, rest);
      GroupColon(u, t + rest);
      zs := [u[..|u| - 1]];
      assert u == u[..|u| - 1] + ":" && zs[1..] == [];
    } else {
      var u: string;
      u, t := CatElim(Empty, 0, Rep(H16C, m, m), LS32, s, rest);
      zs := RepPreElim(m, m, u, t + rest);
    }
  }

  lemma TailJoin(zs: seq<string>, t: string, rest: string)
    requires Groups(zs) && M(LS32, t, rest)
    ensures M(Tail(|zs|), Pre(zs) + t, rest)
  {
    hide Matches, Times;
    if |zs| == 0 {
      assert Pre(zs) + t == t;
    } else if |zs| == 1 {
      var u := zs[0] + ":";
      assert u[..|u| - 1] == zs[0] && zs[1..] == [] && Pre(zs) == u;
      GroupColon(u, t + rest);
      CatIntro(Empty, 0, H16C, LS32, u, t, rest);
    } else {
      RepPreIntro(|zs|, |zs|, zs, t + rest);
      CatIntro(Empty, 0, Rep(H16C, |zs|, |zs|), LS32, Pre(zs), t, rest);
    }
  }

  lemma JoinTwoMore(zs: seq<string>, x: string, y: string)
    ensures Pre(zs) + (x + (":" + y)) == Join(zs + [x, y])
  {
    PreThen(zs + [x], y);
    assert zs + [x] + [y] == zs + [x, y];
    PreCat(zs, [x]);
    PreOne(x);
    hide Pre, Join;
    ThreeCat(Pre(zs), x, y);
  }

  lemma PreOne(x: string)
    ensures Pre([x]) == x + ":"
  {
    assert [x][1..] == [];
  }

  lemma ThreeCat(p: string, x: string, y: string)
    ensures p + (x + (":" + y)) == (p + (x + ":")) + y
  {
  }

  /** A tail is the text of m + 2 groups, or of m groups and a dotted quad. */
  lemma TailElim(m: nat, s: string) returns (hex: bool, ys: seq<string>, v: string)
    requires M(Tail(m), s, "")
    ensures Groups(ys)
    ensures if hex then |ys| == m + 2 && s == Join(ys) else |ys| == m && IsV4(v) && s == Pre(ys) + v
  {
    hide Matches, Tail, IsV4, Group;
    var zs, t := TailSplit(m, s, "");
    var x, y: string;
    hex, x, y := Ls32Elim(t, "");
    if hex {
      ys, v := zs + [x, y], "";
      JoinTwoMore(zs, x, y);
    } else {
      ys, v := zs, t;
    }
  }

  lemma TailHex(ys: seq<string>)
    requires Groups(ys) && |ys| >= 2
    ensures M(Tail(|ys| - 2), Join(ys), "")
  {
    hide Matches, Tail, Group;
    var zs, x, y := ys[..|ys| - 2], ys[|ys| - 2], ys[|ys| - 1];
    assert ys == zs + [x, y];
    JoinTwoMore(zs, x, y);
    Ls32Hex(x, y, "");
    TailJoin(zs, x + (":" + y), "");
  }

  lemma TailV4(ys: seq<string>, v: string)
    requires Groups(ys) && IsV4(v)
    ensures M(Tail(|ys|), Pre(ys) + v, "")
  {
    Ls32V4(v, "");
    TailJoin(ys, v, "");
  }

  // Heads: at most n groups, joined.

  lemma OptElim(r: Regex, s: string, rest: string)
    requires M(Opt(r), s, rest)
    ensures s == "" || M(r, s, rest)
  {
    var n := RepElim(Empty, 0, r, 0, 1, s, rest);
    if n == 1 {
      var x, t := TimesElim(Empty, 0, r, 1, s, rest);
      TimesZero(Empty, 0, r, t, rest);
      assert x == s && t + rest == rest;
    }
  }

  lemma OptIntro(r: Regex, s: string, rest: string)
    requires s == "" || M(r, s, rest)
    ensures M(Opt(r), s, rest)
  {
    if s == "" {
      TimesZero(Empty, 0, r, s, rest);
      RepIntro(r, 0, 1, 0, s, rest);
    } else {
      TimesZero(Empty, 0, r, "", rest);
      assert "" + rest == rest && s + "" == s;
      TimesIntro(Empty, 0, r, 0, s, "", rest);
      RepIntro(r, 0, 1, 1, s, rest);
    }
  }

  lemma HeadElim(k: nat, s: string, rest: string) returns (xs: seq<string>)
    requires M(Head(k), s, rest)
    ensures |xs| <= k + 1 && Groups(xs) && s == Join(xs)
  {
    hide Matches, Times, Group;
    OptElim(Cat(Rep(H16C, 0, k), H16), s, rest);
    if s == "" {
      xs := [];
    } else {
      var u, h := CatElim(Empty, 0, Rep(H16C, 0, k), H16, s, rest);
      GroupMatches(h, rest);
      var zs := RepPreElim(0, k, u, h + rest);
      PreThen(zs, h);
      xs := zs + [h];
    }
  }

  lemma HeadIntro(k: nat, xs: seq<string>, rest: string)
    requires |xs| <= k + 1 && Groups(xs)
    ensures M(Head(k), Join(xs), rest)
  {
    hide Matches, Times, Group;
    if xs != [] {
      var zs, h := xs[..|xs| - 1], xs[|xs| - 1];
      assert xs == zs + [h];
      PreThen(zs, h);
      RepPreIntro(0, k, zs, h + rest);
      GroupMatches(h, rest);
      CatIntro(Empty, 0, Rep(H16C, 0, k), H16, Pre(zs), h, rest);
    }
    OptIntro(Cat(Rep(H16C, 0, k), H16), Join(xs), rest);
  }

  lemma DColonTail(tail: Regex, s: string, rest: string) returns (t: string)
    requires M(Cat(DCOLON, tail), s, rest)
    ensures s == "::" + t && M(tail, t, rest)
  {
    var c: string;
    c, t := CatElim(Empty, 0, DCOLON, tail, s, rest);
    CatChars({':'}, {':'}, c, t + rest);
    assert c == "::";
  }

  lemma DColonIntro(tail: Regex, t: string, rest: string)
    requires M(tail, t, rest)
    ensures M(Cat(DCOLON, tail), "::" + t, rest)
  {
    CatChars({':'}, {':'}, "::", t + rest);
    CatIntro(Empty, 0, DCOLON, tail, "::", t, rest);
  }

  lemma CompressedElim(n: nat, tail: Regex, s: string) returns (xs: seq<string>, t: string)
    requires M(Compressed(n, tail), s, "")
    ensures |xs| <= n && Groups(xs) && s == Join(xs) + ("::" + t) && M(tail, t, "")
  {
    hide Matches, Times, Group;
    if n == 0 {
      xs := [];
      t := DColonTail(tail, s, "");
    } else if n == 1 {
      var u, v := CatElim(Empty, 0, Opt(H16), Cat(DCOLON, tail), s, "");
      t := DColonTail(tail, v, "");
      OptElim(H16, u, v + "");
      if u == "" {
        xs := [];
      } else {
        GroupMatches(u, v + "");
        xs := [u];
        assert xs[1..] == [];
      }
    } else {
      var u, v := CatElim(Empty, 0, Head(n - 1), Cat(DCOLON, tail), s, "");
      t := DColonTail(tail, v, "");
      xs := HeadElim(n - 1, u, v + "");
    }
  }

  lemma CompressedIntro(n: nat, tail: Regex, xs: seq<string>, t: string)
    requires |xs| <= n && Groups(xs) && M(tail, t, "")
    ensures M(Compressed(n, tail), Join(xs) + ("::" + t), "")
  {
    hide Matches, Times, Group;
    DColonIntro(tail, t, "");
    var v := "::" + t;
    if n == 0 {
      assert Join(xs) + v == v;
    } else if n == 1 {
      if xs != [] {
        assert xs[1..] == [] && Join(xs) == xs[0];
        GroupMatches(xs[0], v + "");
      }
      OptIntro(H16, Join(xs), v + "");
      CatIntro(Empty, 0, Opt(H16), Cat(DCOLON, tail), Join(xs), v, "");
    } else {
      HeadIntro(n - 1, xs, v + "");
      CatIntro(Empty, 0, Head(n - 1), Cat(DCOLON, tail), Join(xs), v, "");
    }
  }

  lemma CompressedIsAddress(n: nat, s: string)
    requires n <= 5 && CompressedAt(n, s)
    ensures IsAddress(s)
  {
    hide Matches, Compressed, Tail, IsV4, Group;
    var xs, t := CompressedElim(n, Tail(5 - n), s);
    var hex, ys, v := TailElim(5 - n, t);
    if hex {
      assert s == Text(Short(xs, ys)) && Ok(Short(xs, ys));
    } else {
      assert s == Text(ShortV4(xs, ys, v)) && Ok(ShortV4(xs, ys, v));
    }
  }

  lemma GrammarIsAddress(s: string)
    requires M(IPV6_ADDRESS, s, "")
    ensures IsAddress(s)
  {
    hide Matches, Compressed, Tail, IsV4, Group;
    GrammarAlternatives(s);
    if M(Tail(6), s, "") {
      var hex, ys, v := TailElim(6, s);
      assert Ok(if hex then Full(ys) else FullV4(ys, v));
      assert s == Text(if hex then Full(ys) else FullV4(ys, v));
    } else if n: nat :| n <= 5 && CompressedAt(n, s) {
      CompressedIsAddress(n, s);
    } else if M(Compressed(6, H16), s, "") {
      var xs, t := CompressedElim(6, H16, s);
      GroupMatches(t, "");
      assert [t][1..] == [] && Join([t]) == t;
      assert s == Text(Short(xs, [t])) && Ok(Short(xs, [t]));
    } else {
      var u, c := CatElim(Empty, 0, Head(6), DCOLON, s, "");
      var xs := HeadElim(6, u, c + "");
      CatChars({':'}, {':'}, c, "");
      assert c == "::" + Join([]);
      assert s == Text(Short(xs, [])) && Ok(Short(xs, []));
    }
  }

  lemma ShortInGrammar(xs: seq<string>, ys: seq<string>)
    requires Ok(Short(xs, ys))
    ensures M(IPV6_ADDRESS, Text(Short(xs, ys)), "")
  {
    hide Matches, Compressed, Tail, Group;
    var s := Text(Short(xs, ys));
    GrammarAlternatives(s);
    if |ys| == 0 {
      HeadIntro(6, xs, "::" + "");
      CatChars({':'}, {':'}, "::", "");
      CatIntro(Empty, 0, Head(6), DCOLON, Join(xs), "::", "");
      assert s == Join(xs) + "::";
    } else if |ys| == 1 {
      assert ys[1..] == [] && Join(ys) == ys[0];
      GroupMatches(ys[0], "");
      CompressedIntro(6, H16, xs, ys[0]);
    } else {
      TailHex(ys);
      var n := 5 - (|ys| - 2);
      CompressedIntro(n, Tail(|ys| - 2), xs, Join(ys));
      assert CompressedAt(n, s);
    }
  }

  lemma AddressIsInGrammar(a: Address)
    requires Ok(a)
    ensures M(IPV6_ADDRESS, Text(a), "")
  {
    hide Matches, Compressed, Tail, Group, IsV4;
    var s := Text(a);
    GrammarAlternatives(s);
    match a {
      case Full(xs) => TailHex(xs);
      case FullV4(xs, v) => TailV4(xs, v);
      case Short(xs, ys) => ShortInGrammar(xs, ys);
      case ShortV4(xs, ys, v) =>
        TailV4(ys, v);
        CompressedIntro(5 - |ys|, Tail(|ys|), xs, Pre(ys) + v);
        assert CompressedAt(5 - |ys|, s);
    }
  }

  /** The program's pattern, its ten alternatives with bounded repetition, colon-counting lookaheads and embedded
      dotted quads, accepts exactly the IPv6address texts of RFC 3986. */
  lemma Ipv6PatternIsRfc3986(s: string)
    ensures M(IPV6, s, "") <==> M(IPV6_ADDRESS, s, "")
    ensures M(IPV6, s, "") <==> IsAddress(s)
  {
    hide Matches, Ok, Text;
    if M(IPV6, s, "") {
      PatternIsAddress(s, "");
    }
    if M(IPV6_ADDRESS, s, "") {
      GrammarIsAddress(s);
    }
    if a :| Ok(a) && s == Text(a) {
      AddressIsMatched(a, "");
      AddressIsInGrammar(a);
    }
  }

  /** The same for IPv4 addresses. */
  lemma Ipv4PatternIsRfc3986(s: string)
    ensures M(IPV4, s, "") <==> M(IPV4_ADDRESS, s, "")
    ensures M(IPV4, s, "") <==> IsV4(s)
  {
    hide Matches, IsV4;
    V4Address(s, "");
    if M(IPV4, s, "") {
      V4Elim(s, "");
    }
    if IsV4(s) {
      V4Intro(s, "");
    }
  }

  /** In running text: an address is matched if and only if no dot, colon or hexadecimal digit follows, so
      "dead:beef::1" is not found in "dead:beef::1.2.3.4".  The colon-counting lookaheads do not see past its end. */
  lemma Ipv6InContext(s: string, rest: string)
    ensures M(IPV6, s, rest) <==> IsAddress(s) && EndsAddress(rest)
  {
    hide Matches, Ok, Text, EndsAddress;
    if M(IPV6, s, rest) {
      PatternIsAddress(s, rest);
    }
    if IsAddress(s) && EndsAddress(rest) {
      var a :| Ok(a) && s == Text(a);
      AddressIsMatched(a, rest);
    }
  }

  /** The same for IPv4: if and only if no digit follows, so "192.168.1.1" is not found in "192.168.1.123". */
  lemma Ipv4InContext(s: string, rest: string)
    ensures M(IPV4, s, rest) <==> IsV4(s) && EndsDigits(rest)
  {
    hide Matches, IsV4;
    if M(IPV4, s, rest) {
      V4Elim(s, rest);
    }
    if IsV4(s) && EndsDigits(rest) {
      V4Intro(s, rest);
    }
  }
}
