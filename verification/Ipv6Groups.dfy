/** The groups of an IPv6 address as hexadecimal numbers, in either case. */
module Ipv6Groups {
  import opened Regex
  import opened Addresses
  import opened Ipv6

  // ------------------------------------------------------------------------------------------------
  // Groups by value
  // ------------------------------------------------------------------------------------------------

  /** HEXDIG of RFC 5234, whose letters stand for both cases: its value, or -1. */
  function DigitOf(c: char): int {
    if '0' <= c <= '9' then c as int - '0' as int
    else if 'a' <= c <= 'f' then c as int - 'a' as int + 10
    else if 'A' <= c <= 'F' then c as int - 'A' as int + 10
    else -1
  }

  ghost predicate IsHex(s: string) {
    forall i :: 0 <= i < |s| ==> DigitOf(s[i]) >= 0
  }

  function ValueOf(s: string): nat
    requires IsHex(s)
  {
    if s == "" then 0 else 16 * ValueOf(s[..|s| - 1]) + DigitOf(s[|s| - 1])
  }

  /** A number in hexadecimal, without superfluous zeros. */
  function HexText(n: nat, upper: bool): (s: string)
    ensures s != ""
  {
    var d := (if upper then "0123456789ABCDEF" else "0123456789abcdef")[n % 16];
    if n < 16 then [d] else HexText(n / 16, upper) + [d]
  }

  lemma DigitIs(n: nat)
    requires n < 16
    ensures DigitOf("0123456789ABCDEF"[n]) == n && DigitOf("0123456789abcdef"[n]) == n
  {
  }

  lemma {:induction false} HexTextValue(n: nat, upper: bool)
    ensures IsHex(HexText(n, upper)) && ValueOf(HexText(n, upper)) == n
    decreases n
  {
    hide DigitOf;
    DigitIs(n % 16);
    var s := HexText(n, upper);
    var init := s[..|s| - 1];
    if n < 16 {
      assert init == "";
    } else {
      HexTextValue(n / 16, upper);
      assert init == HexText(n / 16, upper);
    }
  }

  lemma {:induction false} ShortText(n: nat, upper: bool)
    ensures n < 16 ==> |HexText(n, upper)| == 1
    ensures n < 256 ==> |HexText(n, upper)| <= 2
    ensures n < 4096 ==> |HexText(n, upper)| <= 3
    ensures n < 65536 ==> |HexText(n, upper)| <= 4
    decreases n
  {
    if n >= 16 {
      ShortText(n / 16, upper);
    }
  }

  lemma HexIff(c: char)
    ensures c in HEX_DIGITS <==> DigitOf(c) >= 0
  {
  }

  lemma {:induction false} ValueBound(s: string)
    requires IsHex(s) && |s| <= 4
    ensures ValueOf(s) < if |s| == 0 then 1 else if |s| == 1 then 16 else if |s| == 2 then 256
                         else if |s| == 3 then 4096 else 65536
    decreases |s|
  {
    if s != "" {
      ValueBound(s[..|s| - 1]);
    }
  }

  /** A group is one to four hexadecimal digits, and so a number of 16 bits. */
  lemma GroupHasValue(s: string, rest: string)
    ensures M(S6, s, rest) <==> 1 <= |s| <= 4 && IsHex(s)
    ensures M(S6, s, rest) ==> ValueOf(s) < 65536
  {
    GroupMatches(s, rest);
    forall i | 0 <= i < |s|
      ensures s[i] in HEX_DIGITS <==> DigitOf(s[i]) >= 0
    {
      HexIff(s[i]);
    }
    hide DigitOf, Matches;
    if 1 <= |s| <= 4 && IsHex(s) {
      ValueBound(s);
    }
  }

  /** Every number of 16 bits is a group, in lower and in upper case. */
  lemma ValueHasGroup(n: nat, upper: bool, rest: string)
    requires n < 65536
    ensures M(S6, HexText(n, upper), rest)
    ensures IsHex(HexText(n, upper)) && ValueOf(HexText(n, upper)) == n
  {
    hide Matches, HexText, ValueOf, DigitOf;
    HexTextValue(n, upper);
    ShortText(n, upper);
    GroupHasValue(HexText(n, upper), rest);
  }

  // ------------------------------------------------------------------------------------------------
  // Upper and lower case
  // ------------------------------------------------------------------------------------------------

  /** The letters A to F in lower case. */
  function Fold(c: char): char {
    if 'A' <= c <= 'F' then (c as int + 32) as char else c
  }

  /** The same text up to the case of the letters A to F. */
  ghost predicate Alike(s: string, t: string) {
    |s| == |t| && forall i :: 0 <= i < |s| ==> Fold(s[i]) == Fold(t[i])
  }

  lemma AlikeParts(a: string, b: string, t: string) returns (x: string, y: string)
    requires Alike(a + b, t)
    ensures t == x + y && Alike(a, x) && Alike(b, y)
  {
    x, y := t[..|a|], t[|a|..];
    forall i | 0 <= i < |a|
      ensures Fold(a[i]) == Fold(x[i])
    {
      assert (a + b)[i] == a[i] && t[i] == x[i];
    }
    forall i | 0 <= i < |b|
      ensures Fold(b[i]) == Fold(y[i])
    {
      assert (a + b)[|a| + i] == b[i] && t[|a| + i] == y[i];
    }
  }

  /** A text without letters is alike to itself only. */
  lemma AlikeFixed(s: string, t: string)
    requires Alike(s, t) && forall i :: 0 <= i < |s| ==> s[i] < 'A'
    ensures s == t
  {
    forall i | 0 <= i < |s|
      ensures s[i] == t[i]
    {
      assert Fold(s[i]) == Fold(t[i]);
    }
  }

  lemma AlikeGroup(g: string, t: string)
    requires Group(g) && Alike(g, t)
    ensures Group(t)
  {
    forall i | 0 <= i < |t|
      ensures t[i] in HEX_DIGITS
    {
      assert g[i] in HEX_DIGITS && Fold(g[i]) == Fold(t[i]);
    }
  }

  lemma AlikeV4(v: string, t: string)
    requires IsV4(v) && Alike(v, t)
    ensures IsV4(t)
  {
    var a, b, c, e :| IsOctet(a) && IsOctet(b) && IsOctet(c) && IsOctet(e) && v == Quad(a, b, c, e);
    AlikeFixed(v, t);
  }

  lemma {:induction false} AlikePre(xs: seq<string>, t: string) returns (ys: seq<string>)
    requires Groups(xs) && Alike(Pre(xs), t)
    ensures |ys| == |xs| && Groups(ys) && t == Pre(ys)
    decreases |xs|
  {
    if xs == [] {
      ys := [];
    } else {
      hide Alike, Group;
      var u, v := AlikeParts(xs[0] + ":", Pre(xs[1..]), t);
      var g, c := AlikeParts(xs[0], ":", u);
      AlikeFixed(":", c);
      AlikeGroup(xs[0], g);
      var zs := AlikePre(xs[1..], v);
      ys := [g] + zs;
      assert ys[1..] == zs;
    }
  }

  lemma {:induction false} AlikePost(xs: seq<string>, t: string) returns (ys: seq<string>)
    requires Groups(xs) && Alike(Post(xs), t)
    ensures |ys| == |xs| && Groups(ys) && t == Post(ys)
    decreases |xs|
  {
    if xs == [] {
      ys := [];
    } else {
      hide Alike, Group;
      var u, v := AlikeParts(":" + xs[0], Post(xs[1..]), t);
      var c, g := AlikeParts(":", xs[0], u);
      AlikeFixed(":", c);
      AlikeGroup(xs[0], g);
      var zs := AlikePost(xs[1..], v);
      ys := [g] + zs;
      assert ys[1..] == zs;
    }
  }

  lemma AlikeJoin(xs: seq<string>, t: string) returns (ys: seq<string>)
    requires Groups(xs) && Alike(Join(xs), t)
    ensures |ys| == |xs| && Groups(ys) && t == Join(ys)
  {
    if xs == [] {
      ys := [];
    } else {
      hide Alike, Group, Post;
      var g, v := AlikeParts(xs[0], Post(xs[1..]), t);
      AlikeGroup(xs[0], g);
      var zs := AlikePost(xs[1..], v);
      ys := [g] + zs;
      assert ys[1..] == zs;
    }
  }

  lemma AlikeShort(xs: seq<string>, tail: string, t: string) returns (ys: seq<string>, u: string)
    requires Groups(xs) && Alike(Join(xs) + ("::" + tail), t)
    ensures |ys| == |xs| && Groups(ys) && t == Join(ys) + ("::" + u) && Alike(tail, u)
  {
    hide Alike, Group, Join;
    var a, b := AlikeParts(Join(xs), "::" + tail, t);
    ys := AlikeJoin(xs, a);
    var c: string;
    c, u := AlikeParts("::", tail, b);
    AlikeFixed("::", c);
  }

  lemma AlikeTail(xs: seq<string>, v: string, t: string) returns (ys: seq<string>, w: string)
    requires Groups(xs) && IsV4(v) && Alike(Pre(xs) + v, t)
    ensures |ys| == |xs| && Groups(ys) && IsV4(w) && t == Pre(ys) + w
  {
    hide Alike, Group, Pre, IsV4;
    var a, b := AlikeParts(Pre(xs), v, t);
    ys := AlikePre(xs, a);
    AlikeV4(v, b);
    w := b;
  }

  lemma AlikeAddress(a: Address, t: string)
    requires Ok(a) && Alike(Text(a), t)
    ensures IsAddress(t)
  {
    hide Alike, Group, Pre, Post, Join, IsV4;
    match a
    case Full(xs) =>
      var ys := AlikeJoin(xs, t);
      assert Ok(Full(ys)) && t == Text(Full(ys));
    case FullV4(xs, v) =>
      var ys, w := AlikeTail(xs, v, t);
      assert Ok(FullV4(ys, w)) && t == Text(FullV4(ys, w));
    case Short(xs, zs) =>
      var ys, u := AlikeShort(xs, Join(zs), t);
      var us := AlikeJoin(zs, u);
      assert Ok(Short(ys, us)) && t == Text(Short(ys, us));
    case ShortV4(xs, zs, v) =>
      var ys, u := AlikeShort(xs, Pre(zs) + v, t);
      var us, w := AlikeTail(zs, v, u);
      assert Ok(ShortV4(ys, us, w)) && t == Text(ShortV4(ys, us, w));
  }

  /** The case of the letters A to F never decides whether a text is an address, whatever follows it. */
  lemma CaseDoesNotMatter(s: string, t: string, rest: string)
    requires Alike(s, t)
    ensures M(IPV6, s, rest) <==> M(IPV6, t, rest)
    ensures M(IPV6_ADDRESS, s, "") <==> M(IPV6_ADDRESS, t, "")
  {
    assert Alike(t, s);
    hide Matches, Alike, Ok, Text, EndsAddress;
    Ipv6InContext(s, rest);
    Ipv6InContext(t, rest);
    Ipv6PatternIsRfc3986(s);
    Ipv6PatternIsRfc3986(t);
    if a :| Ok(a) && s == Text(a) {
      AlikeAddress(a, t);
    }
    if a :| Ok(a) && t == Text(a) {
      AlikeAddress(a, s);
    }
  }
}
