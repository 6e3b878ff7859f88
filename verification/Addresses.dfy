/** The IP address patterns of the URL matcher against the grammar of section 3.2.2 of RFC 3986. */
module Addresses {
  import opened Common
  import opened Regex

  // ------------------------------------------------------------------------------------------------
  // The patterns of the program
  // ------------------------------------------------------------------------------------------------

  const DIGITS: set<char> := set c: char | '0' <= c <= '9'
  const HEX_DIGITS: set<char> := set c: char | '0' <= c <= '9' || 'a' <= c <= 'f' || 'A' <= c <= 'F'

  const DIGIT: Regex := Chars(DIGITS)
  const HEX: Regex := Chars(HEX_DIGITS)
  const COLON: Regex := Chars({':'})
  const DOT: Regex := Chars({'.'})

  predicate Between(lo: char, c: char, hi: char) { lo <= c <= hi }

  function Range(lo: char, hi: char): Regex {
    Chars(set c: char | Between(lo, c, hi))
  }

  /** [0-9] | [1-9][0-9] | 1[0-9]{2} | 2[0-4][0-9] | 25[0-5] */
  const OCTET: Regex :=
    Alt(DIGIT,
    Alt(Cat(Range('1', '9'), DIGIT),
    Alt(Cat(Chars({'1'}), Rep(DIGIT, 2, 2)),
    Alt(Cat(Chars({'2'}), Cat(Range('0', '4'), DIGIT)),
        Cat(Chars({'2'}), Cat(Chars({'5'}), Range('0', '5')))))))

  const S4: Regex := Cat(OCTET, NotAhead(DIGIT))
  const IPV4: Regex := Cat(Rep(Cat(S4, DOT), 3, 3), S4)

  const S6: Regex := Rep(HEX, 1, 4)
  const CS6: Regex := Cat(COLON, S6)
  const S6C: Regex := Cat(S6, COLON)

  /** (?! (?: [[:xdigit:]]*: ){n} ) */
  function FewerColonsThan(n: nat): Regex {
    NotAhead(Rep(Cat(Star(HEX), COLON), n, n))
  }

  const IPV6_FULL: Regex := Cat(Rep(S6C, 7, 7), S6)
  const IPV6_LEFT: Regex := Cat(COLON, Rep(CS6, 1, 7))
  const IPV6_MID: Regex := Cat(FewerColonsThan(8), Cat(Rep(S6C, 1, 6), Rep(CS6, 1, 6)))
  const IPV6_RIGHT: Regex := Cat(Rep(S6C, 1, 7), COLON)
  const IPV6_NULL: Regex := Cat(COLON, COLON)

  const IPV6V4_FULL: Regex := Rep(S6C, 6, 6)
  const IPV6V4_LEFT: Regex := Cat(COLON, Cat(COLON, Rep(S6C, 0, 5)))
  const IPV6V4_MID: Regex := Cat(Cat(FewerColonsThan(7), Cat(Rep(S6C, 1, 4), Rep(CS6, 1, 4))), COLON)
  const IPV6V4_RIGHT: Regex := Cat(Rep(S6C, 1, 5), COLON)

  const IPV6V4: Regex := Alt(IPV6V4_FULL, Alt(IPV6V4_LEFT, Alt(IPV6V4_MID, IPV6V4_RIGHT)))

  const IPV6_BODY: Regex :=
    Alt(IPV6_NULL, Alt(IPV6_LEFT, Alt(IPV6_MID, Alt(IPV6_RIGHT, Alt(IPV6_FULL, Cat(IPV6V4, IPV4))))))

  const IPV6: Regex := Cat(IPV6_BODY, NotAhead(Chars(HEX_DIGITS + {'.', ':'})))

  // ------------------------------------------------------------------------------------------------
  // The grammar of RFC 3986
  // ------------------------------------------------------------------------------------------------

  function Opt(r: Regex): Regex { Rep(r, 0, 1) }

  /** dec-octet: DIGIT / 1-9 DIGIT / "1" 2DIGIT / "2" 0-4 DIGIT / "25" 0-5 */
  const DEC_OCTET: Regex :=
    Alt(DIGIT,
    Alt(Cat(Range('1', '9'), DIGIT),
    Alt(Cat(Chars({'1'}), Rep(DIGIT, 2, 2)),
    Alt(Cat(Chars({'2'}), Cat(Range('0', '4'), DIGIT)),
        Cat(Cat(Chars({'2'}), Chars({'5'})), Range('0', '5'))))))

  const IPV4_ADDRESS: Regex :=
    Cat(DEC_OCTET, Cat(DOT, Cat(DEC_OCTET, Cat(DOT, Cat(DEC_OCTET, Cat(DOT, DEC_OCTET))))))

  const H16: Regex := Rep(HEX, 1, 4)
  const H16C: Regex := Cat(H16, COLON)
  const LS32: Regex := Alt(Cat(H16, Cat(COLON, H16)), IPV4_ADDRESS)
  const DCOLON: Regex := Cat(COLON, COLON)

  /** [ *k( h16 ":" ) h16 ] */
  function Head(k: nat): Regex { Opt(Cat(Rep(H16C, 0, k), H16)) }

  const IPV6_ADDRESS: Regex :=
    Alt(Cat(Rep(H16C, 6, 6), LS32),
    Alt(Cat(DCOLON, Cat(Rep(H16C, 5, 5), LS32)),
    Alt(Cat(Opt(H16), Cat(DCOLON, Cat(Rep(H16C, 4, 4), LS32))),
    Alt(Cat(Head(1), Cat(DCOLON, Cat(Rep(H16C, 3, 3), LS32))),
    Alt(Cat(Head(2), Cat(DCOLON, Cat(Rep(H16C, 2, 2), LS32))),
    Alt(Cat(Head(3), Cat(DCOLON, Cat(H16C, LS32))),
    Alt(Cat(Head(4), Cat(DCOLON, LS32)),
    Alt(Cat(Head(5), Cat(DCOLON, H16)),
        Cat(Head(6), DCOLON)))))))))

  /** Whole-string membership of a pattern without calls. */
  ghost predicate M(r: Regex, s: string, rest: string) {
    Matches(Empty, 0, r, s, rest)
  }

  ghost predicate MT(r: Regex, n: nat, s: string, rest: string) {
    Times(Empty, 0, r, n, s, rest)
  }

  // ------------------------------------------------------------------------------------------------
  // Decimal octets
  // ------------------------------------------------------------------------------------------------

  /** A decimal numeral without superfluous zeros, of value at most 255. */
  ghost predicate IsOctet(s: string) {
    && 1 <= |s| <= 3
    && (forall i :: 0 <= i < |s| ==> '0' <= s[i] <= '9')
    && (|s| > 1 ==> s[0] != '0')
    && Number(s) <= 255
  }

  lemma Value1(s: string)
    requires |s| == 1 && '0' <= s[0] <= '9'
    ensures Number(s) == s[0] as int - '0' as int
  {
    assert s[..0] == "";
  }

  lemma Value2(s: string)
    requires |s| == 2 && '0' <= s[0] <= '9' && '0' <= s[1] <= '9'
    ensures Number(s) == 10 * (s[0] as int - '0' as int) + (s[1] as int - '0' as int)
  {
    Value1(s[..1]);
  }

  lemma Value3(s: string)
    requires |s| == 3 && '0' <= s[0] <= '9' && '0' <= s[1] <= '9' && '0' <= s[2] <= '9'
    ensures Number(s) == 100 * (s[0] as int - '0' as int) + 10 * (s[1] as int - '0' as int) + (s[2] as int - '0' as int)
  {
    Value2(s[..2]);
  }

  lemma CatChars(a: set<char>, b: set<char>, s: string, rest: string)
    ensures M(Cat(Chars(a), Chars(b)), s, rest) <==> |s| == 2 && s[0] in a && s[1] in b
  {
    if M(Cat(Chars(a), Chars(b)), s, rest) {
      var x, y := CatElim(Empty, 0, Chars(a), Chars(b), s, rest);
    }
    if |s| == 2 && s[0] in a && s[1] in b {
      CatIntro(Empty, 0, Chars(a), Chars(b), [s[0]], [s[1]], rest);
      assert s == [s[0]] + [s[1]];
    }
  }

  lemma CharThen(a: set<char>, r: Regex, s: string, rest: string)
    ensures M(Cat(Chars(a), r), s, rest) <==> s != "" && s[0] in a && M(r, s[1..], rest)
  {
    if M(Cat(Chars(a), r), s, rest) {
      var x, y := CatElim(Empty, 0, Chars(a), r, s, rest);
      assert y == s[1..];
    }
    if s != "" && s[0] in a && M(r, s[1..], rest) {
      CatIntro(Empty, 0, Chars(a), r, [s[0]], s[1..], rest);
      assert s == [s[0]] + s[1..];
    }
  }

  lemma ThenChar(r: Regex, b: set<char>, s: string, rest: string)
    ensures M(Cat(r, Chars(b)), s, rest)
            <==> s != "" && s[|s| - 1] in b && M(r, s[..|s| - 1], [s[|s| - 1]] + rest)
  {
    if M(Cat(r, Chars(b)), s, rest) {
      var x, y := CatElim(Empty, 0, r, Chars(b), s, rest);
      assert x == s[..|s| - 1] && y == [s[|s| - 1]];
    }
    if s != "" && s[|s| - 1] in b && M(r, s[..|s| - 1], [s[|s| - 1]] + rest) {
      CatIntro(Empty, 0, r, Chars(b), s[..|s| - 1], [s[|s| - 1]], rest);
      assert s == s[..|s| - 1] + [s[|s| - 1]];
    }
  }

  /** The five alternatives of both octet patterns, character by character. */
  ghost predicate OctetShape(s: string) {
    || (|s| == 1 && '0' <= s[0] <= '9')
    || (|s| == 2 && '1' <= s[0] <= '9' && '0' <= s[1] <= '9')
    || (|s| == 3 && s[0] == '1' && '0' <= s[1] <= '9' && '0' <= s[2] <= '9')
    || (|s| == 3 && s[0] == '2' && '0' <= s[1] <= '4' && '0' <= s[2] <= '9')
    || (|s| == 3 && s[0] == '2' && s[1] == '5' && '0' <= s[2] <= '5')
  }

  lemma OctetShapeIsOctet(s: string)
    ensures OctetShape(s) <==> IsOctet(s)
  {
    if 1 <= |s| <= 3 && forall i :: 0 <= i < |s| ==> '0' <= s[i] <= '9' {
      if |s| == 1 {
        Value1(s);
      } else if |s| == 2 {
        Value2(s);
      } else {
        Value3(s);
      }
    }
  }

  lemma Octet1xx(s: string, rest: string)
    ensures M(Cat(Chars({'1'}), Rep(DIGIT, 2, 2)), s, rest)
            <==> |s| == 3 && s[0] == '1' && '0' <= s[1] <= '9' && '0' <= s[2] <= '9'
  {
    CharThen({'1'}, Rep(DIGIT, 2, 2), s, rest);
    if s != "" {
      RepChars(Empty, 0, DIGITS, 2, 2, s[1..], rest);
      if |s| == 3 && AllIn(s[1..], DIGITS) {
        assert s[1..][0] in DIGITS && s[1..][1] in DIGITS;
      }
    }
  }

  lemma Octet2xx(s: string, rest: string)
    ensures M(Cat(Chars({'2'}), Cat(Range('0', '4'), DIGIT)), s, rest)
            <==> |s| == 3 && s[0] == '2' && '0' <= s[1] <= '4' && '0' <= s[2] <= '9'
  {
    CharThen({'2'}, Cat(Range('0', '4'), DIGIT), s, rest);
    if s != "" {
      CatChars(Range('0', '4').cs, DIGITS, s[1..], rest);
    }
  }

  lemma Octet25x(s: string, rest: string)
    ensures M(Cat(Chars({'2'}), Cat(Chars({'5'}), Range('0', '5'))), s, rest)
            <==> |s| == 3 && s[0] == '2' && s[1] == '5' && '0' <= s[2] <= '5'
    ensures M(Cat(Cat(Chars({'2'}), Chars({'5'})), Range('0', '5')), s, rest)
            <==> |s| == 3 && s[0] == '2' && s[1] == '5' && '0' <= s[2] <= '5'
  {
    CharThen({'2'}, Cat(Chars({'5'}), Range('0', '5')), s, rest);
    if s != "" {
      CatChars({'5'}, Range('0', '5').cs, s[1..], rest);
    }
    ThenChar(Cat(Chars({'2'}), Chars({'5'})), Range('0', '5').cs, s, rest);
    if s != "" {
      CatChars({'2'}, {'5'}, s[..|s| - 1], [s[|s| - 1]] + rest);
    }
  }

  /** Both octet patterns match exactly the decimal numerals from 0 to 255, whatever follows. */
  lemma OctetPatterns(s: string, rest: string)
    ensures M(OCTET, s, rest) <==> IsOctet(s)
    ensures M(DEC_OCTET, s, rest) <==> IsOctet(s)
  {
    CatChars(Range('1', '9').cs, DIGITS, s, rest);
    Octet1xx(s, rest);
    Octet2xx(s, rest);
    Octet25x(s, rest);
    OctetShapeIsOctet(s);
    AltMatches(Empty, 0, OCTET.a, OCTET.b, s, rest);
    AltMatches(Empty, 0, OCTET.b.a, OCTET.b.b, s, rest);
    AltMatches(Empty, 0, OCTET.b.b.a, OCTET.b.b.b, s, rest);
    AltMatches(Empty, 0, OCTET.b.b.b.a, OCTET.b.b.b.b, s, rest);
    DecOctetPattern(s, rest);
  }

  lemma DecOctetPattern(s: string, rest: string)
    ensures M(DEC_OCTET, s, rest) <==> IsOctet(s)
  {
    CatChars(Range('1', '9').cs, DIGITS, s, rest);
    Octet1xx(s, rest);
    Octet2xx(s, rest);
    Octet25x(s, rest);
    OctetShapeIsOctet(s);
    AltMatches(Empty, 0, DEC_OCTET.a, DEC_OCTET.b, s, rest);
    AltMatches(Empty, 0, DEC_OCTET.b.a, DEC_OCTET.b.b, s, rest);
    AltMatches(Empty, 0, DEC_OCTET.b.b.a, DEC_OCTET.b.b.b, s, rest);
    AltMatches(Empty, 0, DEC_OCTET.b.b.b.a, DEC_OCTET.b.b.b.b, s, rest);
  }

  /** S4, with its lookahead, equals dec-octet wherever no further digit follows. */
  lemma S4IsOctet(s: string, rest: string)
    ensures M(S4, s, rest) <==> IsOctet(s) && (rest == "" || rest[0] !in DIGITS)
  {
    if M(S4, s, rest) {
      var a, b := CatElim(Empty, 0, OCTET, NotAhead(DIGIT), s, rest);
      NotAheadChars(Empty, 0, DIGITS, b, rest);
      assert a == s;
      OctetPatterns(s, b + rest);
    }
    if IsOctet(s) && (rest == "" || rest[0] !in DIGITS) {
      OctetPatterns(s, "" + rest);
      NotAheadChars(Empty, 0, DIGITS, "", rest);
      CatIntro(Empty, 0, OCTET, NotAhead(DIGIT), s, "", rest);
      assert s + "" == s;
    }
  }

  // ------------------------------------------------------------------------------------------------
  // Dotted quads
  // ------------------------------------------------------------------------------------------------

  function Quad(a: string, b: string, c: string, e: string): string {
    (a + ".") + ((b + ".") + ((c + ".") + e))
  }

  ghost predicate IsV4(s: string) {
    exists a, b, c, e :: IsOctet(a) && IsOctet(b) && IsOctet(c) && IsOctet(e) && s == Quad(a, b, c, e)
  }

  lemma S4DotElim(n: nat, s: string, rest: string) returns (a: string, t: string)
    requires n > 0 && MT(Cat(S4, DOT), n, s, rest)
    ensures IsOctet(a) && s == (a + ".") + t && MT(Cat(S4, DOT), n - 1, t, rest)
  {
    var x, y := TimesElim(Empty, 0, Cat(S4, DOT), n, s, rest);
    var u, v := CatElim(Empty, 0, S4, DOT, x, y + rest);
    S4IsOctet(u, v + (y + rest));
    a, t := u, y;
    assert v == ".";
  }

  lemma S4DotIntro(n: nat, a: string, t: string, rest: string)
    requires IsOctet(a) && MT(Cat(S4, DOT), n, t, rest)
    ensures MT(Cat(S4, DOT), n + 1, (a + ".") + t, rest)
  {
    assert ("." + (t + rest))[0] == '.' && '.' !in DIGITS;
    S4IsOctet(a, "." + (t + rest));
    CatIntro(Empty, 0, S4, DOT, a, ".", t + rest);
    TimesIntro(Empty, 0, Cat(S4, DOT), n, a + ".", t, rest);
  }

  lemma V4Elim(s: string, rest: string)
    requires M(IPV4, s, rest)
    ensures IsV4(s) && EndsDigits(rest)
  {
    hide Matches, Times, IsOctet;
    var x, e := CatElim(Empty, 0, Rep(Cat(S4, DOT), 3, 3), S4, s, rest);
    var n := RepElim(Empty, 0, Cat(S4, DOT), 3, 3, x, e + rest);
    var a, t := S4DotElim(3, x, e + rest);
    var b, u := S4DotElim(2, t, e + rest);
    var c, v := S4DotElim(1, u, e + rest);
    TimesZero(Empty, 0, Cat(S4, DOT), v, e + rest);
    S4IsOctet(e, rest);
    assert s == Quad(a, b, c, e);
  }

  /** No further digit follows. */
  predicate EndsDigits(rest: string) {
    rest == "" || !('0' <= rest[0] <= '9')
  }

  lemma DottedThree(a: string, b: string, c: string, rest: string)
    requires IsOctet(a) && IsOctet(b) && IsOctet(c)
    ensures M(Rep(Cat(S4, DOT), 3, 3), (a + ".") + ((b + ".") + ((c + ".") + "")), rest)
  {
    hide Matches, Times, IsOctet;
    TimesZero(Empty, 0, Cat(S4, DOT), "", rest);
    S4DotIntro(0, c, "", rest);
    S4DotIntro(1, b, (c + ".") + "", rest);
    S4DotIntro(2, a, (b + ".") + ((c + ".") + ""), rest);
    RepIntro(Cat(S4, DOT), 3, 3, 3, (a + ".") + ((b + ".") + ((c + ".") + "")), rest);
  }

  lemma LastOctet(e: string, rest: string)
    requires IsOctet(e) && EndsDigits(rest)
    ensures M(S4, e, rest)
  {
    hide Matches, IsOctet;
    S4IsOctet(e, rest);
  }

  lemma V4Intro(s: string, rest: string)
    requires IsV4(s) && EndsDigits(rest)
    ensures M(IPV4, s, rest)
  {
    hide Matches, Times, IsOctet, EndsDigits, Quad;
    var a, b, c, e :| IsOctet(a) && IsOctet(b) && IsOctet(c) && IsOctet(e) && s == Quad(a, b, c, e);
    DottedThree(a, b, c, e + rest);
    LastOctet(e, rest);
    var x := (a + ".") + ((b + ".") + ((c + ".") + ""));
    CatIntro(Empty, 0, Rep(Cat(S4, DOT), 3, 3), S4, x, e, rest);
    QuadCat(a, b, c, e);
  }

  lemma QuadCat(a: string, b: string, c: string, e: string)
    ensures Quad(a, b, c, e) == ((a + ".") + ((b + ".") + ((c + ".") + ""))) + e
  {
  }

  lemma RepIntro(r: Regex, lo: nat, hi: nat, n: nat, s: string, rest: string)
    requires lo <= n <= hi && MT(r, n, s, rest)
    ensures M(Rep(r, lo, hi), s, rest)
  {
  }

  /** dec-octet "." R */
  lemma OctetDot(r: Regex, s: string, rest: string) returns (a: string, t: string)
    requires M(Cat(DEC_OCTET, Cat(DOT, r)), s, rest)
    ensures IsOctet(a) && s == (a + ".") + t && M(r, t, rest)
  {
    var x, y := CatElim(Empty, 0, DEC_OCTET, Cat(DOT, r), s, rest);
    OctetPatterns(x, y + rest);
    var u, v := CatElim(Empty, 0, DOT, r, y, rest);
    a, t := x, v;
    assert u == ".";
  }

  lemma OctetDotIntro(r: Regex, a: string, t: string, rest: string)
    requires IsOctet(a) && M(r, t, rest)
    ensures M(Cat(DEC_OCTET, Cat(DOT, r)), (a + ".") + t, rest)
  {
    CatIntro(Empty, 0, DOT, r, ".", t, rest);
    OctetPatterns(a, ("." + t) + rest);
    CatIntro(Empty, 0, DEC_OCTET, Cat(DOT, r), a, "." + t, rest);
    assert (a + ".") + t == a + ("." + t);
  }

  /** IPv4address of RFC 3986 is a dotted quad, whatever follows. */
  lemma V4Address(s: string, rest: string)
    ensures M(IPV4_ADDRESS, s, rest) <==> IsV4(s)
  {
    hide Matches, Times, IsOctet;
    var r1 := Cat(DEC_OCTET, Cat(DOT, DEC_OCTET));
    var r2 := Cat(DEC_OCTET, Cat(DOT, r1));
    if M(IPV4_ADDRESS, s, rest) {
      var a, t := OctetDot(r2, s, rest);
      var b, u := OctetDot(r1, t, rest);
      var c, e := OctetDot(DEC_OCTET, u, rest);
      OctetPatterns(e, rest);
      assert s == Quad(a, b, c, e);
    }
    if IsV4(s) {
      var a, b, c, e :| IsOctet(a) && IsOctet(b) && IsOctet(c) && IsOctet(e) && s == Quad(a, b, c, e);
      OctetPatterns(e, rest);
      OctetDotIntro(DEC_OCTET, c, e, rest);
      OctetDotIntro(r1, b, (c + ".") + e, rest);
      OctetDotIntro(r2, a, (b + ".") + ((c + ".") + e), rest);
    }
  }
}
