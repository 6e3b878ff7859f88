/** TOML text: the literals the exporters print, and a decoder for them after TOML v1.0.0. */
module TomlText {
  import opened Common

  /** The outcome of decoding a prefix of a text. */
  datatype Decoded<T> = Fail | Done(value: T, rest: string)

  /** `Other` stands for every further kind of node: floats, dates, tables, and arrays that do not hold just strings. */
  datatype Toml = Bool(b: bool) | Int(i: int) | Str(s: string) | Strs(ss: seq<string>) | Other

  const MIN_INT64: int := -0x8000_0000_0000_0000
  const MAX_INT64: int := 0x7FFF_FFFF_FFFF_FFFF

  // ------------------------------------------------------------------------------------------------
  // Basic strings
  // ------------------------------------------------------------------------------------------------

  predicate IsControl(c: char) {
    c < ' ' || c == '\U{7f}'
  }

  /** What TOML allows in a comment: no control characters but tabs, so no newline either. */
  predicate Plain(s: string) {
    forall c :: c in s ==> !IsControl(c) || c == '\t'
  }

  function HexDigit(n: nat): char
    requires n < 16
  {
    "0123456789ABCDEF"[n]
  }

  function HexValue(c: char): int {
    if '0' <= c <= '9' then c as int - '0' as int
    else if 'A' <= c <= 'F' then c as int - 'A' as int + 10
    else if 'a' <= c <= 'f' then c as int - 'a' as int + 10
    else -1
  }

  lemma HexDigitValue(n: nat)
    requires n < 16
    ensures HexValue(HexDigit(n)) == n
  {
  }

  /** One character of a basic string, as the settings exporter escapes it. */
  function Escaped(c: char): string {
    if c == '"' then "\\\""
    else if c == '\\' then "\\\\"
    else if c == '\U{8}' then "\\b"
    else if c == '\t' then "\\t"
    else if c == '\n' then "\\n"
    else if c == '\U{c}' then "\\f"
    else if c == '\r' then "\\r"
    else if IsControl(c) then "\\u00" + [HexDigit(c as int / 16), HexDigit(c as int % 16)]
    else [c]
  }

  /** One character as the launch-entry exporter escapes it: control characters other than newline and tab are
      written as they are. */
  function BrieflyEscaped(c: char): string {
    if c == '"' || c == '\\' then ['\\', c]
    else if c == '\n' then "\\n"
    else if c == '\t' then "\\t"
    else [c]
  }

  function EscapedAll(s: string): string {
    if s == "" then "" else Escaped(s[0]) + EscapedAll(s[1..])
  }

  function BrieflyEscapedAll(s: string): string {
    if s == "" then "" else BrieflyEscaped(s[0]) + BrieflyEscapedAll(s[1..])
  }

  function Quoted(s: string): string {
    "\"" + (EscapedAll(s) + "\"")
  }

  function BrieflyQuoted(s: string): string {
    "\"" + (BrieflyEscapedAll(s) + "\"")
  }

  lemma EscapedStep(out: string, s: string, i: nat)
    requires i < |s|
    ensures (out + Escaped(s[i])) + EscapedAll(s[i + 1..]) == out + EscapedAll(s[i..])
    ensures (out + BrieflyEscaped(s[i])) + BrieflyEscapedAll(s[i + 1..]) == out + BrieflyEscapedAll(s[i..])
  {
    hide Escaped, BrieflyEscaped;
    assert s[i..][1..] == s[i + 1..];
  }

  method QuoteString(s: string) returns (out: string)
    ensures out == Quoted(s)
  {
    hide Escaped;
    out := "\"";
    assert s[0..] == s;
    for i := 0 to |s|
      invariant out + EscapedAll(s[i..]) == "\"" + EscapedAll(s)
    {
      EscapedStep(out, s, i);
      out := out + Escaped(s[i]);
    }
    assert out == "\"" + EscapedAll(s);
    out := out + "\"";
  }

  method QuoteBriefly(s: string) returns (out: string)
    ensures out == BrieflyQuoted(s)
  {
    hide BrieflyEscaped;
    out := "\"";
    assert s[0..] == s;
    for i := 0 to |s|
      invariant out + BrieflyEscapedAll(s[i..]) == "\"" + BrieflyEscapedAll(s)
    {
      EscapedStep(out, s, i);
      out := out + BrieflyEscaped(s[i]);
    }
    assert out == "\"" + BrieflyEscapedAll(s);
    out := out + "\"";
  }

  /** A four-digit code point after \u; surrogates are not characters. */
  function CodePoint(a: char, b: char, c: char, d: char): Decoded<char> {
    if HexValue(a) < 0 || HexValue(b) < 0 || HexValue(c) < 0 || HexValue(d) < 0 then Fail
    else
      var n := 4096 * HexValue(a) + 256 * HexValue(b) + 16 * HexValue(c) + HexValue(d);
      if 0xD800 <= n < 0xE000 || n > 0xFFFF then Fail else Done(n as char, "")
  }

  /** The first character of the inside of a basic string. */
  function DecodeChar(t: string): (r: Decoded<char>)
    ensures r.Done? ==> |r.rest| < |t|
  {
    if t == "" then Fail
    else if t[0] == '\\' then
      if |t| < 2 then Fail
      else if t[1] == '"' || t[1] == '\\' then Done(t[1], t[2..])
      else if t[1] == 'b' then Done('\U{8}', t[2..])
      else if t[1] == 't' then Done('\t', t[2..])
      else if t[1] == 'n' then Done('\n', t[2..])
      else if t[1] == 'f' then Done('\U{c}', t[2..])
      else if t[1] == 'r' then Done('\r', t[2..])
      else if t[1] == 'u' && |t| >= 6 then
        var c := CodePoint(t[2], t[3], t[4], t[5]);
        if c.Fail? then Fail else Done(c.value, t[6..])
      else Fail
    else if IsControl(t[0]) && t[0] != '\t' then Fail
    else Done(t[0], t[1..])
  }

  /** The inside of a basic string, up to and including its closing quote. */
  function DecodeInside(t: string): (r: Decoded<string>)
    ensures r.Done? ==> |r.rest| < |t|
    decreases |t|
  {
    if t != "" && t[0] == '"' then Done("", t[1..])
    else
      var c := DecodeChar(t);
      if c.Fail? then Fail
      else
        var more := DecodeInside(c.rest);
        if more.Fail? then Fail else Done([c.value] + more.value, more.rest)
  }

  function DecodeString(t: string): (r: Decoded<string>)
    ensures r.Done? ==> |r.rest| < |t|
  {
    if t != "" && t[0] == '"' then DecodeInside(t[1..]) else Fail
  }

  /** The escape sequences of TOML v1.0.0, section "String", by code point. */
  const ESCAPES: map<char, int> :=
    map['b' := 0x08, 't' := 0x09, 'n' := 0x0A, 'f' := 0x0C, 'r' := 0x0D, '"' := 0x22, '\\' := 0x5C]

  /** The decoder reads these sequences and no other one, besides those that begin with "u". */
  lemma EscapesAreToml(x: char, rest: string)
    requires x != 'u'
    ensures DecodeChar("\\" + ([x] + rest)) == if x in ESCAPES then Done(ESCAPES[x] as char, rest) else Fail
  {
    var t := "\\" + ([x] + rest);
    assert t[1] == x && t[2..] == rest;
  }

  /** A u behind the backslash is followed by the code point in four hexadecimal digits. */
  lemma UnicodeEscape(a: nat, b: nat, c: nat, d: nat, rest: string)
    requires a < 16 && b < 16 && c < 16 && d < 16
    ensures var n := ((a * 16 + b) * 16 + c) * 16 + d;
            DecodeChar("\\u" + ([HexDigit(a), HexDigit(b), HexDigit(c), HexDigit(d)] + rest))
            == if 0xD800 <= n < 0xE000 then Fail else Done(n as char, rest)
  {
    HexDigitValue(a);
    HexDigitValue(b);
    HexDigitValue(c);
    HexDigitValue(d);
    hide HexDigit, HexValue;
    var t := "\\u" + ([HexDigit(a), HexDigit(b), HexDigit(c), HexDigit(d)] + rest);
    assert t[0] == '\\' && t[1] == 'u' && t[6..] == rest;
    assert t[2] == HexDigit(a) && t[3] == HexDigit(b) && t[4] == HexDigit(c) && t[5] == HexDigit(d);
  }

  lemma DecodeHexEscape(c: char, rest: string)
    requires IsControl(c) && |Escaped(c)| == 6
    ensures DecodeChar(Escaped(c) + rest) == Done(c, rest)
  {
    var n := c as int;
    HexDigitValue(n / 16);
    HexDigitValue(n % 16);
    var t := Escaped(c) + rest;
    assert t[2] == '0' && t[3] == '0' && t[4] == HexDigit(n / 16) && t[5] == HexDigit(n % 16);
    assert t[6..] == rest;
  }

  lemma DecodeEscaped(c: char, rest: string)
    ensures Escaped(c) + rest != "" && (Escaped(c) + rest)[0] != '"'
    ensures DecodeChar(Escaped(c) + rest) == Done(c, rest)
  {
    var t := Escaped(c) + rest;
    if IsControl(c) && |Escaped(c)| == 6 {
      DecodeHexEscape(c, rest);
    } else if |Escaped(c)| == 2 {
      assert t[2..] == rest;
    } else {
      assert t[1..] == rest;
    }
  }

  lemma {:induction false} DecodeEscapedAll(s: string, rest: string)
    ensures DecodeInside(EscapedAll(s) + ("\"" + rest)) == Done(s, rest)
    decreases |s|
  {
    hide Escaped, DecodeChar;
    var tail := "\"" + rest;
    if s == "" {
      assert EscapedAll(s) + tail == tail && tail[1..] == rest;
    } else {
      var more := EscapedAll(s[1..]) + tail;
      DecodeEscaped(s[0], more);
      DecodeEscapedAll(s[1..], rest);
      assert EscapedAll(s) + tail == Escaped(s[0]) + more;
      assert [s[0]] + s[1..] == s;
    }
  }

  /** Every string survives quoting and decoding, whatever follows it. */
  lemma QuoteRoundTrip(s: string, rest: string)
    ensures DecodeString(Quoted(s) + rest) == Done(s, rest)
  {
    var t := Quoted(s) + rest;
    assert t[1..] == EscapedAll(s) + ("\"" + rest);
    DecodeEscapedAll(s, rest);
  }

  /** A quoted string contains no raw control character, so it stays on its line, and inside a comment too. */
  lemma {:induction false} QuotedIsPlain(s: string)
    ensures Plain(EscapedAll(s))
    decreases |s|
  {
    if s != "" {
      QuotedIsPlain(s[1..]);
      EscapedIsPlain(s[0]);
    }
  }

  lemma EscapedIsPlain(c: char)
    ensures Plain(Escaped(c))
  {
  }

  /** A character the launch-entry exporter prints in a way TOML accepts. */
  predicate Printable(c: char) {
    !IsControl(c) || c == '\n' || c == '\t'
  }

  predicate AllPrintable(s: string) {
    forall i :: 0 <= i < |s| ==> Printable(s[i])
  }

  lemma DecodeBrieflyEscaped(c: char, rest: string)
    ensures BrieflyEscaped(c) + rest != "" && (BrieflyEscaped(c) + rest)[0] != '"'
    ensures DecodeChar(BrieflyEscaped(c) + rest) == if Printable(c) then Done(c, rest) else Fail
  {
    var t := BrieflyEscaped(c) + rest;
    if |BrieflyEscaped(c)| == 2 {
      assert t[2..] == rest;
    } else {
      assert t[1..] == rest;
    }
  }

  lemma {:induction false} DecodeBrieflyEscapedAll(s: string, rest: string)
    ensures DecodeInside(BrieflyEscapedAll(s) + ("\"" + rest)) == if AllPrintable(s) then Done(s, rest) else Fail
    decreases |s|
  {
    hide BrieflyEscaped, DecodeChar;
    var tail := "\"" + rest;
    if s == "" {
      assert BrieflyEscapedAll(s) + tail == tail && tail[1..] == rest;
    } else {
      var more := BrieflyEscapedAll(s[1..]) + tail;
      DecodeBrieflyEscaped(s[0], more);
      DecodeBrieflyEscapedAll(s[1..], rest);
      assert BrieflyEscapedAll(s) + tail == BrieflyEscaped(s[0]) + more;
      assert [s[0]] + s[1..] == s;
      assert AllPrintable(s) <==> Printable(s[0]) && AllPrintable(s[1..]) by {
        assert forall i :: 0 <= i < |s| - 1 ==> s[1..][i] == s[i + 1];
      }
    }
  }

  /** The launch-entry exporter's quoting survives decoding exactly for strings whose control characters are
      newlines and tabs; any other string makes the file unreadable. */
  lemma BriefQuoteRoundTrip(s: string, rest: string)
    ensures DecodeString(BrieflyQuoted(s) + rest) == if AllPrintable(s) then Done(s, rest) else Fail
  {
    var t := BrieflyQuoted(s) + rest;
    assert t[1..] == BrieflyEscapedAll(s) + ("\"" + rest);
    DecodeBrieflyEscapedAll(s, rest);
  }

  // ------------------------------------------------------------------------------------------------
  // Integers
  // ------------------------------------------------------------------------------------------------

  predicate IsDigit(c: char) { '0' <= c <= '9' }

  function DigitChar(n: nat): (c: char)
    requires n < 10
    ensures IsDigit(c) && c as int - '0' as int == n
  {
    '0' + n as char
  }

  function NatText(n: nat): (s: string)
    ensures s != "" && (forall i :: 0 <= i < |s| ==> IsDigit(s[i])) && (s[0] == '0' ==> n == 0 && s == "0")
  {
    if n < 10 then [DigitChar(n)] else NatText(n / 10) + [DigitChar(n % 10)]
  }

  function IntText(i: int): string {
    if i < 0 then "-" + NatText(-i) else NatText(i)
  }

  lemma {:induction false} NumberOfText(n: nat)
    ensures Number(NatText(n)) == n
    decreases n
  {
    var s := NatText(n);
    if n < 10 {
      assert s[..0] == "";
    } else {
      NumberOfText(n / 10);
      assert s[..|s| - 1] == NatText(n / 10);
    }
  }

  /** How many digits a text starts with. */
  function DigitRun(t: string): (k: nat)
    ensures k <= |t| && (forall i :: 0 <= i < k ==> IsDigit(t[i])) && (k < |t| ==> !IsDigit(t[k]))
  {
    if t == "" || !IsDigit(t[0]) then 0 else 1 + DigitRun(t[1..])
  }

  /** A decimal integer: no superfluous zeros, and within 64 bits. */
  function DecodeInt(t: string): (r: Decoded<int>)
    ensures r.Done? ==> |r.rest| < |t|
  {
    var u := if t != "" && t[0] == '-' then t[1..] else t;
    var k := DigitRun(u);
    if k == 0 || (k > 1 && u[0] == '0') then Fail
    else
      var n: int := Number(u[..k]);
      var i := if u == t then n else -n;
      if MIN_INT64 <= i <= MAX_INT64 then Done(i, u[k..]) else Fail
  }

  /** A text on which a number cannot go on. */
  predicate EndsNumber(rest: string) {
    rest == "" || !IsDigit(rest[0])
  }

  lemma DigitRunIs(d: string, rest: string)
    requires EndsNumber(rest) && forall i :: 0 <= i < |d| ==> IsDigit(d[i])
    ensures DigitRun(d + rest) == |d|
  {
    var u := d + rest;
    assert forall i :: 0 <= i < |d| ==> u[i] == d[i];
    assert |d| < |u| ==> u[|d|] == rest[0];
  }

  /** A printed integer reads back exactly when it fits 64 bits, and is an error otherwise. */
  lemma IntRoundTrip(i: int, rest: string)
    requires EndsNumber(rest)
    ensures DecodeInt(IntText(i) + rest) == if MIN_INT64 <= i <= MAX_INT64 then Done(i, rest) else Fail
  {
    var n := if i < 0 then -i else i;
    IntTextParts(i, rest);
    DigitRunIs(NatText(n), rest);
    NumberOfText(n);
    hide NatText, IntText, DigitRun, Number, EndsNumber;
  }

  lemma IntTextParts(i: int, rest: string)
    ensures var t, d := IntText(i) + rest, NatText(if i < 0 then -i else i);
            var u := d + rest;
            && t != "" && (if i < 0 then t[0] == '-' && t[1..] == u && u != t else t == u && t[0] != '-')
            && u[..|d|] == d && u[|d|..] == rest
  {
    hide NatText;
    var d := NatText(if i < 0 then -i else i);
    assert IsDigit(d[0]);
  }

  // ------------------------------------------------------------------------------------------------
  // Values
  // ------------------------------------------------------------------------------------------------

  function SkipSpaces(t: string): (r: string)
    ensures |r| <= |t|
  {
    if t != "" && t[0] == ' ' then SkipSpaces(t[1..]) else t
  }

  /** The rest of a string array after an element: a closing bracket, or a comma and more. */
  function DecodeMore(t: string): (r: Decoded<seq<string>>)
    ensures r.Done? ==> |r.rest| < |t|
    decreases |t|
  {
    var u := SkipSpaces(t);
    if u == "" then Fail
    else if u[0] == ']' then Done([], u[1..])
    else if u[0] == ',' then
      var e := DecodeString(SkipSpaces(u[1..]));
      if e.Fail? then Fail
      else
        var more := DecodeMore(e.rest);
        if more.Fail? then Fail else Done([e.value] + more.value, more.rest)
    else Fail
  }

  function DecodeArray(t: string): (r: Decoded<seq<string>>)
    ensures r.Done? ==> |r.rest| < |t|
  {
    if t == "" || t[0] != '[' then Fail
    else
      var u := SkipSpaces(t[1..]);
      if u != "" && u[0] == ']' then Done([], u[1..])
      else
        var e := DecodeString(u);
        if e.Fail? then Fail
        else
          var more := DecodeMore(e.rest);
          if more.Fail? then Fail else Done([e.value] + more.value, more.rest)
  }

  function DecodeValue(t: string): (r: Decoded<Toml>)
    ensures r.Done? ==> |r.rest| < |t|
  {
    if "true" <= t then Done(Bool(true), t[4..])
    else if "false" <= t then Done(Bool(false), t[5..])
    else if t != "" && t[0] == '"' then
      var s := DecodeString(t);
      if s.Fail? then Fail else Done(Str(s.value), s.rest)
    else if t != "" && t[0] == '[' then
      var a := DecodeArray(t);
      if a.Fail? then Fail else Done(Strs(a.value), a.rest)
    else
      var i := DecodeInt(t);
      if i.Fail? then Fail else Done(Int(i.value), i.rest)
  }

  /** Array elements after the first, each behind ", ". */
  function MoreText(ss: seq<string>): string {
    if ss == [] then "" else ", " + (Quoted(ss[0]) + MoreText(ss[1..]))
  }

  function ArrayText(ss: seq<string>): string {
    "[" + (if ss == [] then "" else Quoted(ss[0]) + MoreText(ss[1..])) + "]"
  }

  lemma MoreTextStep(out: string, ss: seq<string>, i: nat)
    requires i < |ss|
    ensures ((out + ", ") + Quoted(ss[i])) + MoreText(ss[i + 1..]) == out + MoreText(ss[i..])
  {
    hide Quoted;
    assert ss[i..][1..] == ss[i + 1..];
  }

  method PrintArray(ss: seq<string>) returns (out: string)
    ensures out == ArrayText(ss)
  {
    hide Quoted;
    out := "[";
    for i := 0 to |ss|
      invariant i == 0 ==> out == "["
      invariant i > 0 ==> out + MoreText(ss[i..]) == "[" + (Quoted(ss[0]) + MoreText(ss[1..]))
    {
      if i > 0 {
        MoreTextStep(out, ss, i);
        out := out + ", ";
      }
      var q := QuoteString(ss[i]);
      out := out + q;
    }
    assert out == "[" + (if ss == [] then "" else Quoted(ss[0]) + MoreText(ss[1..]));
    out := out + "]";
  }

  lemma SkipNoSpaces(t: string)
    requires t == "" || t[0] != ' '
    ensures SkipSpaces(t) == t
  {
  }

  /** One array element behind its comma. */
  lemma MoreStep(s: string, more: string)
    ensures var r := DecodeMore(", " + (Quoted(s) + more));
            var m := DecodeMore(more);
            r == if m.Fail? then Fail else Done([s] + m.value, m.rest)
  {
    hide DecodeString, Quoted, SkipSpaces;
    var q := Quoted(s) + more;
    QuoteStarts(s, more);
    var t := ", " + q;
    SkipNoSpaces(t);
    assert t[1..] == " " + q;
    SkipOneSpace(q);
    QuoteRoundTrip(s, more);
  }

  lemma MoreEnd(rest: string)
    ensures DecodeMore("" + ("]" + rest)) == Done([], rest)
  {
    var tail := "]" + rest;
    assert "" + tail == tail && tail[1..] == rest;
    SkipNoSpaces(tail);
  }

  lemma {:induction false} MoreRoundTrip(ss: seq<string>, rest: string)
    ensures DecodeMore(MoreText(ss) + ("]" + rest)) == Done(ss, rest)
    decreases |ss|
  {
    hide DecodeMore, Quoted;
    var tail := "]" + rest;
    if ss == [] {
      MoreEnd(rest);
    } else {
      MoreStep(ss[0], MoreText(ss[1..]) + tail);
      MoreRoundTrip(ss[1..], rest);
      MoreCat(Quoted(ss[0]), MoreText(ss[1..]), tail);
      assert [ss[0]] + ss[1..] == ss;
    }
  }

  lemma MoreCat(q: string, m: string, tail: string)
    ensures (", " + (q + m)) + tail == ", " + (q + (m + tail))
  {
  }

  lemma QuoteStarts(s: string, rest: string)
    ensures Quoted(s) + rest != "" && (Quoted(s) + rest)[0] == '"'
  {
  }

  lemma SkipOneSpace(t: string)
    requires t == "" || t[0] != ' '
    ensures SkipSpaces(" " + t) == t
  {
    assert (" " + t)[1..] == t;
  }

  lemma ArrayRoundTrip(ss: seq<string>, rest: string)
    ensures DecodeArray(ArrayText(ss) + rest) == Done(ss, rest)
  {
    hide DecodeInside, EscapedAll, DecodeString, DecodeMore, SkipSpaces;
    var t := ArrayText(ss) + rest;
    if ss == [] {
      assert t == "[" + ("]" + rest);
      assert t[1..] == "]" + rest && ("]" + rest)[1..] == rest;
      SkipNoSpaces(t[1..]);
    } else {
      var more := MoreText(ss[1..]) + ("]" + rest);
      var q := Quoted(ss[0]) + more;
      assert t == "[" + q;
      assert t[1..] == q;
      QuoteStarts(ss[0], more);
      hide Quoted, MoreText;
      SkipNoSpaces(q);
      QuoteRoundTrip(ss[0], more);
      MoreRoundTrip(ss[1..], rest);
      assert [ss[0]] + ss[1..] == ss;
    }
  }

  lemma {:induction false} MoreIsPlain(ss: seq<string>)
    ensures Plain(MoreText(ss))
    decreases |ss|
  {
    if ss != [] {
      MoreIsPlain(ss[1..]);
      QuotedIsPlain(ss[0]);
    }
  }

  lemma ArrayIsPlain(ss: seq<string>)
    ensures Plain(ArrayText(ss))
  {
    if ss != [] {
      MoreIsPlain(ss[1..]);
      QuotedIsPlain(ss[0]);
    }
  }

  // ------------------------------------------------------------------------------------------------
  // Lines
  // ------------------------------------------------------------------------------------------------

  /** What one line of a document says. */
  datatype Item = KeyValue(key: string, value: Toml) | Table(path: seq<string>) | ArrayTable(path: seq<string>)

  predicate IsKeyChar(c: char) {
    'a' <= c <= 'z' || 'A' <= c <= 'Z' || '0' <= c <= '9' || c == '_' || c == '-'
  }

  predicate IsBareKey(s: string) {
    s != "" && forall i :: 0 <= i < |s| ==> IsKeyChar(s[i])
  }

  function KeyRun(t: string): (k: nat)
    ensures k <= |t| && (forall i :: 0 <= i < k ==> IsKeyChar(t[i])) && (k < |t| ==> !IsKeyChar(t[k]))
  {
    if t == "" || !IsKeyChar(t[0]) then 0 else 1 + KeyRun(t[1..])
  }

  lemma KeyRunIs(key: string, rest: string)
    requires IsBareKey(key) && (rest == "" || !IsKeyChar(rest[0]))
    ensures KeyRun(key + rest) == |key|
  {
    var t := key + rest;
    assert forall i :: 0 <= i < |key| ==> t[i] == key[i];
    assert |key| < |t| ==> t[|key|] == rest[0];
  }

  function LineLength(t: string): (k: nat)
    ensures k <= |t| && (forall i :: 0 <= i < k ==> t[i] != '\n') && (k < |t| ==> t[k] == '\n')
  {
    if t == "" || t[0] == '\n' then 0 else 1 + LineLength(t[1..])
  }

  lemma LineLengthIs(line: string, rest: string)
    requires Plain(line)
    ensures LineLength(line + ("\n" + rest)) == |line|
  {
    var t := line + ("\n" + rest);
    assert t[|line|] == '\n';
    assert forall i :: 0 <= i < |line| ==> t[i] == line[i] && line[i] in line;
  }

  /** Spaces, an optional comment, and the end of the line. */
  function DecodeLineEnd(t: string): (r: Decoded<()>)
    ensures r.Done? ==> |r.rest| <= |t|
  {
    var u := SkipSpaces(t);
    var k := if u != "" && u[0] == '#' then LineLength(u) else 0;
    if !Plain(u[..k]) then Fail
    else if k == |u| then Done((), "")
    else if u[k] == '\n' then Done((), u[k + 1..])
    else Fail
  }

  /** A dotted path of bare keys, up to what follows it. */
  function DecodePath(t: string): (r: Decoded<seq<string>>)
    ensures r.Done? ==> |r.rest| < |t|
    decreases |t|
  {
    var k := KeyRun(t);
    if k == 0 then Fail
    else if k < |t| && t[k] == '.' then
      var more := DecodePath(t[k + 1..]);
      if more.Fail? then Fail else Done([t[..k]] + more.value, more.rest)
    else Done([t[..k]], t[k..])
  }

  function DecodeHeader(t: string): (r: Decoded<Item>)
    ensures r.Done? ==> |r.rest| < |t|
  {
    if "[[" <= t then
      var p := DecodePath(t[2..]);
      if p.Fail? || !("]]" <= p.rest) then Fail
      else
        var e := DecodeLineEnd(p.rest[2..]);
        if e.Fail? then Fail else Done(ArrayTable(p.value), e.rest)
    else if "[" <= t then
      var p := DecodePath(t[1..]);
      if p.Fail? || !("]" <= p.rest) then Fail
      else
        var e := DecodeLineEnd(p.rest[1..]);
        if e.Fail? then Fail else Done(Table(p.value), e.rest)
    else Fail
  }

  function DecodePair(t: string): (r: Decoded<Item>)
    ensures r.Done? ==> |r.rest| < |t|
  {
    var k := KeyRun(t);
    if k == 0 then Fail
    else
      var u := SkipSpaces(t[k..]);
      if u == "" || u[0] != '=' then Fail
      else
        var v := DecodeValue(SkipSpaces(u[1..]));
        if v.Fail? then Fail
        else
          var e := DecodeLineEnd(v.rest);
          if e.Fail? then Fail else Done(KeyValue(t[..k], v.value), e.rest)
  }

  /** A whole document, line by line. */
  function DecodeDocument(t: string): Decoded<seq<Item>>
    decreases |t|
  {
    var u := SkipSpaces(t);
    if u == "" then Done([], "")
    else if u[0] == '\n' then DecodeDocument(u[1..])
    else if u[0] == '#' then
      if Plain(u[..LineLength(u)]) then DecodeDocument(u[LineLength(u)..]) else Fail
    else
      var item := if u[0] == '[' then DecodeHeader(u) else DecodePair(u);
      if item.Fail? then Fail
      else
        var more := DecodeDocument(item.rest);
        if more.Fail? then Fail else Done([item.value] + more.value, more.rest)
  }

  /** Put `items` before what the rest of a document says. */
  function Onto(items: seq<Item>, r: Decoded<seq<Item>>): Decoded<seq<Item>> {
    if r.Done? then Done(items + r.value, r.rest) else Fail
  }

  lemma PlainCat(a: string, b: string)
    requires Plain(a) && Plain(b)
    ensures Plain(a + b)
  {
  }

  lemma PlainHash(comment: string)
    requires Plain(comment)
    ensures Plain("#" + comment)
  {
  }

  lemma CommentLine(comment: string, rest: string)
    requires Plain(comment)
    ensures DecodeDocument("#" + (comment + ("\n" + rest))) == DecodeDocument(rest)
  {
    var t := "#" + (comment + ("\n" + rest));
    SkipNoSpaces(t);
    assert t == ("#" + comment) + ("\n" + rest);
    PlainHash(comment);
    LineLengthIs("#" + comment, rest);
    assert t[..LineLength(t)] == "#" + comment;
    var u := t[LineLength(t)..];
    assert u == "\n" + rest;
    SkipNoSpaces(u);
    assert u[1..] == rest;
  }

  lemma BlankLine(rest: string)
    ensures DecodeDocument("\n" + rest) == DecodeDocument(rest)
  {
    var t := "\n" + rest;
    SkipNoSpaces(t);
    assert t[1..] == rest;
  }

  function Spaces(n: nat): (s: string)
    ensures |s| == n && forall i :: 0 <= i < n ==> s[i] == ' '
  {
    if n == 0 then "" else " " + Spaces(n - 1)
  }

  lemma {:induction false} SkipsSpaces(n: nat, t: string)
    requires t == "" || t[0] != ' '
    ensures SkipSpaces(Spaces(n) + t) == t
  {
    if n == 0 {
      assert Spaces(n) + t == t;
    } else {
      SkipsSpaces(n - 1, t);
      assert (Spaces(n) + t)[1..] == Spaces(n - 1) + t;
    }
  }

  /** What may stand behind a value: nothing, or two spaces and a comment. */
  predicate IsTrailer(s: string) {
    s == "" || ("  #" <= s && Plain(s))
  }

  lemma TrailerEndsLine(trailer: string, rest: string)
    requires IsTrailer(trailer)
    ensures DecodeLineEnd(trailer + ("\n" + rest)) == Done((), rest)
    ensures EndsNumber(trailer + ("\n" + rest))
  {
    var t := trailer + ("\n" + rest);
    if trailer == "" {
      assert t == "\n" + rest && t[1..] == rest;
      SkipNoSpaces(t);
    } else {
      var c := trailer[2..];
      assert trailer[2] == '#' && trailer[0] == ' ' && trailer[1] == ' ';
      assert forall x :: x in c ==> x in trailer;
      assert t == Spaces(2) + (c + ("\n" + rest)) by {
        assert Spaces(2) == "  ";
        assert trailer == "  " + c;
      }
      SkipsSpaces(2, c + ("\n" + rest));
      LineLengthIs(c, rest);
      assert (c + ("\n" + rest))[|c|..] == "\n" + rest;
      assert ("\n" + rest)[1..] == rest;
    }
  }

  lemma NoKeyChars()
    ensures !IsKeyChar(' ') && !IsKeyChar('=')
  {
  }

  lemma DecodesPair(key: string, pad: nat, text: string, value: Decoded<Toml>, trailer: string, rest: string)
    requires IsBareKey(key) && IsTrailer(trailer) && text != "" && text[0] != ' '
    requires var after := trailer + ("\n" + rest);
             DecodeValue(text + after) == (if value.Done? then Done(value.value, after) else Fail)
    ensures DecodePair(key + (Spaces(pad) + ("= " + (text + (trailer + ("\n" + rest)))))) ==
              if value.Done? then Done(KeyValue(key, value.value), rest) else Fail
  {
    hide DecodeValue, DecodeLineEnd, IsTrailer, KeyRun, SkipSpaces, IsKeyChar;
    var after := trailer + ("\n" + rest);
    var eq := "= " + (text + after);
    var t := key + (Spaces(pad) + eq);
    assert (Spaces(pad) + eq)[0] == if pad == 0 then '=' else ' ';
    NoKeyChars();
    KeyRunIs(key, Spaces(pad) + eq);
    assert t[..|key|] == key && t[|key|..] == Spaces(pad) + eq;
    SkipsSpaces(pad, eq);
    assert eq[1..] == Spaces(1) + (text + after) by { assert Spaces(1) == " "; }
    SkipsSpaces(1, text + after);
    TrailerEndsLine(trailer, rest);
  }

  /** "key = value", with the key padded for alignment, reads as that pair, or spoils the document if the value
      cannot be read. */
  lemma PairLine(key: string, pad: nat, text: string, value: Decoded<Toml>, trailer: string, rest: string)
    requires IsBareKey(key) && IsTrailer(trailer) && text != "" && text[0] != ' '
    requires var after := trailer + ("\n" + rest);
             DecodeValue(text + after) == (if value.Done? then Done(value.value, after) else Fail)
    ensures var line := (key + Spaces(pad)) + (" = " + (text + trailer));
            DecodeDocument(line + ("\n" + rest)) ==
              if value.Done? then Onto([KeyValue(key, value.value)], DecodeDocument(rest)) else Fail
  {
    hide DecodeValue, DecodeHeader, DecodePair, IsTrailer;
    var t := ((key + Spaces(pad)) + (" = " + (text + trailer))) + ("\n" + rest);
    SpacesSnoc(pad);
    DecodesPair(key, pad + 1, text, value, trailer, rest);
    assert t == key + (Spaces(pad + 1) + ("= " + (text + (trailer + ("\n" + rest)))));
    assert t[0] == key[0] && IsKeyChar(key[0]);
    SkipNoSpaces(t);
  }

  lemma {:induction false} SpacesSnoc(n: nat)
    ensures Spaces(n + 1) == Spaces(n) + " "
  {
    if n > 0 {
      SpacesSnoc(n - 1);
    }
  }
}
