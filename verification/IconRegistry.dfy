/** The icon registry file: a hand-written printer and a hand-written parser. */
module IconRegistry {

  datatype Result<T> = Ok(value: T) | Unterminated

  // ------------------------------------------------------------------------------------------------
  // Printing
  // ------------------------------------------------------------------------------------------------

  // Sums of short literals keep the proofs about their characters cheap.
  const HEADER1: string := "# axan icon registry \U{2014}" + " written by `axan --import-icons`.\n"
  const HEADER2: string := "# Drop SVGs into ~/.config/axan/icons/," + " then re-import to refresh.\n"
  const HEADER3: string := "# Files in that directory that aren't" + " listed here will NOT appear\n"
  const HEADER4: string := "# in the picker \U{2014} usually" + " because they failed validation.\n"
  const HEADER: string := HEADER1 + HEADER2 + HEADER3 + HEADER4 + "\n"

  function Line(name: string): string {
    "  \"" + name + "\",\n"
  }

  function Lines(names: seq<string>): string {
    if names == [] then "" else Line(names[0]) + Lines(names[1..])
  }

  function Printed(names: seq<string>): string {
    HEADER + if names == [] then "icons = []\n" else "icons = [\n" + Lines(names) + "]\n"
  }

  lemma {:induction false} LinesSnoc(names: seq<string>, n: nat)
    requires n < |names|
    ensures Lines(names[..n + 1]) == Lines(names[..n]) + Line(names[n])
    decreases n
  {
    if n == 0 {
      assert names[..1][1..] == [] && names[..0] == [];
    } else {
      LinesSnoc(names[1..], n - 1);
      assert names[..n + 1][1..] == names[1..][..n];
      assert names[..n][1..] == names[1..][..n - 1];
    }
  }

  method WriteRegistry(names: seq<string>) returns (out: string)
    ensures out == Printed(names)
  {
    out := HEADER1 + HEADER2 + HEADER3 + HEADER4 + "\n";
    if |names| == 0 {
      out := out + "icons = []\n";
      return;
    }
    out := out + "icons = [\n";
    for i := 0 to |names|
      invariant out == HEADER + "icons = [\n" + Lines(names[..i])
    {
      LinesSnoc(names, i);
      out := out + "  \"" + names[i] + "\",\n";
      assert out == HEADER + "icons = [\n" + (Lines(names[..i]) + Line(names[i]));
    }
    assert names[..|names|] == names;
    out := out + "]\n";
    assert out == HEADER + ("icons = [\n" + Lines(names) + "]\n");
  }

  // ------------------------------------------------------------------------------------------------
  // Parsing
  // ------------------------------------------------------------------------------------------------

  predicate IsBlank(c: char) {
    c == ' ' || c == '\n' || c == '\t' || c == ',' || c == '\r'
  }

  /** The first position from `p` on that does not hold a blank. */
  function SkipBlanks(s: string, p: nat): (r: nat)
    requires p <= |s|
    ensures p <= r <= |s| && (r < |s| ==> !IsBlank(s[r]))
    decreases |s| - p
  {
    if p < |s| && IsBlank(s[p]) then SkipBlanks(s, p + 1) else p
  }

  /** The first position from `p` on that holds `c`, or the end. */
  function FindFrom(s: string, p: nat, c: char): (r: nat)
    requires p <= |s|
    ensures p <= r <= |s| && (r < |s| ==> s[r] == c)
    ensures forall k :: p <= k < r ==> s[k] != c
    decreases |s| - p
  {
    if p == |s| || s[p] == c then p else FindFrom(s, p + 1, c)
  }

  /** The word `w` stands at position `p`. */
  predicate Occurs(s: string, p: nat, w: string) {
    p + |w| <= |s| && forall i :: 0 <= i < |w| ==> s[p + i] == w[i]
  }

  /** The first position from `p` on where `w` stands, or -1. */
  function FindWord(s: string, p: nat, w: string): (r: int)
    requires p <= |s|
    ensures r == -1 || (p <= r <= |s| && Occurs(s, r, w))
    ensures forall k: nat :: p <= k < (if r < 0 then |s| + 1 else r) ==> !Occurs(s, k, w)
    decreases |s| - p
  {
    if Occurs(s, p, w) then p else if p == |s| then -1 else FindWord(s, p + 1, w)
  }

  /** Put `front` before the entries that are still to be read. */
  function Prepended(front: seq<string>, r: Result<seq<string>>): Result<seq<string>> {
    if r.Ok? then Ok(front + r.value) else Unterminated
  }

  /** The quoted entries of an array body that starts at `p`, up to its closing bracket. */
  function Items(s: string, p: nat): Result<seq<string>>
    requires p <= |s|
    decreases |s| - p
  {
    if p == |s| || s[p] == ']' then Ok([])
    else
      var u := SkipBlanks(s, p);
      if u == |s| || s[u] == ']' then Ok([])
      else if s[u] == '#' then Items(s, FindFrom(s, u, '\n'))
      else if s[u] != '"' then Items(s, u + 1)
      else
        var v := FindFrom(s, u + 1, '"');
        if v == |s| then Unterminated else Prepended([s[u + 1..v]], Items(s, v + 1))
  }

  function Parsed(contents: string): Result<seq<string>> {
    var a := FindWord(contents, 0, "icons");
    if a < 0 then Ok([])
    else
      var b := FindFrom(contents, a, '[');
      if b == |contents| then Ok([]) else Items(contents, b + 1)
  }

  method Find(s: string, from: nat, c: char) returns (p: nat)
    requires from <= |s|
    ensures p == FindFrom(s, from, c)
  {
    p := from;
    while p < |s| && s[p] != c
      invariant from <= p <= |s| && FindFrom(s, p, c) == FindFrom(s, from, c)
    {
      p := p + 1;
    }
  }

  method Search(s: string, w: string) returns (p: int)
    ensures p == FindWord(s, 0, w)
  {
    p := 0;
    while p <= |s|
      invariant 0 <= p <= |s| && FindWord(s, p, w) == FindWord(s, 0, w)
      decreases |s| - p
    {
      if Occurs(s, p, w) {
        return;
      }
      if p == |s| {
        return -1;
      }
      p := p + 1;
    }
  }

  lemma PrependedNothing(r: Result<seq<string>>)
    ensures Prepended([], r) == r
  {
    if r.Ok? {
      assert [] + r.value == r.value;
    }
  }

  lemma PrependedEnd(a: seq<string>)
    ensures Prepended(a, Ok([])) == Ok(a) && Prepended(a, Unterminated) == Unterminated
  {
    assert a + [] == a;
  }

  lemma PrependedTwice(a: seq<string>, b: seq<string>, r: Result<seq<string>>)
    ensures Prepended(a, Prepended(b, r)) == Prepended(a + b, r)
  {
    if r.Ok? {
      assert a + (b + r.value) == a + b + r.value;
    }
  }

  method SkipBlankChars(s: string, from: nat) returns (p: nat)
    requires from <= |s|
    ensures p == SkipBlanks(s, from)
  {
    p := from;
    while p < |s| && IsBlank(s[p])
      invariant from <= p <= |s| && SkipBlanks(s, p) == SkipBlanks(s, from)
    {
      p := p + 1;
    }
  }

  /** With `names` read so far and the rest of the text from `p` on, the reading is as from the start. */
  ghost predicate ReadSoFar(s: string, from: nat, names: seq<string>, p: nat) {
    from <= |s| && p <= |s| && Prepended(names, Items(s, p)) == Items(s, from)
  }

  lemma NothingReadYet(s: string, from: nat)
    requires from <= |s|
    ensures ReadSoFar(s, from, [], from)
  {
    PrependedNothing(Items(s, from));
  }

  lemma AllRead(s: string, from: nat, names: seq<string>, p: nat)
    requires ReadSoFar(s, from, names, p) && (p == |s| || s[p] == ']')
    ensures Items(s, from) == Ok(names)
  {
    PrependedEnd(names);
  }

  /** One turn of the loop at a character that starts no name. */
  lemma NoName(s: string, from: nat, names: seq<string>, p: nat)
    requires ReadSoFar(s, from, names, p) && p < |s| && s[p] != ']'
    ensures var u := SkipBlanks(s, p);
            && (u == |s| || s[u] == ']' ==> ReadSoFar(s, from, names, u))
            && (u < |s| && s[u] == '#' ==> ReadSoFar(s, from, names, FindFrom(s, u, '\n')))
            && (u < |s| && s[u] != ']' && s[u] != '#' && s[u] != '"' ==> ReadSoFar(s, from, names, u + 1))
  {
    hide SkipBlanks, FindFrom, Prepended;
  }

  /** One turn of the loop at a quote. */
  lemma OneName(s: string, from: nat, names: seq<string>, p: nat)
    requires ReadSoFar(s, from, names, p) && p < |s| && s[p] != ']'
    requires SkipBlanks(s, p) < |s| && s[SkipBlanks(s, p)] == '"'
    ensures var u := SkipBlanks(s, p);
            var v := FindFrom(s, u + 1, '"');
            if v == |s| then Items(s, from) == Unterminated
            else ReadSoFar(s, from, names + [s[u + 1..v]], v + 1)
  {
    var u := SkipBlanks(s, p);
    var v := FindFrom(s, u + 1, '"');
    assert Items(s, p) == if v == |s| then Unterminated else Prepended([s[u + 1..v]], Items(s, v + 1));
    hide Items, SkipBlanks, FindFrom, Prepended;
    if v == |s| {
      PrependedEnd(names);
    } else {
      PrependedTwice(names, [s[u + 1..v]], Items(s, v + 1));
    }
  }

  /** The loop over the array body: a position moving through the text.  It ends on every input. */
  method ParseItems(s: string, from: nat) returns (r: Result<seq<string>>)
    requires from <= |s|
    ensures r == Items(s, from)
  {
    hide Items, SkipBlanks, FindFrom, Prepended, ReadSoFar;
    var p := from;
    var names: seq<string> := [];
    NothingReadYet(s, from);
    while p < |s| && s[p] != ']'
      invariant 0 <= p <= |s| && ReadSoFar(s, from, names, p)
      decreases |s| - p
    {
      NoName(s, from, names, p);
      ghost var q := p;
      p := SkipBlankChars(s, p);
      if p < |s| && s[p] == '#' {
        p := Find(s, p, '\n');
        continue;
      }
      if p == |s| || s[p] != '"' {
        if p == |s| || s[p] == ']' {
          break;
        }
        p := p + 1;
        continue;
      }
      OneName(s, from, names, q);
      var start := p + 1;
      p := Find(s, start, '"');
      if p == |s| {
        return Unterminated;
      }
      names := names + [s[start..p]];
      p := p + 1;
    }
    AllRead(s, from, names, p);
    return Ok(names);
  }

  method ParseRegistry(contents: string) returns (r: Result<seq<string>>)
    ensures r == Parsed(contents)
  {
    var a := Search(contents, "icons");
    if a < 0 {
      return Ok([]);
    }
    var p := Find(contents, a, '[');
    if p == |contents| {
      return Ok([]);
    }
    r := ParseItems(contents, p + 1);
  }

  // ------------------------------------------------------------------------------------------------
  // Round trip
  // ------------------------------------------------------------------------------------------------

  lemma OccursSplit(s: string, p: nat, a: string, b: string)
    requires Occurs(s, p, a + b)
    ensures Occurs(s, p, a) && Occurs(s, p + |a|, b)
  {
    var w := a + b;
    assert forall i :: 0 <= i < |a| ==> w[i] == a[i];
    assert forall i :: 0 <= i < |b| ==> w[|a| + i] == b[i];
    forall i | 0 <= i < |b|
      ensures s[p + |a| + i] == b[i]
    {
      assert s[p + (|a| + i)] == w[|a| + i];
    }
  }

  /** Blanks are skipped up to the next other character. */
  lemma {:induction false} SkipTo(s: string, p: nat, q: nat)
    requires p <= q < |s| && (forall k :: p <= k < q ==> IsBlank(s[k])) && !IsBlank(s[q])
    ensures SkipBlanks(s, p) == q
    decreases q - p
  {
    if p < q {
      SkipTo(s, p + 1, q);
    }
  }

  lemma {:induction false} FindTo(s: string, p: nat, q: nat, c: char)
    requires p <= q < |s| && (forall k :: p <= k < q ==> s[k] != c) && s[q] == c
    ensures FindFrom(s, p, c) == q
    decreases q - p
  {
    if p < q {
      FindTo(s, p + 1, q, c);
    }
  }

  /** A quoted name after some blanks is read as one entry. */
  lemma QuotedEntry(s: string, p: nat, u: nat, name: string)
    requires p <= u && (forall k :: p <= k < u ==> k < |s| && IsBlank(s[k]))
    requires '"' !in name && Occurs(s, u, "\"" + name + "\"")
    ensures Items(s, p) == Prepended([name], Items(s, u + |name| + 2))
  {
    var w := "\"" + name + "\"";
    assert s[u + 0] == w[0] == '"';
    var v := u + 1 + |name|;
    assert s[u + (1 + |name|)] == w[1 + |name|] == '"';
    forall k | u + 1 <= k < v
      ensures s[k] == name[k - u - 1] && s[k] != '"'
    {
      assert s[u + (k - u)] == w[k - u] == name[k - u - 1];
      assert name[k - u - 1] in name;
    }
    SkipTo(s, p, u);
    FindTo(s, u + 1, v, '"');
    assert s[u + 1..v] == name;
  }

  lemma SeparatorIsBlank(s: string, p: nat, sep: string)
    requires Occurs(s, p, sep) && forall i :: 0 <= i < |sep| ==> IsBlank(sep[i])
    ensures p + |sep| <= |s| && forall k :: p <= k < p + |sep| ==> IsBlank(s[k])
  {
    forall k | p <= k < p + |sep|
      ensures IsBlank(s[k])
    {
      assert s[p + (k - p)] == sep[k - p];
    }
  }

  lemma LastBracket(s: string, q: nat, w: string)
    requires Occurs(s, q, w) && w != "" && w[0] == ']'
    ensures q < |s| && s[q] == ']'
  {
    assert s[q + 0] == w[0];
  }

  /** The first printed line from position `p` on, behind the blanks that end the previous line. */
  lemma FirstLine(s: string, p: nat, name: string, more: string, sep: string) returns (q: nat)
    requires '"' !in name && (sep == "\n" || sep == ",\n")
    requires Occurs(s, p, sep + ((Line(name) + more) + "]\n"))
    ensures Occurs(s, q, ",\n" + (more + "]\n"))
    ensures Items(s, p) == Prepended([name], Items(s, q))
  {
    var quoted := "\"" + name + "\"";
    LinesCat(name, more);
    hide Line, Occurs, Items;
    OccursSplit(s, p, sep, "  " + (quoted + (",\n" + (more + "]\n"))));
    var u := p + |sep| + 2;
    SeparatorIsBlank(s, p, sep);
    OccursSplit(s, p + |sep|, "  ", quoted + (",\n" + (more + "]\n")));
    SeparatorIsBlank(s, p + |sep|, "  ");
    OccursSplit(s, u, quoted, ",\n" + (more + "]\n"));
    q := u + |quoted|;
    QuotedEntry(s, p, u, name);
  }

  lemma LastLine(s: string, p: nat, sep: string)
    requires (sep == "\n" || sep == ",\n") && Occurs(s, p, sep + ("" + "]\n"))
    ensures Items(s, p) == Ok([])
  {
    OccursSplit(s, p, sep, "" + "]\n");
    hide Occurs;
    SeparatorIsBlank(s, p, sep);
    LastBracket(s, p + |sep|, "" + "]\n");
    SkipTo(s, p, p + |sep|);
  }

  /** The printed lines from position `p` on. */
  lemma {:induction false} ItemsOfLines(s: string, p: nat, names: seq<string>, sep: string)
    requires forall i :: 0 <= i < |names| ==> '"' !in names[i]
    requires sep == "\n" || sep == ",\n"
    requires Occurs(s, p, sep + (Lines(names) + "]\n"))
    ensures Items(s, p) == Ok(names)
    decreases |names|
  {
    hide Occurs, Items, Line;
    if names == [] {
      LastLine(s, p, sep);
    } else {
      var q := FirstLine(s, p, names[0], Lines(names[1..]), sep);
      ItemsOfLines(s, q, names[1..], ",\n");
      assert [names[0]] + names[1..] == names;
    }
  }

  lemma LinesCat(name: string, more: string)
    ensures (Line(name) + more) + "]\n" == "  " + (("\"" + name + "\"") + (",\n" + (more + "]\n")))
  {
  }

  lemma HeaderLine1()
    ensures '[' !in HEADER1
  {
    assert '[' !in "# axan icon registry \U{2014}";
    assert '[' !in " written by `axan --import-icons`.\n";
  }

  lemma HeaderLine2()
    ensures '[' !in HEADER2
  {
    assert '[' !in "# Drop SVGs into ~/.config/axan/icons/,";
    assert '[' !in " then re-import to refresh.\n";
  }

  lemma HeaderLine3()
    ensures '[' !in HEADER3
  {
    assert '[' !in "# Files in that directory that aren't";
    assert '[' !in " listed here will NOT appear\n";
  }

  lemma HeaderLine4()
    ensures '[' !in HEADER4
  {
    assert '[' !in "# in the picker \U{2014} usually";
    assert '[' !in " because they failed validation.\n";
  }

  lemma HeaderHasNoBracket()
    ensures '[' !in HEADER
  {
    hide HEADER1, HEADER2, HEADER3, HEADER4;
    HeaderLine1();
    HeaderLine2();
    HeaderLine3();
    HeaderLine4();
  }

  /** The header mentions icons long before the array, but the array's bracket is the first bracket. */
  lemma ArrayIsFound(header: string, body: string)
    requires '[' !in header
    ensures var s := header + ("icons = [" + body);
            Parsed(s) == Items(s, |header| + 9)
  {
    var w := "icons = [";
    var s := header + (w + body);
    ArrayStart(header, w, body);
    ArrayWord(s, |header|);
    hide Items, Occurs;
    var a := FindWord(s, 0, "icons");
    assert a <= |header|;
    forall k | a <= k < |header| ensures s[k] != '[' {
      assert header[k] in header;
    }
    FindTo(s, a, |header| + 8, '[');
  }

  lemma ArrayStart(header: string, w: string, body: string)
    ensures Occurs(header + (w + body), |header|, w)
    ensures forall k :: 0 <= k < |header| ==> (header + (w + body))[k] == header[k]
  {
  }

  lemma ArrayWord(s: string, p: nat)
    requires Occurs(s, p, "icons = [")
    ensures Occurs(s, p, "icons") && p + 8 < |s| && s[p + 8] == '['
    ensures forall k :: p <= k < p + 8 ==> s[k] != '['
  {
    var w := "icons = [";
    assert w == "icons" + " = [";
    OccursSplit(s, p, "icons", " = [");
    assert s[p + 8] == s[p + 5 + 3] == " = ["[3];
    forall k | p <= k < p + 8 ensures s[k] != '[' {
      assert s[p + (k - p)] == w[k - p];
    }
  }

  /** Every name the parser returns is free of quotes. */
  lemma {:induction false} ItemsAreQuoteFree(s: string, p: nat)
    requires p <= |s| && Items(s, p).Ok?
    ensures forall i :: 0 <= i < |Items(s, p).value| ==> '"' !in Items(s, p).value[i]
    decreases |s| - p
  {
    if p < |s| && s[p] != ']' {
      var u := SkipBlanks(s, p);
      if u == |s| || s[u] == ']' {
      } else if s[u] == '#' {
        ItemsAreQuoteFree(s, FindFrom(s, u, '\n'));
      } else if s[u] != '"' {
        ItemsAreQuoteFree(s, u + 1);
      } else {
        var v := FindFrom(s, u + 1, '"');
        ItemsAreQuoteFree(s, v + 1);
        forall i | 0 <= i < |Items(s, p).value|
          ensures '"' !in Items(s, p).value[i]
        {
          if i > 0 {
            assert Items(s, p).value[i] == Items(s, v + 1).value[i - 1];
          }
        }
      }
    }
  }

  /** The text after the array's opening bracket. */
  function ArrayBody(names: seq<string>): string {
    if names == [] then "]\n" else "\n" + (Lines(names) + "]\n")
  }

  lemma PrintedBody(names: seq<string>)
    ensures Printed(names) == HEADER + ("icons = [" + ArrayBody(names))
  {
    hide HEADER, Lines;
  }

  lemma OccursAfter(a: string, w: string, b: string)
    ensures Occurs(a + (w + b), |a| + |w|, b)
  {
  }

  lemma BodyItems(s: string, p: nat, names: seq<string>)
    requires Occurs(s, p, ArrayBody(names)) && forall i :: 0 <= i < |names| ==> '"' !in names[i]
    ensures Items(s, p) == Ok(names)
  {
    if names == [] {
      LastBracket(s, p, "]\n");
      EmptyBody(s, p);
    } else {
      ItemsOfLines(s, p, names, "\n");
    }
  }

  /** Reading what was written returns exactly the written names if and only if no name contains a quote. */
  lemma RegistryRoundTrip(names: seq<string>)
    ensures Parsed(Printed(names)) == Ok(names) <==> forall i :: 0 <= i < |names| ==> '"' !in names[i]
  {
    hide Items, HEADER, ArrayBody, Printed, Occurs, Parsed;
    PrintedBody(names);
    HeaderHasNoBracket();
    ArrayIsFound(HEADER, ArrayBody(names));
    OccursAfter(HEADER, "icons = [", ArrayBody(names));
    var s, p := HEADER + ("icons = [" + ArrayBody(names)), |HEADER| + 9;
    if forall i :: 0 <= i < |names| ==> '"' !in names[i] {
      BodyItems(s, p, names);
    }
    if Parsed(s) == Ok(names) {
      ItemsAreQuoteFree(s, p);
    }
  }

  lemma EmptyBody(s: string, p: nat)
    requires p < |s| && s[p] == ']'
    ensures Items(s, p) == Ok([])
  {
  }
}
