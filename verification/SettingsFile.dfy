/** The global settings file: two schemas in one document, imported all or nothing. */
module SettingsFile {
  import opened Common
  import opened TomlText
  import opened SettingsToml

  // ------------------------------------------------------------------------------------------------
  // The document
  // ------------------------------------------------------------------------------------------------

  /** The comment lines at the top of every export; `tool` names the import command.  Long literals are written as
      sums of short ones, here and elsewhere: the proofs that look at every character of a literal stay cheap. */
  function HeaderComments(tool: string): seq<string> {
    [" axan TOML export",
     " Re-import with: axan --import-" + tool + " <this-file>",
     " Every key is written explicitly." + " Lines without a comment match",
     " the gschema default; `# modified" + " (default: X)` flags edits.",
     "",
     " Sparse imports are honored: omit" + " a key to leave it untouched."]
  }

  function CommentLines(comments: seq<string>): string {
    if comments == [] then "" else "#" + (comments[0] + ("\n" + CommentLines(comments[1..])))
  }

  function FileHeader(tool: string): string {
    CommentLines(HeaderComments(tool)) + "\n"
  }

  lemma {:induction false} CommentLinesAreSkipped(comments: seq<string>, rest: string)
    requires forall i :: 0 <= i < |comments| ==> Plain(comments[i])
    ensures DecodeDocument(CommentLines(comments) + rest) == DecodeDocument(rest)
    decreases |comments|
  {
    hide DecodeDocument;
    if comments == [] {
      assert CommentLines(comments) + rest == rest;
    } else {
      var more := CommentLines(comments[1..]) + rest;
      CommentLine(comments[0], more);
      CommentLinesAreSkipped(comments[1..], rest);
      assert CommentLines(comments) + rest == "#" + (comments[0] + ("\n" + more));
    }
  }

  lemma HeaderLines12(tool: string)
    requires Plain(tool)
    ensures Plain(" axan TOML export") && Plain(" Re-import with: axan --import-" + tool + " <this-file>")
  {
    PlainCat(" Re-import with: axan --import-", tool);
    PlainCat(" Re-import with: axan --import-" + tool, " <this-file>");
  }

  lemma HeaderLine3()
    ensures Plain(" Every key is written explicitly." + " Lines without a comment match")
  {
    PlainCat(" Every key is written explicitly.", " Lines without a comment match");
  }

  lemma HeaderLine4()
    ensures Plain(" the gschema default; `# modified" + " (default: X)` flags edits.")
  {
    PlainCat(" the gschema default; `# modified", " (default: X)` flags edits.");
  }

  lemma HeaderLine6()
    ensures Plain(" Sparse imports are honored: omit" + " a key to leave it untouched.")
  {
    PlainCat(" Sparse imports are honored: omit", " a key to leave it untouched.");
  }

  lemma HeaderLinesEnd(tool: string)
    requires Plain(tool)
    ensures forall i :: 0 <= i < |HeaderComments(tool)| ==> Plain(HeaderComments(tool)[i])
  {
    HeaderLines12(tool);
    HeaderLine3();
    HeaderLine4();
    HeaderLine6();
  }

  lemma HeaderIsSkipped(tool: string, rest: string)
    requires Plain(tool)
    ensures DecodeDocument(FileHeader(tool) + rest) == DecodeDocument(rest)
  {
    hide DecodeDocument, HeaderComments;
    HeaderLinesEnd(tool);
    CommentLinesAreSkipped(HeaderComments(tool), "\n" + rest);
    BlankLine(rest);
    assert FileHeader(tool) + rest == CommentLines(HeaderComments(tool)) + ("\n" + rest);
  }

  lemma NamePathDecodes(name: string, rest: string)
    requires IsBareKey(name)
    ensures DecodePath(name + ("]\n" + rest)) == Done([name], "]\n" + rest)
  {
    hide KeyRun;
    var u := name + ("]\n" + rest);
    assert !IsKeyChar(']');
    KeyRunIs(name, "]\n" + rest);
    assert u[..|name|] == name && u[|name|..] == "]\n" + rest;
  }

  lemma HeaderStart(name: string, more: string)
    requires IsBareKey(name)
    ensures var t := "[" + (name + more);
            !("[[" <= t) && "[" <= t && t[1..] == name + more
  {
    var t := "[" + (name + more);
    assert IsKeyChar(name[0]) && t[1] == name[0];
  }

  lemma AfterBracket(rest: string)
    ensures "]" <= "]\n" + rest && ("]\n" + rest)[1..] == "\n" + rest
    ensures DecodeLineEnd("\n" + rest) == Done((), rest)
  {
    hide DecodeLineEnd;
    NothingBefore("\n" + rest);
    TrailerEndsLine("", rest);
  }

  lemma NothingBefore(t: string)
    ensures "" + t == t
  {
  }

  lemma TableHeader(name: string, rest: string)
    requires IsBareKey(name)
    ensures DecodeHeader("[" + (name + ("]\n" + rest))) == Done(Table([name]), rest)
  {
    hide DecodePath, DecodeLineEnd, IsBareKey;
    HeaderStart(name, "]\n" + rest);
    NamePathDecodes(name, rest);
    AfterBracket(rest);
  }

  lemma TableLine(name: string, rest: string)
    requires IsBareKey(name)
    ensures DecodeDocument("[" + (name + ("]\n" + rest))) == Onto([Table([name])], DecodeDocument(rest))
  {
    hide DecodeHeader, DecodePair, IsBareKey, LineLength;
    SkipNoSpaces("[" + (name + ("]\n" + rest)));
    TableHeader(name, rest);
  }

  function SettingsText(schema: seq<KeySpec>, s: Values, plist: seq<KeySpec>, p: Values): string
    requires forall i :: 0 <= i < |schema| ==> schema[i].name in s
    requires forall i :: 0 <= i < |plist| ==> plist[i].name in p
  {
    FileHeader("settings") +
    ("[settings]\n" + (KeyLines(schema, s, {}, MaxWidth(schema, {}, |schema|), 0) +
    ("\n" + ("[profiles]\n" + (KeyLines(plist, p, {"list"}, MaxWidth(plist, {"list"}, |plist|), 0) + "")))))
  }

  method ExportSettings(schema: seq<KeySpec>, s: Values, plist: seq<KeySpec>, p: Values) returns (out: string)
    requires forall i :: 0 <= i < |schema| ==> schema[i].name in s
    requires forall i :: 0 <= i < |plist| ==> plist[i].name in p
    ensures out == SettingsText(schema, s, plist, p)
  {
    hide FileHeader, KeyLines, MaxWidth;
    var settings := EmitSchemaScalars(schema, s, {});
    var profiles := EmitSchemaScalars(plist, p, {"list"});
    out := FileHeader("settings") + ("[settings]\n" + (settings + ("\n" + ("[profiles]\n" + (profiles + "")))));
  }

  /** The pairs of one table of a document. */
  function Section(items: seq<Item>, path: seq<string>, inside: bool): seq<Pair> {
    if items == [] then []
    else if items[0].KeyValue? then
      var more := Section(items[1..], path, inside);
      if inside then [(items[0].key, items[0].value)] + more else more
    else Section(items[1..], path, items[0] == Table(path))
  }

  lemma {:induction false} SectionOfPairs(pairs: seq<Item>, more: seq<Item>, path: seq<string>, inside: bool)
    requires forall i :: 0 <= i < |pairs| ==> pairs[i].KeyValue?
    ensures Section(pairs + more, path, inside) == (if inside then AsTable(pairs) else []) + Section(more, path, inside)
    decreases |pairs|
  {
    if pairs == [] {
      assert pairs + more == more;
    } else {
      SectionOfPairs(pairs[1..], more, path, inside);
      assert (pairs + more)[1..] == pairs[1..] + more;
      if inside {
        assert AsTable(pairs) == [(pairs[0].key, pairs[0].value)] + AsTable(pairs[1..]);
      }
    }
  }

  lemma TwoSections(a: seq<Item>, b: seq<Item>)
    requires forall i :: 0 <= i < |a| ==> a[i].KeyValue?
    requires forall i :: 0 <= i < |b| ==> b[i].KeyValue?
    ensures var items := [Table(["settings"])] + (a + ([Table(["profiles"])] + (b + [])));
            && Section(items, ["settings"], false) == AsTable(a)
            && Section(items, ["profiles"], false) == AsTable(b)
  {
    var tail := [Table(["profiles"])] + (b + []);
    var items := [Table(["settings"])] + (a + tail);
    assert items[1..] == a + tail && tail[1..] == b + [];
    assert ["settings"][0] != ["profiles"][0];
    SectionOfPairs(a, tail, ["settings"], true);
    SectionOfPairs(a, tail, ["profiles"], false);
    SectionOfPairs(b, [], ["settings"], false);
    SectionOfPairs(b, [], ["profiles"], true);
  }

  /** The exported file can be read exactly when every exported value is representable, and then holds exactly the
      two exported tables. */
  lemma SettingsTextDecodes(schema: seq<KeySpec>, s: Values, plist: seq<KeySpec>, p: Values)
    requires IsSchema(schema) && Fits(schema, s) && IsSchema(plist) && Fits(plist, p)
    ensures var r := DecodeDocument(SettingsText(schema, s, plist, p));
            && (r.Done? <==> Readable(schema, s, {}, 0) && Readable(plist, p, {"list"}, 0))
            && (r.Done? ==> Section(r.value, ["settings"], false) == ExportTable(schema, s, {}))
            && (r.Done? ==> Section(r.value, ["profiles"], false) == ExportTable(plist, p, {"list"}))
  {
    hide DecodeDocument, KeyLines, FileHeader, Section, AsTable, Pairs, Readable, IsSchema;
    var w, v := MaxWidth(schema, {}, |schema|), MaxWidth(plist, {"list"}, |plist|);
    var pText := KeyLines(plist, p, {"list"}, v, 0) + "";
    var pPart := "[profiles]\n" + pText;
    var sText := KeyLines(schema, s, {}, w, 0) + ("\n" + pPart);
    HeaderIsSkipped("settings", "[settings]\n" + sText);
    TableLine("settings", sText);
    assert "[settings]\n" + sText == "[" + ("settings" + ("]\n" + sText));
    ExportDecodes(schema, s, {}, w, 0, "\n" + pPart);
    BlankLine(pPart);
    TableLine("profiles", pText);
    assert pPart == "[" + ("profiles" + ("]\n" + pText));
    ExportDecodes(plist, p, {"list"}, v, 0, "");
    assert DecodeDocument("") == Done([], "") by { EmptyDocument(); }
    PairsArePairs(schema, s, {}, 0);
    PairsArePairs(plist, p, {"list"}, 0);
    TwoSections(Pairs(schema, s, {}, 0), Pairs(plist, p, {"list"}, 0));
  }

  lemma EmptyDocument()
    ensures DecodeDocument("") == Done([], "")
  {
  }

  // ------------------------------------------------------------------------------------------------
  // The transaction
  // ------------------------------------------------------------------------------------------------

  /** A settings object in delayed mode: changes stay pending until they are applied or reverted. */
  class Settings {
    const schema: seq<KeySpec>
    var stored: Values
    var pending: Values

    ghost function Current(): Values
      reads this
    {
      stored + pending
    }

    constructor (schema: seq<KeySpec>, values: Values)
      ensures this.schema == schema && stored == values && pending == map[]
    {
      this.schema, stored, pending := schema, values, map[];
    }

    /** The library refuses a value that the key may not have. */
    method SetValue(key: string, v: Variant) returns (done: bool)
      requires FindKey(schema, key, |schema|) >= 0
      modifies this`pending
      ensures done == Admits(schema[FindKey(schema, key, |schema|)].limits, v)
      ensures Current() == if done then old(Current())[key := v] else old(Current())
    {
      done := Admits(schema[FindKey(schema, key, |schema|)].limits, v);
      if done {
        pending := pending[key := v];
      }
    }

    method Revert()
      modifies this`pending
      ensures pending == map[]
    {
      pending := map[];
    }

    method Apply()
      modifies this
      ensures stored == old(Current()) && pending == map[]
    {
      stored := stored + pending;
      pending := map[];
    }
  }

  /** The import loop over one table.  Keys are reported even if their value is refused or the import fails later. */
  method ImportScalars(t: seq<Pair>, settings: Settings, skip: set<string>, reported: seq<string>)
    returns (ok: bool, changed: seq<string>)
    modifies settings`pending
    ensures var g := Import(settings.schema, skip, t, old(settings.Current()));
            ok == g.ok && changed == reported + g.changed && settings.Current() == g.values
  {
    hide Judge;
    var schema := settings.schema;
    changed := reported;
    ok := true;
    var i := 0;
    ghost var before := settings.Current();
    while i < |t|
      invariant 0 <= i <= |t| && ok && settings.stored == old(settings.stored)
      invariant var g := ImportPairs(schema, skip, t, i, before);
                g.ok && changed == reported + g.changed && settings.Current() == g.values
    {
      var j := Judge(schema, skip, t[i]);
      if j.Reject? {
        ok := false;
        ImportStaysFailed(schema, skip, t, i + 1, before, |t|);
        return;
      }
      if j.Take? {
        var k := t[i].0;
        var current := if k in settings.pending then Just(settings.pending[k])
                       else if k in settings.stored then Just(settings.stored[k]) else Nothing;
        if current != Just(j.value) {
          JudgedKey(schema, skip, t[i]);
          var _ := settings.SetValue(k, j.value);
          changed := changed + [k];
        }
      }
      i := i + 1;
    }
  }

  lemma JudgedKey(schema: seq<KeySpec>, skip: set<string>, pair: Pair)
    requires Judge(schema, skip, pair).Take?
    ensures var j, k := Judge(schema, skip, pair), FindKey(schema, pair.0, |schema|);
            k >= 0 && j.admitted == Admits(schema[k].limits, j.value)
  {
  }

  lemma {:induction false} ImportStaysFailed(schema: seq<KeySpec>, skip: set<string>, t: seq<Pair>, n: nat,
                                              s: Values, m: nat)
    requires n <= m <= |t| && !ImportPairs(schema, skip, t, n, s).ok
    ensures ImportPairs(schema, skip, t, m, s) == ImportPairs(schema, skip, t, n, s)
    decreases m
  {
    hide Judge;
    if n < m {
      ImportStaysFailed(schema, skip, t, n, s, m - 1);
    }
  }

  /** An import that fails has reported what the pairs before the first mistyped one changed. */
  lemma FailedImportReports(schema: seq<KeySpec>, skip: set<string>, t: seq<Pair>, s: Values, f: nat)
    requires IsSchema(schema) && IsTable(t) && Parsed(t) && f < |t|
    requires exists j :: IsFor(schema, skip, t[f], j) && !IsOfKind(t[f].1, schema[j].ty)
    requires forall i, j :: 0 <= i < f && IsFor(schema, skip, t[i], j) ==> IsOfKind(t[i].1, schema[j].ty)
    ensures var before := Import(schema, skip, t[..f], s);
            before.ok && Import(schema, skip, t, s) == before.(ok := false)
  {
    hide Judge, IsSchema, IsOfKind;
    ImportFailsIff(schema, skip, t[..f], s);
    ImportOfPrefix(schema, skip, t, f, f, s);
    PairIsRejected(schema, skip, t[f]);
    ImportStaysFailed(schema, skip, t, f + 1, s, |t|);
  }

  lemma {:induction false} ImportOfPrefix(schema: seq<KeySpec>, skip: set<string>, t: seq<Pair>, f: nat, n: nat,
                                          s: Values)
    requires n <= f <= |t|
    ensures ImportPairs(schema, skip, t[..f], n, s) == ImportPairs(schema, skip, t, n, s)
    decreases n
  {
    hide Judge;
    if n > 0 {
      ImportOfPrefix(schema, skip, t, f, n - 1, s);
    }
  }

  /** The values after importing an optional table; a missing table changes nothing. */
  function ImportTable(schema: seq<KeySpec>, skip: set<string>, t: Maybe<seq<Pair>>, s: Values): Progress {
    if t.Just? then Import(schema, skip, t.value, s) else Progress(s, [], true)
  }

  /** Both tables or none: a type mismatch in either leaves both settings objects as they were.  The keys that had
      been changed by then are reported all the same. */
  method ImportSettings(settings: Settings, st: Maybe<seq<Pair>>, plist: Settings, pt: Maybe<seq<Pair>>)
    returns (ok: bool, changed: seq<string>)
    requires settings != plist && settings.pending == map[] && plist.pending == map[]
    modifies settings, plist
    ensures settings.pending == map[] && plist.pending == map[]
    ensures ok <==> ImportTable(settings.schema, {}, st, old(settings.stored)).ok
                    && ImportTable(plist.schema, {"list"}, pt, old(plist.stored)).ok
    ensures ok ==> settings.stored == ImportTable(settings.schema, {}, st, old(settings.stored)).values
    ensures ok ==> plist.stored == ImportTable(plist.schema, {"list"}, pt, old(plist.stored)).values
    ensures !ok ==> settings.stored == old(settings.stored) && plist.stored == old(plist.stored)
    ensures var g := ImportTable(settings.schema, {}, st, old(settings.stored));
            changed == g.changed
                       + if g.ok then ImportTable(plist.schema, {"list"}, pt, old(plist.stored)).changed else []
  {
    hide Import;
    ok, changed := true, [];
    assert settings.Current() == settings.stored && plist.Current() == plist.stored;
    if st.Just? {
      ok, changed := ImportScalars(st.value, settings, {}, changed);
      if !ok {
        settings.Revert();
        plist.Revert();
        return;
      }
    }
    if pt.Just? {
      ok, changed := ImportScalars(pt.value, plist, {"list"}, changed);
      if !ok {
        settings.Revert();
        plist.Revert();
        return;
      }
    }
    settings.Apply();
    plist.Apply();
  }

  /** Exporting one installation's settings and importing the file into another gives the second every set value
      of the first and nothing else; importing it back where it came from reports no change. */
  lemma SettingsFileRoundTrip(schema: seq<KeySpec>, s: Values, s': Values, plist: seq<KeySpec>, p: Values, p': Values)
    requires IsSchema(schema) && Fits(schema, s) && Fits(schema, s')
    requires IsSchema(plist) && Fits(plist, p) && Fits(plist, p')
    requires Readable(schema, s, {}, 0) && Readable(plist, p, {"list"}, 0)
    ensures var r := DecodeDocument(SettingsText(schema, s, plist, p));
            && r.Done?
            && var g := Import(schema, {}, Section(r.value, ["settings"], false), s');
               var h := Import(plist, {"list"}, Section(r.value, ["profiles"], false), p');
            && g.ok && h.ok
            && g.values == Merged(schema, s, s', {}) && h.values == Merged(plist, p, p', {"list"})
            && (s' == s && p' == p ==> g == Progress(s, [], true) && h == Progress(p, [], true))
  {
    hide DecodeDocument, Import, Section, SettingsText, Merged, ExportTable, IsSchema, Readable;
    SettingsTextDecodes(schema, s, plist, p);
    ExportImport(schema, s, s', {}, {});
    ExportImport(plist, p, p', {"list"}, {"list"});
  }
}
