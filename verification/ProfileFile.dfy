/** The profile file: the profile's settings and its launch entries. */
module ProfileFile {
  import opened Common
  import opened TomlText
  import opened SettingsToml
  import opened SettingsFile
  import opened LaunchEntries

  const ENTRIES_KEY: string := "default-launch-entries"
  const ENTRIES_PATH: seq<string> := ["profile", ENTRIES_KEY]
  const ENTRY_HEADER: string := "[[" + ("profile" + ("." + (ENTRIES_KEY + "]]\n")))

  // ------------------------------------------------------------------------------------------------
  // Writing launch entries
  // ------------------------------------------------------------------------------------------------

  type Field = (string, string)

  /** The fields that are written: the first six always, the colour if there is one, its target unless it is
      empty or the default. */
  function Fields(e: Entry): seq<Field> {
    [("id", e.id), ("parent-id", e.parentId), ("name", e.name), ("directory", e.dir), ("command", e.cmd),
     ("icon", e.icon)]
    + (if e.color != "" then [("color", e.color)] else [])
    + (if e.target != "" && e.target != "both" then [("color-target", e.target)] else [])
  }

  function FieldLine(f: Field): string {
    (f.0 + Spaces(Padding(f.0, 12))) + (" = " + (BrieflyQuoted(f.1) + "")) + "\n"
  }

  method PrintField(name: string, value: string) returns (line: string)
    ensures line == FieldLine((name, value))
  {
    var q := QuoteBriefly(value);
    line := (name + Spaces(Padding(name, 12))) + (" = " + (q + "")) + "\n";
  }

  function FieldLines(fs: seq<Field>): string {
    if fs == [] then "" else FieldLine(fs[0]) + FieldLines(fs[1..])
  }

  function EntryText(e: Entry): string {
    ENTRY_HEADER + (FieldLines(Fields(e)) + "\n")
  }

  function EntriesText(es: seq<Entry>): string {
    if es == [] then "" else EntryText(es[0]) + EntriesText(es[1..])
  }

  method WriteEntry(e: Entry) returns (out: string)
    ensures out == EntryText(e)
  {
    ghost var fs := Fields(e);
    FieldsAt(e);
    hide FieldLine, FieldLines, Fields, ENTRY_HEADER;
    out := ENTRY_HEADER;
    var names := ["id", "parent-id", "name", "directory", "command", "icon"];
    var values := [e.id, e.parentId, e.name, e.dir, e.cmd, e.icon];
    assert fs[0..] == fs;
    for n := 0 to 6
      invariant out + FieldLines(fs[n..]) == ENTRY_HEADER + FieldLines(fs)
    {
      AppendLine(out, fs, n);
      var line := PrintField(names[n], values[n]);
      out := out + line;
    }
    ghost var n := 6;
    if e.color != "" {
      AppendLine(out, fs, n);
      var line := PrintField("color", e.color);
      out := out + line;
      n := n + 1;
    }
    if e.target != "" && e.target != "both" {
      AppendLine(out, fs, n);
      var line := PrintField("color-target", e.target);
      out := out + line;
      n := n + 1;
    }
    assert fs[n..] == [];
    NoFieldLines(out);
    out := out + "\n";
    CatAssoc(ENTRY_HEADER, FieldLines(fs), "\n");
  }

  lemma NoFieldLines(out: string)
    ensures out + FieldLines([]) == out
  {
  }

  /** Which fields are written, in which order. */
  lemma FieldsAt(e: Entry)
    ensures var fs := Fields(e);
            var n := if e.color != "" then 7 else 6;
            && |fs| == n + (if e.target != "" && e.target != "both" then 1 else 0)
            && fs[0] == ("id", e.id) && fs[1] == ("parent-id", e.parentId) && fs[2] == ("name", e.name)
            && fs[3] == ("directory", e.dir) && fs[4] == ("command", e.cmd) && fs[5] == ("icon", e.icon)
            && (e.color != "" ==> fs[6] == ("color", e.color))
            && (e.target != "" && e.target != "both" ==> fs[n] == ("color-target", e.target))
  {
  }

  lemma AppendLine(out: string, fs: seq<Field>, n: nat)
    requires n < |fs|
    ensures (out + FieldLine(fs[n])) + FieldLines(fs[n + 1..]) == out + FieldLines(fs[n..])
  {
    assert fs[n..][1..] == fs[n + 1..];
  }

  // ------------------------------------------------------------------------------------------------
  // Decoding what was written
  // ------------------------------------------------------------------------------------------------

  ghost predicate PrintableFields(fs: seq<Field>) {
    forall i :: 0 <= i < |fs| ==> AllPrintable(fs[i].1)
  }

  function FieldItems(fs: seq<Field>): (r: seq<Item>)
    ensures |r| == |fs| && forall i :: 0 <= i < |r| ==> r[i] == KeyValue(fs[i].0, Str(fs[i].1))
  {
    seq(|fs|, i requires 0 <= i < |fs| => KeyValue(fs[i].0, Str(fs[i].1)))
  }

  lemma BriefValue(s: string, after: string)
    ensures DecodeValue(BrieflyQuoted(s) + after) == if AllPrintable(s) then Done(Str(s), after) else Fail
  {
    hide DecodeInside, AllPrintable;
    BriefQuoteRoundTrip(s, after);
    assert (BrieflyQuoted(s) + after)[0] == '"';
  }

  lemma FieldLineDecodes(f: Field, rest: string)
    requires IsBareKey(f.0)
    ensures DecodeDocument(FieldLine(f) + rest) ==
              if AllPrintable(f.1) then Onto([KeyValue(f.0, Str(f.1))], DecodeDocument(rest)) else Fail
  {
    var text := BrieflyQuoted(f.1);
    assert text[0] == '"';
    hide DecodeDocument, DecodeValue, AllPrintable, BrieflyQuoted;
    BriefValue(f.1, "" + ("\n" + rest));
    var value := if AllPrintable(f.1) then Done(Str(f.1), "") else Fail;
    PairLine(f.0, Padding(f.0, 12), text, value, "", rest);
    var line := (f.0 + Spaces(Padding(f.0, 12))) + (" = " + (text + ""));
    assert FieldLine(f) + rest == line + ("\n" + rest);
  }

  lemma PrintableStep(fs: seq<Field>)
    ensures fs == [] ==> PrintableFields(fs) && FieldItems(fs) == []
    ensures fs != [] ==> (PrintableFields(fs) <==> AllPrintable(fs[0].1) && PrintableFields(fs[1..]))
    ensures fs != [] ==> FieldItems(fs) == [KeyValue(fs[0].0, Str(fs[0].1))] + FieldItems(fs[1..])
  {
    hide AllPrintable;
    if fs != [] {
      assert forall i :: 0 <= i < |fs| - 1 ==> fs[1..][i] == fs[i + 1];
    }
  }

  lemma {:induction false} FieldLinesDecode(fs: seq<Field>, rest: string)
    requires forall i :: 0 <= i < |fs| ==> IsBareKey(fs[i].0)
    ensures DecodeDocument(FieldLines(fs) + rest) ==
              if PrintableFields(fs) then Onto(FieldItems(fs), DecodeDocument(rest)) else Fail
    decreases |fs|
  {
    hide DecodeDocument, FieldLine, AllPrintable, IsBareKey, PrintableFields, FieldItems;
    PrintableStep(fs);
    if fs == [] {
      assert FieldLines(fs) + rest == rest;
      OntoNothing(DecodeDocument(rest));
    } else {
      FieldLineDecodes(fs[0], FieldLines(fs[1..]) + rest);
      FieldLinesDecode(fs[1..], rest);
      CatAssoc(FieldLine(fs[0]), FieldLines(fs[1..]), rest);
      OntoOnto([KeyValue(fs[0].0, Str(fs[0].1))], FieldItems(fs[1..]), DecodeDocument(rest));
    }
  }

  lemma PathDecodes(a: string, b: string, rest: string)
    requires IsBareKey(a) && IsBareKey(b)
    ensures DecodePath(a + ("." + (b + ("]]\n" + rest)))) == Done([a, b], "]]\n" + rest)
  {
    hide KeyRun;
    var v := b + ("]]\n" + rest);
    var u := a + ("." + v);
    assert !IsKeyChar('.') && !IsKeyChar(']');
    KeyRunIs(a, "." + v);
    assert u[..|a|] == a && u[|a|] == '.' && u[|a| + 1..] == v;
    KeyRunIs(b, "]]\n" + rest);
    assert v[..|b|] == b && v[|b|..] == "]]\n" + rest;
    assert DecodePath(v) == Done([b], "]]\n" + rest);
    assert [a] + [b] == [a, b];
  }

  lemma HeaderPrefix(u: string)
    ensures "[[" <= "[[" + u && ("[[" + u)[2..] == u
  {
  }

  lemma AfterBrackets(rest: string)
    ensures "]]" <= "]]\n" + rest && ("]]\n" + rest)[2..] == "\n" + rest
  {
  }

  lemma ArrayTableHeader(a: string, b: string, rest: string)
    requires IsBareKey(a) && IsBareKey(b)
    ensures DecodeHeader("[[" + (a + ("." + (b + ("]]\n" + rest))))) == Done(ArrayTable([a, b]), rest)
  {
    hide DecodePath, DecodeLineEnd, IsBareKey;
    HeaderPrefix(a + ("." + (b + ("]]\n" + rest))));
    PathDecodes(a, b, rest);
    AfterBrackets(rest);
    AfterBracket(rest);
  }

  lemma ArrayTableLine(a: string, b: string, rest: string)
    requires IsBareKey(a) && IsBareKey(b)
    ensures DecodeDocument("[[" + (a + ("." + (b + ("]]\n" + rest)))))
            == Onto([ArrayTable([a, b])], DecodeDocument(rest))
  {
    hide DecodeHeader, DecodePair, IsBareKey, LineLength;
    SkipNoSpaces("[[" + (a + ("." + (b + ("]]\n" + rest)))));
    ArrayTableHeader(a, b, rest);
  }

  lemma FieldNamesAreKeys(e: Entry)
    ensures forall i :: 0 <= i < |Fields(e)| ==> IsBareKey(Fields(e)[i].0)
  {
    assert IsBareKey("id") && IsBareKey("parent-id") && IsBareKey("name") && IsBareKey("directory");
    assert IsBareKey("command") && IsBareKey("icon") && IsBareKey("color") && IsBareKey("color-target");
  }

  function EntryItems(e: Entry): seq<Item> {
    [ArrayTable(ENTRIES_PATH)] + FieldItems(Fields(e))
  }

  function EntriesItems(es: seq<Entry>): seq<Item> {
    if es == [] then [] else EntryItems(es[0]) + EntriesItems(es[1..])
  }

  /** Every string of the entry is free of control characters besides newline and tab. */
  ghost predicate CleanEntry(e: Entry) {
    && AllPrintable(e.id) && AllPrintable(e.parentId) && AllPrintable(e.name) && AllPrintable(e.dir)
    && AllPrintable(e.cmd) && AllPrintable(e.icon) && AllPrintable(e.color) && AllPrintable(e.target)
  }

  lemma CleanIsPrintable(e: Entry)
    ensures PrintableFields(Fields(e)) <==> CleanEntry(e)
  {
    var fs := Fields(e);
    assert AllPrintable("") && AllPrintable("both");
    hide AllPrintable;
    assert fs[0].1 == e.id && fs[1].1 == e.parentId && fs[2].1 == e.name;
    assert fs[3].1 == e.dir && fs[4].1 == e.cmd && fs[5].1 == e.icon;
    if e.color != "" {
      assert fs[6].1 == e.color;
    }
    if e.target != "" && e.target != "both" {
      assert fs[|fs| - 1].1 == e.target;
    }
  }

  lemma EntryTextCat(a: string, b: string, lines: string, rest: string)
    ensures (("[[" + (a + ("." + (b + "]]\n")))) + (lines + "\n")) + rest
            == "[[" + (a + ("." + (b + ("]]\n" + (lines + ("\n" + rest))))))
  {
  }

  lemma EntryDecodes(e: Entry, rest: string)
    ensures DecodeDocument(EntryText(e) + rest) ==
              if CleanEntry(e) then Onto(EntryItems(e), DecodeDocument(rest)) else Fail
  {
    assert IsBareKey("profile") && IsBareKey(ENTRIES_KEY);
    hide ENTRIES_KEY;
    hide DecodeDocument, CleanEntry, PrintableFields, Fields, IsBareKey, FieldLines;
    var lines := FieldLines(Fields(e));
    var after := lines + ("\n" + rest);
    ArrayTableLine("profile", ENTRIES_KEY, after);
    EntryTextCat("profile", ENTRIES_KEY, lines, rest);
    FieldNamesAreKeys(e);
    FieldLinesDecode(Fields(e), "\n" + rest);
    CleanIsPrintable(e);
    BlankLine(rest);
    OntoOnto([ArrayTable(ENTRIES_PATH)], FieldItems(Fields(e)), DecodeDocument(rest));
  }

  lemma {:induction false} EntriesDecode(es: seq<Entry>, rest: string)
    ensures DecodeDocument(EntriesText(es) + rest) ==
              if forall i :: 0 <= i < |es| ==> CleanEntry(es[i])
              then Onto(EntriesItems(es), DecodeDocument(rest)) else Fail
    decreases |es|
  {
    hide DecodeDocument, CleanEntry, EntryText, EntryItems;
    if es == [] {
      assert EntriesText(es) + rest == rest;
      OntoNothing(DecodeDocument(rest));
    } else {
      EntryDecodes(es[0], EntriesText(es[1..]) + rest);
      EntriesDecode(es[1..], rest);
      CatAssoc(EntryText(es[0]), EntriesText(es[1..]), rest);
      OntoOnto(EntryItems(es[0]), EntriesItems(es[1..]), DecodeDocument(rest));
      assert forall i :: 0 <= i < |es| - 1 ==> es[1..][i] == es[i + 1];
    }
  }

  // ------------------------------------------------------------------------------------------------
  // Reading launch entries
  // ------------------------------------------------------------------------------------------------

  /** The string under a key of an entry table; "" if it is missing or not a string. */
  function FieldOf(t: seq<Pair>, key: string): string {
    if t == [] then ""
    else if t[0].0 == key then (if t[0].1.Str? then t[0].1.s else "")
    else FieldOf(t[1..], key)
  }

  method ReadEntry(t: seq<Pair>) returns (e: Entry)
    ensures e == EntryOf(t)
  {
    var names := ["id", "parent-id", "name", "directory", "command", "icon", "color", "color-target"];
    var fields: seq<string> := [];
    for i := 0 to 8
      invariant |fields| == i && forall j :: 0 <= j < i ==> fields[j] == FieldOf(t, names[j])
    {
      fields := fields + [FieldOf(t, names[i])];
    }
    e := Entry(fields[0], fields[1], fields[2], fields[3], fields[4], fields[5], fields[6], fields[7]);
  }

  function EntryOf(t: seq<Pair>): Entry {
    Entry(FieldOf(t, "id"), FieldOf(t, "parent-id"), FieldOf(t, "name"), FieldOf(t, "directory"),
          FieldOf(t, "command"), FieldOf(t, "icon"), FieldOf(t, "color"), FieldOf(t, "color-target"))
  }

  /** The pairs up to the next table header. */
  function Leading(items: seq<Item>): seq<Pair> {
    if items == [] || !items[0].KeyValue? then []
    else [(items[0].key, items[0].value)] + Leading(items[1..])
  }

  /** The entries of a document, one per table header of the launch-entry array. */
  function ReadEntries(items: seq<Item>): seq<Entry> {
    if items == [] then []
    else
      var more := ReadEntries(items[1..]);
      if items[0] == ArrayTable(ENTRIES_PATH) then [EntryOf(Leading(items[1..]))] + more else more
  }

  lemma {:induction false} FieldOfTable(t: seq<Pair>, i: nat)
    requires i < |t| && (forall j :: 0 <= j < i ==> t[j].0 != t[i].0) && t[i].1.Str?
    ensures FieldOf(t, t[i].0) == t[i].1.s
    decreases i
  {
    if i > 0 {
      FieldOfTable(t[1..], i - 1);
    }
  }

  lemma {:induction false} FieldMissing(t: seq<Pair>, key: string)
    requires forall j :: 0 <= j < |t| ==> t[j].0 != key
    ensures FieldOf(t, key) == ""
    decreases |t|
  {
    if t != [] {
      FieldMissing(t[1..], key);
    }
  }

  /** The string that a table has under a key; none if the key is missing or holds something else. */
  ghost predicate HasText(t: seq<Pair>, key: string, s: string) {
    if exists i :: 0 <= i < |t| && t[i].0 == key && t[i].1.Str?
    then exists i :: 0 <= i < |t| && t[i] == (key, Str(s))
    else s == ""
  }

  lemma {:induction false} FieldIsText(t: seq<Pair>, key: string, s: string)
    requires IsTable(t)
    ensures FieldOf(t, key) == s <==> HasText(t, key, s)
    decreases |t|
  {
    if i :| 0 <= i < |t| && t[i].0 == key {
      if t[i].1.Str? {
        FieldOfTable(t, i);
      } else {
        NoText(t, i);
      }
    } else {
      FieldMissing(t, key);
    }
  }

  lemma {:induction false} NoText(t: seq<Pair>, i: nat)
    requires i < |t| && (forall j :: 0 <= j < i ==> t[j].0 != t[i].0) && !t[i].1.Str?
    ensures FieldOf(t, t[i].0) == ""
    decreases i
  {
    if i > 0 {
      NoText(t[1..], i - 1);
    }
  }

  /** The entry that a table stands for, key by key; what is missing or no string is empty. */
  lemma EntryIsRead(t: seq<Pair>, e: Entry)
    requires IsTable(t)
    ensures e == EntryOf(t) <==>
              && HasText(t, "id", e.id) && HasText(t, "parent-id", e.parentId) && HasText(t, "name", e.name)
              && HasText(t, "directory", e.dir) && HasText(t, "command", e.cmd) && HasText(t, "icon", e.icon)
              && HasText(t, "color", e.color) && HasText(t, "color-target", e.target)
  {
    hide HasText, FieldOf, IsTable;
    FieldIsText(t, "id", e.id);
    FieldIsText(t, "parent-id", e.parentId);
    FieldIsText(t, "name", e.name);
    FieldIsText(t, "directory", e.dir);
    FieldIsText(t, "command", e.cmd);
    FieldIsText(t, "icon", e.icon);
    FieldIsText(t, "color", e.color);
    FieldIsText(t, "color-target", e.target);
  }

  /** The table that an entry is written as: six keys always, the colour if there is one, the colour target unless it is
      the default, and nothing else. */
  lemma EntryIsWritten(e: Entry, item: Item)
    ensures ENTRIES_PATH == ["profile", "default-launch-entries"]
    ensures EntryItems(e)[0] == ArrayTable(["profile", "default-launch-entries"])
    ensures item in EntryItems(e)[1..] <==>
              || item == KeyValue("id", Str(e.id)) || item == KeyValue("parent-id", Str(e.parentId))
              || item == KeyValue("name", Str(e.name)) || item == KeyValue("directory", Str(e.dir))
              || item == KeyValue("command", Str(e.cmd)) || item == KeyValue("icon", Str(e.icon))
              || (item == KeyValue("color", Str(e.color)) && e.color != "")
              || (item == KeyValue("color-target", Str(e.target)) && e.target != "" && e.target != "both")
  {
    FieldsAt(e);
    hide Fields;
    var fs := Fields(e);
    assert EntryItems(e)[1..] == FieldItems(fs);
    assert forall i :: 0 <= i < |fs| ==> FieldItems(fs)[i] == KeyValue(fs[i].0, Str(fs[i].1));
    if item in FieldItems(fs) {
      var i :| 0 <= i < |fs| && FieldItems(fs)[i] == item;
    }
  }

  /** The entry as it comes back: the default colour target is not spelled out. */
  function Normal(e: Entry): Entry {
    e.(target := if e.target == "both" then "" else e.target)
  }

  /** Reading a written field gives its value. */
  lemma WrittenField(fs: seq<Field>, i: nat)
    requires i < |fs| && forall j :: 0 <= j < i ==> fs[j].0 != fs[i].0
    ensures FieldOf(AsTable(FieldItems(fs)), fs[i].0) == fs[i].1
  {
    FieldOfTable(AsTable(FieldItems(fs)), i);
  }

  lemma FieldNameAt(e: Entry, i: nat)
    requires i < |Fields(e)|
    ensures i < 6 ==> Fields(e)[i].0 == ["id", "parent-id", "name", "directory", "command", "icon"][i]
    ensures i >= 6 ==> Fields(e)[i].0 == "color" || Fields(e)[i].0 == "color-target"
    ensures i == 7 ==> Fields(e)[i].0 == "color-target"
  {
  }

  lemma FirstFields(e: Entry)
    ensures var t := AsTable(FieldItems(Fields(e)));
            && FieldOf(t, "id") == e.id && FieldOf(t, "parent-id") == e.parentId && FieldOf(t, "name") == e.name
            && FieldOf(t, "directory") == e.dir && FieldOf(t, "command") == e.cmd && FieldOf(t, "icon") == e.icon
  {
    var fs := Fields(e);
    assert fs[0] == ("id", e.id) && fs[1] == ("parent-id", e.parentId) && fs[2] == ("name", e.name);
    assert fs[3] == ("directory", e.dir) && fs[4] == ("command", e.cmd) && fs[5] == ("icon", e.icon);
    hide FieldOf, Fields;
    WrittenField(fs, 0);
    WrittenField(fs, 1);
    WrittenField(fs, 2);
    WrittenField(fs, 3);
    WrittenField(fs, 4);
    WrittenField(fs, 5);
  }

  lemma ColorFields(e: Entry)
    ensures var t := AsTable(FieldItems(Fields(e)));
            FieldOf(t, "color") == e.color && FieldOf(t, "color-target") == Normal(e).target
  {
    var fs := Fields(e);
    var t := AsTable(FieldItems(fs));
    var hasTarget := e.target != "" && e.target != "both";
    forall i | 0 <= i < |fs|
      ensures i < 6 ==> fs[i].0 != "color" && fs[i].0 != "color-target"
      ensures i >= 6 ==> fs[i] == if i == 6 && e.color != "" then ("color", e.color) else ("color-target", e.target)
    {
      FieldNameAt(e, i);
    }
    assert |fs| == 6 + (if e.color != "" then 1 else 0) + (if hasTarget then 1 else 0);
    hide FieldOf, Fields;
    assert "color" != "color-target";
    if e.color != "" {
      WrittenField(fs, 6);
    } else {
      FieldMissing(t, "color");
    }
    if hasTarget {
      WrittenField(fs, |fs| - 1);
    } else {
      FieldMissing(t, "color-target");
    }
  }

  lemma EntryRoundTrip(e: Entry)
    ensures EntryOf(AsTable(FieldItems(Fields(e)))) == Normal(e)
  {
    hide FieldOf, Fields;
    FirstFields(e);
    ColorFields(e);
  }

  lemma {:induction false} LeadingPairs(pairs: seq<Item>, more: seq<Item>)
    requires (forall i :: 0 <= i < |pairs| ==> pairs[i].KeyValue?) && (more == [] || !more[0].KeyValue?)
    ensures Leading(pairs + more) == AsTable(pairs)
    ensures ReadEntries(pairs + more) == ReadEntries(more)
    decreases |pairs|
  {
    if pairs == [] {
      assert pairs + more == more;
    } else {
      LeadingPairs(pairs[1..], more);
      assert (pairs + more)[1..] == pairs[1..] + more;
      assert AsTable(pairs) == [(pairs[0].key, pairs[0].value)] + AsTable(pairs[1..]);
    }
  }

  function NormalAll(es: seq<Entry>): seq<Entry> {
    if es == [] then [] else [Normal(es[0])] + NormalAll(es[1..])
  }

  lemma {:induction false} EntriesReadBack(es: seq<Entry>)
    ensures ReadEntries(EntriesItems(es)) == NormalAll(es)
    decreases |es|
  {
    hide Fields, Normal, EntryOf;
    if es != [] {
      EntriesReadBack(es[1..]);
      var pairs, more := FieldItems(Fields(es[0])), EntriesItems(es[1..]);
      LeadingPairs(pairs, more);
      var items := EntriesItems(es);
      assert items[0] == ArrayTable(ENTRIES_PATH) && items[1..] == pairs + more;
      EntryRoundTrip(es[0]);
    }
  }

  /** Written launch entries can be read exactly when they are clean, and then come back as they were, with the
      colour target "both" left empty. */
  lemma LaunchEntriesRoundTrip(es: seq<Entry>)
    ensures var r := DecodeDocument(EntriesText(es));
            && (r.Done? <==> forall i :: 0 <= i < |es| ==> CleanEntry(es[i]))
            && (r.Done? ==> ReadEntries(r.value) == NormalAll(es))
  {
    hide DecodeDocument, EntriesText, CleanEntry;
    EntriesDecode(es, "");
    EmptyDocument();
    assert EntriesText(es) + "" == EntriesText(es);
    EntriesReadBack(es);
    assert EntriesItems(es) + [] == EntriesItems(es);
  }

  lemma {:induction false} NormalAllTwice(es: seq<Entry>)
    ensures NormalAll(NormalAll(es)) == NormalAll(es)
    decreases |es|
  {
    if es != [] {
      NormalAllTwice(es[1..]);
    }
  }

  lemma NormalIsClean(e: Entry)
    requires CleanEntry(e)
    ensures CleanEntry(Normal(e))
  {
  }

  lemma {:induction false} NormalAllAreClean(es: seq<Entry>)
    requires forall i :: 0 <= i < |es| ==> CleanEntry(es[i])
    ensures |NormalAll(es)| == |es| && forall i :: 0 <= i < |es| ==> CleanEntry(NormalAll(es)[i])
    decreases |es|
  {
    hide CleanEntry, Normal;
    if es != [] {
      NormalIsClean(es[0]);
      assert forall i :: 0 <= i < |es| - 1 ==> CleanEntry(es[1..][i]);
      NormalAllAreClean(es[1..]);
      assert forall i :: 0 < i < |es| ==> NormalAll(es)[i] == NormalAll(es[1..])[i - 1];
    }
  }

  /** A second round trip is the identity: what was read back from a written list can be written and read again, and
      comes back unchanged. */
  lemma SecondRoundTrip(es: seq<Entry>)
    ensures var first := DecodeDocument(EntriesText(es));
            first.Done? ==>
              var second := DecodeDocument(EntriesText(ReadEntries(first.value)));
              second.Done? && ReadEntries(second.value) == ReadEntries(first.value)
  {
    hide DecodeDocument, EntriesText, CleanEntry, ReadEntries, NormalAll;
    LaunchEntriesRoundTrip(es);
    if DecodeDocument(EntriesText(es)).Done? {
      NormalAllAreClean(es);
      LaunchEntriesRoundTrip(NormalAll(es));
      NormalAllTwice(es);
    }
  }

  // ------------------------------------------------------------------------------------------------
  // The whole profile file
  // ------------------------------------------------------------------------------------------------

  // Sums of short literals, as in the file header, keep the proofs about their characters cheap.
  const UUID_TRAILER: string := "  # identity \U{2014} re-import" + " overwrites this UUID"

  function UuidLine(uuid: string): string {
    ("uuid" + Spaces(Padding("uuid", 9))) + (" = " + (BrieflyQuoted(uuid) + UUID_TRAILER)) + "\n"
  }

  const NO_ENTRIES: string := " (no startup" + " launch entries)"

  function EntriesPart(es: seq<Entry>): string {
    if es == [] then "#" + (NO_ENTRIES + "\n") else EntriesText(es)
  }

  function ProfileText(uuid: string, schema: seq<KeySpec>, s: Values, es: seq<Entry>): string
    requires forall i :: 0 <= i < |schema| ==> schema[i].name in s
  {
    FileHeader("profile") +
    ("[profile]\n" + (UuidLine(uuid) +
    (KeyLines(schema, s, {ENTRIES_KEY}, MaxWidth(schema, {ENTRIES_KEY}, |schema|), 0) +
    ("\n" + EntriesPart(es)))))
  }

  lemma EntriesTextStep(out: string, es: seq<Entry>, i: nat)
    requires i < |es|
    ensures (out + EntryText(es[i])) + EntriesText(es[i + 1..]) == out + EntriesText(es[i..])
  {
    hide EntryText;
    assert es[i..][1..] == es[i + 1..];
  }

  method WriteEntries(es: seq<Entry>) returns (out: string)
    ensures out == EntriesPart(es)
  {
    hide EntryText, NO_ENTRIES;
    if es == [] {
      return "#" + (NO_ENTRIES + "\n");
    }
    out := "";
    assert es[0..] == es;
    for i := 0 to |es|
      invariant out + EntriesText(es[i..]) == EntriesText(es)
    {
      EntriesTextStep(out, es, i);
      var text := WriteEntry(es[i]);
      out := out + text;
    }
    assert out + "" == out;
  }

  method ExportProfile(uuid: string, schema: seq<KeySpec>, s: Values, es: seq<Entry>) returns (out: string)
    requires forall i :: 0 <= i < |schema| ==> schema[i].name in s
    ensures out == ProfileText(uuid, schema, s, es)
  {
    hide FileHeader, KeyLines, MaxWidth, EntriesPart, UUID_TRAILER, ENTRIES_KEY;
    var q := QuoteBriefly(uuid);
    var uuidLine := ("uuid" + Spaces(Padding("uuid", 9))) + (" = " + (q + UUID_TRAILER)) + "\n";
    var lines := EmitSchemaScalars(schema, s, {ENTRIES_KEY});
    var entries := WriteEntries(es);
    out := FileHeader("profile") + ("[profile]\n" + (uuidLine + (lines + ("\n" + entries))));
  }

  lemma UuidTrailerIsTrailer()
    ensures IsTrailer(UUID_TRAILER)
  {
    assert Plain("  # identity \U{2014} re-import") && Plain(" overwrites this UUID");
    PlainCat("  # identity \U{2014} re-import", " overwrites this UUID");
    assert UUID_TRAILER[..3] == "  #";
  }

  lemma UuidLineDecodes(uuid: string, rest: string)
    ensures DecodeDocument(UuidLine(uuid) + rest) ==
              if AllPrintable(uuid) then Onto([KeyValue("uuid", Str(uuid))], DecodeDocument(rest)) else Fail
  {
    var text := BrieflyQuoted(uuid);
    assert text[0] == '"' && IsBareKey("uuid");
    UuidTrailerIsTrailer();
    hide DecodeDocument, DecodeValue, AllPrintable, BrieflyQuoted, UUID_TRAILER, IsTrailer, IsBareKey;
    BriefValue(uuid, UUID_TRAILER + ("\n" + rest));
    var value := if AllPrintable(uuid) then Done(Str(uuid), "") else Fail;
    PairLine("uuid", Padding("uuid", 9), text, value, UUID_TRAILER, rest);
    CatAssoc(("uuid" + Spaces(Padding("uuid", 9))) + (" = " + (text + UUID_TRAILER)), "\n", rest);
  }

  lemma CommentDocument(comment: string)
    requires Plain(comment)
    ensures DecodeDocument("#" + (comment + "\n")) == Done([], "")
  {
    hide DecodeDocument;
    CommentLine(comment, "");
    EmptyDocument();
    assert "\n" + "" == "\n";
  }

  lemma NoEntriesPart()
    ensures Plain(NO_ENTRIES)
  {
    PlainCat(" (no startup", " launch entries)");
  }

  lemma EntriesPartDecodes(es: seq<Entry>)
    ensures DecodeDocument(EntriesPart(es)) ==
              if forall i :: 0 <= i < |es| ==> CleanEntry(es[i]) then Done(EntriesItems(es), "") else Fail
  {
    hide DecodeDocument, EntriesText, CleanEntry, NO_ENTRIES;
    if es == [] {
      NoEntriesPart();
      CommentDocument(NO_ENTRIES);
    } else {
      EmptyDocument();
      EntriesDecode(es, "");
      assert EntriesText(es) + "" == EntriesText(es);
      assert EntriesItems(es) + [] == EntriesItems(es);
    }
  }

  lemma ProfileKeysDecode(schema: seq<KeySpec>, s: Values, w: nat, es: seq<Entry>)
    requires IsSchema(schema) && Fits(schema, s)
    ensures DecodeDocument(KeyLines(schema, s, {ENTRIES_KEY}, w, 0) + ("\n" + EntriesPart(es))) ==
              if Readable(schema, s, {ENTRIES_KEY}, 0) && forall i :: 0 <= i < |es| ==> CleanEntry(es[i])
              then Done(Pairs(schema, s, {ENTRIES_KEY}, 0) + EntriesItems(es), "") else Fail
  {
    hide DecodeDocument, KeyLines, Pairs, Readable, IsSchema, EntriesPart, CleanEntry, ENTRIES_KEY, EntriesItems;
    ExportDecodes(schema, s, {ENTRIES_KEY}, w, 0, "\n" + EntriesPart(es));
    BlankLine(EntriesPart(es));
    EntriesPartDecodes(es);
  }

  /** The items of a profile file. */
  function ProfileItems(uuid: string, pairs: seq<Item>, es: seq<Entry>): seq<Item> {
    [Table(["profile"])] + ([KeyValue("uuid", Str(uuid))] + (pairs + EntriesItems(es)))
  }

  lemma ProfileIsPlain()
    ensures IsBareKey("profile") && Plain("profile")
  {
  }

  lemma ProfileTextDecodes(uuid: string, schema: seq<KeySpec>, s: Values, es: seq<Entry>)
    requires IsSchema(schema) && Fits(schema, s)
    ensures DecodeDocument(ProfileText(uuid, schema, s, es)) ==
              if AllPrintable(uuid) && Readable(schema, s, {ENTRIES_KEY}, 0)
                 && forall i :: 0 <= i < |es| ==> CleanEntry(es[i])
              then Done(ProfileItems(uuid, Pairs(schema, s, {ENTRIES_KEY}, 0), es), "") else Fail
  {
    hide DecodeDocument, KeyLines, FileHeader, Pairs, Readable, IsSchema, UuidLine, EntriesPart, CleanEntry,
         ENTRIES_KEY, AllPrintable, IsBareKey, EntriesItems;
    var w := MaxWidth(schema, {ENTRIES_KEY}, |schema|);
    var lines := KeyLines(schema, s, {ENTRIES_KEY}, w, 0) + ("\n" + EntriesPart(es));
    var body := UuidLine(uuid) + lines;
    ProfileIsPlain();
    HeaderIsSkipped("profile", "[profile]\n" + body);
    TableLine("profile", body);
    TableCat("profile", body);
    ProfileTableCat(body);
    UuidLineDecodes(uuid, lines);
    ProfileKeysDecode(schema, s, w, es);
  }

  lemma ProfileTableCat(body: string)
    ensures "[profile]\n" + body == ("[" + ("profile" + "]\n")) + body
  {
    assert "[profile]\n" == "[" + ("profile" + "]\n");
  }

  lemma TableCat(name: string, body: string)
    ensures ("[" + (name + "]\n")) + body == "[" + (name + ("]\n" + body))
  {
  }

  lemma {:induction false} SectionOfEntries(es: seq<Entry>, path: seq<string>)
    ensures Section(EntriesItems(es), path, false) == []
    ensures es != [] ==> !EntriesItems(es)[0].KeyValue?
    decreases |es|
  {
    hide Fields;
    if es != [] {
      SectionOfEntries(es[1..], path);
      var pairs, more := FieldItems(Fields(es[0])), EntriesItems(es[1..]);
      SectionOfPairs(pairs, more, path, false);
      assert EntriesItems(es)[1..] == pairs + more;
    }
  }

  lemma {:induction false} SectionEndsAtEntries(es: seq<Entry>, path: seq<string>)
    ensures Section(EntriesItems(es), path, true) == []
  {
    if es != [] {
      SectionOfEntries(es, path);
    }
  }

  lemma ProfileSections(uuid: string, pairs: seq<Item>, es: seq<Entry>)
    requires forall i :: 0 <= i < |pairs| ==> pairs[i].KeyValue?
    ensures var items := ProfileItems(uuid, pairs, es);
            && Section(items, ["profile"], false) == [("uuid", Str(uuid))] + AsTable(pairs)
            && ReadEntries(items) == NormalAll(es)
  {
    hide AsTable, Fields, FieldItems, EntryOf, EntriesItems;
    var items := ProfileItems(uuid, pairs, es);
    var more := EntriesItems(es);
    SectionEndsAtEntries(es, ["profile"]);
    SectionOfPairs(pairs, more, ["profile"], true);
    assert AsTable(pairs) + [] == AsTable(pairs);
    SectionOfEntries(es, ["profile"]);
    SkipsPairs(pairs, more);
    EntriesReadBack(es);
    assert items[1..] == [KeyValue("uuid", Str(uuid))] + (pairs + more);
    assert items[1..][1..] == pairs + more;
  }

  lemma {:induction false} SkipsPairs(pairs: seq<Item>, more: seq<Item>)
    requires forall i :: 0 <= i < |pairs| ==> pairs[i].KeyValue?
    ensures ReadEntries(pairs + more) == ReadEntries(more)
    decreases |pairs|
  {
    if pairs == [] {
      assert pairs + more == more;
    } else {
      SkipsPairs(pairs[1..], more);
      assert (pairs + more)[1..] == pairs[1..] + more;
    }
  }

  /** A leading pair that the importer ignores makes no difference. */
  lemma {:induction false} IgnoredHead(schema: seq<KeySpec>, skip: set<string>, head: Pair, t: seq<Pair>, n: nat,
                                       s: Values)
    requires n <= |t| && Judge(schema, skip, head).Ignore?
    ensures ImportPairs(schema, skip, [head] + t, n + 1, s) == ImportPairs(schema, skip, t, n, s)
    decreases n
  {
    hide Judge;
    if n == 0 {
      assert ImportPairs(schema, skip, [head] + t, 0, s) == Progress(s, [], true);
    } else {
      IgnoredHead(schema, skip, head, t, n - 1, s);
      assert ([head] + t)[n] == t[n - 1];
    }
  }

  predicate HasNoUuidKey(schema: seq<KeySpec>) {
    forall i :: 0 <= i < |schema| ==> schema[i].name != "uuid"
  }

  /** Importing the items over `s'` finds the uuid, every set value and the launch entries; over `s` itself it
      changes nothing. */
  ghost predicate GivesBack(items: seq<Item>, uuid: string, schema: seq<KeySpec>, s: Values, s': Values, es: seq<Entry>)
    requires IsSchema(schema) && Fits(schema, s) && Fits(schema, s')
  {
    var t := Section(items, ["profile"], false);
    var g := Import(schema, {"uuid", ENTRIES_KEY}, t, s');
    && t != [] && t[0] == ("uuid", Str(uuid))
    && g.ok && g.values == Merged(schema, s, s', {ENTRIES_KEY}) && (s' == s ==> g.changed == [])
    && ReadEntries(items) == NormalAll(es)
  }

  /** A profile file can be read exactly when its uuid and entries are clean and its values representable.  It then
      gives back the uuid, every set value and nothing else, and the launch entries up to the default target. */
  lemma ProfileFileRoundTrip(uuid: string, schema: seq<KeySpec>, s: Values, s': Values, es: seq<Entry>)
    requires IsSchema(schema) && Fits(schema, s) && Fits(schema, s')
    requires HasNoUuidKey(schema)
    ensures var r := DecodeDocument(ProfileText(uuid, schema, s, es));
            && (r.Done? <==> AllPrintable(uuid) && Readable(schema, s, {ENTRIES_KEY}, 0)
                             && forall i :: 0 <= i < |es| ==> CleanEntry(es[i]))
            && (r.Done? ==> GivesBack(r.value, uuid, schema, s, s', es))
  {
    hide DecodeDocument, Section, ProfileText, Merged, IsSchema, Readable, ProfileItems, Pairs, CleanEntry,
         AllPrintable, ENTRIES_KEY, ReadEntries, AsTable;
    ProfileTextDecodes(uuid, schema, s, es);
    PairsArePairs(schema, s, {ENTRIES_KEY}, 0);
    ProfileSections(uuid, Pairs(schema, s, {ENTRIES_KEY}, 0), es);
    ExportImport(schema, s, s', {ENTRIES_KEY}, {"uuid", ENTRIES_KEY});
    var table := ExportTable(schema, s, {ENTRIES_KEY});
    IgnoredHead(schema, {"uuid", ENTRIES_KEY}, ("uuid", Str(uuid)), table, |table|, s');
  }
}
