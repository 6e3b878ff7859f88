/** Importing a profile file: one transaction over the profile's settings and its launch entries. */
module ProfileImport {
  import opened Common
  import opened TomlText
  import opened SettingsToml
  import opened SettingsFile
  import opened LaunchEntries
  import opened ProfileFile

  /** An element of the launch-entry array. */
  datatype Element = TableElement(pairs: seq<Pair>) | OtherElement

  /** What the importer looks at in a parsed file: the [profile] table and the launch-entry array, if they exist. */
  datatype Document = Document(profile: Maybe<seq<Pair>>, entries: Maybe<seq<Element>>)

  datatype Outcome = NoTable | NoUuid | BadValue | BadEntry | Imported(uuid: string)

  const SKIPPED: set<string> := {"uuid", ENTRIES_KEY}

  function UuidOf(t: seq<Pair>): Maybe<string> {
    if t == [] then Nothing
    else if t[0].0 == "uuid" then (if t[0].1.Str? then Just(t[0].1.s) else Nothing)
    else UuidOf(t[1..])
  }

  predicate AllTables(els: seq<Element>) {
    forall i :: 0 <= i < |els| ==> els[i].TableElement?
  }

  function EntriesFrom(els: seq<Element>): (es: seq<Entry>)
    requires AllTables(els)
    ensures |es| == |els| && forall i :: 0 <= i < |es| ==> es[i] == EntryOf(els[i].pairs)
  {
    seq(|els|, i requires 0 <= i < |els| => EntryOf(els[i].pairs))
  }

  /** The first thing that is wrong with the file, in the order in which the importer looks. */
  function Judgement(doc: Document, schema: seq<KeySpec>, s: Values): Outcome {
    if doc.profile.Nothing? then NoTable
    else if UuidOf(doc.profile.value).Nothing? then NoUuid
    else if !Import(schema, SKIPPED, doc.profile.value, s).ok then BadValue
    else if doc.entries.Just? && !AllTables(doc.entries.value) then BadEntry
    else Imported(UuidOf(doc.profile.value).value)
  }

  lemma {:induction false} UuidIs(t: seq<Pair>, uuid: string)
    requires IsTable(t)
    ensures UuidOf(t) == Just(uuid) <==> ("uuid", Str(uuid)) in t
    decreases |t|
  {
    if t != [] {
      UuidIs(t[1..], uuid);
      assert t == [t[0]] + t[1..];
    }
  }

  /** What is wrong with a [profile] table: some key but the uuid and the launch entries has a TOML value of a kind that
      its type does not take. */
  ghost predicate HasMistypedKey(schema: seq<KeySpec>, t: seq<Pair>) {
    exists i, j :: 0 <= i < |t| && IsFor(schema, {"uuid", "default-launch-entries"}, t[i], j)
                   && !IsOfKind(t[i].1, schema[j].ty)
  }

  /** When an import fails, and how: without [profile] table, without a string for its uuid, with a mistyped key, or
      with something among the launch entries that is no table - whichever comes first. */
  lemma JudgementIs(doc: Document, schema: seq<KeySpec>, s: Values)
    requires IsSchema(schema) && (doc.profile.Just? ==> IsTable(doc.profile.value) && Parsed(doc.profile.value))
    ensures var r := Judgement(doc, schema, s);
            && (r == NoTable <==> doc.profile.Nothing?)
            && (doc.profile.Just? ==>
                 var t := doc.profile.value;
                 var named, sound := exists u :: ("uuid", Str(u)) in t, !HasMistypedKey(schema, t);
                 var tables := doc.entries.Just? ==> OtherElement !in doc.entries.value;
                 && (r == NoUuid <==> !named)
                 && (r == BadValue <==> named && !sound)
                 && (r == BadEntry <==> named && sound && !tables)
                 && (forall u :: r == Imported(u) <==> ("uuid", Str(u)) in t && sound && tables))
  {
    hide Import, IsSchema, IsTable, UuidOf, HasMistypedKey;
    if doc.profile.Just? {
      var t := doc.profile.value;
      forall u
        ensures UuidOf(t) == Just(u) <==> ("uuid", Str(u)) in t
      {
        UuidIs(t, u);
      }
      SkippedKeys();
      MistypedIff(schema, t, s);
      if UuidOf(t).Just? {
        assert ("uuid", Str(UuidOf(t).value)) in t;
      }
    }
    if doc.entries.Just? {
      TablesIff(doc.entries.value);
    }
  }

  lemma SkippedKeys()
    ensures SKIPPED == {"uuid", "default-launch-entries"}
  {
  }

  lemma TablesIff(els: seq<Element>)
    ensures AllTables(els) <==> OtherElement !in els
  {
    assert forall i :: 0 <= i < |els| ==> (els[i].TableElement? <==> els[i] != OtherElement);
  }

  lemma MistypedIff(schema: seq<KeySpec>, t: seq<Pair>, s: Values)
    requires IsSchema(schema) && IsTable(t) && Parsed(t)
    ensures Import(schema, {"uuid", "default-launch-entries"}, t, s).ok <==> !HasMistypedKey(schema, t)
  {
    ImportFailsIff(schema, {"uuid", "default-launch-entries"}, t, s);
  }

  /** A file without launch entries leaves the profile's entries alone. */
  function EntriesAfter(doc: Document, es: seq<Entry>): seq<Entry>
    requires doc.entries.Just? ==> AllTables(doc.entries.value)
  {
    if doc.entries.Just? then EntriesFrom(doc.entries.value) else es
  }

  /** The settings object of one profile. */
  class Profile {
    const scalars: Settings
    var entries: seq<Entry>

    constructor (scalars: Settings, entries: seq<Entry>)
      ensures this.scalars == scalars && this.entries == entries
    {
      this.scalars, this.entries := scalars, entries;
    }
  }

  method ReadElements(els: seq<Element>) returns (ok: bool, es: seq<Entry>)
    ensures ok <==> AllTables(els)
    ensures ok ==> es == EntriesFrom(els)
  {
    es := [];
    for i := 0 to |els|
      invariant AllTables(els[..i])
      invariant |es| == i && forall j :: 0 <= j < i ==> es[j] == EntryOf(els[j].pairs)
    {
      if els[i].OtherElement? {
        return false, es;
      }
      var e := ReadEntry(els[i].pairs);
      es := es + [e];
    }
    ok := true;
  }

  method EnsureListed(uuids: seq<string>, uuid: string) returns (r: seq<string>)
    ensures r == if uuid in uuids then uuids else uuids + [uuid]
  {
    for i := 0 to |uuids|
      invariant uuid !in uuids[..i]
    {
      if uuids[i] == uuid {
        return uuids;
      }
    }
    r := uuids + [uuid];
  }

  /** All or nothing: only a file with a [profile] table, a uuid, no mistyped value and nothing but tables among its
      launch entries changes anything; then the profile has the file's values and entries, and is listed.
      Keys that had been changed before a failure are reported all the same.
      `profile` is the settings object for the file's uuid, `uuids` the list of profiles. */
  method ImportProfile(doc: Document, profile: Profile, uuids: seq<string>)
    returns (outcome: Outcome, changed: seq<string>, listed: seq<string>)
    requires profile.scalars.pending == map[]
    modifies profile, profile.scalars
    ensures outcome == Judgement(doc, profile.scalars.schema, old(profile.scalars.stored))
    ensures profile.scalars.pending == map[]
    ensures !outcome.Imported? ==>
              && profile.scalars.stored == old(profile.scalars.stored) && profile.entries == old(profile.entries)
              && listed == uuids
    ensures outcome.BadValue? || outcome.BadEntry? ==>
              changed == Import(profile.scalars.schema, SKIPPED, doc.profile.value, old(profile.scalars.stored)).changed
    ensures outcome.Imported? ==>
              var g := Import(profile.scalars.schema, SKIPPED, doc.profile.value, old(profile.scalars.stored));
              && profile.scalars.stored == g.values
              && profile.entries == EntriesAfter(doc, old(profile.entries))
              && changed == g.changed + (if profile.entries != old(profile.entries) then [ENTRIES_KEY] else [])
              && listed == if outcome.uuid in uuids then uuids else uuids + [outcome.uuid]
  {
    hide Import, EntriesFrom, SKIPPED, UuidOf;
    changed, listed := [], uuids;
    if doc.profile.Nothing? {
      return NoTable, changed, listed;
    }
    var uuid := UuidOf(doc.profile.value);
    if uuid.Nothing? {
      return NoUuid, changed, listed;
    }
    assert profile.scalars.Current() == profile.scalars.stored;
    var ok;
    ok, changed := ImportScalars(doc.profile.value, profile.scalars, SKIPPED, changed);
    if !ok {
      profile.scalars.Revert();
      return BadValue, changed, listed;
    }
    if doc.entries.Just? {
      var es;
      ok, es := ReadElements(doc.entries.value);
      if !ok {
        profile.scalars.Revert();
        return BadEntry, changed, listed;
      }
      if profile.entries != es {
        profile.entries := es;
        changed := changed + [ENTRIES_KEY];
      }
    }
    profile.scalars.Apply();
    listed := EnsureListed(uuids, uuid.value);
    outcome := Imported(uuid.value);
  }

  // ------------------------------------------------------------------------------------------------
  // Export followed by import
  // ------------------------------------------------------------------------------------------------

  /** One element per table header of the launch-entry array. */
  function Elements(items: seq<Item>): (els: seq<Element>)
    ensures AllTables(els)
  {
    if items == [] then []
    else
      var more := Elements(items[1..]);
      if items[0] == ArrayTable(ENTRIES_PATH) then [TableElement(Leading(items[1..]))] + more else more
  }

  /** What a decoded file holds; without an entry header there is no array. */
  function DocumentOf(items: seq<Item>): Document {
    var els := Elements(items);
    Document(if Table(["profile"]) in items then Just(Section(items, ["profile"], false)) else Nothing,
             if els == [] then Nothing else Just(els))
  }

  lemma {:induction false} ElementsAreEntries(items: seq<Item>)
    ensures EntriesFrom(Elements(items)) == ReadEntries(items)
    decreases |items|
  {
    hide Leading, EntryOf;
    if items != [] {
      ElementsAreEntries(items[1..]);
      assert |Elements(items)| == |ReadEntries(items)|;
      assert forall i :: 0 <= i < |Elements(items)| ==> EntriesFrom(Elements(items))[i] == ReadEntries(items)[i];
    }
  }

  /** Whatever a profile with clean strings and representable values exports can be imported over any state of a
      profile.  The import gives it every set value and nothing else, and the launch entries up to the default
      colour target; but an empty list is not exported, so it leaves the target's entries as they are. */
  lemma ProfileExportImport(uuid: string, schema: seq<KeySpec>, s: Values, s': Values, es: seq<Entry>, es': seq<Entry>)
    requires IsSchema(schema) && Fits(schema, s) && Fits(schema, s') && HasNoUuidKey(schema)
    requires AllPrintable(uuid) && Readable(schema, s, {ENTRIES_KEY}, 0)
    requires forall i :: 0 <= i < |es| ==> CleanEntry(es[i])
    ensures var r := DecodeDocument(ProfileText(uuid, schema, s, es));
            && r.Done?
            && Imports(DocumentOf(r.value), uuid, schema, s, s', es, es')
  {
    hide DecodeDocument, ProfileText, IsSchema, Readable, CleanEntry, AllPrintable, ENTRIES_KEY, Imports, GivesBack;
    ProfileFileRoundTrip(uuid, schema, s, s', es);
    ProfileTextDecodes(uuid, schema, s, es);
    ProfileItemsImport(uuid, schema, s, s', es, es');
  }

  ghost predicate Imports(doc: Document, uuid: string, schema: seq<KeySpec>, s: Values, s': Values,
                          es: seq<Entry>, es': seq<Entry>)
    requires IsSchema(schema) && Fits(schema, s) && Fits(schema, s')
  {
    && Judgement(doc, schema, s') == Imported(uuid)
    && Import(schema, SKIPPED, doc.profile.value, s').values == Merged(schema, s, s', {ENTRIES_KEY})
    && (s' == s ==> Import(schema, SKIPPED, doc.profile.value, s').changed == [])
    && EntriesAfter(doc, es') == if es == [] then es' else NormalAll(es)
  }

  lemma ProfileItemsImport(uuid: string, schema: seq<KeySpec>, s: Values, s': Values, es: seq<Entry>, es': seq<Entry>)
    requires IsSchema(schema) && Fits(schema, s) && Fits(schema, s')
    requires var items := ProfileItems(uuid, Pairs(schema, s, {ENTRIES_KEY}, 0), es);
             GivesBack(items, uuid, schema, s, s', es)
    ensures var items := ProfileItems(uuid, Pairs(schema, s, {ENTRIES_KEY}, 0), es);
            Imports(DocumentOf(items), uuid, schema, s, s', es, es')
  {
    hide Import, Merged, Section, ReadEntries, Elements, IsSchema, ENTRIES_KEY, Pairs, EntriesItems;
    var items := ProfileItems(uuid, Pairs(schema, s, {ENTRIES_KEY}, 0), es);
    assert items[0] == Table(["profile"]);
    ElementsAreEntries(items);
    assert |NormalAll(es)| == |es| by { NormalAllLength(es); }
  }

  lemma {:induction false} NormalAllLength(es: seq<Entry>)
    ensures |NormalAll(es)| == |es|
    decreases |es|
  {
    if es != [] {
      NormalAllLength(es[1..]);
    }
  }
}
