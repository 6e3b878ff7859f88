/** The TOML mirror of typed settings: a printer, and a sparse, transactional importer. */
module SettingsToml {
  import opened Common
  import opened TomlText

  /** The setting types that round-trip: b, i, u, x, t, s, ms, mb, as. */
  datatype Type = Boolean | Int32 | Uint32 | Int64 | Uint64 | Text | MaybeText | MaybeBoolean | TextArray

  datatype Variant =
    | VBool(b: bool)
    | VInt(i: int)
    | VText(s: string)
    | VMaybeText(mt: Maybe<string>)
    | VMaybeBool(mb: Maybe<bool>)
    | VTexts(ss: seq<string>)

  predicate HasType(v: Variant, ty: Type) {
    match ty
    case Boolean => v.VBool?
    case Int32 => v.VInt? && -0x8000_0000 <= v.i < 0x8000_0000
    case Uint32 => v.VInt? && 0 <= v.i < 0x1_0000_0000
    case Int64 => v.VInt? && MIN_INT64 <= v.i <= MAX_INT64
    case Uint64 => v.VInt? && 0 <= v.i < 0x1_0000_0000_0000_0000
    case Text => v.VText?
    case MaybeText => v.VMaybeText?
    case MaybeBoolean => v.VMaybeBool?
    case TextArray => v.VTexts?
  }

  function TypeName(ty: Type): string {
    match ty
    case Boolean => "b" case Int32 => "i" case Uint32 => "u" case Int64 => "x" case Uint64 => "t"
    case Text => "s" case MaybeText => "ms" case MaybeBoolean => "mb" case TextArray => "as"
  }

  // ------------------------------------------------------------------------------------------------
  // Values
  // ------------------------------------------------------------------------------------------------

  function BoolText(b: bool): string {
    if b then "true" else "false"
  }

  /** A value as a TOML literal; "" for an unset maybe. */
  function Format(v: Variant): string {
    match v
    case VBool(b) => BoolText(b)
    case VInt(i) => IntText(i)
    case VText(s) => Quoted(s)
    case VMaybeText(m) => if m.Nothing? then "" else Quoted(m.value)
    case VMaybeBool(m) => if m.Nothing? then "" else BoolText(m.value)
    case VTexts(ss) => ArrayText(ss)
  }

  predicate Unset(v: Variant) {
    v == VMaybeText(Nothing) || v == VMaybeBool(Nothing)
  }

  /** The C cast of a 64-bit integer to an integer type that starts at `lo` and has `size` values. */
  function Cast(i: int, lo: int, size: nat): int
    requires size > 0
  {
    (i - lo) % size + lo
  }

  /** A TOML value as a setting of the expected type, if it has that shape. */
  function ToVariant(node: Toml, ty: Type): Maybe<Variant> {
    match ty
    case Boolean => if node.Bool? then Just(VBool(node.b)) else Nothing
    case Int32 => if node.Int? then Just(VInt(Cast(node.i, -0x8000_0000, 0x1_0000_0000))) else Nothing
    case Uint32 => if node.Int? then Just(VInt(Cast(node.i, 0, 0x1_0000_0000))) else Nothing
    case Int64 => if node.Int? then Just(VInt(node.i)) else Nothing
    case Uint64 => if node.Int? then Just(VInt(Cast(node.i, 0, 0x1_0000_0000_0000_0000))) else Nothing
    case Text => if node.Str? then Just(VText(node.s)) else Nothing
    case MaybeText => if node.Str? then Just(VMaybeText(Just(node.s))) else Nothing
    case MaybeBoolean => if node.Bool? then Just(VMaybeBool(Just(node.b))) else Nothing
    case TextArray => if node.Strs? then Just(VTexts(node.ss)) else Nothing
  }

  // What a TOML value means for a setting of some type, without reference to the conversion.

  /** The kind of TOML value that a type takes. */
  predicate IsOfKind(node: Toml, ty: Type) {
    || (node.Bool? && ty in {Boolean, MaybeBoolean})
    || (node.Int? && ty in {Int32, Uint32, Int64, Uint64})
    || (node.Str? && ty in {Text, MaybeText})
    || (node.Strs? && ty == TextArray)
  }

  /** Equal up to the number of values that an integer type has. */
  predicate Congruent(ty: Type, a: int, b: int) {
    if ty in {Int32, Uint32} then (a - b) % 0x1_0000_0000 == 0 else (a - b) % 0x1_0000_0000_0000_0000 == 0
  }

  /** `v` is what the TOML value stands for: itself, or for an integer out of range the one value of the type that it
      is congruent to. */
  ghost predicate Means(node: Toml, ty: Type, v: Variant) {
    && IsOfKind(node, ty) && HasType(v, ty) && !Unset(v)
    && (if node.Int? then v.VInt? && Congruent(ty, v.i, node.i) else Node(v) == node)
  }

  lemma IntIsMeaning(i: int, ty: Type, v: Variant)
    requires MIN_INT64 <= i <= MAX_INT64 && ty in {Int32, Uint32, Int64, Uint64}
    ensures ToVariant(Int(i), ty) == Just(v) <==> Means(Int(i), ty, v)
  {
    hide Cast;
    if v.VInt? {
      match ty
      case Int32 => CastTo32Bits(i, -0x8000_0000, v.i);
      case Uint32 => CastTo32Bits(i, 0, v.i);
      case Int64 => CastTo64Bits(i, MIN_INT64, v.i);
      case Uint64 => CastTo64Bits(i, 0, v.i);
    }
    if ty.Int64? {
      Int64IsItself(i);
    }
  }

  lemma CastTo32Bits(i: int, lo: int, x: int)
    ensures x == Cast(i, lo, 0x1_0000_0000)
            <==> lo <= x < lo + 0x1_0000_0000 && (x - i) % 0x1_0000_0000 == 0
  {
  }

  lemma CastTo64Bits(i: int, lo: int, x: int)
    ensures x == Cast(i, lo, 0x1_0000_0000_0000_0000)
            <==> lo <= x < lo + 0x1_0000_0000_0000_0000 && (x - i) % 0x1_0000_0000_0000_0000 == 0
  {
  }

  lemma Int64IsItself(i: int)
    requires MIN_INT64 <= i <= MAX_INT64
    ensures Cast(i, MIN_INT64, 0x1_0000_0000_0000_0000) == i
  {
  }

  lemma TextIsMeaning(node: Toml, ty: Type, v: Variant)
    requires !node.Int?
    ensures ToVariant(node, ty) == Just(v) <==> Means(node, ty, v)
  {
    if Means(node, ty, v) {
      match v
      case VMaybeText(m) => assert m == Just(m.value);
      case VMaybeBool(m) => assert m == Just(m.value);
      case _ =>
    }
  }

  /** The conversion takes a TOML value if and only if it is of the kind of the type, and then yields the one setting
      that it stands for. */
  lemma ToVariantIsMeaning(node: Toml, ty: Type, v: Variant)
    requires node.Int? ==> MIN_INT64 <= node.i <= MAX_INT64
    ensures ToVariant(node, ty).Just? <==> IsOfKind(node, ty)
    ensures ToVariant(node, ty) == Just(v) <==> Means(node, ty, v)
  {
    hide Cast, Means;
    if node.Int? && IsOfKind(node, ty) {
      IntIsMeaning(node.i, ty, v);
    } else if node.Int? {
      NoMeaning(node, ty, v);
    } else {
      TextIsMeaning(node, ty, v);
    }
  }

  lemma NoMeaning(node: Toml, ty: Type, v: Variant)
    requires !IsOfKind(node, ty)
    ensures !Means(node, ty, v)
  {
  }

  /** What the importer is given is of the type the schema asks for. */
  lemma ToVariantIsTyped(node: Toml, ty: Type)
    requires node.Int? ==> MIN_INT64 <= node.i <= MAX_INT64
    ensures ToVariant(node, ty).Just? ==> HasType(ToVariant(node, ty).value, ty) && !Unset(ToVariant(node, ty).value)
  {
  }

  /** The TOML value that stands for a set value. */
  function Node(v: Variant): Toml
    requires !Unset(v)
  {
    match v
    case VBool(b) => Bool(b)
    case VInt(i) => Int(i)
    case VText(s) => Str(s)
    case VMaybeText(m) => Str(m.value)
    case VMaybeBool(m) => Bool(m.value)
    case VTexts(ss) => Strs(ss)
  }

  /** An unsigned 64-bit value from 2^63 on has no TOML integer. */
  predicate Representable(v: Variant) {
    v.VInt? ==> v.i <= MAX_INT64
  }

  /** The words of TOML for the truth values. */
  lemma BooleansOfToml(rest: string)
    ensures DecodeValue("true" + rest) == Done(Bool(true), rest)
    ensures DecodeValue("false" + rest) == Done(Bool(false), rest)
  {
    BoolRoundTrip(true, rest);
    BoolRoundTrip(false, rest);
  }

  lemma BoolRoundTrip(b: bool, after: string)
    ensures DecodeValue(BoolText(b) + after) == Done(Bool(b), after)
  {
    var t := BoolText(b) + after;
    if b {
      assert t[4..] == after;
    } else {
      assert t[0] == 'f';
      assert t[5..] == after;
    }
  }

  lemma TextRoundTrip(s: string, after: string)
    ensures DecodeValue(Quoted(s) + after) == Done(Str(s), after)
  {
    hide DecodeInside;
    QuoteRoundTrip(s, after);
    assert (Quoted(s) + after)[0] == '"';
  }

  lemma TextsRoundTrip(ss: seq<string>, after: string)
    ensures DecodeValue(ArrayText(ss) + after) == Done(Strs(ss), after)
  {
    hide DecodeMore, DecodeArray, DecodeString;
    ArrayRoundTrip(ss, after);
    assert (ArrayText(ss) + after)[0] == '[';
  }

  lemma IntValueRoundTrip(i: int, after: string)
    requires EndsNumber(after)
    ensures DecodeValue(IntText(i) + after) == if MIN_INT64 <= i <= MAX_INT64 then Done(Int(i), after) else Fail
  {
    hide DecodeInt, DecodeString, DecodeArray;
    IntRoundTrip(i, after);
    var t := IntText(i) + after;
    assert t[0] == '-' || IsDigit(t[0]);
  }

  lemma CastInRange(i: int, lo: int, size: nat)
    requires lo <= i < lo + size
    ensures Cast(i, lo, size) == i
  {
  }

  lemma NodeRoundTrip(v: Variant, ty: Type)
    requires HasType(v, ty) && !Unset(v)
    ensures ToVariant(Node(v), ty) == Just(v)
  {
    hide Cast;
    match ty
    case Int32 => CastInRange(v.i, -0x8000_0000, 0x1_0000_0000);
    case Uint32 => CastInRange(v.i, 0, 0x1_0000_0000);
    case Uint64 => CastInRange(v.i, 0, 0x1_0000_0000_0000_0000);
    case MaybeText => assert v.mt.Just?;
    case MaybeBoolean => assert v.mb.Just?;
    case _ =>
  }

  lemma FormatStarts(v: Variant)
    requires !Unset(v)
    ensures Format(v) != "" && Format(v)[0] != ' '
  {
    if v.VInt? {
      assert IntText(v.i)[0] == '-' || IsDigit(IntText(v.i)[0]);
    }
  }

  /** Printing and reading a set value gives it back, except that an unrepresentable one cannot be read at all. */
  lemma ValueRoundTrip(v: Variant, ty: Type, after: string)
    requires HasType(v, ty) && !Unset(v) && EndsNumber(after)
    ensures Format(v) != "" && Format(v)[0] != ' '
    ensures DecodeValue(Format(v) + after) == if Representable(v) then Done(Node(v), after) else Fail
    ensures ToVariant(Node(v), ty) == Just(v)
  {
    FormatStarts(v);
    NodeRoundTrip(v, ty);
    hide DecodeValue, ToVariant, Quoted, IntText, ArrayText, BoolText;
    match v
    case VBool(b) => BoolRoundTrip(b, after);
    case VInt(i) => IntValueRoundTrip(i, after);
    case VText(s) => TextRoundTrip(s, after);
    case VMaybeText(m) => TextRoundTrip(m.value, after);
    case VMaybeBool(m) => BoolRoundTrip(m.value, after);
    case VTexts(ss) => TextsRoundTrip(ss, after);
  }

  lemma FormatIsPlain(v: Variant)
    ensures Plain(Format(v))
  {
    match v
    case VBool(_) =>
    case VInt(_) =>
    case VText(s) => QuotedIsPlain(s);
    case VMaybeText(m) =>
      if m.Just? {
        QuotedIsPlain(m.value);
      }
    case VMaybeBool(_) =>
    case VTexts(ss) => ArrayIsPlain(ss);
  }

  // ------------------------------------------------------------------------------------------------
  // Export
  // ------------------------------------------------------------------------------------------------

  /** What a schema allows beyond the type: a range of numbers, or the words of an enumeration. */
  datatype Limits = Unlimited | Range(min: int, max: int) | OneOf(words: set<string>)

  /** The range check of the settings library; it looks into maybes and arrays. */
  predicate Admits(limits: Limits, v: Variant) {
    match limits
    case Unlimited => true
    case Range(min, max) => v.VInt? ==> min <= v.i <= max
    case OneOf(words) =>
      && (v.VText? ==> v.s in words)
      && (v.VMaybeText? && v.mt.Just? ==> v.mt.value in words)
      && (v.VTexts? ==> forall s :: s in v.ss ==> s in words)
  }

  datatype KeySpec = KeySpec(name: string, ty: Type, default: Variant, limits: Limits)

  type Values = map<string, Variant>

  /** A value that the key may have. */
  predicate IsValueOf(spec: KeySpec, v: Variant) {
    HasType(v, spec.ty) && Admits(spec.limits, v)
  }

  ghost predicate IsSchema(schema: seq<KeySpec>) {
    && (forall i :: 0 <= i < |schema| ==> IsBareKey(schema[i].name) && IsValueOf(schema[i], schema[i].default))
    && (forall i, j :: 0 <= i < j < |schema| ==> schema[i].name != schema[j].name)
  }

  /** Every key of the schema has a value that it may have. */
  ghost predicate Fits(schema: seq<KeySpec>, s: Values) {
    forall i :: 0 <= i < |schema| ==> schema[i].name in s && IsValueOf(schema[i], s[schema[i].name])
  }

  function Padding(name: string, width: nat): nat {
    if |name| < width then width - |name| else 0
  }

  function Trailer(spec: KeySpec, v: Variant): string {
    if v == spec.default then ""
    else "  # modified (default: " + (if Unset(spec.default) then "<unset>" else Format(spec.default)) + ")"
  }

  /** The line of a set value without the note. */
  function BareLine(spec: KeySpec, v: Variant, width: nat): string {
    spec.name + Spaces(Padding(spec.name, width)) + " = " + Format(v)
  }

  function KeyLine(spec: KeySpec, v: Variant, width: nat): string {
    var padded := spec.name + Spaces(Padding(spec.name, width));
    if Unset(v) then "# " + padded + " = ?  # unset (type: " + TypeName(spec.ty) + ")\n"
    else padded + (" = " + (Format(v) + Trailer(spec, v))) + "\n"
  }

  /** The line of a set value carries a note if and only if the value is not the default, and the note shows the
      default. */
  lemma NoteIffModified(spec: KeySpec, v: Variant, width: nat)
    requires !Unset(v)
    ensures KeyLine(spec, v, width) == BareLine(spec, v, width) + "\n" <==> v == spec.default
    ensures v != spec.default && Unset(spec.default) ==>
              KeyLine(spec, v, width) == BareLine(spec, v, width) + "  # modified (default: <unset>)" + "\n"
    ensures v != spec.default && !Unset(spec.default) ==>
              KeyLine(spec, v, width)
              == BareLine(spec, v, width) + "  # modified (default: " + Format(spec.default) + ")" + "\n"
  {
    var padded, f, t := spec.name + Spaces(Padding(spec.name, width)), Format(v), Trailer(spec, v);
    assert KeyLine(spec, v, width) == padded + (" = " + (f + t)) + "\n";
    hide Format, Spaces, Padding, KeyLine;
    LineCat(padded, " = ", f, t);
    assert v != spec.default ==> |t| > 0;
  }

  lemma LineCat(a: string, b: string, f: string, t: string)
    ensures a + (b + (f + t)) + "\n" == a + b + f + t + "\n"
  {
  }

  /** All keys of a table have their equals signs in one column, right behind the widest name. */
  lemma EqualsSignsAlign(spec: KeySpec, v: Variant, width: nat)
    requires !Unset(v) && |spec.name| <= width
    ensures KeyLine(spec, v, width)[..|spec.name|] == spec.name
    ensures forall i :: |spec.name| <= i < width ==> KeyLine(spec, v, width)[i] == ' '
    ensures |KeyLine(spec, v, width)| > width + 3 && KeyLine(spec, v, width)[width..width + 3] == " = "
  {
    hide Format, Trailer;
  }

  lemma {:induction false} WidthFits(schema: seq<KeySpec>, skip: set<string>, n: nat)
    requires n <= |schema|
    ensures forall i :: 0 <= i < n && schema[i].name !in skip ==> |schema[i].name| <= MaxWidth(schema, skip, n)
    ensures MaxWidth(schema, skip, n) > 0 ==>
              exists i :: 0 <= i < n && schema[i].name !in skip && |schema[i].name| == MaxWidth(schema, skip, n)
    decreases n
  {
    if n > 0 {
      WidthFits(schema, skip, n - 1);
    }
  }

  /** The lines of all keys from the `n`th on, in schema order. */
  function KeyLines(schema: seq<KeySpec>, s: Values, skip: set<string>, width: nat, n: nat): string
    requires n <= |schema| && forall i :: 0 <= i < |schema| ==> schema[i].name in s
    decreases |schema| - n
  {
    if n == |schema| then ""
    else
      var more := KeyLines(schema, s, skip, width, n + 1);
      if schema[n].name in skip then more else KeyLine(schema[n], s[schema[n].name], width) + more
  }

  lemma {:induction false} KeyLinesSplit(schema: seq<KeySpec>, s: Values, skip: set<string>, width: nat,
                                         n: nat, out: string)
    requires n < |schema| && forall i :: 0 <= i < |schema| ==> schema[i].name in s
    ensures var line := if schema[n].name in skip then "" else KeyLine(schema[n], s[schema[n].name], width);
            (out + line) + KeyLines(schema, s, skip, width, n + 1) == out + KeyLines(schema, s, skip, width, n)
  {
  }

  /** The widest name that is not skipped. */
  function MaxWidth(schema: seq<KeySpec>, skip: set<string>, n: nat): nat
    requires n <= |schema|
  {
    if n == 0 then 0
    else
      var w := MaxWidth(schema, skip, n - 1);
      if schema[n - 1].name !in skip && |schema[n - 1].name| > w then |schema[n - 1].name| else w
  }

  method FormatVariant(v: Variant) returns (out: string)
    ensures out == Format(v)
  {
    match v
    case VBool(b) => out := BoolText(b);
    case VInt(i) => out := IntText(i);
    case VText(s) => out := QuoteString(s);
    case VMaybeText(m) =>
      out := "";
      if m.Just? {
        out := QuoteString(m.value);
      }
    case VMaybeBool(m) => out := if m.Nothing? then "" else BoolText(m.value);
    case VTexts(ss) => out := PrintArray(ss);
  }

  /** One line: a comment if the value prints as nothing, and a note of the default if the value differs from it. */
  method EmitKey(spec: KeySpec, v: Variant, width: nat) returns (line: string)
    ensures line == KeyLine(spec, v, width)
  {
    PrintsNothingIffUnset(v);
    PrintsNothingIffUnset(spec.default);
    hide Format;
    var text := FormatVariant(v);
    var padded := spec.name + Spaces(Padding(spec.name, width));
    if text == "" {
      return "# " + padded + " = ?  # unset (type: " + TypeName(spec.ty) + ")\n";
    }
    var trailer := "";
    if v != spec.default {
      var d := FormatVariant(spec.default);
      if d == "" {
        d := "<unset>";
      }
      trailer := "  # modified (default: " + d + ")";
    }
    line := padded + (" = " + (text + trailer)) + "\n";
  }

  lemma PrintsNothingIffUnset(v: Variant)
    ensures Format(v) == "" <==> Unset(v)
  {
    if !Unset(v) {
      FormatStarts(v);
    }
  }

  method EmitSchemaScalars(schema: seq<KeySpec>, s: Values, skip: set<string>) returns (out: string)
    requires forall i :: 0 <= i < |schema| ==> schema[i].name in s
    ensures out == KeyLines(schema, s, skip, MaxWidth(schema, skip, |schema|), 0)
  {
    var width := 0;
    for i := 0 to |schema|
      invariant width == MaxWidth(schema, skip, i)
    {
      if schema[i].name !in skip && |schema[i].name| > width {
        width := |schema[i].name|;
      }
    }
    out := "";
    for i := 0 to |schema|
      invariant out + KeyLines(schema, s, skip, width, i) == KeyLines(schema, s, skip, width, 0)
    {
      KeyLinesSplit(schema, s, skip, width, i, out);
      if schema[i].name !in skip {
        var line := EmitKey(schema[i], s[schema[i].name], width);
        out := out + line;
      } else {
        assert out + "" == out;
      }
    }
    assert out + "" == out;
  }

  ghost predicate SortedByName(schema: seq<KeySpec>) {
    forall i, j :: 0 <= i < j < |schema| ==> Compare(schema[i].name, schema[j].name) <= 0
  }

  lemma SameFirstKey(a: seq<KeySpec>, b: seq<KeySpec>)
    requires SortedByName(a) && SortedByName(b) && multiset(a) == multiset(b) && a != [] && b != []
    requires forall i, j :: 0 <= i < j < |a| ==> a[i].name != a[j].name
    ensures a[0] == b[0]
  {
    assert a[0] in multiset(b) && b[0] in multiset(a);
    var i :| 0 <= i < |a| && a[i] == b[0];
    var j :| 0 <= j < |b| && b[j] == a[0];
    CompareIsZeroForEqual(a[0].name, b[0].name);
    CompareBackwards(a[0].name, b[0].name);
  }

  /** The order in which the library lists the keys does not show in the export: however the keys come, sorting them
      by name leaves but one list. */
  lemma {:induction false} SortedSchemaIsUnique(a: seq<KeySpec>, b: seq<KeySpec>)
    requires SortedByName(a) && SortedByName(b) && multiset(a) == multiset(b)
    requires forall i, j :: 0 <= i < j < |a| ==> a[i].name != a[j].name
    ensures a == b
    decreases |a|
  {
    assert |multiset(a)| == |a| && |multiset(b)| == |b|;
    if a != [] {
      SameFirstKey(a, b);
      TailMultiset(a);
      TailMultiset(b);
      assert SortedByName(a[1..]) && SortedByName(b[1..]);
      hide SortedByName;
      SortedSchemaIsUnique(a[1..], b[1..]);
      assert a == [a[0]] + a[1..] && b == [b[0]] + b[1..];
    }
  }

  lemma TailMultiset(a: seq<KeySpec>)
    requires a != []
    ensures multiset(a[1..]) == multiset(a) - multiset{a[0]}
  {
    assert a == [a[0]] + a[1..];
  }

  /** What the exported lines say. */
  function Pairs(schema: seq<KeySpec>, s: Values, skip: set<string>, n: nat): seq<Item>
    requires n <= |schema| && forall i :: 0 <= i < |schema| ==> schema[i].name in s
    decreases |schema| - n
  {
    if n == |schema| then []
    else
      var more := Pairs(schema, s, skip, n + 1);
      var k := schema[n].name;
      if k in skip || Unset(s[k]) then more else [KeyValue(k, Node(s[k]))] + more
  }

  /** No exported value exceeds what a TOML integer can hold. */
  ghost predicate Readable(schema: seq<KeySpec>, s: Values, skip: set<string>, n: nat)
    requires n <= |schema| && forall i :: 0 <= i < |schema| ==> schema[i].name in s
  {
    forall i :: n <= i < |schema| && schema[i].name !in skip ==> Representable(s[schema[i].name])
  }

  lemma TrailerIsTrailer(spec: KeySpec, v: Variant)
    ensures IsTrailer(Trailer(spec, v))
  {
    hide Plain, Format;
    FormatIsPlain(spec.default);
    TrailerWords();
    if v != spec.default {
      var x := if Unset(spec.default) then "<unset>" else Format(spec.default);
      TrailerOf(x);
    }
  }

  lemma TrailerWords()
    ensures Plain("  # modified (default: ") && Plain("<unset>") && Plain(")")
  {
  }

  lemma TrailerOf(x: string)
    requires Plain("  # modified (default: ") && Plain(x) && Plain(")")
    ensures IsTrailer("  # modified (default: " + x + ")")
  {
    assert ("  # modified (default: " + x + ")")[..3] == "  #";
    hide Plain;
    PlainCat("  # modified (default: ", x);
    PlainCat("  # modified (default: " + x, ")");
  }

  lemma SetLine(spec: KeySpec, v: Variant, width: nat, rest: string)
    requires IsBareKey(spec.name) && HasType(v, spec.ty) && !Unset(v)
    ensures DecodeDocument(KeyLine(spec, v, width) + rest) ==
              if Representable(v) then Onto([KeyValue(spec.name, Node(v))], DecodeDocument(rest)) else Fail
  {
    hide DecodeDocument, DecodeValue, Format, Trailer, Node;
    var trailer := Trailer(spec, v);
    TrailerIsTrailer(spec, v);
    var after := trailer + ("\n" + rest);
    TrailerEndsLine(trailer, rest);
    ValueRoundTrip(v, spec.ty, after);
    var pad := Padding(spec.name, width);
    var value := if Representable(v) then Done(Node(v), "") else Fail;
    PairLine(spec.name, pad, Format(v), value, trailer, rest);
    var line := (spec.name + Spaces(pad)) + (" = " + (Format(v) + trailer));
    assert KeyLine(spec, v, width) + rest == line + ("\n" + rest);
  }

  lemma UnsetComment(spec: KeySpec, pad: string)
    requires IsBareKey(spec.name) && forall i :: 0 <= i < |pad| ==> pad[i] == ' '
    ensures Plain(" " + (spec.name + pad) + " = ?  # unset (type: " + TypeName(spec.ty) + ")")
  {
    assert Plain(spec.name);
    assert Plain(pad);
    assert Plain(" = ?  # unset (type: ");
    assert Plain(TypeName(spec.ty));
  }

  lemma UnsetLine(spec: KeySpec, v: Variant, width: nat, rest: string)
    requires IsBareKey(spec.name) && Unset(v)
    ensures DecodeDocument(KeyLine(spec, v, width) + rest) == DecodeDocument(rest)
  {
    hide DecodeDocument, TypeName, IsBareKey;
    var pad := Spaces(Padding(spec.name, width));
    var comment := " " + (spec.name + pad) + " = ?  # unset (type: " + TypeName(spec.ty) + ")";
    UnsetComment(spec, pad);
    CommentLine(comment, rest);
    assert KeyLine(spec, v, width) == ("#" + comment) + "\n";
    assert KeyLine(spec, v, width) + rest == "#" + (comment + ("\n" + rest));
  }

  lemma OntoOnto(a: seq<Item>, b: seq<Item>, r: Decoded<seq<Item>>)
    ensures Onto(a, Onto(b, r)) == Onto(a + b, r)
  {
    if r.Done? {
      assert a + (b + r.value) == a + b + r.value;
    }
  }

  lemma OntoNothing(r: Decoded<seq<Item>>)
    ensures Onto([], r) == r
  {
    if r.Done? {
      assert [] + r.value == r.value;
    }
  }

  /** Exported lines decode to exactly the set keys with their values, and the lines after them are unaffected;
      the document cannot be read if and only if some exported value is not representable or the rest cannot. */
  lemma {:induction false} ExportDecodes(schema: seq<KeySpec>, s: Values, skip: set<string>, width: nat,
                                         n: nat, rest: string)
    requires IsSchema(schema) && Fits(schema, s) && n <= |schema|
    ensures DecodeDocument(KeyLines(schema, s, skip, width, n) + rest) ==
              if Readable(schema, s, skip, n) then Onto(Pairs(schema, s, skip, n), DecodeDocument(rest)) else Fail
    decreases |schema| - n
  {
    hide DecodeDocument, KeyLine, Node, Representable;
    if n == |schema| {
      assert KeyLines(schema, s, skip, width, n) + rest == rest;
      OntoNothing(DecodeDocument(rest));
    } else {
      ExportDecodes(schema, s, skip, width, n + 1, rest);
      var spec, v := schema[n], s[schema[n].name];
      var more := KeyLines(schema, s, skip, width, n + 1);
      if spec.name !in skip {
        assert KeyLines(schema, s, skip, width, n) == KeyLine(spec, v, width) + more;
        CatAssoc(KeyLine(spec, v, width), more, rest);
        if Unset(v) {
          UnsetLine(spec, v, width, more + rest);
          UnsetIsRepresentable(v);
        } else {
          SetLine(spec, v, width, more + rest);
          OntoOnto([KeyValue(spec.name, Node(v))], Pairs(schema, s, skip, n + 1), DecodeDocument(rest));
        }
      }
    }
  }

  lemma UnsetIsRepresentable(v: Variant)
    requires Unset(v)
    ensures Representable(v)
  {
  }

  // ------------------------------------------------------------------------------------------------
  // Import
  // ------------------------------------------------------------------------------------------------

  /** A TOML table: its keys are distinct. */
  type Pair = (string, Toml)

  ghost predicate IsTable(t: seq<Pair>) {
    forall i, j :: 0 <= i < j < |t| ==> t[i].0 != t[j].0
  }

  function FindKey(schema: seq<KeySpec>, name: string, n: nat): (r: int)
    requires n <= |schema|
    ensures -1 <= r < n && (r >= 0 ==> schema[r].name == name)
    ensures forall k :: r < k < n ==> schema[k].name != name
  {
    if n == 0 then -1 else if schema[n - 1].name == name then n - 1 else FindKey(schema, name, n - 1)
  }

  /** The importer's verdict on one pair: ignore it, reject it, or try to set this value, which the settings library
      admits or refuses. */
  datatype Verdict = Ignore | Reject | Take(value: Variant, admitted: bool)

  function Judge(schema: seq<KeySpec>, skip: set<string>, pair: Pair): Verdict {
    if pair.0 in skip then Ignore
    else
      var k := FindKey(schema, pair.0, |schema|);
      if k < 0 then Ignore
      else
        var v := ToVariant(pair.1, schema[k].ty);
        if v.Nothing? then Reject else Take(v.value, Admits(schema[k].limits, v.value))
  }

  /** Values so far, and the keys reported as changed. */
  datatype Progress = Progress(values: Values, changed: seq<string>, ok: bool)

  function ImportPair(schema: seq<KeySpec>, skip: set<string>, pair: Pair, g: Progress): Progress {
    if !g.ok then g
    else
      match Judge(schema, skip, pair)
      case Ignore => g
      case Reject => g.(ok := false)
      case Take(v, admitted) =>
        if pair.0 in g.values && g.values[pair.0] == v then g
        else Progress(if admitted then g.values[pair.0 := v] else g.values, g.changed + [pair.0], true)
  }

  function ImportPairs(schema: seq<KeySpec>, skip: set<string>, t: seq<Pair>, n: nat, s: Values): Progress
    requires n <= |t|
  {
    if n == 0 then Progress(s, [], true)
    else ImportPair(schema, skip, t[n - 1], ImportPairs(schema, skip, t, n - 1, s))
  }

  function Import(schema: seq<KeySpec>, skip: set<string>, t: seq<Pair>, s: Values): Progress {
    ImportPairs(schema, skip, t, |t|, s)
  }

  /** The pair has a value for its key that differs from `s`. */
  predicate Differs(schema: seq<KeySpec>, skip: set<string>, pair: Pair, s: Values) {
    var j := Judge(schema, skip, pair);
    j.Take? && !(pair.0 in s && s[pair.0] == j.value)
  }

  /** The pair sets its key to a value that the key may have. */
  predicate Sets(schema: seq<KeySpec>, skip: set<string>, pair: Pair) {
    var j := Judge(schema, skip, pair);
    j.Take? && j.admitted
  }

  /** The pair has a new value that its key may not have: the importer reports the key, but the value stays out. */
  predicate Refused(schema: seq<KeySpec>, skip: set<string>, pair: Pair, s: Values) {
    Differs(schema, skip, pair, s) && !Sets(schema, skip, pair)
  }

  /** Of the first `n` pairs, exactly those that are admitted or were there already have arrived, and nothing else has
      changed. */
  ghost predicate ValuesUpTo(schema: seq<KeySpec>, skip: set<string>, t: seq<Pair>, n: nat, s: Values, g: Progress)
    requires n <= |t|
  {
    && (forall i :: 0 <= i < n && Judge(schema, skip, t[i]).Take? ==>
          (Differs(schema, skip, t[i], g.values) <==> Refused(schema, skip, t[i], s)))
    && (forall k :: k in s ==> k in g.values)
    && (forall k :: k in g.values && (forall i :: 0 <= i < n && t[i].0 == k ==> !Sets(schema, skip, t[i])) ==>
          k in s && g.values[k] == s[k])
  }

  /** The reported keys are those of the first `n` pairs that differed, each once. */
  ghost predicate ReportUpTo(schema: seq<KeySpec>, skip: set<string>, t: seq<Pair>, n: nat, s: Values, g: Progress)
    requires n <= |t|
  {
    && (forall i :: 0 <= i < n ==> (t[i].0 in g.changed <==> Differs(schema, skip, t[i], s)))
    && (forall k :: k in g.changed ==> exists i :: 0 <= i < n && t[i].0 == k)
    && (forall a, b :: 0 <= a < b < |g.changed| ==> g.changed[a] != g.changed[b])
  }

  ghost predicate ImportedUpTo(schema: seq<KeySpec>, skip: set<string>, t: seq<Pair>, n: nat, s: Values, g: Progress)
    requires n <= |t|
  {
    && (forall i :: 0 <= i < n ==> !Judge(schema, skip, t[i]).Reject?)
    && ValuesUpTo(schema, skip, t, n, s, g)
    && ReportUpTo(schema, skip, t, n, s, g)
  }

  /** The key of the next pair still has its old value. */
  lemma NextKeyIsUntouched(schema: seq<KeySpec>, skip: set<string>, t: seq<Pair>, n: nat, s: Values, g: Progress)
    requires IsTable(t) && n < |t| && ValuesUpTo(schema, skip, t, n, s, g)
    ensures t[n].0 in g.values <==> t[n].0 in s
    ensures t[n].0 in g.values ==> g.values[t[n].0] == s[t[n].0]
  {
    hide Sets, Differs, Refused, Judge;
    assert forall i :: 0 <= i < n ==> t[i].0 != t[n].0;
  }

  /** What one pair does to the values. */
  lemma PairValues(schema: seq<KeySpec>, skip: set<string>, pair: Pair, g: Progress)
    requires g.ok && !Judge(schema, skip, pair).Reject?
    ensures var g', j := ImportPair(schema, skip, pair, g), Judge(schema, skip, pair);
            && (Sets(schema, skip, pair) ==> g'.values == g.values[pair.0 := j.value])
            && (!Sets(schema, skip, pair) ==> g'.values == g.values)
  {
    hide Judge;
  }

  lemma DiffersAlike(schema: seq<KeySpec>, skip: set<string>, pair: Pair, s: Values, s': Values)
    requires (pair.0 in s <==> pair.0 in s') && (pair.0 in s ==> s[pair.0] == s'[pair.0])
    ensures Differs(schema, skip, pair, s) == Differs(schema, skip, pair, s')
  {
    hide Judge;
  }

  lemma ValuesStep(schema: seq<KeySpec>, skip: set<string>, t: seq<Pair>, n: nat, s: Values, g: Progress)
    requires IsTable(t) && n < |t| && g.ok && ValuesUpTo(schema, skip, t, n, s, g)
    requires !Judge(schema, skip, t[n]).Reject?
    ensures ValuesUpTo(schema, skip, t, n + 1, s, ImportPair(schema, skip, t[n], g))
    ensures t[n].0 in g.values <==> t[n].0 in s
    ensures t[n].0 in g.values ==> g.values[t[n].0] == s[t[n].0]
  {
    hide Judge, Sets, ImportPair;
    var g' := ImportPair(schema, skip, t[n], g);
    NextKeyIsUntouched(schema, skip, t, n, s, g);
    PairValues(schema, skip, t[n], g);
    DiffersAlike(schema, skip, t[n], s, g.values);
    assert Differs(schema, skip, t[n], g'.values) <==> Refused(schema, skip, t[n], s) by {
      if Sets(schema, skip, t[n]) {
        assert !Differs(schema, skip, t[n], g'.values);
      }
    }
    hide Differs, Refused;
    forall i | 0 <= i < n && Judge(schema, skip, t[i]).Take?
      ensures Differs(schema, skip, t[i], g'.values) <==> Refused(schema, skip, t[i], s)
    {
      DiffersAlike(schema, skip, t[i], g.values, g'.values);
    }
  }

  lemma ReportStep(schema: seq<KeySpec>, skip: set<string>, t: seq<Pair>, n: nat, s: Values, g: Progress)
    requires IsTable(t) && n < |t| && g.ok && ReportUpTo(schema, skip, t, n, s, g)
    requires !Judge(schema, skip, t[n]).Reject?
    requires t[n].0 in g.values <==> t[n].0 in s
    requires t[n].0 in g.values ==> g.values[t[n].0] == s[t[n].0]
    ensures ReportUpTo(schema, skip, t, n + 1, s, ImportPair(schema, skip, t[n], g))
  {
    hide Judge;
    assert t[n].0 !in g.changed;
    var g' := ImportPair(schema, skip, t[n], g);
    assert g'.changed == if Differs(schema, skip, t[n], s) then g.changed + [t[n].0] else g.changed;
    assert forall i :: 0 <= i < n ==> t[i].0 != t[n].0;
    assert forall i :: 0 <= i < n ==> (t[i].0 in g'.changed <==> t[i].0 in g.changed);
  }

  lemma ImportStep(schema: seq<KeySpec>, skip: set<string>, t: seq<Pair>, n: nat, s: Values, g: Progress)
    requires IsTable(t) && n < |t| && g.ok && ImportedUpTo(schema, skip, t, n, s, g)
    requires !Judge(schema, skip, t[n]).Reject?
    ensures ImportedUpTo(schema, skip, t, n + 1, s, ImportPair(schema, skip, t[n], g))
  {
    hide Judge, ValuesUpTo, ReportUpTo, ImportPair;
    ValuesStep(schema, skip, t, n, s, g);
    ReportStep(schema, skip, t, n, s, g);
  }

  lemma ImportStart(schema: seq<KeySpec>, skip: set<string>, t: seq<Pair>, s: Values)
    ensures ImportedUpTo(schema, skip, t, 0, s, Progress(s, [], true))
  {
    hide Judge;
  }

  lemma ImportPairOk(schema: seq<KeySpec>, skip: set<string>, pair: Pair, g: Progress)
    ensures ImportPair(schema, skip, pair, g).ok <==> g.ok && !Judge(schema, skip, pair).Reject?
  {
    hide Judge;
  }

  /** A successful import is exact and sparse: a key of the table has the table's value if and only if the value is
      admitted or was there already, every other key - absent, unknown, skipped or refused - keeps its own, and the
      reported keys are exactly those whose value differed, each once.  It succeeds if and only if no pair has the
      wrong type. */
  lemma {:induction false} ImportIsExact(schema: seq<KeySpec>, skip: set<string>, t: seq<Pair>, n: nat, s: Values)
    requires IsTable(t) && n <= |t|
    ensures var g := ImportPairs(schema, skip, t, n, s);
            && (g.ok <==> forall i :: 0 <= i < n ==> !Judge(schema, skip, t[i]).Reject?)
            && (g.ok ==> ImportedUpTo(schema, skip, t, n, s, g))
    decreases n
  {
    hide Judge, ImportedUpTo, ImportPair;
    if n == 0 {
      ImportStart(schema, skip, t, s);
    } else {
      ImportIsExact(schema, skip, t, n - 1, s);
      ImportPairOk(schema, skip, t[n - 1], ImportPairs(schema, skip, t, n - 1, s));
      var g := ImportPairs(schema, skip, t, n - 1, s);
      if g.ok && !Judge(schema, skip, t[n - 1]).Reject? {
        ImportStep(schema, skip, t, n - 1, s, g);
      }
    }
  }

  /** Pairs that are there already change nothing and are not reported. */
  lemma {:induction false} ImportOfSame(schema: seq<KeySpec>, skip: set<string>, t: seq<Pair>, n: nat, s: Values)
    requires n <= |t|
    requires forall i :: 0 <= i < n ==> !Judge(schema, skip, t[i]).Reject?
    requires forall i :: 0 <= i < n && Judge(schema, skip, t[i]).Take? ==>
               t[i].0 in s && s[t[i].0] == Judge(schema, skip, t[i]).value
    ensures ImportPairs(schema, skip, t, n, s) == Progress(s, [], true)
    decreases n
  {
    hide Judge;
    if n > 0 {
      ImportOfSame(schema, skip, t, n - 1, s);
    }
  }

  /** Importing over values that already hold every admitted pair changes no value. */
  lemma {:induction false} ImportOfSettled(schema: seq<KeySpec>, skip: set<string>, t: seq<Pair>, n: nat, s: Values)
    requires n <= |t|
    requires forall i :: 0 <= i < n ==> !Judge(schema, skip, t[i]).Reject?
    requires forall i :: 0 <= i < n && Sets(schema, skip, t[i]) ==> !Differs(schema, skip, t[i], s)
    ensures ImportPairs(schema, skip, t, n, s).ok && ImportPairs(schema, skip, t, n, s).values == s
    decreases n
  {
    hide Judge;
    if n > 0 {
      ImportOfSettled(schema, skip, t, n - 1, s);
    }
  }

  /** Importing the same table again changes nothing.  It reports exactly the keys whose values were refused the first
      time, so it reports nothing if and only if none was. */
  lemma ImportTwice(schema: seq<KeySpec>, skip: set<string>, t: seq<Pair>, s: Values)
    requires IsTable(t) && Import(schema, skip, t, s).ok
    ensures var g := Import(schema, skip, t, s);
            var h := Import(schema, skip, t, g.values);
            && h.ok && h.values == g.values
            && (forall i :: 0 <= i < |t| ==> (t[i].0 in h.changed <==> Refused(schema, skip, t[i], s)))
            && (h.changed == [] <==> forall i :: 0 <= i < |t| ==> !Refused(schema, skip, t[i], s))
  {
    hide Judge;
    ImportIsExact(schema, skip, t, |t|, s);
    var g := Import(schema, skip, t, s);
    forall i | 0 <= i < |t|
      ensures Differs(schema, skip, t[i], g.values) <==> Refused(schema, skip, t[i], s)
    {
    }
    ImportOfSettled(schema, skip, t, |t|, g.values);
    ImportIsExact(schema, skip, t, |t|, g.values);
    var h := Import(schema, skip, t, g.values);
    if h.changed != [] {
      assert h.changed[0] in h.changed;
    }
  }

  /** Over values that their keys may have, nothing is refused if and only if every value of the table is one that its
      key may have. */
  lemma NothingRefusedIff(schema: seq<KeySpec>, skip: set<string>, t: seq<Pair>, s: Values)
    requires Fits(schema, s)
    ensures (forall i :: 0 <= i < |t| ==> !Refused(schema, skip, t[i], s))
            <==> forall i :: 0 <= i < |t| && Judge(schema, skip, t[i]).Take? ==> Sets(schema, skip, t[i])
  {
    forall i | 0 <= i < |t| && Judge(schema, skip, t[i]).Take? && !Sets(schema, skip, t[i])
      ensures Refused(schema, skip, t[i], s)
    {
      var k := FindKey(schema, t[i].0, |schema|);
      assert IsValueOf(schema[k], s[schema[k].name]);
    }
  }

  /** An import leaves every key with a value that it may have. */
  lemma {:induction false} ImportKeepsFit(schema: seq<KeySpec>, skip: set<string>, t: seq<Pair>, n: nat, s: Values)
    requires IsSchema(schema) && Fits(schema, s) && n <= |t|
    requires forall i :: 0 <= i < |t| && t[i].1.Int? ==> MIN_INT64 <= t[i].1.i <= MAX_INT64
    ensures Fits(schema, ImportPairs(schema, skip, t, n, s).values)
    decreases n
  {
    if n > 0 {
      ImportKeepsFit(schema, skip, t, n - 1, s);
      PairKeepsFit(schema, skip, t[n - 1], ImportPairs(schema, skip, t, n - 1, s));
    }
  }

  lemma PairKeepsFit(schema: seq<KeySpec>, skip: set<string>, pair: Pair, g: Progress)
    requires IsSchema(schema) && Fits(schema, g.values)
    requires pair.1.Int? ==> MIN_INT64 <= pair.1.i <= MAX_INT64
    ensures Fits(schema, ImportPair(schema, skip, pair, g).values)
  {
    var k := FindKey(schema, pair.0, |schema|);
    if Sets(schema, skip, pair) {
      ToVariantIsTyped(pair.1, schema[k].ty);
    }
    hide ToVariant, HasType, Admits;
    forall i | 0 <= i < |schema|
      ensures schema[i].name in ImportPair(schema, skip, pair, g).values
      ensures IsValueOf(schema[i], ImportPair(schema, skip, pair, g).values[schema[i].name])
    {
      FindKeyIs(schema, i);
    }
  }

  // The same, said of keys and TOML values alone.

  /** A parser's integers have 64 bits. */
  ghost predicate Parsed(t: seq<Pair>) {
    forall i :: 0 <= i < |t| && t[i].1.Int? ==> MIN_INT64 <= t[i].1.i <= MAX_INT64
  }

  /** The pair is for key `j`, and that key is imported. */
  ghost predicate IsFor(schema: seq<KeySpec>, skip: set<string>, pair: Pair, j: int) {
    0 <= j < |schema| && schema[j].name == pair.0 && pair.0 !in skip
  }

  lemma PairIsRejected(schema: seq<KeySpec>, skip: set<string>, pair: Pair)
    requires IsSchema(schema) && (pair.1.Int? ==> MIN_INT64 <= pair.1.i <= MAX_INT64)
    ensures Judge(schema, skip, pair).Reject?
            <==> exists j :: IsFor(schema, skip, pair, j) && !IsOfKind(pair.1, schema[j].ty)
  {
    hide ToVariant, IsOfKind;
    var k := FindKey(schema, pair.0, |schema|);
    if k >= 0 {
      ToVariantIsMeaning(pair.1, schema[k].ty, VBool(true));
    }
    forall j | IsFor(schema, skip, pair, j)
      ensures j == k
    {
      FindKeyIs(schema, j);
    }
  }

  /** An import fails if and only if some known key that is not skipped has a TOML value of another kind than its type
      takes. */
  lemma ImportFailsIff(schema: seq<KeySpec>, skip: set<string>, t: seq<Pair>, s: Values)
    requires IsSchema(schema) && IsTable(t) && Parsed(t)
    ensures !Import(schema, skip, t, s).ok
            <==> exists i, j :: 0 <= i < |t| && IsFor(schema, skip, t[i], j) && !IsOfKind(t[i].1, schema[j].ty)
  {
    hide Judge, IsSchema, IsOfKind, ImportedUpTo;
    ImportIsExact(schema, skip, t, |t|, s);
    forall i | 0 <= i < |t|
      ensures Judge(schema, skip, t[i]).Reject?
              <==> exists j :: IsFor(schema, skip, t[i], j) && !IsOfKind(t[i].1, schema[j].ty)
    {
      PairIsRejected(schema, skip, t[i]);
    }
  }

  lemma PairIsTaken(schema: seq<KeySpec>, skip: set<string>, pair: Pair, j: int, v: Variant)
    requires IsSchema(schema) && IsFor(schema, skip, pair, j) && Means(pair.1, schema[j].ty, v)
    requires pair.1.Int? ==> MIN_INT64 <= pair.1.i <= MAX_INT64
    ensures Judge(schema, skip, pair) == Take(v, Admits(schema[j].limits, v))
  {
    FindKeyIs(schema, j);
    hide ToVariant, IsOfKind, Means, Admits;
    ToVariantIsMeaning(pair.1, schema[j].ty, v);
  }

  /** A successful import gives a key that the table has and that is not skipped the value its TOML value stands for,
      unless the key may not have it; it reports the key if and only if that value is not the old one. */
  lemma ImportSetsKey(schema: seq<KeySpec>, skip: set<string>, t: seq<Pair>, s: Values, i: int, j: int, v: Variant)
    requires IsSchema(schema) && Fits(schema, s) && IsTable(t) && Parsed(t) && Import(schema, skip, t, s).ok
    requires 0 <= i < |t| && IsFor(schema, skip, t[i], j) && Means(t[i].1, schema[j].ty, v)
    ensures var g, k := Import(schema, skip, t, s), schema[j].name;
            && k in g.values && k in s
            && g.values[k] == (if Admits(schema[j].limits, v) then v else s[k])
            && (k in g.changed <==> v != s[k])
  {
    PairIsTaken(schema, skip, t[i], j, v);
    ImportIsExact(schema, skip, t, |t|, s);
    assert IsValueOf(schema[j], s[schema[j].name]);
    hide Judge, IsSchema, Means, Admits, Import;
    assert forall a :: 0 <= a < |t| && t[a].0 == t[i].0 ==> a == i;
  }

  /** Every other key, absent or skipped, keeps its value and is not reported. */
  lemma ImportLeavesKey(schema: seq<KeySpec>, skip: set<string>, t: seq<Pair>, s: Values, k: string)
    requires IsTable(t) && Import(schema, skip, t, s).ok
    requires k in skip || (forall i :: 0 <= i < |t| ==> t[i].0 != k) || FindKey(schema, k, |schema|) < 0
    ensures var g := Import(schema, skip, t, s);
            && (k in g.values <==> k in s) && (k in s ==> g.values[k] == s[k]) && k !in g.changed
  {
    ImportIsExact(schema, skip, t, |t|, s);
    forall i | 0 <= i < |t| && t[i].0 == k
      ensures Judge(schema, skip, t[i]).Ignore?
    {
    }
    hide Judge, Import;
  }

  /** A column count is taken over if and only if it lies in the range of its key, 16 to 511; it is reported whenever it
      is not the present one. */
  lemma RangeIsEnforced(i: int, present: int)
    requires 16 <= present <= 511 && -0x8000_0000 <= i < 0x8000_0000
    ensures var key := "default-size-columns";
            var schema := [KeySpec(key, Int32, VInt(80), Range(16, 511))];
            var s: Values := map[key := VInt(present)];
            Import(schema, {}, [(key, Int(i))], s)
            == Progress(if 16 <= i <= 511 then map[key := VInt(i)] else s, if i == present then [] else [key], true)
  {
    var key := "default-size-columns";
    var spec := KeySpec(key, Int32, VInt(80), Range(16, 511));
    OnePair(spec, (key, Int(i)), VInt(i), VInt(present));
  }

  /** The word of an enumeration is taken over if and only if the enumeration has it. */
  lemma EnumerationIsEnforced(x: string, present: string)
    requires present == "block" || present == "ibeam" || present == "underline"
    ensures var key := "cursor-shape";
            var schema := [KeySpec(key, Text, VText("block"), OneOf({"block", "ibeam", "underline"}))];
            var s: Values := map[key := VText(present)];
            Import(schema, {}, [(key, Str(x))], s)
            == Progress(if x == "block" || x == "ibeam" || x == "underline" then map[key := VText(x)] else s,
                        if x == present then [] else [key], true)
  {
    var key := "cursor-shape";
    var spec := KeySpec(key, Text, VText("block"), OneOf({"block", "ibeam", "underline"}));
    OnePair(spec, (key, Str(x)), VText(x), VText(present));
  }

  lemma OnePair(spec: KeySpec, pair: Pair, v: Variant, present: Variant)
    requires pair.0 == spec.name && ToVariant(pair.1, spec.ty) == Just(v)
    ensures Import([spec], {}, [pair], map[spec.name := present])
            == Progress(map[spec.name := if Admits(spec.limits, v) then v else present],
                        if v == present then [] else [spec.name], true)
  {
    var s: Values := map[spec.name := present];
    assert FindKey([spec], spec.name, 0) == -1;
    assert FindKey([spec], spec.name, 1) == 0;
    assert Judge([spec], {}, pair) == Take(v, Admits(spec.limits, v));
    hide Judge, Admits;
    assert ImportPairs([spec], {}, [pair], 0, s) == Progress(s, [], true);
    assert ImportPairs([spec], {}, [pair], 1, s) == ImportPair([spec], {}, pair, Progress(s, [], true));
  }

  /** A column count of 3 is out of range: the import succeeds and reports the key, time and again, but the 80 columns
      stay. */
  lemma RefusedValueIsReportedAgain()
    ensures var key := "default-size-columns";
            var schema := [KeySpec(key, Int32, VInt(80), Range(16, 511))];
            var s: Values := map[key := VInt(80)];
            && Fits(schema, s)
            && Import(schema, {}, [(key, Int(3))], s) == Progress(s, [key], true)
  {
    RangeIsEnforced(3, 80);
  }

  // ------------------------------------------------------------------------------------------------
  // Export followed by import
  // ------------------------------------------------------------------------------------------------

  function AsTable(items: seq<Item>): (t: seq<Pair>)
    requires forall i :: 0 <= i < |items| ==> items[i].KeyValue?
    ensures |t| == |items| && forall i :: 0 <= i < |t| ==> t[i] == (items[i].key, items[i].value)
  {
    seq(|items|, i requires 0 <= i < |items| => (items[i].key, items[i].value))
  }

  /** Pair `item` is the exported form of key `i`. */
  ghost predicate Exports(schema: seq<KeySpec>, s: Values, skip: set<string>, i: int, item: Item)
    requires 0 <= i < |schema| && schema[i].name in s
  {
    var k := schema[i].name;
    k !in skip && !Unset(s[k]) && item == KeyValue(k, Node(s[k]))
  }

  /** The key index that the `a`th exported pair comes from. */
  ghost function Origin(schema: seq<KeySpec>, s: Values, skip: set<string>, n: nat, a: nat): (i: nat)
    requires n <= |schema| && (forall i :: 0 <= i < |schema| ==> schema[i].name in s)
    requires a < |Pairs(schema, s, skip, n)|
    ensures n <= i < |schema| && Exports(schema, s, skip, i, Pairs(schema, s, skip, n)[a])
    decreases |schema| - n
  {
    var k := schema[n].name;
    if k in skip || Unset(s[k]) then Origin(schema, s, skip, n + 1, a)
    else if a == 0 then n
    else Origin(schema, s, skip, n + 1, a - 1)
  }

  lemma {:induction false} OriginsRise(schema: seq<KeySpec>, s: Values, skip: set<string>, n: nat, a: nat, b: nat)
    requires n <= |schema| && (forall i :: 0 <= i < |schema| ==> schema[i].name in s)
    requires a < b < |Pairs(schema, s, skip, n)|
    ensures Origin(schema, s, skip, n, a) < Origin(schema, s, skip, n, b)
    decreases |schema| - n
  {
    var k := schema[n].name;
    if k in skip || Unset(s[k]) {
      OriginsRise(schema, s, skip, n + 1, a, b);
    } else if a > 0 {
      OriginsRise(schema, s, skip, n + 1, a - 1, b - 1);
    }
  }

  lemma {:induction false} EveryKeyIsExported(schema: seq<KeySpec>, s: Values, skip: set<string>, n: nat, i: nat)
    returns (a: nat)
    requires n <= i < |schema| && (forall i :: 0 <= i < |schema| ==> schema[i].name in s)
    requires schema[i].name !in skip && !Unset(s[schema[i].name])
    ensures a < |Pairs(schema, s, skip, n)| && Exports(schema, s, skip, i, Pairs(schema, s, skip, n)[a])
    decreases |schema| - n
  {
    var k := schema[n].name;
    if n == i {
      a := 0;
    } else {
      a := EveryKeyIsExported(schema, s, skip, n + 1, i);
      if !(k in skip || Unset(s[k])) {
        a := a + 1;
      }
    }
  }

  lemma PairsArePairs(schema: seq<KeySpec>, s: Values, skip: set<string>, n: nat)
    requires n <= |schema| && (forall i :: 0 <= i < |schema| ==> schema[i].name in s)
    ensures forall a :: 0 <= a < |Pairs(schema, s, skip, n)| ==> Pairs(schema, s, skip, n)[a].KeyValue?
  {
    forall a | 0 <= a < |Pairs(schema, s, skip, n)|
      ensures Pairs(schema, s, skip, n)[a].KeyValue?
    {
      var i := Origin(schema, s, skip, n, a);
    }
  }

  /** The exported table, as the importer sees it. */
  function ExportTable(schema: seq<KeySpec>, s: Values, skip: set<string>): seq<Pair>
    requires forall i :: 0 <= i < |schema| ==> schema[i].name in s
  {
    PairsArePairs(schema, s, skip, 0);
    AsTable(Pairs(schema, s, skip, 0))
  }

  lemma ExportTableIsTable(schema: seq<KeySpec>, s: Values, skip: set<string>)
    requires IsSchema(schema) && Fits(schema, s)
    ensures IsTable(ExportTable(schema, s, skip))
  {
    var t := ExportTable(schema, s, skip);
    forall a, b | 0 <= a < b < |t|
      ensures t[a].0 != t[b].0
    {
      OriginsRise(schema, s, skip, 0, a, b);
      var i, j := Origin(schema, s, skip, 0, a), Origin(schema, s, skip, 0, b);
      assert schema[i].name != schema[j].name;
    }
  }

  lemma FindKeyIs(schema: seq<KeySpec>, i: int)
    requires IsSchema(schema) && 0 <= i < |schema|
    ensures FindKey(schema, schema[i].name, |schema|) == i
  {
    var r := FindKey(schema, schema[i].name, |schema|);
    assert schema[r].name == schema[i].name;
  }

  /** The importer's skip list may name more than the exporter's, but no further key of the schema. */
  ghost predicate SkipsNoMore(schema: seq<KeySpec>, skip: set<string>, importSkip: set<string>) {
    forall i :: 0 <= i < |schema| && schema[i].name in importSkip ==> schema[i].name in skip
  }

  lemma ExportedPairIsTaken(schema: seq<KeySpec>, s: Values, skip: set<string>, importSkip: set<string>, a: nat)
    requires IsSchema(schema) && Fits(schema, s) && SkipsNoMore(schema, skip, importSkip)
    requires a < |ExportTable(schema, s, skip)|
    ensures var pair := ExportTable(schema, s, skip)[a];
            pair.0 in s && Judge(schema, importSkip, pair) == Take(s[pair.0], true)
  {
    var i := Origin(schema, s, skip, 0, a);
    var k := schema[i].name;
    FindKeyIs(schema, i);
    NodeRoundTrip(s[k], schema[i].ty);
  }

  /** The target's values, overwritten by the source's wherever the source has one that is exported. */
  ghost function Merged(schema: seq<KeySpec>, s: Values, target: Values, skip: set<string>): Values
    requires Fits(schema, s)
  {
    map k | k in target :: if k !in skip && FindKey(schema, k, |schema|) >= 0 && !Unset(s[k]) then s[k] else target[k]
  }

  lemma MergedAt(schema: seq<KeySpec>, s: Values, target: Values, skip: set<string>, importSkip: set<string>, k: string)
    requires IsSchema(schema) && Fits(schema, s) && Fits(schema, target) && SkipsNoMore(schema, skip, importSkip)
    requires var t := ExportTable(schema, s, skip);
             var g := Import(schema, importSkip, t, target);
             g.ok && ImportedUpTo(schema, importSkip, t, |t|, target, g)
    ensures var g := Import(schema, importSkip, ExportTable(schema, s, skip), target);
            && (k in g.values <==> k in target)
            && (k in target ==> g.values[k] == Merged(schema, s, target, skip)[k])
  {
    hide Judge, ImportPairs, Pairs, Node;
    var t := ExportTable(schema, s, skip);
    var i := FindKey(schema, k, |schema|);
    if i >= 0 && k !in skip && !Unset(s[k]) {
      var a := EveryKeyIsExported(schema, s, skip, 0, i);
      assert t[a].0 == k;
      ExportedPairIsTaken(schema, s, skip, importSkip, a);
    } else {
      forall a | 0 <= a < |t|
        ensures t[a].0 != k
      {
        var j := Origin(schema, s, skip, 0, a);
        FindKeyIs(schema, j);
      }
    }
  }

  /** Importing one state's export into another yields the first state on every set key and leaves the second
      alone on every unset or skipped one; importing it back into the first state changes nothing. */
  lemma ExportImport(schema: seq<KeySpec>, s: Values, target: Values, skip: set<string>, importSkip: set<string>)
    requires IsSchema(schema) && Fits(schema, s) && Fits(schema, target) && SkipsNoMore(schema, skip, importSkip)
    ensures var g := Import(schema, importSkip, ExportTable(schema, s, skip), target);
            && g.ok
            && g.values == Merged(schema, s, target, skip)
            && (target == s ==> g == Progress(s, [], true))
  {
    hide Judge, Pairs, ExportTable, Merged, IsSchema, ReportUpTo;
    var t := ExportTable(schema, s, skip);
    ExportTableIsTable(schema, s, skip);
    forall a | 0 <= a < |t|
      ensures t[a].0 in s && Judge(schema, importSkip, t[a]) == Take(s[t[a].0], true)
    {
      ExportedPairIsTaken(schema, s, skip, importSkip, a);
    }
    ImportIsExact(schema, importSkip, t, |t|, target);
    var g := Import(schema, importSkip, t, target);
    MergedKeys(schema, s, target, skip);
    forall k: string
      ensures k in g.values <==> k in target
      ensures k in target ==> g.values[k] == Merged(schema, s, target, skip)[k]
    {
      MergedAt(schema, s, target, skip, importSkip, k);
    }
    if target == s {
      ImportOfSame(schema, importSkip, t, |t|, s);
    }
  }

  lemma MergedKeys(schema: seq<KeySpec>, s: Values, target: Values, skip: set<string>)
    requires Fits(schema, s)
    ensures Merged(schema, s, target, skip).Keys == target.Keys
  {
  }
}
