/** The icon importer: which files of the staging directory make it into the registry. */
module IconImport {
  import opened Common
  import opened IconRegistry

  const MAX_BYTES: nat := 100 * 1024
  const EXTENSION: string := ".svg"

  /** A file of the staging directory; `size` is absent when it cannot be determined. */
  datatype File = File(name: string, size: Size, renderable: bool)
  datatype Size = Unknown | Bytes(n: nat)

  predicate HasSuffix(s: string, suffix: string) {
    |suffix| <= |s| && s[|s| - |suffix|..] == suffix
  }

  /** The name without its extension. */
  function StripExtension(name: string): string {
    if |name| > |EXTENSION| && HasSuffix(name, EXTENSION) then name[..|name| - |EXTENSION|] else name
  }

  predicate IsFirstChar(c: char) {
    'a' <= c <= 'z' || '0' <= c <= '9'
  }

  predicate IsNameChar(c: char) {
    IsFirstChar(c) || c == '_' || c == '-'
  }

  /** [a-z0-9][a-z0-9_-]* */
  predicate IsIconName(s: string) {
    s != "" && IsFirstChar(s[0]) && forall i :: 0 <= i < |s| ==> IsNameChar(s[i])
  }

  /** Hidden files and files that are not SVGs are passed over without a word. */
  predicate Considered(f: File) {
    f.name != "" && f.name[0] != '.' && HasSuffix(f.name, EXTENSION)
  }

  datatype Reason = BadName | StatFailed | TooLarge(n: nat) | EmptyFile | NotRenderable

  datatype Rejection = Rejection(name: string, reason: Reason)

  /** The first check that the file fails, in the order of the importer. */
  function Problem(f: File): Maybe<Reason> {
    if !(|f.name| > |EXTENSION| && IsIconName(StripExtension(f.name))) then Just(BadName)
    else if f.size.Unknown? then Just(StatFailed)
    else if f.size.n > MAX_BYTES then Just(TooLarge(f.size.n))
    else if f.size.n == 0 then Just(EmptyFile)
    else if !f.renderable then Just(NotRenderable)
    else Nothing
  }

  predicate Valid(f: File) {
    Problem(f).Nothing?
  }

  /** An icon's name: lower-case letters and digits, and after the first character also underscores and dashes. */
  ghost predicate IsStem(s: string) {
    && 1 <= |s|
    && forall i :: 0 <= i < |s| ==>
         ('a' <= s[i] <= 'z') || ('0' <= s[i] <= '9') || (i > 0 && (s[i] == '_' || s[i] == '-'))
  }

  /** The file is named after the icon. */
  ghost predicate IsNamedAfter(f: File, stem: string) {
    f.name == stem + ".svg"
  }

  lemma NameParts(f: File, stem: string)
    ensures IsNamedAfter(f, stem) ==> HasSuffix(f.name, EXTENSION) && f.name[..|f.name| - 4] == stem
    ensures HasSuffix(f.name, EXTENSION) ==> IsNamedAfter(f, f.name[..|f.name| - 4])
  {
    if HasSuffix(f.name, EXTENSION) {
      assert f.name == f.name[..|f.name| - 4] + f.name[|f.name| - 4..];
    }
  }

  /** A file is looked at if and only if it is an SVG and not hidden. */
  lemma ConsideredIff(f: File)
    ensures Considered(f) <==> exists stem :: IsNamedAfter(f, stem) && stem != "" && stem[0] != '.'
  {
    if HasSuffix(f.name, EXTENSION) {
      NameParts(f, f.name[..|f.name| - 4]);
      var stem := f.name[..|f.name| - 4];
      assert stem != "" ==> stem[0] == f.name[0];
      assert stem == "" ==> f.name == ".svg";
    }
    if stem :| IsNamedAfter(f, stem) && stem != "" && stem[0] != '.' {
      NameParts(f, stem);
    }
  }

  lemma GoodName(f: File)
    ensures |f.name| > |EXTENSION| && HasSuffix(f.name, EXTENSION) && IsIconName(StripExtension(f.name))
            <==> exists stem :: IsNamedAfter(f, stem) && IsStem(stem)
  {
    if stem :| IsNamedAfter(f, stem) && IsStem(stem) {
      NameParts(f, stem);
      assert StripExtension(f.name) == stem;
    }
    if |f.name| > |EXTENSION| && HasSuffix(f.name, EXTENSION) && IsIconName(StripExtension(f.name)) {
      NameParts(f, f.name[..|f.name| - 4]);
      assert IsStem(f.name[..|f.name| - 4]);
    }
  }

  /** Of the files looked at, those with an icon's name, of 1 to 102400 bytes, that can be rendered are valid; any other
      is rejected for the first of these that fails. */
  lemma ProblemIs(f: File)
    requires Considered(f)
    ensures var named := exists stem :: IsNamedAfter(f, stem) && IsStem(stem);
            && (Valid(f) <==> named && f.size.Bytes? && 1 <= f.size.n <= 102400 && f.renderable)
            && (Problem(f) == Just(BadName) <==> !named)
            && (Problem(f) == Just(StatFailed) <==> named && f.size == Unknown)
            && (forall n :: Problem(f) == Just(TooLarge(n)) <==> named && f.size == Bytes(n) && n > 102400)
            && (Problem(f) == Just(EmptyFile) <==> named && f.size == Bytes(0))
            && (Problem(f) == Just(NotRenderable)
                <==> (named && f.size.Bytes? && 1 <= f.size.n <= 102400 && !f.renderable))
  {
    GoodName(f);
    hide IsStem, IsIconName, StripExtension, HasSuffix;
  }

  /** The icons among the first `n` files, in directory order. */
  function Icons(files: seq<File>, n: nat): seq<string>
    requires n <= |files|
  {
    if n == 0 then []
    else
      var f := files[n - 1];
      Icons(files, n - 1) + if Considered(f) && Valid(f) then [StripExtension(f.name)] else []
  }

  /** The rejected ones, each with its reason. */
  function Rejects(files: seq<File>, n: nat): seq<Rejection>
    requires n <= |files|
  {
    if n == 0 then []
    else
      var f := files[n - 1];
      Rejects(files, n - 1) + if Considered(f) && Problem(f).Just? then [Rejection(f.name, Problem(f).value)] else []
  }

  method Scan(files: seq<File>) returns (accepted: seq<string>, rejected: seq<Rejection>)
    ensures accepted == Icons(files, |files|) && rejected == Rejects(files, |files|)
  {
    accepted, rejected := [], [];
    for i := 0 to |files|
      invariant accepted == Icons(files, i) && rejected == Rejects(files, i)
    {
      var f := files[i];
      if f.name == "" || f.name[0] == '.' {
        continue;
      }
      if !HasSuffix(f.name, EXTENSION) {
        continue;
      }
      var problem := Problem(f);
      if problem.Just? {
        rejected := rejected + [Rejection(f.name, problem.value)];
        continue;
      }
      accepted := accepted + [StripExtension(f.name)];
    }
  }

  /** A directory lists every name once. */
  ghost predicate IsDirectory(files: seq<File>) {
    forall i, j :: 0 <= i < j < |files| ==> files[i].name != files[j].name
  }

  ghost predicate Ascending(names: seq<string>) {
    forall i, j :: 0 <= i < j < |names| ==> Compare(names[i], names[j]) <= 0
  }

  ghost predicate StrictlyAscending(names: seq<string>) {
    forall i, j :: 0 <= i < j < |names| ==> Compare(names[i], names[j]) < 0
  }

  /** The name belongs to a valid file among the first `n`. */
  ghost predicate IsIconAmong(files: seq<File>, n: nat, name: string)
    requires n <= |files|
  {
    exists i :: 0 <= i < n && Considered(files[i]) && Valid(files[i]) && StripExtension(files[i].name) == name
  }

  /** Every icon comes from a valid file of the directory, and every valid file gives its icon. */
  lemma {:induction false} IconsAt(files: seq<File>, n: nat, name: string)
    requires n <= |files|
    ensures name in Icons(files, n) <==> IsIconAmong(files, n, name)
    decreases n
  {
    hide Considered, Valid, StripExtension, Problem;
    if n > 0 {
      IconsAt(files, n - 1, name);
    }
  }

  lemma StripIsInjective(a: string, b: string)
    requires HasSuffix(a, EXTENSION) && HasSuffix(b, EXTENSION)
    requires |a| > |EXTENSION| && |b| > |EXTENSION| && StripExtension(a) == StripExtension(b)
    ensures a == b
  {
    assert a == StripExtension(a) + EXTENSION;
    assert b == StripExtension(b) + EXTENSION;
  }

  lemma SameIconSameName(f: File, g: File)
    requires Considered(f) && Valid(f) && Considered(g) && Valid(g)
    requires StripExtension(f.name) == StripExtension(g.name)
    ensures f.name == g.name
  {
    hide IsIconName;
    StripIsInjective(f.name, g.name);
  }

  lemma {:induction false} IconsAreDistinct(files: seq<File>, n: nat)
    requires IsDirectory(files) && n <= |files|
    ensures forall name :: multiset(Icons(files, n))[name] <= 1
    decreases n
  {
    hide Considered, Valid, StripExtension;
    if n > 0 {
      IconsAreDistinct(files, n - 1);
      var f := files[n - 1];
      if Considered(f) && Valid(f) {
        var icon := StripExtension(f.name);
        if icon in Icons(files, n - 1) {
          IconsAt(files, n - 1, icon);
          var i :| 0 <= i < n - 1 && Considered(files[i]) && Valid(files[i]) && StripExtension(files[i].name) == icon;
          SameIconSameName(files[i], f);
          assert false;
        }
      }
    }
  }

  lemma DistinctAt(names: seq<string>, i: int, j: int)
    requires 0 <= i < j < |names| && names[i] == names[j]
    ensures multiset(names)[names[i]] >= 2
  {
    assert names == names[..j] + [names[j]] + names[j + 1..];
    assert names[..j][i] == names[i];
    assert names[i] in multiset(names[..j]);
  }

  lemma DistinctAscending(names: seq<string>)
    requires Ascending(names) && forall name :: multiset(names)[name] <= 1
    ensures StrictlyAscending(names)
  {
    hide Compare;
    forall i, j | 0 <= i < j < |names| ensures Compare(names[i], names[j]) < 0 {
      if names[i] == names[j] {
        DistinctAt(names, i, j);
        assert false;
      }
      CompareIsZeroForEqual(names[i], names[j]);
    }
  }

  lemma SameMembers(a: seq<string>, b: seq<string>, name: string)
    requires multiset(a) == multiset(b)
    ensures name in a <==> name in b
  {
    assert name in a <==> name in multiset(a);
    assert name in b <==> name in multiset(b);
  }

  lemma IconHasNoQuote(files: seq<File>, name: string)
    requires IsIconAmong(files, |files|, name)
    ensures '"' !in name
  {
    assert !IsNameChar('"');
  }

  /** What sorting the icons may leave behind. */
  ghost predicate IsSortOf(sorted: seq<string>, icons: seq<string>) {
    multiset(sorted) == multiset(icons) && Ascending(sorted)
  }

  /** Whatever order the directory lists its files in, and whatever sorting the accepted names yields: the registry
      holds exactly the icons of the valid files, strictly ascending without duplicates, and the parser reads back
      exactly these names. */
  lemma ImportedRegistry(files: seq<File>, sorted: seq<string>)
    requires IsDirectory(files)
    ensures IsSortOf(sorted, Icons(files, |files|)) ==>
              && StrictlyAscending(sorted)
              && (forall name :: name in sorted <==> IsIconAmong(files, |files|, name))
              && Parsed(Printed(sorted)) == Ok(sorted)
  {
    hide Printed, Parsed, Icons, Compare, IsIconAmong, IsNameChar, StripExtension, Considered;
    if !IsSortOf(sorted, Icons(files, |files|)) {
      return;
    }
    IconsAreDistinct(files, |files|);
    DistinctAscending(sorted);
    forall name ensures name in sorted <==> IsIconAmong(files, |files|, name) {
      SameMembers(sorted, Icons(files, |files|), name);
      IconsAt(files, |files|, name);
    }
    forall i | 0 <= i < |sorted| ensures '"' !in sorted[i] {
      IconHasNoQuote(files, sorted[i]);
    }
    RegistryRoundTrip(sorted);
  }

  /** The file gives this icon: it is named after it, of 1 to 102400 bytes, and can be rendered. */
  ghost predicate GivesIcon(f: File, name: string) {
    IsNamedAfter(f, name) && IsStem(name) && f.size.Bytes? && 1 <= f.size.n <= 102400 && f.renderable
  }

  lemma GivesIconIff(f: File, name: string)
    ensures Considered(f) && Valid(f) && StripExtension(f.name) == name <==> GivesIcon(f, name)
  {
    if Considered(f) && Valid(f) {
      ProblemIs(f);
      var stem :| IsNamedAfter(f, stem) && IsStem(stem);
      NameParts(f, stem);
      assert StripExtension(f.name) == stem;
    }
    if GivesIcon(f, name) {
      ConsideredIff(f);
      ProblemIs(f);
      NameParts(f, name);
      assert StripExtension(f.name) == name;
    }
  }

  /** The names in the registry, by the files of the directory alone. */
  lemma IconAmongIff(files: seq<File>, n: nat, name: string)
    requires n <= |files|
    ensures IsIconAmong(files, n, name) <==> exists i :: 0 <= i < n && GivesIcon(files[i], name)
  {
    hide Considered, Valid, StripExtension, GivesIcon;
    forall i | 0 <= i < n
      ensures Considered(files[i]) && Valid(files[i]) && StripExtension(files[i].name) == name
              <==> GivesIcon(files[i], name)
    {
      GivesIconIff(files[i], name);
    }
  }

  /** The files reported as rejected are those that were considered and failed a check, with the first one they
      failed; none of them is accepted. */
  lemma {:induction false} RejectsAt(files: seq<File>, n: nat, name: string, reason: Reason)
    requires n <= |files|
    ensures Rejection(name, reason) in Rejects(files, n)
            <==> exists i :: 0 <= i < n && Considered(files[i]) && Problem(files[i]) == Just(reason)
                             && files[i].name == name
    decreases n
  {
    hide Considered, Problem;
    if n > 0 {
      RejectsAt(files, n - 1, name, reason);
    }
  }
}
