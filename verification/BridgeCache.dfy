/** The settings bridge: a write-through cache in front of a settings store in another process. */
module BridgeCache {
  import opened Common

  /** A typed setting value. */
  datatype Variant = Variant(ty: string, text: string)

  datatype CacheEntry = CacheEntry(value: Maybe<Variant>, valueSet: bool, writable: bool, writableSet: bool)

  type Cache = map<string, CacheEntry>

  /** What a call over the bus came back with; `Failed` covers errors and timeouts. */
  datatype Reply = Failed | Value(value: Maybe<Variant>) | Writable(writable: bool)

  datatype Op =
    | GetWritable(key: string)
    | Read(key: string, ty: string, defaultOnly: bool)
    | ReadUser(key: string, ty: string)
    | Write(key: string, value: Variant)
    | Reset(key: string)
    | WriteTree(prefix: string, items: seq<(string, Maybe<Variant>)>)

  datatype Answer = NoAnswer | ValueIs(value: Maybe<Variant>) | WritableIs(writable: bool)

  // ------------------------------------------------------------------------------------------------
  // The cache, as a function of what happens to it
  // ------------------------------------------------------------------------------------------------

  const NEW_ENTRY: CacheEntry := CacheEntry(Nothing, false, false, false)

  predicate HasValue(c: Cache, key: string) { key in c && c[key].valueSet }

  predicate HasWritable(c: Cache, key: string) { key in c && c[key].writableSet }

  /** Caching anything about a key replaces all that was cached about it. */
  function WithValue(c: Cache, key: string, v: Maybe<Variant>): Cache {
    c[key := NEW_ENTRY.(value := v, valueSet := true)]
  }

  function WithWritable(c: Cache, key: string, w: bool): Cache {
    c[key := NEW_ENTRY.(writable := w, writableSet := true)]
  }

  function Cleared(c: Cache, key: string): Cache {
    c[key := NEW_ENTRY]
  }

  predicate HasPrefix(s: string, prefix: string) {
    prefix <= s
  }

  predicate IsDirectory(key: string) {
    |key| > 0 && key[|key| - 1] == '/'
  }

  function WithoutPath(c: Cache, path: string): Cache {
    map k | k in c :: if HasPrefix(k, path) then c[k].(value := Nothing, valueSet := false) else c[k]
  }

  /** Only a value of the expected type counts; anything else is treated as a failed call. */
  function Typed(v: Maybe<Variant>, ty: string): Maybe<Variant> {
    if v.Just? && v.value.ty != ty then Nothing else v
  }

  predicate Usable(reply: Reply, ty: string) {
    reply.Value? && Typed(reply.value, ty) == reply.value
  }

  function AfterFetch(c: Cache, key: string, ty: string, reply: Reply): Cache {
    if HasValue(c, key) then c
    else if Usable(reply, ty) then WithValue(c, key, reply.value)
    else Cleared(c, key)
  }

  function Fetched(c: Cache, key: string, ty: string, reply: Reply): Answer {
    if HasValue(c, key) then ValueIs(c[key].value)
    else if Usable(reply, ty) then ValueIs(reply.value)
    else ValueIs(Nothing)
  }

  function AfterItem(c: Cache, key: string, v: Maybe<Variant>): Cache {
    if IsDirectory(key) then WithoutPath(c, key) else WithValue(c, key, v)
  }

  function AfterItems(c: Cache, prefix: string, items: seq<(string, Maybe<Variant>)>, n: nat): Cache
    requires n <= |items|
  {
    if n == 0 then c
    else AfterItem(AfterItems(c, prefix, items, n - 1), prefix + items[n - 1].0, items[n - 1].1)
  }

  function After(c: Cache, op: Op, reply: Reply): Cache {
    match op
    case GetWritable(key) =>
      if HasWritable(c, key) then c
      else if reply.Writable? then WithWritable(c, key, reply.writable) else Cleared(c, key)
    case Read(key, ty, defaultOnly) => if defaultOnly then c else AfterFetch(c, key, ty, reply)
    case ReadUser(key, ty) => AfterFetch(c, key, ty, reply)
    case Write(key, v) => WithValue(c, key, Just(v))
    case Reset(key) => Cleared(c, key)
    case WriteTree(prefix, items) => AfterItems(c, prefix, items, |items|)
  }

  function AnswerTo(c: Cache, op: Op, reply: Reply): Answer {
    match op
    case GetWritable(key) =>
      if HasWritable(c, key) then WritableIs(c[key].writable)
      else WritableIs(reply.Writable? && reply.writable)
    case Read(key, ty, defaultOnly) => if defaultOnly then ValueIs(Nothing) else Fetched(c, key, ty, reply)
    case ReadUser(key, ty) => Fetched(c, key, ty, reply)
    case _ => NoAnswer
  }

  // ------------------------------------------------------------------------------------------------
  // The backend object
  // ------------------------------------------------------------------------------------------------

  class Backend {
    var cache: Cache

    constructor ()
      ensures cache == map[]
    {
      cache := map[];
    }

    method EnsureEntry(key: string)
      modifies this
      ensures cache == Cleared(old(cache), key)
    {
      cache := cache[key := NEW_ENTRY];
    }

    method InsertValue(key: string, v: Maybe<Variant>)
      modifies this
      ensures cache == WithValue(old(cache), key, v)
    {
      EnsureEntry(key);
      cache := cache[key := cache[key].(value := v, valueSet := true)];
    }

    method InsertWritable(key: string, w: bool)
      modifies this
      ensures cache == WithWritable(old(cache), key, w)
    {
      EnsureEntry(key);
      cache := cache[key := cache[key].(writable := w, writableSet := true)];
    }

    /** Visits the entries in whatever order the hash table yields them. */
    method RemovePath(path: string)
      modifies this
      ensures cache == WithoutPath(old(cache), path)
    {
      var todo := cache.Keys;
      while todo != {}
        invariant todo <= cache.Keys == old(cache).Keys
        invariant forall k :: k in cache ==>
                    cache[k] == if k in todo then old(cache)[k] else WithoutPath(old(cache), path)[k]
        decreases |todo|
      {
        var key :| key in todo;
        todo := todo - {key};
        if HasPrefix(key, path) {
          cache := cache[key := cache[key].(value := Nothing, valueSet := false)];
        }
      }
    }

    method RemoveValue(key: string)
      modifies this
      ensures cache == Cleared(old(cache), key)
    {
      EnsureEntry(key);
      cache := cache[key := cache[key].(value := Nothing, valueSet := false)];
    }

    method RemoveWritable(key: string)
      modifies this
      ensures cache == Cleared(old(cache), key)
    {
      EnsureEntry(key);
      cache := cache[key := cache[key].(writableSet := false)];
    }

    method GetWritableKey(key: string, reply: Reply) returns (w: bool)
      modifies this
      ensures cache == After(old(cache), GetWritable(key), reply)
      ensures WritableIs(w) == AnswerTo(old(cache), GetWritable(key), reply)
    {
      if key in cache && cache[key].writableSet {
        return cache[key].writable;
      }
      w := false;
      if reply.Writable? {
        w := reply.writable;
        InsertWritable(key, w);
      } else {
        RemoveWritable(key);
      }
    }

    /** Shared by read and read_user_value, which differ only in the call they make. */
    method Fetch(key: string, ty: string, reply: Reply) returns (v: Maybe<Variant>)
      modifies this
      ensures cache == AfterFetch(old(cache), key, ty, reply)
      ensures ValueIs(v) == Fetched(old(cache), key, ty, reply)
    {
      if key in cache && cache[key].valueSet {
        return cache[key].value;
      }
      var r := reply.Value?;
      v := if r then reply.value else Nothing;
      if r && v.Just? && v.value.ty != ty {
        v := Nothing;
        r := false;
      }
      if r {
        InsertValue(key, v);
      } else {
        RemoveValue(key);
      }
    }

    method ReadKey(key: string, ty: string, defaultOnly: bool, reply: Reply) returns (v: Maybe<Variant>)
      modifies this
      ensures cache == After(old(cache), Read(key, ty, defaultOnly), reply)
      ensures ValueIs(v) == AnswerTo(old(cache), Read(key, ty, defaultOnly), reply)
    {
      if defaultOnly {
        return Nothing;
      }
      v := Fetch(key, ty, reply);
    }

    method ReadUserValue(key: string, ty: string, reply: Reply) returns (v: Maybe<Variant>)
      modifies this
      ensures cache == After(old(cache), ReadUser(key, ty), reply)
      ensures ValueIs(v) == AnswerTo(old(cache), ReadUser(key, ty), reply)
    {
      v := Fetch(key, ty, reply);
    }

    method ResetKey(key: string)
      modifies this
      ensures cache == After(old(cache), Reset(key), Failed)
    {
      RemoveValue(key);
    }

    method WriteKey(key: string, v: Variant)
      modifies this
      ensures cache == After(old(cache), Write(key, v), Failed)
    {
      InsertValue(key, Just(v));
    }

    method WriteFlattened(prefix: string, items: seq<(string, Maybe<Variant>)>)
      modifies this
      ensures cache == After(old(cache), WriteTree(prefix, items), Failed)
    {
      for i := 0 to |items|
        invariant cache == AfterItems(old(cache), prefix, items, i)
      {
        var wkey := prefix + items[i].0;
        if |wkey| > 0 && wkey[|wkey| - 1] == '/' {
          RemovePath(wkey);
        } else {
          InsertValue(wkey, items[i].1);
        }
      }
    }
  }

  // ------------------------------------------------------------------------------------------------
  // Read your writes, with a store that may lag or fail arbitrarily
  // ------------------------------------------------------------------------------------------------

  /** Because every insertion replaces the entry, no key ever has both a cached value and a cached writability. */
  ghost predicate NeverBoth(c: Cache) {
    forall k :: k in c ==> !(c[k].valueSet && c[k].writableSet)
  }

  lemma {:induction false} ItemsKeepNeverBoth(c: Cache, prefix: string, items: seq<(string, Maybe<Variant>)>, n: nat)
    requires NeverBoth(c) && n <= |items|
    ensures NeverBoth(AfterItems(c, prefix, items, n))
    decreases n
  {
    if n > 0 {
      ItemsKeepNeverBoth(c, prefix, items, n - 1);
    }
  }

  lemma StepKeepsNeverBoth(c: Cache, op: Op, reply: Reply)
    requires NeverBoth(c)
    ensures NeverBoth(After(c, op, reply))
  {
    if op.WriteTree? {
      ItemsKeepNeverBoth(c, op.prefix, op.items, |op.items|);
    }
  }

  predicate TouchesItem(key: string, v: Maybe<Variant>, k: string) {
    if IsDirectory(key) then HasPrefix(k, key) else key == k
  }

  /** The operations after which the cache no longer vouches for the last value written to `k`. */
  ghost predicate Touches(op: Op, k: string) {
    match op
    case GetWritable(key) => key == k
    case Read(_, _, _) => false
    case ReadUser(_, _) => false
    case Write(key, _) => key == k
    case Reset(key) => key == k
    case WriteTree(prefix, items) =>
      exists i :: 0 <= i < |items| && TouchesItem(prefix + items[i].0, items[i].1, k)
  }

  ghost predicate Holds(c: Cache, k: string, v: Maybe<Variant>) {
    HasValue(c, k) && c[k].value == v
  }

  lemma {:induction false} ItemsKeepValue(c: Cache, prefix: string, items: seq<(string, Maybe<Variant>)>, n: nat,
                                          k: string, v: Maybe<Variant>)
    requires Holds(c, k, v) && n <= |items|
    requires forall i :: 0 <= i < n ==> !TouchesItem(prefix + items[i].0, items[i].1, k)
    ensures Holds(AfterItems(c, prefix, items, n), k, v)
    decreases n
  {
    if n > 0 {
      ItemsKeepValue(c, prefix, items, n - 1, k, v);
    }
  }

  lemma UntouchedKeepsValue(c: Cache, op: Op, reply: Reply, k: string, v: Maybe<Variant>)
    requires Holds(c, k, v) && !Touches(op, k)
    ensures Holds(After(c, op, reply), k, v)
  {
    if op.WriteTree? {
      ItemsKeepValue(c, op.prefix, op.items, |op.items|, k, v);
    }
  }

  /** The last item of a tree that concerns `k` decides; if it stores a value, that value is cached. */
  lemma {:induction false} TreeCachesLast(c: Cache, prefix: string, items: seq<(string, Maybe<Variant>)>, i: nat,
                                          n: nat, k: string)
    requires i < n <= |items| && prefix + items[i].0 == k && !IsDirectory(k)
    requires forall j :: i < j < n ==> !TouchesItem(prefix + items[j].0, items[j].1, k)
    ensures Holds(AfterItems(c, prefix, items, n), k, items[i].1)
    decreases n
  {
    if n - 1 > i {
      TreeCachesLast(c, prefix, items, i, n - 1, k);
    }
  }

  /** The cache after a run of operations, each with whatever the bus answered. */
  function AfterAll(c: Cache, run: seq<(Op, Reply)>): Cache
    decreases |run|
  {
    if run == [] then c else AfterAll(After(c, run[0].0, run[0].1), run[1..])
  }

  lemma {:induction false} RunKeepsNeverBoth(c: Cache, run: seq<(Op, Reply)>)
    requires NeverBoth(c)
    ensures NeverBoth(AfterAll(c, run))
    decreases |run|
  {
    if run != [] {
      StepKeepsNeverBoth(c, run[0].0, run[0].1);
      RunKeepsNeverBoth(After(c, run[0].0, run[0].1), run[1..]);
    }
  }

  lemma {:induction false} UntouchedRunKeepsValue(c: Cache, run: seq<(Op, Reply)>, k: string, v: Maybe<Variant>)
    requires Holds(c, k, v) && forall i :: 0 <= i < |run| ==> !Touches(run[i].0, k)
    ensures Holds(AfterAll(c, run), k, v)
    decreases |run|
  {
    if run != [] {
      UntouchedKeepsValue(c, run[0].0, run[0].1, k, v);
      UntouchedRunKeepsValue(After(c, run[0].0, run[0].1), run[1..], k, v);
    }
  }

  /** After a write of `v` to `k`, every read of `k` answers `v`, whatever the store replies in the meantime, until
      `k` is written, reset or covered by a directory reset, or its writability is asked for. */
  lemma ReadYourWrites(c: Cache, k: string, v: Variant, run: seq<(Op, Reply)>, ty: string, reply: Reply)
    requires forall i :: 0 <= i < |run| ==> !Touches(run[i].0, k)
    ensures var c' := AfterAll(After(c, Write(k, v), Failed), run);
            && AnswerTo(c', Read(k, ty, false), reply) == ValueIs(Just(v))
            && AnswerTo(c', ReadUser(k, ty), reply) == ValueIs(Just(v))
  {
    UntouchedRunKeepsValue(After(c, Write(k, v), Failed), run, k, Just(v));
  }

  /** The same for a value, or the absence of one, written through a tree whose last item for `k` it is. */
  lemma ReadYourTreeWrites(c: Cache, prefix: string, items: seq<(string, Maybe<Variant>)>, i: nat, k: string,
                           run: seq<(Op, Reply)>, ty: string, reply: Reply)
    requires i < |items| && prefix + items[i].0 == k && !IsDirectory(k)
    requires forall j :: i < j < |items| ==> !TouchesItem(prefix + items[j].0, items[j].1, k)
    requires forall j :: 0 <= j < |run| ==> !Touches(run[j].0, k)
    ensures var c' := AfterAll(After(c, WriteTree(prefix, items), Failed), run);
            && AnswerTo(c', Read(k, ty, false), reply) == ValueIs(items[i].1)
            && AnswerTo(c', ReadUser(k, ty), reply) == ValueIs(items[i].1)
  {
    TreeCachesLast(c, prefix, items, i, |items|, k);
    UntouchedRunKeepsValue(After(c, WriteTree(prefix, items), Failed), run, k, items[i].1);
  }

  /** Asking for the writability of a key always forgets the value cached for it: the next read goes to the store. */
  lemma WritabilityForgetsValue(run: seq<(Op, Reply)>, k: string, v: Maybe<Variant>, reply: Reply, ty: string,
                                later: Reply)
    requires Holds(AfterAll(map[], run), k, v)
    ensures var c := After(AfterAll(map[], run), GetWritable(k), reply);
            && !HasValue(c, k)
            && AnswerTo(c, Read(k, ty, false), later) == ValueIs(if Usable(later, ty) then later.value else Nothing)
  {
    RunKeepsNeverBoth(map[], run);
  }

  /** A failed call tells the client that the key is not writable and has no value, and leaves nothing in the cache. */
  lemma FailedReplies(c: Cache, k: string, ty: string)
    ensures !HasWritable(c, k) ==> AnswerTo(c, GetWritable(k), Failed) == WritableIs(false)
    ensures !HasValue(c, k) ==> AnswerTo(c, Read(k, ty, false), Failed) == ValueIs(Nothing)
                                && AnswerTo(c, ReadUser(k, ty), Failed) == ValueIs(Nothing)
    ensures !HasWritable(c, k) ==> !HasWritable(After(c, GetWritable(k), Failed), k)
    ensures !HasValue(c, k) ==> !HasValue(After(c, Read(k, ty, false), Failed), k)
                                && !HasValue(After(c, ReadUser(k, ty), Failed), k)
  {
  }

  /** The operations after which the cache no longer vouches for the writability of `k`: a read of `k` that finds no
      cached value, and whatever changes `k`. */
  ghost predicate ForgetsWritable(op: Op, k: string) {
    match op
    case GetWritable(_) => false
    case Read(key, _, defaultOnly) => key == k && !defaultOnly
    case ReadUser(key, _) => key == k
    case Write(key, _) => key == k
    case Reset(key) => key == k
    case WriteTree(prefix, items) => exists i :: 0 <= i < |items| && prefix + items[i].0 == k
  }

  lemma {:induction false} ItemsKeepWritable(c: Cache, prefix: string, items: seq<(string, Maybe<Variant>)>, n: nat,
                                             k: string)
    requires HasWritable(c, k) && n <= |items|
    requires forall i :: 0 <= i < n ==> prefix + items[i].0 != k
    ensures HasWritable(AfterItems(c, prefix, items, n), k)
    ensures AfterItems(c, prefix, items, n)[k].writable == c[k].writable
    decreases n
  {
    if n > 0 {
      ItemsKeepWritable(c, prefix, items, n - 1, k);
    }
  }

  lemma {:induction false} RunKeepsWritable(c: Cache, run: seq<(Op, Reply)>, k: string)
    requires HasWritable(c, k) && forall i :: 0 <= i < |run| ==> !ForgetsWritable(run[i].0, k)
    ensures HasWritable(AfterAll(c, run), k) && AfterAll(c, run)[k].writable == c[k].writable
    decreases |run|
  {
    if run != [] {
      var op := run[0].0;
      if op.WriteTree? {
        ItemsKeepWritable(c, op.prefix, op.items, |op.items|, k);
      }
      RunKeepsWritable(After(c, op, run[0].1), run[1..], k);
    }
  }

  /** Once the bus has said whether a key is writable, every later question gets that answer, whatever the bus says by
      then, until the key is read, written or reset. */
  lemma WritabilityIsRepeated(c: Cache, k: string, w: bool, run: seq<(Op, Reply)>, later: Reply)
    requires !HasWritable(c, k)
    requires forall i :: 0 <= i < |run| ==> !ForgetsWritable(run[i].0, k)
    ensures var c' := AfterAll(After(c, GetWritable(k), Writable(w)), run);
            && AnswerTo(c, GetWritable(k), Writable(w)) == WritableIs(w)
            && AnswerTo(c', GetWritable(k), later) == WritableIs(w)
  {
    RunKeepsWritable(After(c, GetWritable(k), Writable(w)), run, k);
  }

  /** Once the bus has given a value of the right type, or none, every later read gets that answer, until one of the
      operations that end the cache's memory of it. */
  lemma ReadIsRepeated(c: Cache, k: string, ty: string, v: Maybe<Variant>, run: seq<(Op, Reply)>, later: Reply)
    requires !HasValue(c, k) && (v.Just? ==> v.value.ty == ty)
    requires forall i :: 0 <= i < |run| ==> !Touches(run[i].0, k)
    ensures var c' := AfterAll(After(c, Read(k, ty, false), Value(v)), run);
            && AnswerTo(c, Read(k, ty, false), Value(v)) == ValueIs(v)
            && AnswerTo(c', Read(k, ty, false), later) == ValueIs(v)
            && AnswerTo(c', ReadUser(k, ty), later) == ValueIs(v)
  {
    UntouchedRunKeepsValue(After(c, Read(k, ty, false), Value(v)), run, k, v);
  }

  /** A value of another type counts as no answer at all. */
  lemma MistypedReplies(c: Cache, k: string, ty: string, v: Variant)
    requires !HasValue(c, k) && v.ty != ty
    ensures AnswerTo(c, Read(k, ty, false), Value(Just(v))) == ValueIs(Nothing)
    ensures !HasValue(After(c, Read(k, ty, false), Value(Just(v))), k)
  {
  }

  /** A tree item whose key ends in a slash is a directory reset: whatever extends that key has no cached value
      afterwards, unless a later item of the tree sets it; nothing that lies elsewhere is affected. */
  lemma {:induction false} DirectoryIsReset(c: Cache, prefix: string, items: seq<(string, Maybe<Variant>)>, i: nat,
                                            n: nat, dir: string, name: string)
    requires i < n <= |items| && prefix + items[i].0 == dir + "/"
    requires forall j :: i < j < n ==> prefix + items[j].0 != (dir + "/") + name
    ensures !HasValue(AfterItems(c, prefix, items, n), (dir + "/") + name)
    decreases n
  {
    var path := dir + "/";
    if n - 1 > i {
      DirectoryIsReset(c, prefix, items, i, n - 1, dir, name);
    } else {
      assert path[|path| - 1] == '/';
      assert path <= path + name;
    }
  }

  /** A single directory reset: exactly the values of the keys that start with it go, and no writability. */
  lemma DirectoryResetIsExact(c: Cache, dir: string, v: Maybe<Variant>, k: string)
    ensures var path := dir + "/";
            var c' := After(c, WriteTree("", [(path, v)]), Failed);
            && (HasWritable(c', k) <==> HasWritable(c, k))
            && (HasValue(c', k) <==> HasValue(c, k) && !(|k| >= |path| && k[..|path|] == path))
            && (HasValue(c', k) ==> c'[k].value == c[k].value)
  {
    var path := dir + "/";
    var items := [(path, v)];
    assert path[|path| - 1] == '/' && "" + path == path;
    assert AfterItems(c, "", items, 0) == c;
    assert AfterItems(c, "", items, 1) == AfterItem(c, path, v);
    assert HasPrefix(k, path) <==> |k| >= |path| && k[..|path|] == path;
  }

  // ------------------------------------------------------------------------------------------------
  // Agreement with a store of which this backend is the only writer
  // ------------------------------------------------------------------------------------------------

  /** The store: values set by the user, values from below the user layer, and keys that may not be written. */
  datatype Store = Store(user: map<string, Variant>, system: map<string, Variant>, locked: set<string>)

  function Get(m: map<string, Variant>, k: string): Maybe<Variant> {
    if k in m then Just(m[k]) else Nothing
  }

  function StoreReply(st: Store, op: Op): Reply {
    match op
    case GetWritable(key) => Writable(key !in st.locked)
    case Read(key, _, _) => Value(if key in st.user then Get(st.user, key) else Get(st.system, key))
    case ReadUser(key, _) => Value(Get(st.user, key))
    case _ => Failed
  }

  function StoreItem(user: map<string, Variant>, key: string, v: Maybe<Variant>): map<string, Variant> {
    if IsDirectory(key) then map k | k in user && !HasPrefix(k, key) :: user[k]
    else if v.Just? then user[key := v.value] else user - {key}
  }

  function StoreItems(user: map<string, Variant>, prefix: string, items: seq<(string, Maybe<Variant>)>, n: nat)
    : map<string, Variant>
    requires n <= |items|
  {
    if n == 0 then user
    else StoreItem(StoreItems(user, prefix, items, n - 1), prefix + items[n - 1].0, items[n - 1].1)
  }

  function StoreAfter(st: Store, op: Op): Store {
    match op
    case Write(key, v) => st.(user := st.user[key := v])
    case Reset(key) => st.(user := st.user - {key})
    case WriteTree(prefix, items) => st.(user := StoreItems(st.user, prefix, items, |items|))
    case _ => st
  }

  /** The value of the expected type under a key, if there is one. */
  function OfType(m: map<string, Variant>, k: string, ty: string): Maybe<Variant> {
    if k in m && m[k].ty == ty then Just(m[k]) else Nothing
  }

  /** What a client without a cache would be told, by the store alone: a key is writable unless it is locked; a user
      value is one that the user has set; a value is the user's or, if there is none, one from below; defaults are not
      this backend's business. */
  function Direct(st: Store, op: Op): Answer {
    match op
    case GetWritable(key) => WritableIs(key !in st.locked)
    case Read(key, ty, defaultOnly) =>
      if defaultOnly then ValueIs(Nothing)
      else if key in st.user then ValueIs(OfType(st.user, key, ty))
      else ValueIs(OfType(st.system, key, ty))
    case ReadUser(key, ty) => ValueIs(OfType(st.user, key, ty))
    case Write(_, _) => NoAnswer
    case Reset(_) => NoAnswer
    case WriteTree(_, _) => NoAnswer
  }

  /** Keys are always read and written with the type their schema gives them. */
  ghost predicate WellTyped(schema: string -> string, op: Op) {
    match op
    case Read(key, ty, _) => ty == schema(key)
    case ReadUser(key, ty) => ty == schema(key)
    case Write(key, v) => v.ty == schema(key)
    case WriteTree(prefix, items) =>
      forall i :: 0 <= i < |items| && items[i].1.Just? ==> items[i].1.value.ty == schema(prefix + items[i].0)
    case _ => true
  }

  /** Everything cached is what the store would say. */
  ghost predicate Coherent(schema: string -> string, c: Cache, st: Store) {
    forall k :: k in c ==>
      && (c[k].valueSet ==> c[k].value == Typed(Get(st.user, k), schema(k)))
      && (c[k].writableSet ==> c[k].writable == (k !in st.locked))
  }

  /** No value of the right type comes from below the user layer. */
  ghost predicate SingleLayer(schema: string -> string, st: Store) {
    forall k :: k in st.system ==> st.system[k].ty != schema(k)
  }

  lemma {:induction false} ItemsCohere(schema: string -> string, c: Cache, st: Store, prefix: string,
                                       items: seq<(string, Maybe<Variant>)>, n: nat)
    requires Coherent(schema, c, st) && n <= |items| && WellTyped(schema, WriteTree(prefix, items))
    ensures Coherent(schema, AfterItems(c, prefix, items, n), st.(user := StoreItems(st.user, prefix, items, n)))
    decreases n
  {
    if n > 0 {
      ItemsCohere(schema, c, st, prefix, items, n - 1);
    }
  }

  lemma StepCoheres(schema: string -> string, c: Cache, st: Store, op: Op)
    requires Coherent(schema, c, st) && WellTyped(schema, op) && SingleLayer(schema, st)
    ensures Coherent(schema, After(c, op, StoreReply(st, op)), StoreAfter(st, op))
    ensures SingleLayer(schema, StoreAfter(st, op))
    ensures AnswerTo(c, op, StoreReply(st, op)) == Direct(st, op)
  {
    if op.WriteTree? {
      ItemsCohere(schema, c, st, op.prefix, op.items, |op.items|);
    }
  }

  /** Along the run, every answer of the cached backend is the answer of the store itself. */
  ghost predicate Agrees(c: Cache, st: Store, ops: seq<Op>)
    decreases |ops|
  {
    ops == [] ||
    (&& AnswerTo(c, ops[0], StoreReply(st, ops[0])) == Direct(st, ops[0])
     && Agrees(After(c, ops[0], StoreReply(st, ops[0])), StoreAfter(st, ops[0]), ops[1..]))
  }

  ghost predicate AllWellTyped(schema: string -> string, ops: seq<Op>) {
    forall i :: 0 <= i < |ops| ==> WellTyped(schema, ops[i])
  }

  lemma {:induction false} CoherentRunAgrees(schema: string -> string, c: Cache, st: Store, ops: seq<Op>)
    requires Coherent(schema, c, st) && SingleLayer(schema, st) && AllWellTyped(schema, ops)
    ensures Agrees(c, st, ops)
    decreases |ops|
  {
    if ops != [] {
      StepCoheres(schema, c, st, ops[0]);
      CoherentRunAgrees(schema, After(c, ops[0], StoreReply(st, ops[0])), StoreAfter(st, ops[0]), ops[1..]);
    }
  }

  /** The cached backend answers like the store, over every run from an empty cache, if and only if no value comes
      from below the user layer.  Otherwise a plain read caches such a value, and read_user_value, which shares
      the cache slot, then passes it off as set by the user. */
  lemma AgreesIffSingleLayer(schema: string -> string, st: Store)
    ensures (forall ops :: AllWellTyped(schema, ops) ==> Agrees(map[], st, ops)) <==> SingleLayer(schema, st)
  {
    if SingleLayer(schema, st) {
      forall ops | AllWellTyped(schema, ops)
        ensures Agrees(map[], st, ops)
      {
        CoherentRunAgrees(schema, map[], st, ops);
      }
    } else {
      var k :| k in st.system && st.system[k].ty == schema(k);
      var ops := [Reset(k), Read(k, schema(k), false), ReadUser(k, schema(k))];
      assert AllWellTyped(schema, ops);
      LayeredRunDisagrees(schema, st, k, ops);
    }
  }

  lemma LayeredRunDisagrees(schema: string -> string, st: Store, k: string, ops: seq<Op>)
    requires k in st.system && st.system[k].ty == schema(k)
    requires ops == [Reset(k), Read(k, schema(k), false), ReadUser(k, schema(k))]
    ensures !Agrees(map[], st, ops)
  {
    var st1 := StoreAfter(st, ops[0]);
    var c1 := After(map[], ops[0], StoreReply(st, ops[0]));
    assert ops[1..] == [ops[1], ops[2]] && ops[1..][1..] == [ops[2]];
    var c2 := After(c1, ops[1], StoreReply(st1, ops[1]));
    assert Holds(c2, k, Just(st.system[k]));
    assert Direct(st1, ops[2]) == ValueIs(Nothing);
    assert !Agrees(c2, st1, [ops[2]]);
  }
}
