/**
 The opt-in metadata cache of the static file handler
 (src/pounce/_static.py:184-213, 358-627).

 A file system is a layout and the stat of each path.  The layout answers what
 the security-checked resolution finds for a path below a mount, whether that
 is a regular file, whether a precompressed sibling passes the same checks, and
 which encodings an Accept-Encoding value accepts, best first; how it does so
 is not modelled.  Whether a sibling exists and is fresh enough to be served is
 decided from the stats.
 */
module StatCache {
  import opened Wrappers
  import opened Lru
  import opened Mounts

  datatype Stat = Stat(mtime: int, size: nat)

  datatype Layout = Layout(
    locate: (Mount, string) -> Option<string>,
    regular: string -> bool,
    safe: (Mount, string) -> bool,
    accepted: string -> seq<string>)

  datatype FileSystem = FileSystem(layout: Layout, stat: string -> Option<Stat>)

  datatype Etag = Etag(mtime: int, size: nat, encoding: Option<string>)

  datatype StaticFile = StaticFile(path: string, size: nat, mtime: int, etag: Etag, encoding: Option<string>,
                                   cacheControl: string, vary: bool)

  // ----------------------------------------------------- uncached resolution

  function Suffix(encoding: string): Option<string> {
    if encoding == "zstd" then Some(".zst") else if encoding == "gzip" then Some(".gz") else None
  }

  /** A sibling that passes the checks, exists, and is not older than the original. */
  predicate Serveable(fs: FileSystem, m: Mount, variant: string, mtime: int) {
    fs.layout.safe(m, variant) && fs.stat(variant).Some? && fs.stat(variant).value.mtime >= mtime
  }

  /** The sibling for one encoding would be served instead of `path`. */
  predicate Preferred(fs: FileSystem, m: Mount, path: string, encoding: string, mtime: int) {
    Suffix(encoding).Some? && Serveable(fs, m, path + Suffix(encoding).value, mtime)
  }

  function FindVariant(fs: FileSystem, m: Mount, path: string, encodings: seq<string>, mtime: int)
    : Option<(string, string)>
  {
    if encodings == [] then None
    else if Preferred(fs, m, path, encodings[0], mtime)
    then Some((path + Suffix(encodings[0]).value, encodings[0]))
    else FindVariant(fs, m, path, encodings[1..], mtime)
  }

  /** `_find_precompressed`: the first acceptable sibling, if the mount and the request allow one. */
  function VariantFor(fs: FileSystem, m: Mount, path: string, accept: string, mtime: int): Option<(string, string)> {
    if m.precompressed && accept != "" then FindVariant(fs, m, path, fs.layout.accepted(accept), mtime) else None
  }

  lemma {:induction false} FindsNone(fs: FileSystem, m: Mount, path: string, encodings: seq<string>, mtime: int)
    ensures FindVariant(fs, m, path, encodings, mtime) == None <==>
            forall i :: 0 <= i < |encodings| ==> !Preferred(fs, m, path, encodings[i], mtime)
  {
    if encodings != [] {
      var rest := encodings[1..];
      FindsNone(fs, m, path, rest, mtime);
      assert forall i :: 0 < i < |encodings| ==> encodings[i] == rest[i - 1];
    }
  }

  function Identity(path: string, st: Stat, m: Mount): StaticFile {
    StaticFile(path, st.size, st.mtime, Etag(st.mtime, st.size, None), None, m.cacheControl, m.precompressed)
  }

  /** `_resolve_file_uncached` for a normalised path. */
  function Resolve(fs: FileSystem, ms: seq<Mount>, url: string, accept: string): Option<StaticFile> {
    match Select(ms, url)
    case None => None
    case Some(m) =>
      SelectMatches(ms, url);
      match fs.layout.locate(m, RelativePath(m, url))
      case None => None
      case Some(path) =>
        match fs.stat(path)
        case None => None
        case Some(st) =>
          if !fs.layout.regular(path) then None
          else
            match VariantFor(fs, m, path, accept, st.mtime)
            case None => Some(Identity(path, st, m))
            case Some((vpath, encoding)) =>
              match fs.stat(vpath)
              case None => None
              case Some(vst) =>
                Some(StaticFile(vpath, vst.size, st.mtime, Etag(vst.mtime, vst.size, Some(encoding)),
                                Some(encoding), m.cacheControl, m.precompressed))
  }

  // ------------------------------------------------------------------ cache

  type Key = (string, string)

  datatype Cache = Cache(entries: map<Key, StaticFile>, order: seq<Key>)

  const EMPTY := Cache(map[], [])

  function Pop(c: Cache, k: Key): Cache {
    Cache(c.entries - {k}, Keep(c.order, {k}))
  }

  function Put(c: Cache, k: Key, f: StaticFile): Cache {
    Cache(c.entries[k := f], Keep(c.order, {k}) + [k])
  }

  function Shrink(c: Cache, max: nat): (r: Cache)
    ensures |r.order| <= max
    decreases |c.order|
  {
    if |c.order| <= max then c else Shrink(Cache(c.entries - {c.order[0]}, c.order[1..]), max)
  }

  /** The revalidating `stat()` finds the mtime and size the entry was made with. */
  predicate Confirmed(fs: FileSystem, f: StaticFile) {
    fs.stat(f.path) == Some(Stat(f.mtime, f.size))
  }

  predicate Hits(fs: FileSystem, c: Cache, k: Key) {
    k in c.entries && Confirmed(fs, c.entries[k])
  }

  /** `_resolve_file` with the cache enabled. */
  function CachedResolve(fs: FileSystem, ms: seq<Mount>, max: nat, c: Cache, k: Key): (Option<StaticFile>, Cache) {
    if Hits(fs, c, k) then (Some(c.entries[k]), c.(order := Keep(c.order, {k}) + [k]))
    else
      var c1 := if k in c.entries then Pop(c, k) else c;
      var f := Resolve(fs, ms, k.0, k.1);
      (f, if f.Some? && f.value.encoding == None && MountCaches(ms, k.0) then Shrink(Put(c1, k, f.value), max) else c1)
  }

  ghost predicate CacheOk(c: Cache) {
    NoDup(c.order) && forall k :: k in c.order <==> k in c.entries
  }

  lemma {:induction false} ShrinkSubset(c: Cache, max: nat)
    requires CacheOk(c)
    ensures CacheOk(Shrink(c, max))
    ensures forall k :: k in Shrink(c, max).entries ==> k in c.entries && Shrink(c, max).entries[k] == c.entries[k]
    decreases |c.order|
  {
    if |c.order| > max {
      assert forall k :: k in c.order <==> k == c.order[0] || k in c.order[1..];
      ShrinkSubset(Cache(c.entries - {c.order[0]}, c.order[1..]), max);
    }
  }

  lemma {:induction false} ShrinkOrder(c: Cache, max: nat)
    ensures Shrink(c, max).order == c.order[if |c.order| > max then |c.order| - max else 0..]
    decreases |c.order|
  {
    if |c.order| > max {
      var rest := c.order[1..];
      ShrinkOrder(Cache(c.entries - {c.order[0]}, rest), max);
      TailOf(c.order, |c.order| - max);
    }
  }

  /** What does not fit goes from the front. */
  lemma ShrinkExactly(c: Cache, max: nat)
    requires CacheOk(c)
    ensures var n := if |c.order| > max then |c.order| - max else 0;
            && Shrink(c, max).order == c.order[n..]
            && (forall k :: k in Shrink(c, max).entries <==> k in c.entries && k !in c.order[..n])
  {
    var n := if |c.order| > max then |c.order| - max else 0;
    ShrinkOrder(c, max);
    ShrinkSubset(c, max);
    forall k ensures k in Shrink(c, max).entries <==> k in c.entries && k !in c.order[..n] {
      PartsApart(c.order, n, k);
      assert k in Shrink(c, max).order <==> k in Shrink(c, max).entries;
    }
  }

  /** The order without `k`, with `k` last, and without the oldest if that is one too many. */
  function Touched(order: seq<Key>, k: Key, max: nat): seq<Key> {
    var touched := Keep(order, {k}) + [k];
    if |touched| > max then touched[1..] else touched
  }

  lemma PutOrder(c: Cache, k: Key, f: StaticFile, max: nat)
    requires CacheOk(c) && k !in c.entries && |c.order| <= max && max > 0
    ensures var c' := Shrink(Put(c, k, f), max); c'.order == Touched(c.order, k, max) && k in c'.entries
  {
    KeepNoDup(c.order, {k});
    KeepAbsent(c.order, k);
    ShrinkOrder(Put(c, k, f), max);
    PutOk(c, k, f, max);
    var c' := Shrink(Put(c, k, f), max);
    assert c'.order[|c'.order| - 1] == k;
  }

  lemma PopOk(c: Cache, k: Key)
    requires CacheOk(c)
    ensures var c1 := if k in c.entries then Pop(c, k) else c;
            && CacheOk(c1) && k !in c1.entries && c1.order == Keep(c.order, {k}) && |c1.order| <= |c.order|
            && Keep(c1.order, {k}) == c1.order
  {
    KeepNoDup(c.order, {k});
    KeepAbsent(Keep(c.order, {k}), k);
    if k !in c.entries {
      KeepAbsent(c.order, k);
    }
  }

  /** A hit or a new entry becomes the most recent; the others keep their order, and the oldest makes room. */
  lemma TouchedIsLast(fs: FileSystem, ms: seq<Mount>, max: nat, c: Cache, k: Key)
    requires CacheOk(c) && |c.order| <= max && max > 0
    ensures var c' := CachedResolve(fs, ms, max, c, k).1;
            c'.order == if k in c'.entries then Touched(c.order, k, max) else Keep(c.order, {k})
  {
    if Hits(fs, c, k) {
      KeepShorter(c.order, k);
    } else {
      var c1 := if k in c.entries then Pop(c, k) else c;
      var f := Resolve(fs, ms, k.0, k.1);
      PopOk(c, k);
      if f.Some? && f.value.encoding == None && MountCaches(ms, k.0) {
        PutOrder(c1, k, f.value, max);
      }
    }
  }

  lemma PutOk(c: Cache, k: Key, f: StaticFile, max: nat)
    requires CacheOk(c)
    ensures var c' := Shrink(Put(c, k, f), max);
            && CacheOk(c')
            && forall j :: j in c'.entries ==>
                 (j in c.entries && c'.entries[j] == c.entries[j]) || (j == k && c'.entries[j] == f)
  {
    KeepNoDup(c.order, {k});
    assert CacheOk(Put(c, k, f));
    ShrinkSubset(Put(c, k, f), max);
  }

  /** Shape, bound, and where each remaining entry comes from. */
  lemma CachedStep(fs: FileSystem, ms: seq<Mount>, max: nat, c: Cache, k: Key)
    requires CacheOk(c) && |c.order| <= max
    ensures var (f, c') := CachedResolve(fs, ms, max, c, k);
            && CacheOk(c') && |c'.order| <= max
            && forall j :: j in c'.entries ==>
                 || (j in c.entries && c'.entries[j] == c.entries[j])
                 || (j == k && f == Some(c'.entries[j]) && f == Resolve(fs, ms, k.0, k.1) && f.value.encoding == None)
  {
    KeepNoDup(c.order, {k});
    if Hits(fs, c, k) {
      KeepShorter(c.order, k);
    } else {
      var c1 := if k in c.entries then Pop(c, k) else c;
      assert CacheOk(c1);
      var f := Resolve(fs, ms, k.0, k.1);
      if f.Some? && f.value.encoding == None && MountCaches(ms, k.0) {
        PutOk(c1, k, f.value, max);
      }
    }
  }

  // ------------------------------------------------------------------- runs

  /** A request, with the file system as it is at that moment. */
  datatype Request = Request(fs: FileSystem, key: Key)

  function Run(ms: seq<Mount>, max: nat, c: Cache, rs: seq<Request>): (seq<Option<StaticFile>>, Cache)
    decreases rs
  {
    if rs == [] then ([], c)
    else
      var (f, c') := CachedResolve(rs[0].fs, ms, max, c, rs[0].key);
      var (fs, c'') := Run(ms, max, c', rs[1..]);
      ([f] + fs, c'')
  }

  function Uncached(ms: seq<Mount>, rs: seq<Request>): seq<Option<StaticFile>>
    decreases rs
  {
    if rs == [] then [] else [Resolve(rs[0].fs, ms, rs[0].key.0, rs[0].key.1)] + Uncached(ms, rs[1..])
  }

  /** An identity entry whose tag is the one of its own mtime and size. */
  predicate SelfTagged(f: StaticFile) {
    f.encoding == None ==> f.etag == Etag(f.mtime, f.size, None)
  }

  predicate Current(fs: FileSystem, f: Option<StaticFile>) {
    f.Some? && f.value.encoding == None ==>
      && fs.stat(f.value.path) == Some(Stat(f.value.mtime, f.value.size))
      && f.value.etag == Etag(f.value.mtime, f.value.size, None)
  }

  lemma ResolveCurrent(fs: FileSystem, ms: seq<Mount>, url: string, accept: string)
    ensures Current(fs, Resolve(fs, ms, url, accept))
    ensures Resolve(fs, ms, url, accept).Some? ==> SelfTagged(Resolve(fs, ms, url, accept).value)
  {}

  /**
   Whatever happens to the files between requests, layout included: every
   identity result carries the file's current mtime and size, and the tag made
   from them; and the cache never exceeds its bound.
   */
  lemma {:induction false} AlwaysCurrent(ms: seq<Mount>, max: nat, c: Cache, rs: seq<Request>)
    requires CacheOk(c) && |c.order| <= max
    requires forall k :: k in c.entries ==> SelfTagged(c.entries[k])
    ensures var (fs, c') := Run(ms, max, c, rs);
            && |fs| == |rs| && (forall i :: 0 <= i < |rs| ==> Current(rs[i].fs, fs[i]))
            && CacheOk(c') && |c'.order| <= max
    decreases rs
  {
    if rs != [] {
      var fs, k := rs[0].fs, rs[0].key;
      CachedStep(fs, ms, max, c, k);
      ResolveCurrent(fs, ms, k.0, k.1);
      AlwaysCurrent(ms, max, CachedResolve(fs, ms, max, c, k).1, rs[1..]);
    }
  }

  // ------------------------------------------------------------ transparency

  /** `f` is what a request for `k` puts in the cache. */
  predicate Stored(fs: FileSystem, ms: seq<Mount>, k: Key, f: StaticFile) {
    Resolve(fs, ms, k.0, k.1) == Some(f) && f.encoding == None && MountCaches(ms, k.0)
  }

  /** If the revalidating stat confirms the entry, a fresh resolution gives it too. */
  predicate Stands(fs: FileSystem, ms: seq<Mount>, k: Key, f: StaticFile) {
    Confirmed(fs, f) ==> Resolve(fs, ms, k.0, k.1) == Some(f)
  }

  /** What is cached at one moment can be trusted at another. */
  ghost predicate Steady(ms: seq<Mount>, then': FileSystem, now: FileSystem) {
    forall k, f :: Stored(then', ms, k, f) ==> Stands(now, ms, k, f)
  }

  ghost predicate AllSteady(ms: seq<Mount>, rs: seq<Request>) {
    forall i, j :: 0 <= i < j < |rs| ==> Steady(ms, rs[i].fs, rs[j].fs)
  }

  lemma {:induction false} SteadyRuns(ms: seq<Mount>, max: nat, c: Cache, rs: seq<Request>)
    requires CacheOk(c) && |c.order| <= max && AllSteady(ms, rs)
    requires forall k, i :: k in c.entries && 0 <= i < |rs| ==> Stands(rs[i].fs, ms, k, c.entries[k])
    ensures Run(ms, max, c, rs).0 == Uncached(ms, rs)
    decreases rs
  {
    if rs != [] {
      var fs, k, rest := rs[0].fs, rs[0].key, rs[1..];
      CachedStep(fs, ms, max, c, k);
      var (f, c') := CachedResolve(fs, ms, max, c, k);
      forall j, i | j in c'.entries && 0 <= i < |rest| ensures Stands(rest[i].fs, ms, j, c'.entries[j]) {
        assert rest[i] == rs[i + 1];
        if !(j in c.entries && c'.entries[j] == c.entries[j]) {
          StoredOnMiss(fs, ms, max, c, k, j);
          assert Steady(ms, fs, rs[i + 1].fs);
        }
      }
      assert forall i :: 0 <= i < |rest| ==> rest[i] == rs[i + 1];
      SteadyRuns(ms, max, c', rest);
      assert k in c.entries ==> Stands(rs[0].fs, ms, k, c.entries[k]);
    }
  }

  /** A new entry is what the request just resolved. */
  lemma StoredOnMiss(fs: FileSystem, ms: seq<Mount>, max: nat, c: Cache, k: Key, j: Key)
    requires CacheOk(c) && |c.order| <= max
    requires var c' := CachedResolve(fs, ms, max, c, k).1;
             j in c'.entries && !(j in c.entries && c'.entries[j] == c.entries[j])
    ensures j == k && Stored(fs, ms, k, CachedResolve(fs, ms, max, c, k).1.entries[j])
  {
    CachedStep(fs, ms, max, c, k);
  }

  /** The same paths resolve to the same regular files; siblings and stats may differ. */
  ghost predicate SameTree(a: Layout, b: Layout) {
    a.locate == b.locate && a.regular == b.regular
  }

  /** Some sibling of the file would be served instead of it. */
  predicate SiblingPreferred(fs: FileSystem, m: Mount, path: string, accept: string, mtime: int) {
    && m.precompressed && accept != ""
    && var es := fs.layout.accepted(accept);
    && exists i :: 0 <= i < |es| && Preferred(fs, m, path, es[i], mtime)
  }

  lemma VariantExactly(fs: FileSystem, m: Mount, path: string, accept: string, mtime: int)
    ensures VariantFor(fs, m, path, accept, mtime) != None <==> SiblingPreferred(fs, m, path, accept, mtime)
  {
    FindsNone(fs, m, path, fs.layout.accepted(accept), mtime);
  }

  /** Nothing is served for a path that no mount matches, that resolves to nothing, or to no regular file. */
  lemma ResolvesNothing(fs: FileSystem, ms: seq<Mount>, url: string, accept: string)
    ensures Select(ms, url) == None ==> Resolve(fs, ms, url, accept) == None
    ensures Select(ms, url).Some? ==>
              && Matches(Select(ms, url).value, url)
              && var path := fs.layout.locate(Select(ms, url).value, RelativePath(Select(ms, url).value, url));
              (path == None || fs.stat(path.value) == None || !fs.layout.regular(path.value) ==>
                 Resolve(fs, ms, url, accept) == None)
  {
    SelectMatches(ms, url);
  }

  /** The file a path leads to, as the selected mount finds it. */
  ghost predicate LeadsTo(fs: FileSystem, ms: seq<Mount>, url: string, m: Mount, path: string, st: Stat) {
    && Select(ms, url) == Some(m) && Matches(m, url)
    && fs.layout.locate(m, RelativePath(m, url)) == Some(path)
    && fs.stat(path) == Some(st) && fs.layout.regular(path)
  }

  /** Without a preferable sibling the file itself is served, tagged by its own mtime and size. */
  lemma ResolvesFile(fs: FileSystem, ms: seq<Mount>, url: string, accept: string, m: Mount, path: string, st: Stat)
    requires LeadsTo(fs, ms, url, m, path, st) && !SiblingPreferred(fs, m, path, accept, st.mtime)
    ensures Resolve(fs, ms, url, accept) ==
            Some(StaticFile(path, st.size, st.mtime, Etag(st.mtime, st.size, None), None, m.cacheControl, m.precompressed))
  {
    VariantExactly(fs, m, path, accept, st.mtime);
  }

  lemma {:induction false} FindsFirst(fs: FileSystem, m: Mount, path: string, encodings: seq<string>, mtime: int, i: nat)
    requires i < |encodings| && Preferred(fs, m, path, encodings[i], mtime)
    requires forall j :: 0 <= j < i ==> !Preferred(fs, m, path, encodings[j], mtime)
    ensures FindVariant(fs, m, path, encodings, mtime) == Some((path + Suffix(encodings[i]).value, encodings[i]))
    decreases i
  {
    if i > 0 {
      var rest := encodings[1..];
      assert forall j :: 0 <= j < i - 1 ==> rest[j] == encodings[j + 1];
      FindsFirst(fs, m, path, rest, mtime, i - 1);
    }
  }

  /** Otherwise the first sibling in the order the client prefers, with its own size and tag and the file's mtime. */
  lemma ResolvesSibling(fs: FileSystem, ms: seq<Mount>, url: string, accept: string, m: Mount, path: string, st: Stat, i: nat)
    requires LeadsTo(fs, ms, url, m, path, st) && m.precompressed && accept != "" && i < |fs.layout.accepted(accept)|
    requires Preferred(fs, m, path, fs.layout.accepted(accept)[i], st.mtime)
    requires forall j :: 0 <= j < i ==> !Preferred(fs, m, path, fs.layout.accepted(accept)[j], st.mtime)
    ensures var e := fs.layout.accepted(accept)[i];
            && (e == "gzip" || e == "zstd")
            && var sibling := path + (if e == "gzip" then ".gz" else ".zst");
            && fs.stat(sibling).Some?
            && var vst := fs.stat(sibling).value;
            && vst.mtime >= st.mtime
            && Resolve(fs, ms, url, accept) ==
               Some(StaticFile(sibling, vst.size, st.mtime, Etag(vst.mtime, vst.size, Some(e)), Some(e), m.cacheControl, true))
  {
    FindsFirst(fs, m, path, fs.layout.accepted(accept), st.mtime, i);
  }

  /** A confirmed entry is still right exactly if no sibling has become preferable to the file it describes. */
  lemma HitAgreesExactly(then': FileSystem, now: FileSystem, ms: seq<Mount>, k: Key, f: StaticFile)
    requires Stored(then', ms, k, f) && SameTree(then'.layout, now.layout) && Confirmed(now, f)
    ensures Resolve(now, ms, k.0, k.1) == Some(f) <==>
            !SiblingPreferred(now, Select(ms, k.0).value, f.path, k.1, f.mtime)
  {
    VariantExactly(now, Select(ms, k.0).value, f.path, k.1, f.mtime);
  }

  /** The names siblings have. */
  predicate CompressedName(path: string) {
    || (|path| >= 3 && path[|path| - 3..] == ".gz")
    || (|path| >= 4 && path[|path| - 4..] == ".zst")
  }

  lemma SiblingNames(path: string, encoding: string)
    requires Suffix(encoding).Some?
    ensures CompressedName(path + Suffix(encoding).value)
  {
    var v := path + Suffix(encoding).value;
    assert v[|path|..] == Suffix(encoding).value;
  }

  /** Compressed files are left alone; any other file may be rewritten, touched or deleted. */
  ghost predicate SameSiblings(a: FileSystem, b: FileSystem) {
    a.layout == b.layout && forall path :: CompressedName(path) ==> a.stat(path) == b.stat(path)
  }

  lemma SameSiblingsSteady(ms: seq<Mount>, a: FileSystem, b: FileSystem)
    requires SameSiblings(a, b)
    ensures Steady(ms, a, b)
  {
    forall k, f | Stored(a, ms, k, f) ensures Stands(b, ms, k, f) {
      if Confirmed(b, f) {
        var m := Select(ms, k.0).value;
        HitAgreesExactly(a, a, ms, k, f);
        HitAgreesExactly(a, b, ms, k, f);
        forall e | Preferred(b, m, f.path, e, f.mtime) ensures Preferred(a, m, f.path, e, f.mtime) {
          SiblingNames(f.path, e);
        }
      }
    }
  }

  /** As long as the layout and the compressed files stay as they are, the cache cannot be noticed. */
  lemma CacheTransparent(ms: seq<Mount>, max: nat, rs: seq<Request>)
    requires forall i, j :: 0 <= i < j < |rs| ==> SameSiblings(rs[i].fs, rs[j].fs)
    ensures Run(ms, max, EMPTY, rs).0 == Uncached(ms, rs)
  {
    forall i, j | 0 <= i < j < |rs| ensures Steady(ms, rs[i].fs, rs[j].fs) {
      SameSiblingsSteady(ms, rs[i].fs, rs[j].fs);
    }
    SteadyRuns(ms, max, EMPTY, rs);
  }

  // ------------------------------------------- and when exactly it is lost

  /** A path that is cached although a sibling of its file could be served one day. */
  predicate MayCompress(layout: Layout, ms: seq<Mount>, k: Key, i: nat) {
    SelectMatches(ms, k.0);
    && MountCaches(ms, k.0) && k.1 != ""
    && var m := Select(ms, k.0).value;
    && m.precompressed
    && var path := layout.locate(m, RelativePath(m, k.0));
    && path.Some? && layout.regular(path.value)
    && i < |layout.accepted(k.1)|
    && var s := Suffix(layout.accepted(k.1)[i]);
    && s.Some? && layout.safe(m, path.value + s.value)
  }

  /** Two requests: the second finds the file unchanged and answers from the cache. */
  lemma SecondHits(ms: seq<Mount>, max: nat, k: Key, a: FileSystem, b: FileSystem, f: StaticFile)
    requires max > 0 && Stored(a, ms, k, f) && Confirmed(b, f)
    ensures var rs := [Request(a, k), Request(b, k)];
            Run(ms, max, EMPTY, rs).0 == [Some(f), Some(f)] && Uncached(ms, rs) == [Some(f), Resolve(b, ms, k.0, k.1)]
  {
    var rs, second := [Request(a, k), Request(b, k)], [Request(b, k)];
    var c := CachedResolve(a, ms, max, EMPTY, k).1;
    assert c.entries == map[k := f];
    assert rs[1..] == second && second[1..] == [];
    assert Run(ms, max, c, second).0 == [Some(f)] + [];
    assert Uncached(ms, second) == [Resolve(b, ms, k.0, k.1)] + [];
  }

  /** The file alone, and the file with its sibling. */
  function Site(layout: Layout, path: string, sibling: Option<string>): FileSystem {
    FileSystem(layout, p => if p == path || Some(p) == sibling then Some(Stat(1, 1)) else None)
  }

  /** A sibling that appears later is not noticed while the entry lives. */
  lemma NewVariantUnseen(layout: Layout, ms: seq<Mount>, max: nat, k: Key, i: nat) returns (rs: seq<Request>)
    requires max > 0 && MayCompress(layout, ms, k, i)
    ensures forall j :: 0 <= j < |rs| ==> rs[j].fs.layout == layout
    ensures Run(ms, max, EMPTY, rs).0 != Uncached(ms, rs)
  {
    SelectMatches(ms, k.0);
    var m := Select(ms, k.0).value;
    var path := layout.locate(m, RelativePath(m, k.0)).value;
    var es := layout.accepted(k.1);
    var v := path + Suffix(es[i]).value;
    var a, b := Site(layout, path, None), Site(layout, path, Some(v));
    var f := Identity(path, Stat(1, 1), m);
    VariantExactly(a, m, path, k.1, 1);
    assert Stored(a, ms, k, f);
    assert Preferred(b, m, path, es[i], 1);
    HitAgreesExactly(a, b, ms, k, f);
    SecondHits(ms, max, k, a, b, f);
    rs := [Request(a, k), Request(b, k)];
    assert Run(ms, max, EMPTY, rs).0[1] != Uncached(ms, rs)[1];
  }

  lemma NoSiblingsSteady(ms: seq<Mount>, a: FileSystem, b: FileSystem)
    requires SameTree(a.layout, b.layout)
    requires forall k, f :: Stored(a, ms, k, f) ==> !SiblingPreferred(b, Select(ms, k.0).value, f.path, k.1, f.mtime)
    ensures Steady(ms, a, b)
  {
    forall k, f | Stored(a, ms, k, f) && Confirmed(b, f) ensures Stands(b, ms, k, f) {
      HitAgreesExactly(a, b, ms, k, f);
    }
  }

  /** On one layout, whatever happens to the files, siblings included, cached and uncached answers agree. */
  ghost predicate TransparentOn(layout: Layout, ms: seq<Mount>, max: nat) {
    forall rs: seq<Request> :: (forall j :: 0 <= j < |rs| ==> rs[j].fs.layout == layout) ==>
      Run(ms, max, EMPTY, rs).0 == Uncached(ms, rs)
  }

  /** The cache is unnoticeable on a layout exactly if no cached path there has a sibling that could be served. */
  lemma LayoutTransparentExactly(layout: Layout, ms: seq<Mount>, max: nat)
    requires max > 0
    ensures TransparentOn(layout, ms, max) <==> forall k, i :: !MayCompress(layout, ms, k, i)
  {
    if k, i :| MayCompress(layout, ms, k, i) {
      var rs := NewVariantUnseen(layout, ms, max, k, i);
    } else {
      forall rs: seq<Request> | forall j :: 0 <= j < |rs| ==> rs[j].fs.layout == layout
        ensures Run(ms, max, EMPTY, rs).0 == Uncached(ms, rs)
      {
        forall i, j | 0 <= i < j < |rs| ensures Steady(ms, rs[i].fs, rs[j].fs) {
          NeverCompressed(layout, ms, rs[i].fs, rs[j].fs);
        }
        SteadyRuns(ms, max, EMPTY, rs);
      }
    }
  }

  lemma NeverCompressed(layout: Layout, ms: seq<Mount>, a: FileSystem, b: FileSystem)
    requires a.layout == b.layout == layout && forall k, i :: !MayCompress(layout, ms, k, i)
    ensures Steady(ms, a, b)
  {
    forall k, f | Stored(a, ms, k, f)
      ensures !SiblingPreferred(b, Select(ms, k.0).value, f.path, k.1, f.mtime)
    {
      var m, es := Select(ms, k.0).value, layout.accepted(k.1);
      if i :| m.precompressed && k.1 != "" && 0 <= i < |es| && Preferred(b, m, f.path, es[i], f.mtime) {
        assert MayCompress(layout, ms, k, i);
      }
    }
    NoSiblingsSteady(ms, a, b);
  }

  /** The file systems of a run resolve paths alike; their siblings and stats are free. */
  ghost predicate OneTree(rs: seq<Request>) {
    forall i, j :: 0 <= i < j < |rs| ==> SameTree(rs[i].fs.layout, rs[j].fs.layout)
  }

  ghost predicate Transparent(ms: seq<Mount>, max: nat) {
    forall rs :: OneTree(rs) ==> Run(ms, max, EMPTY, rs).0 == Uncached(ms, rs)
  }

  /** Whatever the site and its changes, the cache is unnoticeable exactly if no mount both caches and serves siblings. */
  lemma CacheTransparentExactly(ms: seq<Mount>, max: nat)
    requires max > 0
    ensures Transparent(ms, max) <==> forall url :: MountCaches(ms, url) ==> !Select(ms, url).value.precompressed
  {
    if url :| MountCaches(ms, url) && Select(ms, url).value.precompressed {
      var layout := Layout((m, rel) => Some("page"), path => true, (m, path) => true, accept => ["gzip"]);
      assert MayCompress(layout, ms, (url, "gzip"), 0);
      var rs := NewVariantUnseen(layout, ms, max, (url, "gzip"), 0);
      assert OneTree(rs);
    } else {
      forall rs: seq<Request> | OneTree(rs) ensures Run(ms, max, EMPTY, rs).0 == Uncached(ms, rs) {
        forall i, j | 0 <= i < j < |rs| ensures Steady(ms, rs[i].fs, rs[j].fs) {
          NoSiblingsSteady(ms, rs[i].fs, rs[j].fs);
        }
        SteadyRuns(ms, max, EMPTY, rs);
      }
    }
  }

  /** The handler: mounts prepared once, cache entries moved, dropped and evicted in place. */
  class StaticFiles {
    const mounts: seq<Mount>
    const cacheMax: nat
    const normpath: string -> string
    var entries: map<Key, StaticFile>
    var order: seq<Key>

    function Model(): Cache
      reads this
    {
      Cache(entries, order)
    }

    /** `normpath` is the platform's path normalisation. */
    constructor (mounts: seq<Mount>, normpath: string -> string)
      ensures this.mounts == PrepareMounts(mounts) && cacheMax == CacheBound(this.mounts)
      ensures this.normpath == normpath && Model() == EMPTY && CacheOk(Model())
    {
      var prepared := PrepareMounts(mounts);
      this.mounts, cacheMax, this.normpath := prepared, CacheBound(prepared), normpath;
      entries, order := map[], [];
    }

    /** A missing Accept-Encoding header counts as an empty one. */
    function KeyFor(url: string, accept: Option<string>): Key {
      (normpath(url), if accept.Some? then accept.value else "")
    }

    method ResolveFile(fs: FileSystem, url: string, accept: Option<string>) returns (f: Option<StaticFile>)
      requires CacheOk(Model()) && |order| <= cacheMax
      modifies this
      ensures CacheOk(Model()) && |order| <= cacheMax
      ensures var header := if accept.Some? then accept.value else "";
              && (cacheMax == 0 ==> f == Resolve(fs, mounts, normpath(url), header) && Model() == old(Model()))
              && (cacheMax > 0 ==>
                    (f, Model()) == CachedResolve(fs, mounts, cacheMax, old(Model()), (normpath(url), header)))
      ensures old(forall k :: k in entries ==> SelfTagged(entries[k])) ==> Current(fs, f)
    {
      var key := KeyFor(url, accept);
      ResolveCurrent(fs, mounts, key.0, key.1);
      if cacheMax == 0 {
        return Resolve(fs, mounts, key.0, key.1);
      }
      CachedStep(fs, mounts, cacheMax, Model(), key);
      if key in entries {
        var cached := entries[key];
        var st := fs.stat(cached.path);
        if st.Some? && st.value.mtime == cached.mtime && st.value.size == cached.size {
          order := Keep(order, {key}) + [key];
          return Some(cached);
        }
        entries := entries - {key};
        order := Keep(order, {key});
      }
      f := Resolve(fs, mounts, key.0, key.1);
      if f.Some? && f.value.encoding == None && MountCaches(mounts, key.0) {
        entries := entries[key := f.value];
        order := Keep(order, {key}) + [key];
        ghost var c := Model();
        while |order| > cacheMax
          invariant Shrink(Model(), cacheMax) == Shrink(c, cacheMax)
          decreases |order|
        {
          entries := entries - {order[0]};
          order := order[1..];
        }
      }
    }
  }
}
