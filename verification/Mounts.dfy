/**
 The mounts of the static file handler: preparation and selection
 (src/pounce/_static.py:205-250, 411-456).
 */
module Mounts {
  import opened Wrappers
  import opened Text

  datatype Mount = Mount(url: string, directory: string, cacheControl: string, precompressed: bool,
                         statCache: bool, statCacheSize: int)

  function RStripSlash(s: string): string {
    if s != [] && s[|s| - 1] == '/' then RStripSlash(s[..|s| - 1]) else s
  }

  function NormalizeUrl(url: string): (r: string)
    ensures r != [] && r[0] == '/'
  {
    var u := RStripSlash(url);
    if StartsWith(u, "/") then u else "/" + u
  }

  lemma {:induction false} SlashesDropped(stem: string, n: nat)
    requires stem == "" || stem[|stem| - 1] != '/'
    ensures RStripSlash(stem + seq(n, _ => '/')) == stem
    decreases n
  {
    var s := stem + seq(n, _ => '/');
    if n == 0 {
      assert s == stem;
    } else {
      assert s[..|s| - 1] == stem + seq(n - 1, _ => '/');
      SlashesDropped(stem, n - 1);
    }
  }

  /** A prefix loses its final slashes and gains a first one if it has none. */
  lemma NormalizeExactly(stem: string, n: nat)
    requires stem == "" || stem[|stem| - 1] != '/'
    ensures NormalizeUrl(stem + seq(n, _ => '/')) == if stem != "" && stem[0] == '/' then stem else "/" + stem
  {
    SlashesDropped(stem, n);
    if stem != "" && stem[0] == '/' {
      assert stem[..1] == "/";
    }
  }

  predicate Matches(m: Mount, url: string) {
    if m.url == "/" then url == "/" || StartsWith(url, "/")
    else url == m.url || StartsWith(url, m.url + "/")
  }

  predicate LongestFirst(ms: seq<Mount>) {
    forall i, j :: 0 <= i <= j < |ms| ==> |ms[i].url| >= |ms[j].url|
  }

  function InsertMount(m: Mount, ms: seq<Mount>): (r: seq<Mount>)
    requires LongestFirst(ms)
    ensures LongestFirst(r) && forall x :: x in r <==> x in ms || x == m
  {
    if ms == [] || |m.url| >= |ms[0].url| then [m] + ms
    else
      assert forall x :: x in ms <==> x == ms[0] || x in ms[1..];
      var t := InsertMount(m, ms[1..]);
      assert forall x :: x in ms[1..] ==> |x.url| <= |ms[0].url|;
      assert forall x :: x in t ==> |x.url| <= |ms[0].url|;
      [ms[0]] + t
  }

  function Normalized(m: Mount): Mount {
    m.(url := NormalizeUrl(m.url))
  }

  /** `_prepare_mounts`: the mounts normalised, longest prefix first, configuration order among equals. */
  function PrepareMounts(ms: seq<Mount>): (r: seq<Mount>)
    ensures LongestFirst(r)
    ensures forall x :: x in r ==> x.url != [] && x.url[0] == '/'
    ensures forall x :: x in r <==> exists m :: m in ms && Normalized(m) == x
  {
    if ms == [] then []
    else
      assert forall m :: m in ms <==> m == ms[0] || m in ms[1..];
      InsertMount(Normalized(ms[0]), PrepareMounts(ms[1..]))
  }

  function NormalizeAll(ms: seq<Mount>): seq<Mount> {
    if ms == [] then [] else [Normalized(ms[0])] + NormalizeAll(ms[1..])
  }

  /** The mounts whose prefix has this length, in order. */
  function OfLength(ms: seq<Mount>, n: nat): seq<Mount> {
    if ms == [] then [] else (if |ms[0].url| == n then [ms[0]] else []) + OfLength(ms[1..], n)
  }

  /** The mounts with this prefix, in order. */
  function OfUrl(ms: seq<Mount>, url: string): seq<Mount> {
    if ms == [] then [] else (if ms[0].url == url then [ms[0]] else []) + OfUrl(ms[1..], url)
  }

  lemma OfLengthCons(m: Mount, ms: seq<Mount>, n: nat)
    ensures OfLength([m] + ms, n) == if |m.url| == n then [m] + OfLength(ms, n) else OfLength(ms, n)
  {
    assert ([m] + ms)[1..] == ms;
  }

  lemma {:induction false} InsertStable(m: Mount, ms: seq<Mount>, n: nat)
    requires LongestFirst(ms)
    ensures OfLength(InsertMount(m, ms), n) == OfLength([m] + ms, n)
  {
    if ms != [] && |m.url| < |ms[0].url| {
      var first, rest := ms[0], ms[1..];
      assert LongestFirst(rest);
      InsertStable(m, rest, n);
      assert ms == [first] + rest;
      OfLengthCons(m, ms, n);
      OfLengthCons(m, rest, n);
      OfLengthCons(first, rest, n);
      OfLengthCons(first, InsertMount(m, rest), n);
    }
  }

  /** Mounts of one length keep their configuration order, none lost and none added. */
  lemma {:induction false} PrepareStable(ms: seq<Mount>, n: nat)
    ensures OfLength(PrepareMounts(ms), n) == OfLength(NormalizeAll(ms), n)
  {
    if ms != [] {
      var first, prepared := Normalized(ms[0]), PrepareMounts(ms[1..]);
      PrepareStable(ms[1..], n);
      InsertStable(first, prepared, n);
      OfLengthCons(first, prepared, n);
      OfLengthCons(first, NormalizeAll(ms[1..]), n);
    }
  }

  lemma {:induction false} UrlWithinLength(ms: seq<Mount>, url: string)
    ensures OfUrl(OfLength(ms, |url|), url) == OfUrl(ms, url)
  {
    if ms != [] {
      UrlWithinLength(ms[1..], url);
      var t := OfLength(ms[1..], |url|);
      assert ([ms[0]] + t)[1..] == t && [] + t == t;
    }
  }

  /** The bound of the cache: the largest size a caching mount asks for, at least one; 0 when none caches. */
  function CacheBound(ms: seq<Mount>): (r: nat)
    ensures r > 0 <==> exists m :: m in ms && m.statCache
    ensures forall m :: m in ms && m.statCache ==> m.statCacheSize <= r
    ensures r > 1 ==> exists m :: m in ms && m.statCache && m.statCacheSize == r
  {
    if ms == [] then 0
    else
      assert forall m :: m in ms <==> m == ms[0] || m in ms[1..];
      var rest := CacheBound(ms[1..]);
      if !ms[0].statCache then rest
      else if ms[0].statCacheSize > rest then (if ms[0].statCacheSize > 1 then ms[0].statCacheSize else 1)
      else if rest == 0 then 1 else rest
  }

  function Select(ms: seq<Mount>, url: string): Option<Mount> {
    if ms == [] then None else if Matches(ms[0], url) then Some(ms[0]) else Select(ms[1..], url)
  }

  lemma {:induction false} SelectMatches(ms: seq<Mount>, url: string)
    ensures Select(ms, url).Some? ==> Matches(Select(ms, url).value, url)
  {
    if ms != [] && !Matches(ms[0], url) {
      SelectMatches(ms[1..], url);
    }
  }

  /** The mount that serves a path is a longest one that matches it; None exactly when none does. */
  lemma {:induction false} SelectIsLongest(ms: seq<Mount>, url: string)
    requires LongestFirst(ms)
    ensures Select(ms, url) == None <==> forall m :: m in ms ==> !Matches(m, url)
    ensures Select(ms, url).Some? ==>
              var s := Select(ms, url).value;
              s in ms && Matches(s, url) && forall m :: m in ms && Matches(m, url) ==> |m.url| <= |s.url|
  {
    if ms != [] {
      assert forall m :: m in ms <==> m == ms[0] || m in ms[1..];
      SelectIsLongest(ms[1..], url);
    }
  }

  /** Mounts of one length that match the same path have the same prefix, so the longest prefix is unique. */
  lemma LongestUnique(a: Mount, b: Mount, url: string)
    requires Matches(a, url) && Matches(b, url) && |a.url| == |b.url|
    requires a.url != [] && a.url[0] == '/' && b.url != [] && b.url[0] == '/'
    ensures a.url == b.url
  {
    if |a.url| == 1 {
      assert a.url == ['/'] && b.url == ['/'];
    } else {
      PrefixOf(a, url);
      PrefixOf(b, url);
    }
  }

  lemma PrefixOf(m: Mount, url: string)
    requires Matches(m, url) && m.url != "/"
    ensures StartsWith(url, m.url)
  {
    if url != m.url {
      assert url[..|m.url|] == url[..|m.url| + 1][..|m.url|] == (m.url + "/")[..|m.url|] == m.url;
    }
  }

  lemma {:induction false} SelectIsFirst(ms: seq<Mount>, url: string)
    requires Select(ms, url).Some?
    ensures var s := Select(ms, url).value; OfUrl(ms, s.url) != [] && OfUrl(ms, s.url)[0] == s
  {
    if !Matches(ms[0], url) {
      SelectMatches(ms[1..], url);
      SelectIsFirst(ms[1..], url);
    }
  }

  /** Of several mounts with the selected prefix, the one configured first serves the path. */
  lemma FirstConfiguredServes(ms: seq<Mount>, url: string)
    requires Select(PrepareMounts(ms), url).Some?
    ensures var s := Select(PrepareMounts(ms), url).value;
            OfUrl(NormalizeAll(ms), s.url) != [] && OfUrl(NormalizeAll(ms), s.url)[0] == s
  {
    var s := Select(PrepareMounts(ms), url).value;
    SelectIsFirst(PrepareMounts(ms), url);
    PrepareStable(ms, |s.url|);
    UrlWithinLength(PrepareMounts(ms), s.url);
    UrlWithinLength(NormalizeAll(ms), s.url);
  }

  function RelativePath(m: Mount, url: string): string
    requires Matches(m, url)
  {
    if m.url == "/" then (if url == "/" then "" else url[1..])
    else if url == m.url then "" else url[|m.url| + 1..]
  }

  /** The root mount serves what follows the first slash. */
  lemma BelowRoot(m: Mount, url: string)
    requires m.url == "/"
    ensures Matches(m, url) <==> exists rel :: url == "/" + rel
    ensures forall rel :: url == "/" + rel ==> Matches(m, url) && RelativePath(m, url) == rel
  {
    StartsWithExactly(url, "/");
    forall rel | url == "/" + rel ensures Matches(m, url) && RelativePath(m, url) == rel {
      assert url[..1] == "/" && url[1..] == rel;
    }
  }

  /** Any other mount serves its own path and what follows it after a slash; `/static` does not serve `/statics`. */
  lemma BelowMount(m: Mount, url: string)
    requires m.url != "/"
    ensures Matches(m, url) <==> url == m.url || exists rel :: url == m.url + "/" + rel
    ensures url == m.url ==> RelativePath(m, url) == ""
    ensures forall rel :: url == m.url + "/" + rel ==> Matches(m, url) && RelativePath(m, url) == rel
  {
    StartsWithExactly(url, m.url + "/");
    forall rel | url == m.url + "/" + rel ensures Matches(m, url) && RelativePath(m, url) == rel {
      assert url[..|m.url| + 1] == m.url + "/" && url[|m.url| + 1..] == rel;
    }
  }

  /** `_mount_caches`. */
  predicate MountCaches(ms: seq<Mount>, url: string) {
    var m := Select(ms, url);
    m.Some? && m.value.statCache
  }
}
