/** Proxy headers from a trusted peer (src/pounce/_proxy.py). */
module Proxy {
  import opened Wrappers
  import opened Text
  import FastH1

  type Header = (string, string)

  // -------------------------------------------------------- forwarded chain

  function DropBreaks(s: string): string {
    if s == [] then ""
    else if s[0] == '\r' || s[0] == '\n' then DropBreaks(s[1..])
    else [s[0]] + DropBreaks(s[1..])
  }

  /** One comma-separated entry, stripped and without line breaks. */
  function Clean(part: string): string {
    DropBreaks(Strip(part, false))
  }

  lemma {:induction false} BreaksDropped(s: string, t: string)
    ensures DropBreaks(s + t) == DropBreaks(s) + DropBreaks(t)
  {
    if s == [] {
      assert s + t == t;
    } else {
      assert (s + t)[1..] == s[1..] + t;
      BreaksDropped(s[1..], t);
    }
  }

  lemma {:induction false} NoBreaksLeft(s: string)
    ensures '\r' !in DropBreaks(s) && '\n' !in DropBreaks(s)
  {
    if s != [] {
      NoBreaksLeft(s[1..]);
    }
  }

  lemma {:induction false} NothingDropped(s: string)
    requires '\r' !in s && '\n' !in s
    ensures DropBreaks(s) == s
  {
    if s != [] {
      NothingDropped(s[1..]);
      assert s == [s[0]] + s[1..];
    }
  }

  /** An entry loses the blanks around it; without line breaks inside, nothing else. */
  lemma PlainEntry(left: string, entry: string, right: string)
    requires Blank(left, false) && Blank(right, false) && Tight(entry, false)
    requires '\r' !in entry && '\n' !in entry
    ensures Clean(left + entry + right) == entry
  {
    StripDrops(left, entry, right, false);
    NothingDropped(entry);
  }

  /** The non-empty entries among the parts, in order. */
  function Entries(parts: seq<string>): seq<string> {
    if parts == [] then []
    else (if Clean(parts[0]) != "" then [Clean(parts[0])] else []) + Entries(parts[1..])
  }

  function Hops(trustedHops: int): nat {
    if trustedHops < 1 then 1 else trustedHops
  }

  /** `_select_forwarded_for`. */
  function SelectForwardedFor(chain: string, trustedHops: int): string {
    var parts := Entries(Split(chain, ','));
    if parts == [] then ""
    else if Hops(trustedHops) >= |parts| then parts[0]
    else parts[|parts| - Hops(trustedHops)]
  }

  lemma {:induction false} EntriesConcat(a: seq<string>, b: seq<string>)
    ensures Entries(a + b) == Entries(a) + Entries(b)
  {
    if a == [] {
      assert a + b == b;
    } else {
      assert (a + b)[1..] == a[1..] + b;
      EntriesConcat(a[1..], b);
    }
  }

  /** What the trusted proxies make of a chain: each appends the peer it saw. */
  function AppendHops(chain: string, peers: seq<string>): string
    decreases peers
  {
    if peers == [] then chain else AppendHops(chain + "," + peers[0], peers[1..])
  }

  predicate Appendable(peers: seq<string>) {
    forall i :: 0 <= i < |peers| ==> ',' !in peers[i] && Clean(peers[i]) != ""
  }

  function CleanAll(peers: seq<string>): (r: seq<string>)
    ensures |r| == |peers|
    ensures peers != [] ==> r[0] == Clean(peers[0])
  {
    if peers == [] then [] else [Clean(peers[0])] + CleanAll(peers[1..])
  }

  lemma OneHop(chain: string, p: string)
    requires ',' !in p && Clean(p) != ""
    ensures Entries(Split(chain + "," + p, ',')) == Entries(Split(chain, ',')) + [Clean(p)]
  {
    SplitConcat(chain, ',', p);
    assert chain + [','] + p == chain + "," + p;
    SplitWhole(p, ',');
    EntriesConcat(Split(chain, ','), [p]);
    assert Entries([p]) == [Clean(p)] + Entries([p][1..]) && [p][1..] == [];
  }

  lemma {:induction false} AppendedEntries(chain: string, peers: seq<string>)
    requires Appendable(peers)
    ensures Entries(Split(AppendHops(chain, peers), ',')) == Entries(Split(chain, ',')) + CleanAll(peers)
    decreases peers
  {
    if peers != [] {
      var p, rest, mine := peers[0], peers[1..], Entries(Split(chain, ','));
      OneHop(chain, p);
      assert Appendable(rest);
      AppendedEntries(chain + "," + p, rest);
      assert mine + [Clean(p)] + CleanAll(rest) == mine + ([Clean(p)] + CleanAll(rest));
    }
  }

  /**
   Whatever a client puts in the header, if the trusted hops append exactly as
   many non-empty entries as are trusted, the first of those is selected.
   */
  lemma ForwardedChainStable(prefix: string, peers: seq<string>, trustedHops: int)
    requires |peers| == (if trustedHops > 1 then trustedHops else 1) && Appendable(peers)
    ensures SelectForwardedFor(AppendHops(prefix, peers), trustedHops) == Clean(peers[0])
  {
    AppendedEntries(prefix, peers);
    var mine, all := Entries(Split(prefix, ',')), Entries(Split(AppendHops(prefix, peers), ','));
    assert all[|mine|] == CleanAll(peers)[0];
  }

  /** The entry the client address is taken from when enough hops have appended one. */
  lemma EnoughHops(prefix: string, peers: seq<string>, trustedHops: int)
    requires Appendable(peers) && |peers| >= 1 && |peers| >= trustedHops
    ensures SelectForwardedFor(AppendHops(prefix, peers), trustedHops) ==
            Clean(peers[|peers| - (if trustedHops > 1 then trustedHops else 1)])
  {
    AppendedEntries(prefix, peers);
    var mine, all := Entries(Split(prefix, ',')), Entries(Split(AppendHops(prefix, peers), ','));
    var k := |peers| - Hops(trustedHops);
    assert all[|mine| + k] == CleanAll(peers)[k];
    CleanAllAt(peers, k);
  }

  lemma {:induction false} CleanAllAt(peers: seq<string>, k: nat)
    requires k < |peers|
    ensures CleanAll(peers)[k] == Clean(peers[k])
  {
    if k > 0 {
      CleanAllAt(peers[1..], k - 1);
    }
  }

  /** With fewer appended entries than trusted hops, the client's own first entry is selected. */
  lemma TooFewHops(mine: string, peers: seq<string>, trustedHops: int)
    requires Appendable(peers) && |peers| < Hops(trustedHops) && ',' !in mine && Clean(mine) != ""
    ensures SelectForwardedFor(AppendHops(mine, peers), trustedHops) == Clean(mine)
  {
    AppendedEntries(mine, peers);
    SplitWhole(mine, ',');
    assert [mine][1..] == [];
    assert Entries([mine]) == [Clean(mine)] + Entries([]);
  }

  lemma LetterSelected(c: char, peers: seq<string>, trustedHops: int)
    requires Appendable(peers) && |peers| < Hops(trustedHops) && 'a' <= c <= 'z'
    ensures SelectForwardedFor(AppendHops([c], peers), trustedHops) == [c]
  {
    assert Strip([c], false) == [c] && DropBreaks([c]) == [c];
    TooFewHops([c], peers, trustedHops);
  }

  /** What the client sends cannot matter exactly if at least as many hops append an entry as are trusted. */
  lemma ClientCannotChooseExactly(peers: seq<string>, trustedHops: int)
    requires Appendable(peers)
    ensures (forall a, b :: SelectForwardedFor(AppendHops(a, peers), trustedHops) ==
                            SelectForwardedFor(AppendHops(b, peers), trustedHops)) <==>
            |peers| >= Hops(trustedHops)
  {
    if |peers| >= Hops(trustedHops) {
      forall a, b ensures SelectForwardedFor(AppendHops(a, peers), trustedHops) ==
                          SelectForwardedFor(AppendHops(b, peers), trustedHops) {
        EnoughHops(a, peers, trustedHops);
        EnoughHops(b, peers, trustedHops);
      }
    } else {
      LetterSelected('a', peers, trustedHops);
      LetterSelected('b', peers, trustedHops);
      assert ['a'] != ['b'];
    }
  }

  /** A chain with no more entries than trusted hops yields its leftmost entry. */
  lemma ShortChainLeftmost(chain: string, trustedHops: int)
    ensures var parts := Entries(Split(chain, ','));
            0 < |parts| <= Hops(trustedHops) ==> SelectForwardedFor(chain, trustedHops) == parts[0]
    ensures Entries(Split(chain, ',')) == [] <==> SelectForwardedFor(chain, trustedHops) == ""
  {
    EntriesNonEmpty(Split(chain, ','));
  }

  lemma {:induction false} EntriesNonEmpty(parts: seq<string>)
    ensures forall i :: 0 <= i < |Entries(parts)| ==> Entries(parts)[i] != ""
  {
    if parts != [] {
      EntriesNonEmpty(parts[1..]);
    }
  }

  // --------------------------------------------------------------- headers

  function Others(headers: seq<Header>, name: string): seq<Header> {
    if headers == [] then []
    else
      var n := |headers| - 1;
      Others(headers[..n], name) + (if headers[n].0 == name then [] else [headers[n]])
  }

  function Named(headers: seq<Header>, name: string): seq<Header> {
    if headers == [] then []
    else
      var n := |headers| - 1;
      Named(headers[..n], name) + (if headers[n].0 == name then [headers[n]] else [])
  }

  lemma AppendSplits(headers: seq<Header>, h: Header, name: string)
    ensures Others(headers + [h], name) == Others(headers, name) + (if h.0 == name then [] else [h])
    ensures Named(headers + [h], name) == Named(headers, name) + (if h.0 == name then [h] else [])
  {
    assert (headers + [h])[..|headers|] == headers;
  }

  predicate Absent(headers: seq<Header>, name: string) {
    forall i :: 0 <= i < |headers| ==> headers[i].0 != name
  }

  predicate FirstAt(headers: seq<Header>, name: string, f: int) {
    0 <= f < |headers| && headers[f].0 == name && Absent(headers[..f], name)
  }

  /** What the loop has made of the headers it has passed. */
  ghost predicate Replacing(passed: seq<Header>, name: string, value: string, replaced: bool, updated: seq<Header>) {
    && Named(updated, name) == (if replaced then [(name, value)] else [])
    && Others(updated, name) == Others(passed, name)
    && (!replaced ==> Absent(passed, name) && updated == passed)
    && (replaced ==> exists f :: FirstAt(passed, name, f) && passed[..f] + [(name, value)] <= updated)
  }

  lemma ReplacedFirst(passed: seq<Header>, h: Header, value: string, updated: seq<Header>)
    requires Replacing(passed, h.0, value, false, updated)
    ensures Replacing(passed + [h], h.0, value, true, updated + [(h.0, value)])
  {
    AppendSplits(passed, h, h.0);
    AppendSplits(updated, (h.0, value), h.0);
    assert (passed + [h])[..|passed|] == passed;
    assert FirstAt(passed + [h], h.0, |passed|);
  }

  lemma StillReplaced(passed: seq<Header>, name: string, value: string, h: Header, updated: seq<Header>, more: seq<Header>)
    requires Replacing(passed, name, value, true, updated)
    requires more == if h.0 == name then [] else [h]
    ensures Replacing(passed + [h], name, value, true, updated + more)
  {
    AppendSplits(passed, h, name);
    AppendSplits(updated, h, name);
    assert updated + [] == updated;
    var f :| FirstAt(passed, name, f) && passed[..f] + [(name, value)] <= updated;
    assert (passed + [h])[..f] == passed[..f];
    assert FirstAt(passed + [h], name, f);
  }

  lemma NotYetReplaced(passed: seq<Header>, name: string, value: string, h: Header, updated: seq<Header>)
    requires Replacing(passed, name, value, false, updated) && h.0 != name
    ensures Replacing(passed + [h], name, value, false, updated + [h])
  {
    AppendSplits(passed, h, name);
    AppendSplits(updated, h, name);
  }

  /**
   Exactly one header of that name afterwards, with the new value and in the
   place of the first, or last if there was none; all others untouched and in order.
   */
  method ReplaceHeader(headers: seq<Header>, name: string, value: string) returns (updated: seq<Header>)
    ensures Named(updated, name) == [(name, value)]
    ensures Others(updated, name) == Others(headers, name)
    ensures Absent(headers, name) ==> updated == headers + [(name, value)]
    ensures !Absent(headers, name) ==>
              exists f :: FirstAt(headers, name, f) && headers[..f] + [(name, value)] <= updated
  {
    var replaced := false;
    updated := [];
    for i := 0 to |headers|
      invariant Replacing(headers[..i], name, value, replaced, updated)
    {
      var h := headers[i];
      assert headers[..i + 1] == headers[..i] + [h];
      if h.0 == name {
        if !replaced {
          ReplacedFirst(headers[..i], h, value, updated);
          updated := updated + [(name, value)];
          replaced := true;
        } else {
          StillReplaced(headers[..i], name, value, h, updated, []);
          assert updated + [] == updated;
        }
      } else {
        if replaced {
          StillReplaced(headers[..i], name, value, h, updated, [h]);
        } else {
          NotYetReplaced(headers[..i], name, value, h, updated);
        }
        updated := updated + [h];
      }
    }
    assert headers[..|headers|] == headers;
    if replaced {
      ghost var f :| FirstAt(headers, name, f) && headers[..f] + [(name, value)] <= updated;
      assert headers[f].0 == name;
    } else {
      AppendSplits(updated, (name, value), name);
      updated := updated + [(name, value)];
    }
  }

  const FORWARDED_PREFIX := "x-forwarded-"

  predicate IsForwarded(h: Header) {
    StartsWith(h.0, FORWARDED_PREFIX)
  }

  function Stripped(headers: seq<Header>): (r: seq<Header>)
    ensures forall i :: 0 <= i < |r| ==> !StartsWith(r[i].0, "x-forwarded-")
  {
    if headers == [] then []
    else
      var n := |headers| - 1;
      Stripped(headers[..n]) + (if IsForwarded(headers[n]) then [] else [headers[n]])
  }

  /** Stripping takes nothing else: every other name keeps its headers, in order. */
  lemma {:induction false} StrippedKeepsOthers(headers: seq<Header>, name: string)
    requires !StartsWith(name, "x-forwarded-")
    ensures Named(Stripped(headers), name) == Named(headers, name)
    decreases |headers|
  {
    if headers != [] {
      var n := |headers| - 1;
      var kept := Stripped(headers[..n]);
      StrippedKeepsOthers(headers[..n], name);
      AppendSplits(kept, headers[n], name);
      assert kept + [] == kept;
    }
  }

  /** The value the scan loop ends with: the last header of that name. */
  function LastValue(headers: seq<Header>, name: string): Option<string> {
    if headers == [] then None
    else
      var n := |headers| - 1;
      if headers[n].0 == name then Some(headers[n].1) else LastValue(headers[..n], name)
  }

  lemma {:induction false} NoLastValue(headers: seq<Header>, name: string)
    ensures LastValue(headers, name) == None <==> Absent(headers, name)
    decreases |headers|
  {
    if headers != [] {
      var n := |headers| - 1;
      NoLastValue(headers[..n], name);
      assert forall i :: 0 <= i < n ==> headers[i] == headers[..n][i];
    }
  }

  /** Of several headers of a name, the last one counts. */
  lemma {:induction false} LastValueExactly(headers: seq<Header>, name: string, i: nat)
    requires i < |headers| && headers[i].0 == name
    requires forall j :: i < j < |headers| ==> headers[j].0 != name
    ensures LastValue(headers, name) == Some(headers[i].1)
    decreases |headers|
  {
    var n := |headers| - 1;
    if i < n {
      assert headers[..n][i] == headers[i];
      LastValueExactly(headers[..n], name, i);
    }
  }

  datatype Scope = Scope(client: (string, int), scheme: string, server: (string, int), headers: seq<Header>)

  predicate Trusted(trustedHosts: set<string>, host: string) {
    trustedHosts != {} && ("*" in trustedHosts || host in trustedHosts)
  }

  predicate KnownScheme(s: string) {
    s == "http" || s == "https" || s == "ws" || s == "wss"
  }

  /** `isdigit()` and then `int()`; None when the text is not all digits. */
  type PortReader = string -> Option<int>

  /** `_split_host_port`: a bracketed address, or a name with exactly one colon, or a bare name. */
  function SplitHostPort(host: string, defaultPort: int, readPort: PortReader): (string, int) {
    var close, colon := FastH1.FindByte(host, ']', 0), FastH1.FindByte(host, ':', 0);
    if StartsWith(host, "[") && close > 0 then
      var rest := host[close + 1..];
      var port := if StartsWith(rest, ":") then readPort(rest[1..]) else None;
      (host[1..close], if port.Some? then port.value else defaultPort)
    else if colon > 0 && FastH1.FindByte(host, ':', colon + 1) == -1 && readPort(host[colon + 1..]).Some? then
      (host[..colon], readPort(host[colon + 1..]).value)
    else (host, defaultPort)
  }

  /** A name written with its port is split where it was joined, and a name alone keeps the port it had. */
  lemma NamePortRoundTrip(name: string, port: string, defaultPort: int, readPort: PortReader)
    requires name != "" && ':' !in name && name[0] != '[' && ':' !in port && readPort(port).Some?
    ensures SplitHostPort(name + ":" + port, defaultPort, readPort) == (name, readPort(port).value)
    ensures SplitHostPort(name, defaultPort, readPort) == (name, defaultPort)
  {
    var host, n := name + ":" + port, |name|;
    assert host[..1] == [name[0]];
    FastH1.FoundAt(host, ':', 0, n);
    forall k | n + 1 <= k < |host| ensures host[k] != ':' {
      assert host[k] == port[k - n - 1];
    }
    FastH1.NotFound(host, ':', n + 1);
    assert host[..n] == name && host[n + 1..] == port;
    assert name[..1] == [name[0]];
    FastH1.NotFound(name, ':', 0);
  }

  /** So is a bracketed address, whatever colons it holds. */
  lemma BracketRoundTrip(address: string, port: string, defaultPort: int, readPort: PortReader)
    requires ']' !in address && readPort(port).Some?
    ensures SplitHostPort("[" + address + "]" + (":" + port), defaultPort, readPort) == (address, readPort(port).value)
    ensures SplitHostPort("[" + address + "]", defaultPort, readPort) == (address, defaultPort)
  {
    Bracketed(address, ":" + port);
    Bracketed(address, "");
    assert (":" + port)[..1] == ":" && (":" + port)[1..] == port;
    assert "[" + address + "]" + "" == "[" + address + "]";
  }

  /** What follows the bracket counts only if it is a colon and a port. */
  lemma BracketWithoutPort(address: string, rest: string, defaultPort: int, readPort: PortReader)
    requires ']' !in address && (rest == "" || rest[0] != ':' || readPort(rest[1..]) == None)
    ensures SplitHostPort("[" + address + "]" + rest, defaultPort, readPort) == (address, defaultPort)
  {
    Bracketed(address, rest);
    if rest != "" {
      assert rest[..1] == [rest[0]];
    }
  }

  /** Any other value is a host as it stands: no colon, several, no name before one, or no port after it. */
  lemma HostWithoutPort(host: string, defaultPort: int, readPort: PortReader)
    requires !StartsWith(host, "[") || ']' !in host
    requires forall name, port :: host == name + ":" + port && ':' !in name && ':' !in port ==>
               name == "" || readPort(port) == None
    ensures SplitHostPort(host, defaultPort, readPort) == (host, defaultPort)
  {
    FastH1.FindByteFirst(host, ']', 0);
    var c := FastH1.FindByte(host, ':', 0);
    FastH1.FindByteFirst(host, ':', 0);
    if c > 0 && FastH1.FindByte(host, ':', c + 1) == -1 {
      FastH1.FindByteFirst(host, ':', c + 1);
      var name, port := host[..c], host[c + 1..];
      assert host == name + ":" + port;
      assert ':' !in name && ':' !in port;
    }
  }

  lemma Bracketed(address: string, rest: string)
    requires ']' !in address
    ensures var host, n := "[" + address + "]" + rest, |address| + 1;
            && StartsWith(host, "[") && FastH1.FindByte(host, ']', 0) == n
            && host[1..n] == address && host[n + 1..] == rest
  {
    var host, n := "[" + address + "]" + rest, |address| + 1;
    assert host[..1] == "[";
    forall k | 0 <= k < n ensures host[k] != ']' {
      assert k > 0 ==> host[k] == address[k - 1];
    }
    assert host[n] == ']';
    FastH1.FoundAt(host, ']', 0, n);
  }

  /** A forwarded value that is present and not empty once cleaned. */
  function Usable(value: Option<string>, clean: string -> string): Option<string> {
    if value.Some? && clean(value.value) != "" then Some(clean(value.value)) else None
  }

  /**
   `apply_proxy_headers`.  An untrusted peer changes nothing and loses its
   forwarded headers.  From a trusted one, the last header of each name sets
   the client address, the scheme if it is a known one, and the server together
   with the Host header; the client's port and all other headers stay.
   */
  method ApplyProxyHeaders(scope: Scope, trustedHosts: set<string>, trustedHops: int,
                           lower: string -> string, readPort: PortReader)
    returns (r: Scope)
    ensures "*" !in trustedHosts && scope.client.0 !in trustedHosts ==>
              r == scope.(headers := Stripped(scope.headers))
    ensures "*" in trustedHosts || scope.client.0 in trustedHosts ==>
              var ip := Usable(LastValue(scope.headers, "x-forwarded-for"), v => SelectForwardedFor(v, trustedHops));
              var scheme := Usable(LastValue(scope.headers, "x-forwarded-proto"), v => lower(Strip(v, false)));
              && r.client == (if ip.Some? then (ip.value, scope.client.1) else scope.client)
              && r.scheme == (if scheme.Some? && (scheme.value == "http" || scheme.value == "https"
                                                  || scheme.value == "ws" || scheme.value == "wss")
                              then scheme.value else scope.scheme)
    ensures "*" in trustedHosts || scope.client.0 in trustedHosts ==>
              var host := Usable(LastValue(scope.headers, "x-forwarded-host"), v => Clean(v));
              && Others(r.headers, "host") == Others(scope.headers, "host")
              && (if host.Some?
                  then r.server == SplitHostPort(host.value, scope.server.1, readPort)
                       && Named(r.headers, "host") == [("host", host.value)]
                  else r.server == scope.server && r.headers == scope.headers)
  {
    if !Trusted(trustedHosts, scope.client.0) {
      return scope.(headers := Stripped(scope.headers));
    }
    var headers := scope.headers;
    var forwardedFor, forwardedProto, forwardedHost := ScanForwarded(headers);
    var client := ClientFrom(forwardedFor, trustedHops, scope.client);
    var scheme := SchemeFrom(forwardedProto, lower, scope.scheme);
    var server, updated := ServerFrom(forwardedHost, scope.server, headers, readPort);
    r := Scope(client, scheme, server, updated);
  }

  method ClientFrom(forwardedFor: Option<string>, trustedHops: int, client: (string, int)) returns (r: (string, int))
    ensures var ip := Usable(forwardedFor, v => SelectForwardedFor(v, trustedHops));
            r == if ip.Some? then (ip.value, client.1) else client
  {
    r := client;
    if forwardedFor.Some? {
      var realIp := SelectForwardedFor(forwardedFor.value, trustedHops);
      if realIp != "" {
        r := (realIp, client.1);
      }
    }
  }

  method SchemeFrom(forwardedProto: Option<string>, lower: string -> string, scheme: string) returns (r: string)
    ensures var s := Usable(forwardedProto, v => lower(Strip(v, false)));
            r == if s.Some? && (s.value == "http" || s.value == "https" || s.value == "ws" || s.value == "wss")
                 then s.value else scheme
  {
    r := scheme;
    if forwardedProto.Some? {
      var proto := lower(Strip(forwardedProto.value, false));
      if KnownScheme(proto) {
        r := proto;
      }
    }
  }

  method ServerFrom(forwardedHost: Option<string>, server: (string, int), headers: seq<Header>, readPort: PortReader)
    returns (r: (string, int), updated: seq<Header>)
    ensures var host := Usable(forwardedHost, v => Clean(v));
            && Others(updated, "host") == Others(headers, "host")
            && (if host.Some?
                then r == SplitHostPort(host.value, server.1, readPort) && Named(updated, "host") == [("host", host.value)]
                else r == server && updated == headers)
  {
    r, updated := server, headers;
    if forwardedHost.Some? {
      var host := Clean(forwardedHost.value);
      if host != "" {
        r := SplitHostPort(host, server.1, readPort);
        updated := ReplaceHeader(headers, "host", host);
      }
    }
  }

  /** The scan for the three forwarded headers: of several, the last one counts. */
  method ScanForwarded(headers: seq<Header>)
    returns (forwardedFor: Option<string>, forwardedProto: Option<string>, forwardedHost: Option<string>)
    ensures forwardedFor == LastValue(headers, "x-forwarded-for")
    ensures forwardedProto == LastValue(headers, "x-forwarded-proto")
    ensures forwardedHost == LastValue(headers, "x-forwarded-host")
  {
    forwardedFor, forwardedProto, forwardedHost := None, None, None;
    for i := 0 to |headers|
      invariant forwardedFor == LastValue(headers[..i], "x-forwarded-for")
      invariant forwardedProto == LastValue(headers[..i], "x-forwarded-proto")
      invariant forwardedHost == LastValue(headers[..i], "x-forwarded-host")
    {
      assert headers[..i + 1][..i] == headers[..i];
      var (name, value) := headers[i];
      if name == "x-forwarded-for" {
        forwardedFor := Some(value);
      } else if name == "x-forwarded-proto" {
        forwardedProto := Some(value);
      } else if name == "x-forwarded-host" {
        forwardedHost := Some(value);
      }
    }
    assert headers[..|headers|] == headers;
  }
}
