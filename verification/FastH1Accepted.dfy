/** What every accepted request satisfies (src/pounce/_fast_h1.py:95-239). */
module FastH1Accepted {
  import opened Wrappers
  import opened FastH1

  function Named(headers: seq<Header>, name: string): nat {
    if headers == [] then 0
    else Named(headers[..|headers| - 1], name) + if headers[|headers| - 1].0 == name then 1 else 0
  }

  lemma NamedAppend(headers: seq<Header>, h: Header, name: string)
    ensures Named(headers + [h], name) == Named(headers, name) + if h.0 == name then 1 else 0
  {
    assert (headers + [h])[..|headers|] == headers;
  }

  /** The length the only Content-Length header gives. */
  ghost predicate LengthIs(lim: Limits, headers: seq<Header>, n: int) {
    exists i :: 0 <= i < |headers| && headers[i].0 == "content-length" && lim.parseInt(headers[i].1) == Some(n)
  }

  ghost predicate SaysChunked(headers: seq<Header>) {
    exists i :: 0 <= i < |headers| && headers[i].0 == "transfer-encoding" && MentionsChunked(headers[i].1)
  }

  /** The scalars of the loop agree with the list that grows beside them. */
  ghost predicate Agrees(lim: Limits, s: Scan) {
    && (s.headers == [] || |s.headers| <= lim.maxHeaders)
    && s.contentLength >= -1
    && Named(s.headers, "content-length") == (if s.contentLength == -1 then 0 else 1)
    && (s.contentLength != -1 ==> LengthIs(lim, s.headers, s.contentLength))
    && (s.hasTe <==> Named(s.headers, "transfer-encoding") > 0)
    && (s.chunked <==> SaysChunked(s.headers))
    && s.hosts == Named(s.headers, "host") <= 1
  }

  lemma LengthGrows(lim: Limits, headers: seq<Header>, h: Header, n: int)
    ensures LengthIs(lim, headers + [h], n) <==>
            LengthIs(lim, headers, n) || (h.0 == "content-length" && lim.parseInt(h.1) == Some(n))
  {
    var more := headers + [h];
    assert more[|headers|] == h;
    if i :| 0 <= i < |headers| && headers[i].0 == "content-length" && lim.parseInt(headers[i].1) == Some(n) {
      assert more[i] == headers[i];
    }
  }

  lemma ChunkedGrows(headers: seq<Header>, h: Header)
    ensures SaysChunked(headers + [h]) <==>
            SaysChunked(headers) || (h.0 == "transfer-encoding" && MentionsChunked(h.1))
  {
    var more := headers + [h];
    assert more[|headers|] == h;
    if i :| 0 <= i < |headers| && headers[i].0 == "transfer-encoding" && MentionsChunked(headers[i].1) {
      assert more[i] == headers[i];
    }
  }

  lemma AddAgrees(lim: Limits, s: Scan, h: Header)
    requires Agrees(lim, s) && AddHeader(lim, s, h).Ok?
    ensures Agrees(lim, AddHeader(lim, s, h).value)
    ensures AddHeader(lim, s, h).value.headers == s.headers + [(Lower(h.0), h.1)]
  {
    var g, s' := (Lower(h.0), h.1), AddHeader(lim, s, h).value;
    NamedAppend(s.headers, g, "content-length");
    NamedAppend(s.headers, g, "transfer-encoding");
    NamedAppend(s.headers, g, "host");
    LengthGrows(lim, s.headers, g, s'.contentLength);
    ChunkedGrows(s.headers, g);
  }

  /** What one header keeps, the loop keeps. */
  lemma {:induction false} ScanKeeps(lim: Limits, block: string, pos: nat, s: Scan, inv: Scan -> bool)
    requires inv(s) && ScanFrom(lim, block, pos, s).Ok?
    requires forall s, h :: inv(s) && AddHeader(lim, s, h).Ok? ==> inv(AddHeader(lim, s, h).value)
    ensures inv(ScanFrom(lim, block, pos, s).value)
    decreases |block| - pos
  {
    if pos < |block| {
      var e := LineEnd(block, pos);
      var h := SplitHeader(block[pos..e]);
      ScanKeeps(lim, block, e + 2, if h == None then s else AddHeader(lim, s, h.value).value, inv);
    }
  }

  lemma ScanAgrees(lim: Limits, block: string)
    requires ScanFrom(lim, block, 0, NOTHING).Ok?
    ensures Agrees(lim, ScanFrom(lim, block, 0, NOTHING).value)
  {
    var inv := s => Agrees(lim, s);
    forall s, h | inv(s) && AddHeader(lim, s, h).Ok? ensures inv(AddHeader(lim, s, h).value) {
      AddAgrees(lim, s, h);
    }
    ScanKeeps(lim, block, 0, NOTHING, inv);
  }

  /** At most one Content-Length and one Host, never Content-Length beside Transfer-Encoding. */
  ghost predicate HeadersOk(lim: Limits, r: Request, chunked: bool) {
    && (r.headers == [] || |r.headers| <= lim.maxHeaders)
    && Named(r.headers, "content-length") <= 1
    && Named(r.headers, "host") <= 1
    && (Named(r.headers, "content-length") == 0 || Named(r.headers, "transfer-encoding") == 0)
    && (chunked <==> SaysChunked(r.headers))
  }

  lemma ChunkedIsNamed(headers: seq<Header>)
    requires SaysChunked(headers)
    ensures Named(headers, "transfer-encoding") > 0
    decreases |headers|
  {
    var n := |headers| - 1;
    assert headers == headers[..n] + [headers[n]];
    ChunkedGrows(headers[..n], headers[n]);
    if headers[n].0 != "transfer-encoding" {
      ChunkedIsNamed(headers[..n]);
    }
  }

  /** What the head alone promises about the body. */
  lemma HeadAgrees(lim: Limits, head: string)
    requires ParseHead(lim, head).Ok?
    ensures var p := ParseHead(lim, head).value;
            && HeadersOk(lim, p.request, p.chunked)
            && (if Named(p.request.headers, "content-length") == 1
                then LengthIs(lim, p.request.headers, p.bodyLength) else p.bodyLength == 0)
  {
    var s := ScanFrom(lim, HeaderBlock(head), 0, NOTHING).value;
    ScanAgrees(lim, HeaderBlock(head));
    if s.chunked {
      ChunkedIsNamed(s.headers);
    }
  }

  lemma FrameDone(rd: Reader, data: string)
    requires Frame(rd, data).Done?
    ensures var o, h := Frame(rd, data), FindBlank(data, 0);
            && 0 <= h <= rd.maxHeaderSize && h + 4 <= o.consumed <= |data|
            && var p := rd.readHead(data[..h]);
            && p.Ok? && o.request == p.value.request && o.chunked == p.value.chunked
            && o.body == data[h + 4..o.consumed] && |o.body| == p.value.bodyLength
  {}

  /**
   On every accepted request the header rules hold of the returned list, and the
   body is exactly the Content-Length bytes after the blank line, ending at
   `consumed`; without that header the body is empty.
   */
  lemma AcceptedBody(lim: Limits, data: string)
    requires Parse(lim, data).Done?
    ensures var o, h := Parse(lim, data), FindBlank(data, 0);
            && HeadersOk(lim, o.request, o.chunked)
            && 0 <= h <= lim.maxHeaderSize && h + 4 <= o.consumed <= |data|
            && o.body == data[h + 4..o.consumed]
            && (if Named(o.request.headers, "content-length") == 1
                then LengthIs(lim, o.request.headers, |o.body|) else o.body == "")
  {
    FrameDone(H1(lim), data);
    HeadAgrees(lim, data[..FindBlank(data, 0)]);
  }

  lemma CutOnce(s: string, i: nat)
    requires i < |s|
    ensures s == s[..i] + [s[i]] + s[i + 1..]
  {}

  lemma CutTwice(s: string, i: nat, j: nat)
    requires i < j < |s| && s[i] == ' ' == s[j]
    ensures s == s[..i] + " " + (s[i + 1..j] + " " + s[j + 1..])
  {
    var rest := s[i + 1..];
    CutOnce(s, i);
    CutOnce(rest, j - i - 1);
    assert rest[..j - i - 1] == s[i + 1..j] && rest[j - i..] == s[j + 1..];
  }

  /** Cutting at the first two spaces loses nothing, */
  lemma CutLineRejoins(line: string, l: Line)
    requires CutLine(line) == Some(l)
    ensures line == l.verb + " " + (l.target + " " + l.version) && ' ' !in l.verb && ' ' !in l.target
  {
    var sp1 := FindByte(line, ' ', 0);
    var sp2 := FindByte(line, ' ', sp1 + 1);
    FindByteFirst(line, ' ', 0);
    FindByteFirst(line, ' ', sp1 + 1);
    CutTwice(line, sp1, sp2);
  }

  /** Where the characters of a joined line come from. */
  lemma JoinedAt(a: string, b: string, c: string)
    ensures var s, n, m := a + " " + (b + " " + c), |a|, |a| + 1 + |b|;
            && |s| == m + 1 + |c| && s[n] == ' ' && s[m] == ' '
            && (forall k :: 0 <= k < n ==> s[k] == a[k])
            && (forall k :: n + 1 <= k < m ==> s[k] == b[k - n - 1])
  {}

  lemma JoinedSlices(a: string, b: string, c: string)
    ensures var s, n, m := a + " " + (b + " " + c), |a|, |a| + 1 + |b|;
            s[..n] == a && s[n + 1..m] == b && s[m + 1..] == c
  {}

  /** and is the only way to cut a line into two spaceless parts and a remainder. */
  lemma JoinedLineCuts(l: Line)
    requires ' ' !in l.verb && ' ' !in l.target
    ensures CutLine(l.verb + " " + (l.target + " " + l.version)) == Some(l)
  {
    var line := l.verb + " " + (l.target + " " + l.version);
    var n := |l.verb|;
    JoinedAt(l.verb, l.target, l.version);
    FoundAt(line, ' ', 0, n);
    FoundAt(line, ' ', n + 1, n + 1 + |l.target|);
    JoinedSlices(l.verb, l.target, l.version);
  }

  predicate LineOk(line: string, l: Line) {
    && line == l.verb + " " + (l.target + " " + ("HTTP/" + l.version))
    && (l.version == "1.0" || l.version == "1.1")
    && ' ' !in l.verb && MethodMatches(l.verb)
    && '\0' !in l.target && '\r' !in l.target && '\n' !in l.target && ' ' !in l.target
  }

  /** The request line is accepted, and read as `l`, exactly when it is `l` written out. */
  lemma RequestLineExactly(line: string, l: Line)
    ensures RequestLine(line) == Ok(l) <==> LineOk(line, l)
  {
    assert "HTTP/" + "1.1" == "HTTP/1.1" && "HTTP/" + "1.0" == "HTTP/1.0";
    if RequestLine(line) == Ok(l) {
      CutLineRejoins(line, CutLine(line).value);
    }
    if LineOk(line, l) {
      JoinedLineCuts(l.(version := "HTTP/" + l.version));
    }
  }

  /**
   The request line is what was sent: method, target and version joined by
   single spaces, with no NUL, CR or LF in the target.  The method is a token,
   or a token and one line feed.
   */
  lemma AcceptedLine(lim: Limits, data: string)
    requires Parse(lim, data).Done?
    ensures var r := Parse(lim, data).request;
            LineOk(FirstLine(data[..FindBlank(data, 0)]), Line(r.verb, r.target, r.version))
  {
    var line := FirstLine(data[..FindBlank(data, 0)]);
    RequestLineExactly(line, RequestLine(line).value);
  }

  /** A method that ends in a bare line feed passes whenever the method before it would. */
  lemma MethodWithLineFeed(l: Line)
    requires IsToken(l.verb) && LineOk(l.verb + " " + (l.target + " " + ("HTTP/" + l.version)), l)
    ensures var m := l.(verb := l.verb + "\n");
            && RequestLine(m.verb + " " + (m.target + " " + ("HTTP/" + m.version))) == Ok(m)
            && !IsToken(m.verb)
  {
    var m := l.(verb := l.verb + "\n");
    assert m.verb[..|l.verb|] == l.verb && m.verb[|l.verb|] == '\n' && !IsTchar('\n');
    RequestLineExactly(m.verb + " " + (m.target + " " + ("HTTP/" + m.version)), m);
  }

  // ------------------------------------------------------- what a name is

  /** The first colon ends the name: a space follows it, or no colon of the line has one after it. */
  predicate NameEndsAtColon(line: string) {
    var c := FindByte(line, ':', 0);
    c != -1 && (PairAt(line, ':', ' ', c) || FindPair(line, ':', ' ', 0) == -1)
  }

  /**
   The header rules speak of names as split.  The name is the text before the
   first colon exactly when that colon ends it; otherwise it reaches on, colon
   included, to the first colon followed by a space.
   */
  lemma NameBeforeColonExactly(line: string)
    requires SplitHeader(line).Some?
    ensures var name, c := SplitHeader(line).value.0, FindByte(line, ':', 0);
            && 0 <= c <= |name| <= |line| && name == line[..|name|]
            && (name == line[..c] <==> NameEndsAtColon(line))
            && (':' !in name <==> NameEndsAtColon(line))
  {
    var p, c := FindPair(line, ':', ' ', 0), FindByte(line, ':', 0);
    FindPairFirst(line, ':', ' ', 0);
    FindByteFirst(line, ':', 0);
    if p > c {
      assert line[..p][c] == ':';
    }
  }

  lemma {:induction false} LowerKeepsColons(s: string, i: nat)
    requires i < |s| && s[i] == ':'
    ensures ':' in Lower(s)
  {
    assert Lower(s)[i] == ':';
  }

  /** A colon without space hides a name from the rules: the line is read as an unknown header. */
  lemma HiddenName(lim: Limits, s: Scan, name: string, value: string, rest: string)
    requires ' ' !in name && ' ' !in value && '\0' !in name && '\0' !in value
    requires |s.headers| < lim.maxHeaders
    ensures var seen := name + ":" + value;
            && SplitHeader(seen + ": " + rest) == Some((seen, rest))
            && AddHeader(lim, s, (seen, rest)) == Ok(s.(headers := s.headers + [(Lower(seen), rest)]))
  {
    var seen := name + ":" + value;
    var line := seen + ": " + rest;
    assert seen[|name|] == ':';
    LowerKeepsColons(seen, |name|);
    assert ' ' !in seen && '\0' !in seen;
    FindPairFirst(line, ':', ' ', 0);
    forall k | 0 <= k < |seen| ensures !PairAt(line, ':', ' ', k) {
      assert line[k] == seen[k];
      assert k + 1 < |seen| ==> line[k + 1] == seen[k + 1];
    }
    assert PairAt(line, ':', ' ', |seen|);
    assert line[..|seen|] == seen && line[|seen| + 2..] == rest;
    assert ':' !in "content-length" && ':' !in "transfer-encoding" && ':' !in "host";
  }

  /** Of the control characters only NUL is kept out of names. */
  lemma ControlCharacterNames(lim: Limits, s: Scan, c: char, value: string)
    requires c as int < 32 || c as int == 127
    ensures AddHeader(lim, s, ([c], value)).Ok? <==> c != '\0' && |s.headers| < lim.maxHeaders
  {
    var name := Lower([c]);
    assert |name| == 1;
    assert ' ' !in [c];
  }
}
