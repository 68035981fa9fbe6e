/**
 What the parser makes of the text on the wire (src/pounce/_fast_h1.py:72-239):
 letter case of header names, the forms of a header line, which requests are
 accepted and read back as they were written, and which prefixes of them wait.
 */
module FastH1Wire {
  import opened Wrappers
  import opened Text
  import opened FastH1
  import opened FastH1Accepted
  import opened ResponseFrame

  // -------------------------------------------------------------- letter case

  /** `c` is `d`, or its capital. */
  predicate SameLetter(c: char, d: char) {
    c == d || ('a' <= d <= 'z' && c as int + 32 == d as int)
  }

  predicate SameLetters(a: string, b: string) {
    |a| == |b| && forall i :: 0 <= i < |a| ==> SameLetter(a[i], b[i])
  }

  predicate NoCapitals(s: string) {
    forall i :: 0 <= i < |s| ==> !('A' <= s[i] <= 'Z')
  }

  /** Capitals become the small letter at the same place of the alphabet; everything else stays. */
  lemma LowerExactly(s: string, i: nat)
    requires i < |s|
    ensures if 'A' <= s[i] <= 'Z'
            then 'a' <= Lower(s)[i] <= 'z' && Lower(s)[i] as int - 'a' as int == s[i] as int - 'A' as int
            else Lower(s)[i] == s[i]
  {}

  lemma LowerIs(s: string, small: string)
    requires NoCapitals(small)
    ensures Lower(s) == small <==> SameLetters(s, small)
  {
    if SameLetters(s, small) {
      forall i | 0 <= i < |s| ensures Lower(s)[i] == small[i] {
        LowerExactly(s, i);
        assert SameLetter(s[i], small[i]);
      }
    }
    if Lower(s) == small {
      forall i | 0 <= i < |s| ensures SameLetter(s[i], small[i]) {
        LowerExactly(s, i);
      }
    }
  }

  predicate IsContentLength(name: string) {
    SameLetters(name, "content-length")
  }

  predicate IsTransferEncoding(name: string) {
    SameLetters(name, "transfer-encoding")
  }

  predicate IsHost(name: string) {
    SameLetters(name, "host")
  }

  lemma NamesAnyCase(name: string)
    ensures Lower(name) == "content-length" <==> IsContentLength(name)
    ensures Lower(name) == "transfer-encoding" <==> IsTransferEncoding(name)
    ensures Lower(name) == "host" <==> IsHost(name)
  {
    LowerIs(name, "content-length");
    LowerIs(name, "transfer-encoding");
    LowerIs(name, "host");
  }

  predicate OccursAt(data: string, pat: string, i: nat) {
    i + |pat| <= |data| && data[i..i + |pat|] == pat
  }

  lemma {:induction false} FindExactly(data: string, pat: string, from: nat)
    ensures var r := Find(data, pat, from);
            && (r != -1 ==> OccursAt(data, pat, r))
            && (r == -1 ==> forall i :: from <= i ==> !OccursAt(data, pat, i))
    decreases |data| - from
  {
    if from + |pat| <= |data| && data[from..from + |pat|] != pat {
      FindExactly(data, pat, from + 1);
      assert !OccursAt(data, pat, from);
    }
  }

  predicate ChunkedAt(value: string, i: nat) {
    i + 7 <= |value| && SameLetters(value[i..i + 7], "chunked")
  }

  /** `chunked`, in any letter case, anywhere in the value. */
  ghost predicate HoldsChunked(value: string) {
    exists i :: ChunkedAt(value, i)
  }

  lemma ChunkedOccurs(value: string, i: nat)
    ensures OccursAt(Lower(value), "chunked", i) <==> ChunkedAt(value, i)
  {
    if i + 7 <= |value| {
      var w := value[i..i + 7];
      assert Lower(w) == Lower(value)[i..i + 7];
      LowerIs(w, "chunked");
    }
  }

  lemma ChunkedAnyCase(value: string)
    ensures MentionsChunked(value) <==> HoldsChunked(value)
  {
    var r := Find(Lower(value), "chunked", 0);
    FindExactly(Lower(value), "chunked", 0);
    if r != -1 {
      ChunkedOccurs(value, r);
    } else {
      forall i ensures !ChunkedAt(value, i) {
        ChunkedOccurs(value, i);
      }
    }
  }

  // ------------------------------------------------------------ one header

  /** A header is refused for a space or NUL in its name, then for the number of headers. */
  lemma HeaderRefused(lim: Limits, s: Scan, h: Header)
    ensures AddHeader(lim, s, h) == Err(BadHeaderName) <==> ' ' in h.0 || '\0' in h.0
    ensures AddHeader(lim, s, h) == Err(TooManyHeaders) <==>
            ' ' !in h.0 && '\0' !in h.0 && |s.headers| >= lim.maxHeaders
  {}

  /** What an admissible header does, by its name in any letter case. */
  lemma HeaderNoted(lim: Limits, s: Scan, h: Header)
    requires ' ' !in h.0 && '\0' !in h.0 && |s.headers| < lim.maxHeaders
    ensures var r, more := AddHeader(lim, s, h), s.(headers := s.headers + [(Lower(h.0), h.1)]);
            && (IsContentLength(h.0) ==>
                  r == if s.contentLength != -1 then Err(DuplicateContentLength)
                       else if lim.parseInt(h.1) == None then Err(BadContentLength)
                       else if lim.parseInt(h.1).value < 0 then Err(NegativeContentLength)
                       else Ok(more.(contentLength := lim.parseInt(h.1).value)))
            && (IsTransferEncoding(h.0) ==> r == Ok(more.(hasTe := true, chunked := s.chunked || HoldsChunked(h.1))))
            && (IsHost(h.0) ==> r == if s.hosts >= 1 then Err(DuplicateHost) else Ok(more.(hosts := s.hosts + 1)))
            && (!IsContentLength(h.0) && !IsTransferEncoding(h.0) && !IsHost(h.0) ==> r == Ok(more))
  {
    NamesAnyCase(h.0);
    ChunkedAnyCase(h.1);
  }

  ghost predicate NoPair(s: string) {
    forall k :: !PairAt(s, ':', ' ', k)
  }

  lemma FirstPairAt(line: string, n: nat)
    requires PairAt(line, ':', ' ', n) && forall k :: 0 <= k < n ==> !PairAt(line, ':', ' ', k)
    ensures SplitHeader(line) == Some((line[..n], line[n + 2..]))
  {
    FindPairFirst(line, ':', ' ', 0);
  }

  /** A line with a colon and a space is cut at the first such pair; the value is taken as it is. */
  lemma SplitAtPair(name: string, value: string)
    requires NoPair(name)
    ensures SplitHeader(name + ": " + value) == Some((name, value))
  {
    var line, n := name + ": " + value, |name|;
    forall k | 0 <= k < n ensures !PairAt(line, ':', ' ', k) {
      assert line[k] == name[k] && !PairAt(name, ':', ' ', k);
      assert k + 1 < n ==> line[k + 1] == name[k + 1];
    }
    assert line[n] == ':' && line[n + 1] == ' ';
    FirstPairAt(line, n);
    assert line[..n] == name && line[n + 2..] == value;
  }

  /** Otherwise it is cut at its first colon, and blanks before the value are dropped; */
  lemma SplitAtColon(name: string, blanks: string, value: string)
    requires ':' !in name && Blank(blanks, false) && (value == "" || !IsSpace(value[0], false))
    requires NoPair(name + ":" + (blanks + value))
    ensures SplitHeader(name + ":" + (blanks + value)) == Some((name, value))
  {
    var line, n := name + ":" + (blanks + value), |name|;
    FindPairFirst(line, ':', ' ', 0);
    forall k | 0 <= k < n ensures line[k] != ':' {
      assert line[k] == name[k];
    }
    FoundAt(line, ':', 0, n);
    assert line[..n] == name && line[n + 1..] == blanks + value;
    StripLeftDrops(blanks, value, false);
  }

  /** a line without colon is skipped. */
  lemma SplitNothing(line: string)
    requires ':' !in line
    ensures SplitHeader(line) == None
  {
    NotFound(line, ':', 0);
    FindPairFirst(line, ':', ' ', 0);
  }

  // -------------------------------------------------------- the request line

  /** The characters of a method are those of section 5.6.2 of RFC 9110: visible, and no delimiter. */
  lemma TokenCharacters(c: char)
    ensures IsTchar(c) <==> '!' <= c <= '~' && c !in "\"(),/:;<=>?@[\\]{}"
  {}

  /** The first line and the rest of a head: nothing lost, and no line break before the cut. */
  lemma HeadSplits(head: string)
    ensures (forall k :: !PairAt(head, '\r', '\n', k)) ==> FirstLine(head) == head && HeaderBlock(head) == ""
    ensures (exists k :: PairAt(head, '\r', '\n', k)) ==> head == FirstLine(head) + CRLF + HeaderBlock(head)
    ensures forall k :: !PairAt(FirstLine(head), '\r', '\n', k)
  {
    FindPairFirst(head, '\r', '\n', 0);
    var e := FindCrlf(head, 0);
    if e != -1 {
      assert head[e..e + 2] == CRLF;
      assert head == head[..e] + head[e..e + 2] + head[e + 2..];
      forall k ensures !PairAt(head[..e], '\r', '\n', k) {
        assert PairAt(head[..e], '\r', '\n', k) ==> PairAt(head, '\r', '\n', k);
      }
    }
  }

  /** Fewer than two spaces are malformed; otherwise method, target and version are checked in this order. */
  lemma RequestLineErrors(verb: string, target: string, version: string)
    requires ' ' !in verb && ' ' !in target
    ensures RequestLine(verb + " " + (target + " " + version)) ==
            if !MethodMatches(verb) then Err(BadMethod)
            else if '\0' in target || '\r' in target || '\n' in target then Err(BadTarget)
            else if version == "HTTP/1.1" then Ok(Line(verb, target, "1.1"))
            else if version == "HTTP/1.0" then Ok(Line(verb, target, "1.0"))
            else Err(BadVersion)
  {
    JoinedLineCuts(Line(verb, target, version));
  }

  lemma MalformedExactly(line: string)
    ensures RequestLine(line) == Err(MalformedRequestLine) <==>
            forall i, j :: 0 <= i < j < |line| ==> line[i] != ' ' || line[j] != ' '
  {
    var i := FindByte(line, ' ', 0);
    FindByteFirst(line, ' ', 0);
    if i != -1 {
      FindByteFirst(line, ' ', i + 1);
    }
  }

  // ------------------------------------------------------- lists of headers

  lemma {:induction false} NamedPresent(headers: seq<Header>, name: string)
    ensures Named(headers, name) > 0 <==> exists i :: 0 <= i < |headers| && headers[i].0 == name
    decreases |headers|
  {
    if headers != [] {
      var n := |headers| - 1;
      NamedPresent(headers[..n], name);
      assert forall i :: 0 <= i < n ==> headers[i] == headers[..n][i];
    }
  }

  predicate AtMostOne(headers: seq<Header>, name: string) {
    forall i, j :: 0 <= i < j < |headers| ==> headers[i].0 != name || headers[j].0 != name
  }

  lemma {:induction false} NamedOnce(headers: seq<Header>, name: string)
    ensures Named(headers, name) <= 1 <==> AtMostOne(headers, name)
    decreases |headers|
  {
    if headers != [] {
      var n := |headers| - 1;
      NamedOnce(headers[..n], name);
      NamedPresent(headers[..n], name);
      assert forall i :: 0 <= i < n ==> headers[i] == headers[..n][i];
    }
  }

  /** The lists of headers the rules allow, in terms of the names as sent. */
  ghost predicate Admissible(lim: Limits, hs: seq<Header>) {
    && (hs == [] || |hs| <= lim.maxHeaders)
    && (forall i :: 0 <= i < |hs| ==> ' ' !in hs[i].0 && '\0' !in hs[i].0)
    && (forall i :: 0 <= i < |hs| && IsContentLength(hs[i].0) ==>
          lim.parseInt(hs[i].1).Some? && lim.parseInt(hs[i].1).value >= 0)
    && (forall i, j :: 0 <= i < j < |hs| ==> !IsContentLength(hs[i].0) || !IsContentLength(hs[j].0))
    && (forall i, j :: 0 <= i < j < |hs| ==> !IsHost(hs[i].0) || !IsHost(hs[j].0))
  }

  lemma LoweredNames(hs: seq<Header>)
    ensures AtMostOne(Lowered(hs), "content-length") <==>
            forall i, j :: 0 <= i < j < |hs| ==> !IsContentLength(hs[i].0) || !IsContentLength(hs[j].0)
    ensures AtMostOne(Lowered(hs), "host") <==>
            forall i, j :: 0 <= i < j < |hs| ==> !IsHost(hs[i].0) || !IsHost(hs[j].0)
  {
    var low := Lowered(hs);
    forall i | 0 <= i < |hs|
      ensures low[i].0 == "content-length" <==> IsContentLength(hs[i].0)
      ensures low[i].0 == "host" <==> IsHost(hs[i].0)
    {
      NamesAnyCase(hs[i].0);
    }
  }

  lemma HeaderOkOnWire(lim: Limits, h: Header)
    ensures HeaderOk(lim, h) <==>
            && ' ' !in h.0 && '\0' !in h.0
            && (IsContentLength(h.0) ==> lim.parseInt(h.1).Some? && lim.parseInt(h.1).value >= 0)
  {
    NamesAnyCase(h.0);
  }

  lemma AdmissibleExactly(lim: Limits, hs: seq<Header>)
    ensures Readable(lim, hs) <==> Admissible(lim, hs)
  {
    NamedOnce(Lowered(hs), "content-length");
    NamedOnce(Lowered(hs), "host");
    LoweredNames(hs);
    forall i | 0 <= i < |hs|
      ensures HeaderOk(lim, hs[i]) <==>
              && ' ' !in hs[i].0 && '\0' !in hs[i].0
              && (IsContentLength(hs[i].0) ==> lim.parseInt(hs[i].1).Some? && lim.parseInt(hs[i].1).value >= 0)
    {
      HeaderOkOnWire(lim, hs[i]);
    }
  }

  ghost predicate HasLength(hs: seq<Header>) {
    exists i :: 0 <= i < |hs| && IsContentLength(hs[i].0)
  }

  ghost predicate HasEncoding(hs: seq<Header>) {
    exists i :: 0 <= i < |hs| && IsTransferEncoding(hs[i].0)
  }

  ghost predicate SaysChunkedOnWire(hs: seq<Header>) {
    exists i :: 0 <= i < |hs| && IsTransferEncoding(hs[i].0) && HoldsChunked(hs[i].1)
  }

  /** `n` is the length the headers give the body. */
  ghost predicate BodyLengthIs(lim: Limits, hs: seq<Header>, n: int) {
    && (forall i :: 0 <= i < |hs| && IsContentLength(hs[i].0) ==> lim.parseInt(hs[i].1) == Some(n))
    && (!HasLength(hs) ==> n == 0)
  }

  lemma FlagsOnWire(lim: Limits, s: Scan, hs: seq<Header>)
    requires Agrees(lim, s) && s.headers == Lowered(hs)
    ensures s.contentLength != -1 <==> HasLength(hs)
    ensures s.hasTe <==> HasEncoding(hs)
  {
    NamedPresent(s.headers, "content-length");
    NamedPresent(s.headers, "transfer-encoding");
    forall i | 0 <= i < |hs|
      ensures s.headers[i].0 == "content-length" <==> IsContentLength(hs[i].0)
      ensures s.headers[i].0 == "transfer-encoding" <==> IsTransferEncoding(hs[i].0)
    {
      NamesAnyCase(hs[i].0);
    }
    if HasLength(hs) {
      var i :| 0 <= i < |hs| && IsContentLength(hs[i].0);
      assert s.headers[i].0 == "content-length";
    }
    if HasEncoding(hs) {
      var i :| 0 <= i < |hs| && IsTransferEncoding(hs[i].0);
      assert s.headers[i].0 == "transfer-encoding";
    }
  }

  lemma ChunkedOnWire(hs: seq<Header>)
    ensures SaysChunked(Lowered(hs)) <==> SaysChunkedOnWire(hs)
  {
    var low := Lowered(hs);
    forall i | 0 <= i < |hs|
      ensures low[i].0 == "transfer-encoding" && MentionsChunked(low[i].1) <==>
              IsTransferEncoding(hs[i].0) && HoldsChunked(hs[i].1)
    {
      NamesAnyCase(hs[i].0);
      ChunkedAnyCase(hs[i].1);
    }
    if SaysChunkedOnWire(hs) {
      var i :| 0 <= i < |hs| && IsTransferEncoding(hs[i].0) && HoldsChunked(hs[i].1);
      assert low[i].0 == "transfer-encoding" && MentionsChunked(low[i].1);
    }
  }

  lemma LengthOnWire(lim: Limits, s: Scan, hs: seq<Header>, i: nat)
    requires Agrees(lim, s) && s.headers == Lowered(hs)
    requires i < |hs| && IsContentLength(hs[i].0)
    ensures lim.parseInt(hs[i].1) == Some(s.contentLength)
  {
    FlagsOnWire(lim, s, hs);
    NamedOnce(s.headers, "content-length");
    NamesAnyCase(hs[i].0);
    assert LengthIs(lim, s.headers, s.contentLength);
    var j :| 0 <= j < |s.headers| && s.headers[j].0 == "content-length" && lim.parseInt(s.headers[j].1) == Some(s.contentLength);
    assert s.headers[i].0 == "content-length";
  }

  /** What the loop has learnt, in terms of the headers as sent. */
  lemma ScanOnWire(lim: Limits, s: Scan, hs: seq<Header>)
    requires Agrees(lim, s) && s.headers == Lowered(hs)
    ensures s.contentLength >= 0 <==> HasLength(hs)
    ensures s.hasTe <==> HasEncoding(hs)
    ensures s.chunked <==> SaysChunkedOnWire(hs)
    ensures BodyLengthIs(lim, hs, if s.contentLength < 0 then 0 else s.contentLength)
  {
    FlagsOnWire(lim, s, hs);
    ChunkedOnWire(hs);
    forall i | 0 <= i < |hs| && IsContentLength(hs[i].0) ensures lim.parseInt(hs[i].1) == Some(s.contentLength) {
      LengthOnWire(lim, s, hs, i);
    }
  }

  // -------------------------------------------------------- whole requests

  /** The headers of a buffer whose head ends at the first blank line. */
  function SentHeaders(data: string): seq<Header>
    requires FindBlank(data, 0) != -1
  {
    HeadersFrom(HeaderBlock(data[..FindBlank(data, 0)]), 0)
  }

  lemma ScannedHeaders(lim: Limits, block: string)
    requires ScanFrom(lim, block, 0, NOTHING).Ok?
    ensures var s, hs := ScanFrom(lim, block, 0, NOTHING).value, HeadersFrom(block, 0);
            Agrees(lim, s) && s.headers == Lowered(hs) && Readable(lim, hs)
  {
    var hs := HeadersFrom(block, 0);
    ScanAgrees(lim, block);
    ScanIsAddAll(lim, block, 0, NOTHING);
    assert [] + hs == hs;
    AddAllExactly(lim, NOTHING, [], hs);
  }

  /** What a head that was read promises about the headers it was read from. */
  lemma HeadOnWire(lim: Limits, head: string)
    requires ParseHead(lim, head).Ok?
    ensures var p, hs := ParseHead(lim, head).value, HeadersFrom(HeaderBlock(head), 0);
            && p.request.headers == Lowered(hs) && Admissible(lim, hs) && !(HasLength(hs) && HasEncoding(hs))
            && BodyLengthIs(lim, hs, p.bodyLength) && (p.chunked <==> SaysChunkedOnWire(hs))
  {
    var block := HeaderBlock(head);
    ScannedHeaders(lim, block);
    var s, hs := ScanFrom(lim, block, 0, NOTHING).value, HeadersFrom(block, 0);
    ScanOnWire(lim, s, hs);
    AdmissibleExactly(lim, hs);
    ChunkedEncodes(hs);
  }

  lemma ChunkedEncodes(hs: seq<Header>)
    ensures SaysChunkedOnWire(hs) ==> HasEncoding(hs)
  {}

  /**
   Of every accepted request, in terms of the lines that were sent and whatever
   the letter case of their names: the rules hold, the list returned is theirs
   with names in small letters, and the body has the length they give.
   */
  lemma AcceptedOnWire(lim: Limits, data: string)
    requires Parse(lim, data).Done?
    ensures FindBlank(data, 0) != -1
    ensures var o, hs := Parse(lim, data), SentHeaders(data);
            && o.request.headers == Lowered(hs) && Admissible(lim, hs) && !(HasLength(hs) && HasEncoding(hs))
            && BodyLengthIs(lim, hs, |o.body|) && (o.chunked <==> SaysChunkedOnWire(hs))
  {
    FrameDone(H1(lim), data);
    HeadOnWire(lim, data[..FindBlank(data, 0)]);
  }

  /** A request line, header lines and the blank line. */
  function RequestHead(l: Line, hs: seq<Header>): string {
    HeadOf(l.verb + " " + (l.target + " " + ("HTTP/" + l.version)), hs)
  }

  /** A request as the grammar has it, and within the parser's limits. */
  ghost predicate WellFormed(lim: Limits, l: Line, hs: seq<Header>, body: string) {
    && IsToken(l.verb) && (l.version == "1.0" || l.version == "1.1")
    && ' ' !in l.target && '\0' !in l.target && NoBreaks(l.target)
    && AllValid(hs) && Admissible(lim, hs) && !(HasLength(hs) && HasEncoding(hs))
    && BodyLengthIs(lim, hs, |body|)
    && |RequestHead(l, hs)| - 4 <= lim.maxHeaderSize
  }

  lemma LineReads(l: Line)
    requires IsToken(l.verb) && (l.version == "1.0" || l.version == "1.1")
    requires ' ' !in l.target && '\0' !in l.target && NoBreaks(l.target)
    ensures var line := l.verb + " " + (l.target + " " + ("HTTP/" + l.version));
            NoBreaks(line) && RequestLine(line) == Ok(l)
  {
    TokenIsPlain(l.verb);
    var line := l.verb + " " + (l.target + " " + ("HTTP/" + l.version));
    RequestLineExactly(line, l);
  }

  lemma TokenIsPlain(m: string)
    requires IsToken(m)
    ensures ' ' !in m && NoBreaks(m)
  {
    forall i | 0 <= i < |m| ensures m[i] != ' ' && m[i] != '\r' && m[i] != '\n' {
      assert IsTchar(m[i]);
    }
  }

  /** The blank line, first line and headers of a head without headers. */
  lemma BareHeadReads(lim: Limits, first: string, body: string)
    requires NoBreaks(first)
    ensures var text, n := HeadOf(first, []) + body, |HeadOf(first, [])| - 4;
            && FindBlank(text, 0) == n && FirstLine(text[..n]) == first
            && ScanFrom(lim, HeaderBlock(text[..n]), 0, NOTHING) == Ok(NOTHING)
  {
    var text, n := HeadOf(first, []) + body, |first|;
    assert text == first + CRLF + (CRLF + body);
    BlankThere(first, body);
    forall k | 0 <= k < n ensures !BlankAt(text, k) {
      assert text[k] == first[k];
    }
    FindBlankFirst(text, 0);
    assert text[..n] == first;
    FindPairFirst(first, '\r', '\n', 0);
  }

  /** First line and header loop of any well-formed head. */
  lemma AnyHeadReads(lim: Limits, first: string, hs: seq<Header>, body: string)
    requires NoBreaks(first) && AllValid(hs) && Readable(lim, hs)
    ensures var text, n := HeadOf(first, hs) + body, |HeadOf(first, hs)| - 4;
            && FindBlank(text, 0) == n && FirstLine(text[..n]) == first
            && var r := ScanFrom(lim, HeaderBlock(text[..n]), 0, NOTHING);
            && r.Ok? && r.value.headers == Lowered(hs)
  {
    if hs == [] {
      BareHeadReads(lim, first, body);
    } else {
      HeadReads(first, hs, body);
      ScanReads(lim, hs);
    }
  }

  lemma HeadAccepted(lim: Limits, l: Line, hs: seq<Header>, body: string, rest: string)
    requires WellFormed(lim, l, hs, body)
    ensures var text, n := RequestHead(l, hs) + rest, |RequestHead(l, hs)| - 4;
            && FindBlank(text, 0) == n
            && ParseHead(lim, text[..n]) ==
               Ok(Head(Request(l.verb, l.target, Lowered(hs), l.version), |body|, SaysChunkedOnWire(hs)))
  {
    var first := l.verb + " " + (l.target + " " + ("HTTP/" + l.version));
    LineReads(l);
    AdmissibleExactly(lim, hs);
    AnyHeadReads(lim, first, hs, rest);
    var head := (HeadOf(first, hs) + rest)[..|HeadOf(first, hs)| - 4];
    ScanAgrees(lim, HeaderBlock(head));
    HeadFits(lim, head, l, ScanFrom(lim, HeaderBlock(head), 0, NOTHING).value, hs, |body|);
  }

  lemma HeadFits(lim: Limits, head: string, l: Line, s: Scan, hs: seq<Header>, length: nat)
    requires RequestLine(FirstLine(head)) == Ok(l) && ScanFrom(lim, HeaderBlock(head), 0, NOTHING) == Ok(s)
    requires Agrees(lim, s) && s.headers == Lowered(hs)
    requires !(HasLength(hs) && HasEncoding(hs)) && BodyLengthIs(lim, hs, length)
    ensures ParseHead(lim, head) ==
            Ok(Head(Request(l.verb, l.target, Lowered(hs), l.version), length, SaysChunkedOnWire(hs)))
  {
    ScanOnWire(lim, s, hs);
    LengthsAgree(lim, hs, length, if s.contentLength < 0 then 0 else s.contentLength);
    ChunkedEncodes(hs);
    ParseHeadReads(lim, head, l, s);
  }

  lemma ParseHeadReads(lim: Limits, head: string, l: Line, s: Scan)
    requires RequestLine(FirstLine(head)) == Ok(l) && ScanFrom(lim, HeaderBlock(head), 0, NOTHING) == Ok(s)
    requires !(s.contentLength >= 0 && s.hasTe)
    ensures ParseHead(lim, head) ==
            Ok(Head(Request(l.verb, l.target, s.headers, l.version),
                    if s.chunked || s.contentLength < 0 then 0 else s.contentLength, s.chunked))
  {}

  lemma LengthsAgree(lim: Limits, hs: seq<Header>, m: int, n: int)
    requires BodyLengthIs(lim, hs, m) && BodyLengthIs(lim, hs, n)
    ensures m == n
  {
    if i :| 0 <= i < |hs| && IsContentLength(hs[i].0) {
      assert lim.parseInt(hs[i].1) == Some(m);
    }
  }

  /**
   Every well-formed request is accepted and read back as it was written,
   whatever follows it on the connection.
   */
  lemma RequestReadsBack(lim: Limits, l: Line, hs: seq<Header>, body: string, rest: string)
    requires WellFormed(lim, l, hs, body)
    ensures var head := RequestHead(l, hs);
            Parse(lim, head + (body + rest)) ==
            Done(Request(l.verb, l.target, Lowered(hs), l.version), body, |head| + |body|, SaysChunkedOnWire(hs))
  {
    var request, chunked := Request(l.verb, l.target, Lowered(hs), l.version), SaysChunkedOnWire(hs);
    HeadAccepted(lim, l, hs, body, body + rest);
    ParseReads(lim, RequestHead(l, hs), body, rest, request, chunked);
  }

  lemma ParseReads(lim: Limits, head: string, body: string, rest: string, request: Request, chunked: bool)
    requires |head| >= 4 && FindBlank(head + (body + rest), 0) == |head| - 4 <= lim.maxHeaderSize
    requires ParseHead(lim, (head + (body + rest))[..|head| - 4]) == Ok(Head(request, |body|, chunked))
    ensures Parse(lim, head + (body + rest)) == Done(request, body, |head| + |body|, chunked)
  {
    FrameReads(H1(lim), head, body, rest, Head(request, |body|, chunked));
  }

  /** A complete buffer whose head is read is a complete request. */
  lemma FrameReads(rd: Reader, head: string, body: string, rest: string, p: Head)
    requires |head| >= 4 && FindBlank(head + (body + rest), 0) == |head| - 4 <= rd.maxHeaderSize
    requires rd.readHead((head + (body + rest))[..|head| - 4]) == Ok(p) && p.bodyLength == |body|
    ensures Frame(rd, head + (body + rest)) == Done(p.request, body, |head| + |body|, p.chunked)
  {
    var text := head + (body + rest);
    assert text[|head|..|head| + |body|] == body;
  }

  /** Of an accepted request every proper prefix waits, unless it is over the limit without its blank line. */
  lemma PrefixWaitsExactly(rd: Reader, data: string, n: nat)
    requires Frame(rd, data).Done? && n < Frame(rd, data).consumed
    ensures var h := FindBlank(data, 0);
            Frame(rd, data[..n]) == if n <= rd.maxHeaderSize || n >= h + 4 then NeedMore else Failed(HeadersTooLarge)
  {
    var h, a := FindBlank(data, 0), data[..n];
    FrameDone(rd, data);
    FindBlankFirst(data, 0);
    FindBlankFirst(a, 0);
    if n >= h + 4 {
      assert BlankAt(a, h);
      assert BlankAt(data, FindBlank(a, 0));
      assert a[..h] == data[..h];
    } else if FindBlank(a, 0) != -1 {
      assert BlankAt(data, FindBlank(a, 0));
      assert false;
    }
  }
}
