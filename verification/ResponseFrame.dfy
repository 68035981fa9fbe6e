/**
 The response framer (src/pounce/_response_frame.py), and the parser's header
 loop run over what it emits.
 */
module ResponseFrame {
  import opened Wrappers
  import opened Text
  import opened FastH1
  import opened FastH1Accepted

  predicate NoBreaks(s: string) {
    '\r' !in s && '\n' !in s
  }

  /** `_validate_header_bytes` accepts. */
  predicate Valid(h: Header) {
    NoBreaks(h.0) && ':' !in h.0 && NoBreaks(h.1)
  }

  predicate AllValid(hs: seq<Header>) {
    forall i :: 0 <= i < |hs| ==> Valid(hs[i])
  }

  function SuccessReason(status: nat): (r: string)
    ensures NoBreaks(r)
  {
    match status
    case 201 => "Created"
    case 204 => "No Content"
    case 301 => "Moved Permanently"
    case 302 => "Found"
    case 303 => "See Other"
    case 304 => "Not Modified"
    case _ => "OK"
  }

  function RequestErrorReason(status: nat): (r: string)
    ensures NoBreaks(r)
  {
    match status
    case 400 => "Bad Request"
    case 401 => "Unauthorized"
    case 403 => "Forbidden"
    case 404 => "Not Found"
    case _ => "OK"
  }

  function ClientErrorReason(status: nat): (r: string)
    ensures NoBreaks(r)
  {
    match status
    case 405 => "Method Not Allowed"
    case 413 => "Content Too Large"
    case 422 => "Unprocessable Entity"
    case _ => RequestErrorReason(status)
  }

  function ServerErrorReason(status: nat): (r: string)
    ensures NoBreaks(r)
  {
    match status
    case 500 => "Internal Server Error"
    case 501 => "Not Implemented"
    case 502 => "Bad Gateway"
    case 503 => "Service Unavailable"
    case _ => "OK"
  }

  function Reason(status: nat): (r: string)
    ensures NoBreaks(r)
  {
    if status < 400 then SuccessReason(status)
    else if status < 500 then ClientErrorReason(status)
    else ServerErrorReason(status)
  }

  const PROTOCOL := "HTTP/1.1 "

  function StatusLine(status: nat): (r: string)
    ensures NoBreaks(r)
  {
    PROTOCOL + Decimal(status) + " " + Reason(status)
  }

  function LineOf(h: Header): string {
    h.0 + ": " + h.1
  }

  /** Header lines, each ended by CRLF. */
  function Lines(hs: seq<Header>): string {
    if hs == [] then "" else LineOf(hs[0]) + CRLF + Lines(hs[1..])
  }

  /** The same lines with CRLF between them only. */
  function Block(hs: seq<Header>): string {
    if hs == [] then ""
    else if |hs| == 1 then LineOf(hs[0])
    else LineOf(hs[0]) + CRLF + Block(hs[1..])
  }

  /** A first line, header lines and the blank line. */
  function HeadOf(first: string, hs: seq<Header>): string {
    first + CRLF + Lines(hs) + CRLF
  }

  /** Everything the framer puts before the body. */
  function HeadText(status: nat, hs: seq<Header>): string {
    HeadOf(StatusLine(status), hs)
  }

  lemma SecondWord(first: string, digits: string, rest: string)
    requires ' ' !in digits
    ensures var s, n := first + (digits + (" " + rest)), |first|;
            FindByte(s, ' ', n) == n + |digits| && s[..n] == first && s[n..n + |digits|] == digits
  {
    var s, n := first + (digits + (" " + rest)), |first|;
    forall k | n <= k < n + |digits| ensures s[k] != ' ' {
      assert s[k] == digits[k - n];
    }
    assert s[n + |digits|] == ' ';
    FoundAt(s, ' ', n, n + |digits|);
  }

  lemma Regrouped(a: string, b: string, c: string, d: string)
    ensures a + b + c + d == a + (b + (c + d))
  {}

  /** The status line carries the status code as its second word. */
  lemma StatusLineCode(status: nat)
    ensures var s, end := StatusLine(status), FindByte(StatusLine(status), ' ', |PROTOCOL|);
            |PROTOCOL| <= end && s[..|PROTOCOL|] == "HTTP/1.1 " && DigitsValue(s[|PROTOCOL|..end]) == status
  {
    var d := Decimal(status);
    Regrouped(PROTOCOL, d, " ", Reason(status));
    SecondWord(PROTOCOL, d, Reason(status));
    DecimalReadsBack(status);
  }

  /** The server line, the cached date line, and the response's own headers. */
  function AllHeaders(server: string, date: Option<string>, headers: seq<Header>): seq<Header> {
    [("server", server)] + (if date.Some? then [("date", date.value)] else []) + headers
  }

  lemma {:induction false} LinesConcat(a: seq<Header>, b: seq<Header>)
    ensures Lines(a + b) == Lines(a) + Lines(b)
  {
    if a == [] {
      assert a + b == b;
    } else {
      assert (a + b)[1..] == a[1..] + b;
      LinesConcat(a[1..], b);
    }
  }

  lemma LinesOne(h: Header)
    ensures Lines([h]) == LineOf(h) + CRLF
  {
    assert [h][1..] == [];
  }

  /** The header loop of the framer; None when a header would break out of its line. */
  method EmitHeaders(headers: seq<Header>) returns (text: Option<string>)
    ensures text.Some? <==>
            forall i :: 0 <= i < |headers| ==>
              && '\r' !in headers[i].0 && '\n' !in headers[i].0 && ':' !in headers[i].0
              && '\r' !in headers[i].1 && '\n' !in headers[i].1
    ensures text.Some? ==> text.value == Lines(headers)
  {
    var parts := "";
    for i := 0 to |headers|
      invariant AllValid(headers[..i])
      invariant parts == Lines(headers[..i])
    {
      var (name, value) := headers[i];
      if !Valid((name, value)) {
        return None;
      }
      assert headers[..i + 1] == headers[..i] + [headers[i]];
      LinesConcat(headers[..i], [headers[i]]);
      LinesOne(headers[i]);
      parts := parts + (name + ": " + value + CRLF);
    }
    assert headers[..|headers|] == headers;
    assert forall i :: 0 <= i < |headers| ==> Valid(headers[i]);
    text := Some(parts);
  }

  /** A ready-made Date line, as `get_date_header_bytes` builds it. */
  function DateLine(date: Option<string>): string {
    if date.Some? then "date: " + date.value + CRLF else ""
  }

  method Serialize(status: nat, headers: seq<Header>, server: string, date: Option<string>)
    returns (head: Option<string>)
    ensures head.Some? <==> AllValid(headers)
    ensures head.Some? ==>
              head.value ==
              HeadText(status, [("server", server)] + (if date.Some? then [("date", date.value)] else []) + headers)
  {
    var lines := EmitHeaders(headers);
    if lines == None {
      return None;
    }
    var first, own := StatusLine(status) + CRLF, "server: " + server + CRLF;
    head := Some(first + own + DateLine(date) + lines.value + CRLF);
    AllHeadersText(server, date, headers);
    Regroup(first, own, DateLine(date), lines.value);
  }

  lemma Regroup(a: string, b: string, c: string, d: string)
    ensures a + b + c + d == a + (b + c + d)
  {}

  lemma AllHeadersText(server: string, date: Option<string>, headers: seq<Header>)
    ensures Lines(AllHeaders(server, date, headers)) == ("server: " + server + CRLF) + DateLine(date) + Lines(headers)
  {
    var s, d := [("server", server)], if date.Some? then [("date", date.value)] else [];
    LinesConcat(s + d, headers);
    LinesConcat(s, d);
    LinesOne(("server", server));
    assert LineOf(("server", server)) == "server: " + server;
    if date.Some? {
      LinesOne(("date", date.value));
      assert LineOf(("date", date.value)) == "date: " + date.value;
    }
  }

  // ---------------------------------------------------- the first blank line

  lemma LineShape(h: Header)
    requires Valid(h)
    ensures |LineOf(h)| >= 2 && NoBreaks(LineOf(h))
  {}

  /** In a run of header lines no blank line begins before the last line's own end. */
  lemma {:induction false} NoBlankInside(hs: seq<Header>, tail: string, k: nat)
    requires hs != [] && AllValid(hs) && k + 2 < |Lines(hs)|
    ensures !BlankAt(Lines(hs) + tail, k)
    decreases |hs|
  {
    var l, rest := LineOf(hs[0]), Lines(hs[1..]);
    var s := Lines(hs) + tail;
    LineShape(hs[0]);
    assert s == l + CRLF + (rest + tail);
    if k < |l| {
      assert s[k] == l[k];
    } else if |hs| > 1 {
      LineShape(hs[1]);
      assert rest[0] == LineOf(hs[1])[0];
      if k >= |l| + 2 {
        NoBlankInside(hs[1..], tail, k - |l| - 2);
        assert forall j :: |l| + 2 <= j < |s| ==> s[j] == (rest + tail)[j - |l| - 2];
      } else {
        assert s[|l| + 2] == rest[0] && s[|l| + 1] == '\n';
      }
    }
  }

  lemma {:induction false} LinesEnd(hs: seq<Header>)
    requires hs != []
    ensures Lines(hs) == Block(hs) + CRLF
  {
    if |hs| == 1 {
      LinesOne(hs[0]);
      assert hs == [hs[0]];
    } else {
      LinesEnd(hs[1..]);
    }
  }

  lemma NoBlankBefore(l: string, hs: seq<Header>, tail: string, k: nat)
    requires NoBreaks(l) && hs != [] && AllValid(hs) && k < |l| + |Lines(hs)|
    ensures !BlankAt(l + CRLF + (Lines(hs) + tail), k)
  {
    var lines := Lines(hs);
    var s := l + CRLF + (lines + tail);
    if k >= |l| + 2 {
      NoBlankInside(hs, tail, k - |l| - 2);
      assert s[|l| + 2..] == lines + tail;
    } else if k >= |l| {
      LineShape(hs[0]);
      assert s[|l| + 2] == lines[0] == LineOf(hs[0])[0] && s[|l| + 1] == '\n';
    } else {
      assert s[k] == l[k];
    }
  }

  lemma BlankThere(a: string, body: string)
    ensures BlankAt(a + CRLF + (CRLF + body), |a|)
  {}

  /** For valid headers the first blank line of head + body is exactly the end of the head. */
  lemma FirstBlankEnds(first: string, hs: seq<Header>, body: string)
    requires NoBreaks(first) && hs != [] && AllValid(hs)
    ensures FindBlank(HeadOf(first, hs) + body, 0) == |HeadOf(first, hs)| - 4
  {
    var lines := Lines(hs);
    var s := HeadOf(first, hs) + body;
    var n := |first| + |lines|;
    LinesEnd(hs);
    BlankThere(first + CRLF + Block(hs), body);
    assert s == first + CRLF + Block(hs) + CRLF + (CRLF + body);
    assert BlankAt(s, n);
    assert s == first + CRLF + (lines + (CRLF + body));
    forall k | 0 <= k < n ensures !BlankAt(s, k) {
      NoBlankBefore(first, hs, CRLF + body, k);
    }
    FindBlankFirst(s, 0);
  }

  lemma FirstBlankEndsHead(status: nat, hs: seq<Header>, body: string)
    requires hs != [] && AllValid(hs)
    ensures FindBlank(HeadText(status, hs) + body, 0) == |HeadText(status, hs)| - 4
  {
    FirstBlankEnds(StatusLine(status), hs, body);
  }

  // ------------------------------------------- reading the headers back in

  /** The parser splits an emitted line where the framer joined it. */
  lemma SplitUndoesLine(h: Header)
    requires ':' !in h.0
    ensures SplitHeader(LineOf(h)) == Some(h)
  {
    var line, n := LineOf(h), |h.0|;
    FindPairFirst(line, ':', ' ', 0);
    assert PairAt(line, ':', ' ', n);
    forall k | 0 <= k < n ensures !PairAt(line, ':', ' ', k) {
      assert line[k] == h.0[k];
    }
    assert FindPair(line, ':', ' ', 0) == n;
    assert line[..n] == h.0 && line[n + 2..] == h.1;
  }

  /** The loop body applied to a list of headers, first to last. */
  function AddAll(lim: Limits, s: Scan, hs: seq<Header>): Result<Scan>
    decreases hs
  {
    if hs == [] then Ok(s)
    else
      match AddHeader(lim, s, hs[0])
      case Err(e) => Err(e)
      case Ok(s') => AddAll(lim, s', hs[1..])
  }

  /** Where the line that starts at `pos` ends. */
  lemma LineEndsThere(block: string, pos: nat, l: string, rest: string)
    requires pos <= |block| && NoBreaks(l)
    requires block[pos..] == l + rest && (rest == "" || StartsWith(rest, CRLF))
    ensures LineEnd(block, pos) == pos + |l| && block[pos..pos + |l|] == l
  {
    FindPairFirst(block, '\r', '\n', pos);
    var e := pos + |l|;
    forall k | pos <= k < e ensures block[k] == l[k - pos] {
      assert block[k] == block[pos..][k - pos];
    }
    if rest != "" {
      assert rest[..2] == CRLF;
      assert block[e] == block[pos..][|l|] == rest[0] == '\r';
      assert block[e + 1] == block[pos..][|l| + 1] == rest[1] == '\n';
      assert PairAt(block, '\r', '\n', e);
    } else {
      assert |block| == e;
    }
  }

  /** The headers on the lines from `pos` on. */
  function HeadersFrom(block: string, pos: nat): seq<Header>
    decreases |block| - pos
  {
    if pos >= |block| then []
    else
      var e := LineEnd(block, pos);
      match SplitHeader(block[pos..e])
      case None => HeadersFrom(block, e + 2)
      case Some(h) => [h] + HeadersFrom(block, e + 2)
  }

  /** The loop is its body applied to the headers on the lines. */
  lemma {:induction false} ScanIsAddAll(lim: Limits, block: string, pos: nat, s: Scan)
    ensures ScanFrom(lim, block, pos, s) == AddAll(lim, s, HeadersFrom(block, pos))
    decreases |block| - pos
  {
    if pos < |block| {
      var e := LineEnd(block, pos);
      var h := SplitHeader(block[pos..e]);
      if h == None {
        ScanIsAddAll(lim, block, e + 2, s);
      } else {
        var hs := HeadersFrom(block, e + 2);
        assert ([h.value] + hs)[1..] == hs;
        var added := AddHeader(lim, s, h.value);
        if added.Ok? {
          ScanIsAddAll(lim, block, e + 2, added.value);
        }
      }
    }
  }

  /** One emitted line is read back as its header. */
  lemma OneLineBack(block: string, pos: nat, h: Header, rest: string)
    requires pos <= |block| && Valid(h)
    requires block[pos..] == LineOf(h) + rest && (rest == "" || StartsWith(rest, CRLF))
    ensures HeadersFrom(block, pos) == [h] + HeadersFrom(block, pos + |LineOf(h)| + 2)
  {
    LineShape(h);
    LineEndsThere(block, pos, LineOf(h), rest);
    SplitUndoesLine(h);
  }

  /** From `pos` on, `block` is `text`. */
  predicate TailIs(block: string, pos: nat, text: string) {
    pos + |text| == |block| && forall k :: 0 <= k < |text| ==> block[pos + k] == text[k]
  }

  lemma TailSlice(block: string, pos: nat, text: string)
    requires TailIs(block, pos, text)
    ensures pos <= |block| && block[pos..] == text
  {}

  lemma LastLineBack(block: string, pos: nat, h: Header)
    requires Valid(h) && TailIs(block, pos, LineOf(h))
    ensures HeadersFrom(block, pos) == [h]
  {
    TailSlice(block, pos, LineOf(h));
    assert LineOf(h) + "" == LineOf(h);
    OneLineBack(block, pos, h, "");
  }

  lemma FirstLineBack(block: string, pos: nat, h: Header, rest: string)
    requires Valid(h) && TailIs(block, pos, LineOf(h) + CRLF + rest)
    ensures var next := pos + |LineOf(h)| + 2;
            HeadersFrom(block, pos) == [h] + HeadersFrom(block, next) && TailIs(block, next, rest)
  {
    var l := LineOf(h);
    var text, next := l + CRLF + rest, pos + |l| + 2;
    assert text == l + (CRLF + rest);
    TailSlice(block, pos, text);
    OneLineBack(block, pos, h, CRLF + rest);
    forall k | 0 <= k < |rest| ensures block[next + k] == rest[k] {
      assert block[pos + (|l| + 2 + k)] == text[|l| + 2 + k];
    }
  }

  lemma BlockCons(hs: seq<Header>)
    requires |hs| > 1 && AllValid(hs)
    ensures Valid(hs[0]) && AllValid(hs[1..]) && Block(hs) == LineOf(hs[0]) + CRLF + Block(hs[1..])
  {}

  /** The parser finds on the lines of a block the headers the framer put there. */
  lemma {:induction false} BlockReadsBack(block: string, pos: nat, hs: seq<Header>)
    requires hs != [] && AllValid(hs)
    requires TailIs(block, pos, Block(hs))
    ensures HeadersFrom(block, pos) == hs
    decreases |hs|, 1
  {
    if |hs| == 1 {
      LastLineBack(block, pos, hs[0]);
      assert hs == [hs[0]];
    } else {
      BlockCons(hs);
      OneMoreBack(block, pos, hs[0], hs[1..]);
      assert hs == [hs[0]] + hs[1..];
    }
  }

  lemma {:induction false} OneMoreBack(block: string, pos: nat, h: Header, tail: seq<Header>)
    requires tail != [] && Valid(h) && AllValid(tail)
    requires TailIs(block, pos, LineOf(h) + CRLF + Block(tail))
    ensures HeadersFrom(block, pos) == [h] + tail
    decreases |tail|, 2
  {
    FirstLineBack(block, pos, h, Block(tail));
    BlockReadsBack(block, pos + |LineOf(h)| + 2, tail);
  }

  /** The parser's view of an emitted head is the first line and the header block that were written. */
  lemma HeadBlock(first: string, hs: seq<Header>)
    requires NoBreaks(first) && hs != []
    ensures var head := HeadOf(first, hs);
            && HeaderBlock(head[..|head| - 4]) == Block(hs)
            && FirstLine(head[..|head| - 4]) == first
  {
    var head := HeadOf(first, hs);
    LinesEnd(hs);
    var h := first + CRLF + Block(hs);
    assert head == h + CRLF + CRLF;
    assert head[..|head| - 4] == h;
    FindPairFirst(h, '\r', '\n', 0);
    assert PairAt(h, '\r', '\n', |first|);
    forall k | 0 <= k < |first| ensures !PairAt(h, '\r', '\n', k) {
      assert h[k] == first[k];
    }
    assert h[|first| + 2..] == Block(hs) && h[..|first|] == first;
  }

  predicate HeaderOk(lim: Limits, h: Header) {
    && NameOk(h.0)
    && (Lower(h.0) == "content-length" ==> lim.parseInt(h.1).Some? && lim.parseInt(h.1).value >= 0)
  }

  /** The lists the parser's rules let through. */
  ghost predicate Readable(lim: Limits, hs: seq<Header>) {
    && (hs == [] || |hs| <= lim.maxHeaders)
    && (forall i :: 0 <= i < |hs| ==> HeaderOk(lim, hs[i]))
    && Named(Lowered(hs), "content-length") <= 1
    && Named(Lowered(hs), "host") <= 1
  }

  function Lowered(hs: seq<Header>): (r: seq<Header>)
    ensures |r| == |hs|
    ensures forall i :: 0 <= i < |hs| ==> r[i] == (Lower(hs[i].0), hs[i].1)
  {
    seq(|hs|, i requires 0 <= i < |hs| => (Lower(hs[i].0), hs[i].1))
  }

  lemma LoweredAppend(hs: seq<Header>, h: Header)
    ensures Lowered(hs + [h]) == Lowered(hs) + [(Lower(h.0), h.1)]
  {}

  lemma {:induction false} NamedSplit(a: seq<Header>, b: seq<Header>, name: string)
    ensures Named(a + b, name) == Named(a, name) + Named(b, name)
    decreases |b|
  {
    if b == [] {
      assert a + b == a;
    } else {
      var n := |b| - 1;
      assert (a + b)[..|a| + n] == a + b[..n];
      NamedSplit(a, b[..n], name);
    }
  }

  /** From a consistent state, the remaining headers are accepted exactly when the whole list is readable. */
  lemma {:induction false} AddAllExactly(lim: Limits, s: Scan, done: seq<Header>, hs: seq<Header>)
    requires Agrees(lim, s) && s.headers == Lowered(done) && Readable(lim, done)
    ensures AddAll(lim, s, hs).Ok? <==> Readable(lim, done + hs)
    ensures AddAll(lim, s, hs).Ok? ==> AddAll(lim, s, hs).value.headers == Lowered(done + hs)
    decreases |hs|
  {
    if hs == [] {
      assert done + hs == done;
    } else {
      var h, more := hs[0], done + [hs[0]];
      assert done + hs == more + hs[1..];
      AddOneExactly(lim, s, done, h);
      if AddHeader(lim, s, h).Ok? {
        AddAgrees(lim, s, h);
        LoweredAppend(done, h);
        AddAllExactly(lim, AddHeader(lim, s, h).value, more, hs[1..]);
      } else {
        ReadablePrefix(lim, more, hs[1..]);
      }
    }
  }

  /** One header is refused for itself, for the room left, or as a second of its kind. */
  lemma AddHeaderExactly(lim: Limits, s: Scan, h: Header)
    ensures AddHeader(lim, s, h).Ok? <==>
            && HeaderOk(lim, h) && |s.headers| < lim.maxHeaders
            && (Lower(h.0) == "content-length" ==> s.contentLength == -1)
            && (Lower(h.0) == "host" ==> s.hosts == 0)
  {}

  lemma AddOneExactly(lim: Limits, s: Scan, done: seq<Header>, h: Header)
    requires Agrees(lim, s) && s.headers == Lowered(done) && Readable(lim, done)
    ensures AddHeader(lim, s, h).Ok? <==> Readable(lim, done + [h])
  {
    var more := done + [h];
    AddHeaderExactly(lim, s, h);
    assert Lowered(more) == Lowered(done) + [(Lower(h.0), h.1)];
    NamedAppend(Lowered(done), (Lower(h.0), h.1), "content-length");
    NamedAppend(Lowered(done), (Lower(h.0), h.1), "host");
    assert more[|done|] == h;
    assert forall i :: 0 <= i < |done| ==> more[i] == done[i];
  }

  lemma ReadablePrefix(lim: Limits, a: seq<Header>, b: seq<Header>)
    ensures Readable(lim, a + b) ==> Readable(lim, a)
  {
    assert Lowered(a + b) == Lowered(a) + Lowered(b);
    NamedSplit(Lowered(a), Lowered(b), "content-length");
    NamedSplit(Lowered(a), Lowered(b), "host");
    assert forall i :: 0 <= i < |a| ==> (a + b)[i] == a[i];
  }

  /**
   Framer and parser undo each other: the parser's header loop over an emitted
   head recovers the list with lower-cased names, exactly when the list is
   within the parser's own rules.
   */
  lemma FramerParserRoundTrip(lim: Limits, status: nat, hs: seq<Header>, body: string)
    requires hs != [] && AllValid(hs)
    ensures var text, blank := HeadText(status, hs) + body, FindBlank(HeadText(status, hs) + body, 0);
            && blank >= 0
            && var r := ScanFrom(lim, HeaderBlock(text[..blank]), 0, NOTHING);
            && (r.Ok? <==> Readable(lim, hs))
            && (r.Ok? ==> r.value.headers == Lowered(hs))
  {
    HeadReads(StatusLine(status), hs, body);
    ScanReads(lim, hs);
  }

  /** What the parser sees of a head, whatever follows it. */
  lemma HeadReads(first: string, hs: seq<Header>, body: string)
    requires NoBreaks(first) && hs != [] && AllValid(hs)
    ensures var text, n := HeadOf(first, hs) + body, |HeadOf(first, hs)| - 4;
            && FindBlank(text, 0) == n
            && FirstLine(text[..n]) == first && HeaderBlock(text[..n]) == Block(hs)
  {
    var head := HeadOf(first, hs);
    FirstBlankEnds(first, hs, body);
    assert (head + body)[..|head| - 4] == head[..|head| - 4];
    HeadBlock(first, hs);
  }

  /** The header loop over an emitted block. */
  lemma ScanReads(lim: Limits, hs: seq<Header>)
    requires hs != [] && AllValid(hs)
    ensures var r := ScanFrom(lim, Block(hs), 0, NOTHING);
            && (r.Ok? <==> Readable(lim, hs))
            && (r.Ok? ==> r.value.headers == Lowered(hs))
  {
    BlockReadsBack(Block(hs), 0, hs);
    ScanIsAddAll(lim, Block(hs), 0, NOTHING);
    assert [] + hs == hs;
    AddAllExactly(lim, NOTHING, [], hs);
  }
}
