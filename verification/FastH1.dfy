/**
 The fast HTTP/1.1 request parser (src/pounce/_fast_h1.py).

 Bytes are characters; `int()` is a parameter, because Python's own syntax for
 integers is not the point here.  `Parse` is the parser as a function of the
 buffer; `ParseRequest` is the original's loop over the header block, proved to
 compute it.
 */
module FastH1 {
  import opened Wrappers
  import opened Text

  const CRLF := "\r\n"

  // ------------------------------------------------------------ byte search

  /** `data.find(pat, from)`: the lowest match at or after `from`, or -1. */
  function Find(data: string, pat: string, from: nat): (r: int)
    ensures r == -1 || from <= r <= |data| - |pat|
    decreases |data| - from
  {
    if from + |pat| > |data| then -1
    else if data[from..from + |pat|] == pat then from
    else Find(data, pat, from + 1)
  }

  /** `find` of a single byte. */
  function FindByte(s: string, c: char, from: nat): (r: int)
    ensures r == -1 || from <= r < |s|
    decreases |s| - from
  {
    if from >= |s| then -1 else if s[from] == c then from else FindByte(s, c, from + 1)
  }

  lemma {:induction false} FindByteFirst(s: string, c: char, from: nat)
    ensures var r := FindByte(s, c, from);
            && (r != -1 ==> s[r] == c)
            && forall k :: from <= k < (if r == -1 then |s| else r) ==> s[k] != c
    decreases |s| - from
  {
    if from < |s| && s[from] != c {
      FindByteFirst(s, c, from + 1);
    }
  }

  lemma FoundAt(s: string, c: char, from: nat, n: nat)
    requires from <= n < |s| && s[n] == c && forall k :: from <= k < n ==> s[k] != c
    ensures FindByte(s, c, from) == n
  {
    FindByteFirst(s, c, from);
  }

  lemma NotFound(s: string, c: char, from: nat)
    requires forall k :: from <= k < |s| ==> s[k] != c
    ensures FindByte(s, c, from) == -1
  {
    FindByteFirst(s, c, from);
  }

  predicate PairAt(s: string, a: char, b: char, i: int) {
    0 <= i && i + 2 <= |s| && s[i] == a && s[i + 1] == b
  }

  /** `find` of two bytes: CRLF, or a colon and a space. */
  function FindPair(s: string, a: char, b: char, from: nat): (r: int)
    ensures r == -1 || from <= r <= |s| - 2
    decreases |s| - from
  {
    if from + 2 > |s| then -1
    else if PairAt(s, a, b, from) then from
    else FindPair(s, a, b, from + 1)
  }

  lemma {:induction false} FindPairFirst(s: string, a: char, b: char, from: nat)
    ensures var r := FindPair(s, a, b, from);
            && (r != -1 ==> PairAt(s, a, b, r))
            && forall k :: from <= k && PairAt(s, a, b, k) ==> 0 <= r <= k
    decreases |s| - from
  {
    if from + 2 <= |s| && !PairAt(s, a, b, from) {
      FindPairFirst(s, a, b, from + 1);
    }
  }

  function FindCrlf(s: string, from: nat): int {
    FindPair(s, '\r', '\n', from)
  }

  /** An empty line: CRLF twice. */
  predicate BlankAt(s: string, i: int) {
    PairAt(s, '\r', '\n', i) && PairAt(s, '\r', '\n', i + 2)
  }

  function FindBlank(s: string, from: nat): (r: int)
    ensures r == -1 || from <= r <= |s| - 4
    decreases |s| - from
  {
    if from + 4 > |s| then -1
    else if BlankAt(s, from) then from
    else FindBlank(s, from + 1)
  }

  lemma {:induction false} FindBlankFirst(s: string, from: nat)
    ensures var r := FindBlank(s, from);
            && (r != -1 ==> BlankAt(s, r))
            && forall k :: from <= k && BlankAt(s, k) ==> 0 <= r <= k
    decreases |s| - from
  {
    if from + 4 <= |s| && !BlankAt(s, from) {
      FindBlankFirst(s, from + 1);
    }
  }

  /** A blank line found stays the first one when bytes are appended. */
  lemma BlankStable(a: string, b: string)
    requires FindBlank(a, 0) != -1
    ensures FindBlank(a + b, 0) == FindBlank(a, 0)
  {
    FindBlankFirst(a, 0);
    FindBlankFirst(a + b, 0);
    assert BlankAt(a + b, FindBlank(a, 0));
    assert BlankAt(a, FindBlank(a + b, 0));
  }

  /** A blank line that appears only after appending reaches past the old end. */
  lemma BlankLate(a: string, b: string)
    requires FindBlank(a, 0) == -1 && FindBlank(a + b, 0) != -1
    ensures FindBlank(a + b, 0) + 4 > |a| && BlankAt(a + b, FindBlank(a + b, 0))
  {
    FindBlankFirst(a, 0);
    FindBlankFirst(a + b, 0);
    assert FindBlank(a + b, 0) + 4 <= |a| ==> BlankAt(a, FindBlank(a + b, 0));
  }

  // ---------------------------------------------------------------- results

  datatype Error =
    | HeadersTooLarge | MalformedRequestLine | BadMethod | BadTarget | BadVersion
    | BadHeaderName | TooManyHeaders | DuplicateContentLength | BadContentLength
    | NegativeContentLength | DuplicateHost | SmugglingClTe

  datatype Result<+T> = Ok(value: T) | Err(error: Error)

  type Header = (string, string)

  datatype Request = Request(verb: string, target: string, headers: seq<Header>, version: string)

  datatype Outcome =
    | NeedMore
    | Failed(error: Error)
    | Done(request: Request, body: string, consumed: nat, chunked: bool)

  datatype Limits = Limits(maxHeaders: int, maxHeaderSize: int, parseInt: string -> Option<int>)

  // ----------------------------------------------------------- request line

  predicate IsTchar(c: char) {
    || 'a' <= c <= 'z' || 'A' <= c <= 'Z' || '0' <= c <= '9'
    || c in "!#$%&'*+-.^_`|~"
  }

  predicate IsToken(m: string) {
    m != [] && forall i :: 0 <= i < |m| ==> IsTchar(m[i])
  }

  /** The method pattern; its `$` also matches before one final line feed. */
  predicate MethodMatches(m: string) {
    IsToken(m) || (m != [] && m[|m| - 1] == '\n' && IsToken(m[..|m| - 1]))
  }

  datatype Line = Line(verb: string, target: string, version: string)

  /** Cut at the first two spaces; None when there are fewer. */
  function CutLine(line: string): Option<Line> {
    var sp1 := FindByte(line, ' ', 0);
    if sp1 == -1 then None
    else
      var sp2 := FindByte(line, ' ', sp1 + 1);
      if sp2 == -1 then None else Some(Line(line[..sp1], line[sp1 + 1..sp2], line[sp2 + 1..]))
  }

  function CheckLine(l: Line): (r: Result<Line>)
    ensures r.Err? ==> r.error != HeadersTooLarge
  {
    if !MethodMatches(l.verb) then Err(BadMethod)
    else if '\0' in l.target || '\r' in l.target || '\n' in l.target then Err(BadTarget)
    else if l.version == "HTTP/1.1" then Ok(l.(version := "1.1"))
    else if l.version == "HTTP/1.0" then Ok(l.(version := "1.0"))
    else Err(BadVersion)
  }

  function RequestLine(line: string): (r: Result<Line>)
    ensures r.Err? ==> r.error != HeadersTooLarge
  {
    match CutLine(line)
    case None => Err(MalformedRequestLine)
    case Some(l) => CheckLine(l)
  }

  // ---------------------------------------------------------------- headers

  function LowerChar(c: char): char {
    if 'A' <= c <= 'Z' then (c as int + 32) as char else c
  }

  function Lower(s: string): (r: string)
    ensures |r| == |s|
  {
    seq(|s|, i requires 0 <= i < |s| => LowerChar(s[i]))
  }

  /** A header line at ": ", else at ":" with the value's leading blanks dropped, else not a header. */
  function SplitHeader(line: string): Option<Header> {
    var c := FindPair(line, ':', ' ', 0);
    if c != -1 then Some((line[..c], line[c + 2..]))
    else
      var b := FindByte(line, ':', 0);
      if b == -1 then None else Some((line[..b], StripLeft(line[b + 1..], false)))
  }

  /** The variables of the header loop. */
  datatype Scan = Scan(headers: seq<Header>, contentLength: int, hasTe: bool, chunked: bool, hosts: nat)

  const NOTHING := Scan([], -1, false, false, 0)

  predicate NameOk(name: string) {
    ' ' !in name && '\0' !in name
  }

  predicate MentionsChunked(value: string) {
    Find(Lower(value), "chunked", 0) != -1
  }

  function AddContentLength(lim: Limits, s: Scan, value: string): (r: Result<Scan>)
    ensures r.Err? ==> r.error != HeadersTooLarge
  {
    if s.contentLength != -1 then Err(DuplicateContentLength)
    else
      match lim.parseInt(value)
      case None => Err(BadContentLength)
      case Some(n) => if n < 0 then Err(NegativeContentLength) else Ok(s.(contentLength := n))
  }

  /** One header through the loop body. */
  function AddHeader(lim: Limits, s: Scan, h: Header): (r: Result<Scan>)
    ensures r.Err? ==> r.error != HeadersTooLarge
  {
    if !NameOk(h.0) then Err(BadHeaderName)
    else
      var name := Lower(h.0);
      var s1 := s.(headers := s.headers + [(name, h.1)]);
      if |s1.headers| > lim.maxHeaders then Err(TooManyHeaders)
      else if name == "content-length" then AddContentLength(lim, s1, h.1)
      else if name == "transfer-encoding" then
        Ok(s1.(hasTe := true, chunked := s1.chunked || MentionsChunked(h.1)))
      else if name == "host" then
        if s1.hosts + 1 > 1 then Err(DuplicateHost) else Ok(s1.(hosts := s1.hosts + 1))
      else Ok(s1)
  }

  function LineEnd(block: string, pos: nat): (e: nat)
    requires pos <= |block|
    ensures pos <= e <= |block|
  {
    var e := FindCrlf(block, pos);
    if e == -1 then |block| else e
  }

  /** The header loop from `pos` on. */
  function ScanFrom(lim: Limits, block: string, pos: nat, s: Scan): (r: Result<Scan>)
    ensures r.Err? ==> r.error != HeadersTooLarge
    decreases |block| - pos
  {
    if pos >= |block| then Ok(s)
    else
      var e := LineEnd(block, pos);
      match SplitHeader(block[pos..e])
      case None => ScanFrom(lim, block, e + 2, s)
      case Some(h) =>
        match AddHeader(lim, s, h)
        case Err(x) => Err(x)
        case Ok(s') => ScanFrom(lim, block, e + 2, s')
  }

  // --------------------------------------------------------- whole requests

  datatype Head = Head(request: Request, bodyLength: nat, chunked: bool)

  function HeaderBlock(head: string): string {
    var e := FindCrlf(head, 0);
    if e == -1 then "" else head[e + 2..]
  }

  function FirstLine(head: string): string {
    var e := FindCrlf(head, 0);
    if e == -1 then head else head[..e]
  }

  /** Everything the parser learns from the bytes before the blank line. */
  function ParseHead(lim: Limits, head: string): (r: Result<Head>)
    ensures r.Err? ==> r.error != HeadersTooLarge
  {
    match RequestLine(FirstLine(head))
    case Err(e) => Err(e)
    case Ok(line) =>
      match ScanFrom(lim, HeaderBlock(head), 0, NOTHING)
      case Err(e) => Err(e)
      case Ok(s) =>
        if s.contentLength >= 0 && s.hasTe then Err(SmugglingClTe)
        else
          Ok(Head(Request(line.verb, line.target, s.headers, line.version),
                  if s.chunked || s.contentLength < 0 then 0 else s.contentLength, s.chunked))
  }

  /** How the bytes before a blank line are read, and how many of them there may be. */
  datatype Reader = Reader(maxHeaderSize: int, readHead: string -> Result<Head>)

  /** The outer half of the parser: find the blank line, read the head, wait for the body. */
  function Frame(rd: Reader, data: string): (o: Outcome)
    ensures o.Done? ==> 4 <= o.consumed <= |data|
  {
    var h := FindBlank(data, 0);
    if h == -1 then
      if |data| > rd.maxHeaderSize then Failed(HeadersTooLarge) else NeedMore
    else if h > rd.maxHeaderSize then Failed(HeadersTooLarge)
    else
      match rd.readHead(data[..h])
      case Err(e) => Failed(e)
      case Ok(head) =>
        var consumed := h + 4 + head.bodyLength;
        if consumed > |data| then NeedMore
        else Done(head.request, data[h + 4..consumed], consumed, head.chunked)
  }

  function H1(lim: Limits): Reader {
    Reader(lim.maxHeaderSize, head => ParseHead(lim, head))
  }

  function Parse(lim: Limits, data: string): Outcome {
    Frame(H1(lim), data)
  }

  // ------------------------------------------------------------ the method

  /** The loop body for one header line: append it, then update the scalars that run beside the list. */
  method NoteHeader(lim: Limits, s: Scan, name: string, value: string) returns (r: Result<Scan>)
    ensures r == AddHeader(lim, s, (name, value))
  {
    var Scan(headers, contentLength, hasTe, chunked, hosts) := s;
    if ' ' in name || '\0' in name {
      return Err(BadHeaderName);
    }
    var nameLower := Lower(name);
    headers := headers + [(nameLower, value)];
    if |headers| > lim.maxHeaders {
      return Err(TooManyHeaders);
    }
    if nameLower == "content-length" {
      if contentLength != -1 {
        return Err(DuplicateContentLength);
      }
      var n := lim.parseInt(value);
      if n == None {
        return Err(BadContentLength);
      }
      contentLength := n.value;
      if contentLength < 0 {
        return Err(NegativeContentLength);
      }
    } else if nameLower == "transfer-encoding" {
      hasTe := true;
      if Find(Lower(value), "chunked", 0) != -1 {
        chunked := true;
      }
    } else if nameLower == "host" {
      hosts := hosts + 1;
      if hosts > 1 {
        return Err(DuplicateHost);
      }
    }
    r := Ok(Scan(headers, contentLength, hasTe, chunked, hosts));
  }

  method ParseHeaders(lim: Limits, block: string) returns (r: Result<Scan>)
    ensures r == ScanFrom(lim, block, 0, NOTHING)
  {
    var s := NOTHING;
    var pos := 0;
    while pos < |block|
      invariant ScanFrom(lim, block, 0, NOTHING) == ScanFrom(lim, block, pos, s)
      decreases |block| - pos
    {
      var lineEnd := LineEnd(block, pos);
      var h := SplitHeader(block[pos..lineEnd]);
      pos := lineEnd + 2;
      if h == None {
        continue;
      }
      r := NoteHeader(lim, s, h.value.0, h.value.1);
      if r.Err? {
        return;
      }
      s := r.value;
    }
    r := Ok(s);
  }

  /** The request line, the header block and the rules that relate them. */
  method ReadHead(lim: Limits, head: string) returns (r: Result<Head>)
    ensures r == ParseHead(lim, head)
  {
    var line := RequestLine(FirstLine(head));
    if line.Err? {
      return Err(line.error);
    }
    var scan := ParseHeaders(lim, HeaderBlock(head));
    if scan.Err? {
      return Err(scan.error);
    }
    var s := scan.value;
    if s.contentLength >= 0 && s.hasTe {
      return Err(SmugglingClTe);
    }
    var bodyLength := 0;
    if !s.chunked && s.contentLength >= 0 {
      bodyLength := s.contentLength;
    }
    var Line(verb, target, version) := line.value;
    r := Ok(Head(Request(verb, target, s.headers, version), bodyLength, s.chunked));
  }

  method ParseRequest(lim: Limits, data: string) returns (o: Outcome)
    ensures o == Parse(lim, data)
  {
    var headerEnd := FindBlank(data, 0);
    if headerEnd == -1 {
      if |data| > lim.maxHeaderSize {
        return Failed(HeadersTooLarge);
      }
      return NeedMore;
    }
    if headerEnd > lim.maxHeaderSize {
      return Failed(HeadersTooLarge);
    }
    var bodyStart := headerEnd + 4;
    var head := ReadHead(lim, data[..headerEnd]);
    if head.Err? {
      return Failed(head.error);
    }
    var Head(request, bodyLength, chunked) := head.value;
    var consumed := bodyStart + bodyLength;
    if consumed > |data| {
      return NeedMore;
    }
    var body := if bodyLength > 0 then data[bodyStart..bodyStart + bodyLength] else "";
    o := Done(request, body, consumed, chunked);
  }
}
