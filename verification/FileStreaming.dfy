/**
 Sending files and ranges of files as body messages
 (src/pounce/_static.py:968-1067, 1113-1167).  A read returns any non-empty
 amount up to what was asked for, and nothing at the end of the file.
 */
module FileStreaming {
  import opened Wrappers
  import opened Text
  import opened ByteRanges
  import FastH1
  import opened ResponseFrame

  const CHUNK_SIZE := 65536
  const SENDFILE_MIN_SIZE := 16384

  datatype Message = Body(bytes: string, more: bool) | SendFile(offset: nat, count: nat)

  function BytesOf(msgs: seq<Message>): string {
    if msgs == [] then ""
    else BytesOf(msgs[..|msgs| - 1]) + (if msgs[|msgs| - 1].Body? then msgs[|msgs| - 1].bytes else "")
  }

  lemma BytesOfAppend(msgs: seq<Message>, m: Message)
    requires m.Body?
    ensures BytesOf(msgs + [m]) == BytesOf(msgs) + m.bytes
  {
    assert (msgs + [m])[..|msgs|] == msgs;
  }

  lemma {:induction false} BytesOfConcat(a: seq<Message>, b: seq<Message>)
    ensures BytesOf(a + b) == BytesOf(a) + BytesOf(b)
    decreases |b|
  {
    if b == [] {
      assert a + b == a;
    } else {
      var n := |b| - 1;
      assert (a + b)[..|a| + n] == a + b[..n];
      BytesOfConcat(a, b[..n]);
    }
  }

  function Least(a: int, b: int): int {
    if a <= b then a else b
  }

  /** The part of file[offset..offset+count) that exists. */
  function Slice(file: string, offset: nat, count: nat): string {
    file[Least(offset, |file|)..Least(offset + count, |file|)]
  }

  predicate AllMore(msgs: seq<Message>) {
    forall i :: 0 <= i < |msgs| ==> msgs[i].Body? && msgs[i].more
  }

  lemma AllMoreGrows(msgs: seq<Message>, chunk: string)
    requires AllMore(msgs)
    ensures AllMore(msgs + [Body(chunk, true)])
  {}

  /** `f.read(n)` at `pos`. */
  method Read(file: string, pos: nat, n: nat) returns (chunk: string)
    requires n > 0
    ensures |chunk| <= n && pos + |chunk| <= (if pos <= |file| then |file| else pos)
    ensures chunk == "" <==> pos >= |file|
    ensures chunk != "" ==> chunk == file[pos..pos + |chunk|]
  {
    if pos >= |file| {
      return "";
    }
    var k :| 1 <= k <= n && pos + k <= |file|;
    chunk := file[pos..pos + k];
  }

  lemma SliceGrows(file: string, offset: nat, done: nat, k: nat)
    requires offset + done + k <= |file|
    ensures Slice(file, offset, done + k) == Slice(file, offset, done) + file[offset + done..offset + done + k]
  {}

  /** Non-empty messages of at most a chunk each, all but the last promising more. */
  predicate Chunked(msgs: seq<Message>) {
    && (forall i :: 0 <= i < |msgs| ==> msgs[i].Body? && 0 < |msgs[i].bytes| <= CHUNK_SIZE)
    && (forall i :: 0 <= i < |msgs| - 1 ==> msgs[i].more)
  }

  lemma ChunkedGrows(msgs: seq<Message>, m: Message)
    requires Chunked(msgs) && m.Body? && 0 < |m.bytes| <= CHUNK_SIZE
    requires msgs != [] ==> msgs[|msgs| - 1].more
    ensures Chunked(msgs + [m])
  {}

  /** `msgs` carry the first `n` of `count` bytes from `offset` on, and say so. */
  ghost predicate Sent(file: string, offset: nat, count: nat, n: nat, msgs: seq<Message>) {
    && BytesOf(msgs) == Slice(file, offset, n)
    && (n > 0 ==> offset + n <= |file|)
    && Chunked(msgs) && (msgs == [] <==> n == 0)
    && (msgs != [] ==> (msgs[|msgs| - 1].more <==> n < count))
  }

  lemma SentGrows(file: string, offset: nat, count: nat, n: nat, msgs: seq<Message>, chunk: string)
    requires n < count && Sent(file, offset, count, n, msgs)
    requires 0 < |chunk| <= CHUNK_SIZE && n + |chunk| <= count
    requires offset + n + |chunk| <= |file| && chunk == file[offset + n..offset + n + |chunk|]
    ensures Sent(file, offset, count, n + |chunk|, msgs + [Body(chunk, n + |chunk| < count)])
  {
    var m := Body(chunk, n + |chunk| < count);
    SliceGrows(file, offset, n, |chunk|);
    BytesOfAppend(msgs, m);
    ChunkedGrows(msgs, m);
  }

  lemma SliceEnds(file: string, offset: nat, n: nat, count: nat)
    requires n <= count && offset + n >= |file|
    ensures Slice(file, offset, n) == Slice(file, offset, count)
  {}

  /** Nothing is left to send: the count is reached, or the end of the file. */
  lemma SentAll(file: string, offset: nat, count: nat, n: nat, msgs: seq<Message>)
    requires Sent(file, offset, count, n, msgs) && n <= count
    requires n == count || offset + n >= |file|
    ensures BytesOf(msgs) == Slice(file, offset, count)
    ensures (msgs != [] && !msgs[|msgs| - 1].more) <==> (count > 0 && offset + count <= |file|)
  {
    if n < count {
      SliceEnds(file, offset, n, count);
    }
  }

  /** The read loop: everything up to `count` or the end of the file. */
  method ReadLoop(file: string, offset: nat, count: nat) returns (msgs: seq<Message>)
    ensures BytesOf(msgs) == Slice(file, offset, count) && Chunked(msgs)
    ensures (msgs != [] && !msgs[|msgs| - 1].more) <==> (count > 0 && offset + count <= |file|)
  {
    msgs := [];
    var remaining := count;
    while remaining > 0
      invariant 0 <= remaining <= count
      invariant Sent(file, offset, count, count - remaining, msgs)
      decreases remaining
    {
      ghost var n := count - remaining;
      var chunk := Read(file, offset + (count - remaining), Least(CHUNK_SIZE, remaining));
      if chunk == "" {
        SentAll(file, offset, count, n, msgs);
        return;
      }
      SentGrows(file, offset, count, n, msgs, chunk);
      msgs := msgs + [Body(chunk, remaining > |chunk|)];
      remaining := remaining - |chunk|;
    }
    SentAll(file, offset, count, count, msgs);
  }

  /**
   `_send_file_body`: exactly the requested bytes that exist, in order; only the
   last message may end the body, and it does if and only if the file still
   held everything.  A zero count sends nothing at all.
   */
  method SendFileBody(file: string, offset: nat, count: nat, sendfile: bool) returns (msgs: seq<Message>)
    ensures sendfile && count >= 16384 ==> msgs == [SendFile(offset, count)]
    ensures !(sendfile && count >= 16384) ==>
              && BytesOf(msgs) == Slice(file, offset, count)
              && Chunked(msgs)
              && ((msgs != [] && !msgs[|msgs| - 1].more) <==> (count > 0 && offset + count <= |file|))
  {
    if sendfile && count >= SENDFILE_MIN_SIZE {
      return [SendFile(offset, count)];
    }
    msgs := ReadLoop(file, offset, count);
  }

  // -------------------------------------------------------------- multipart

  function Span(r: Range): int {
    r.end - r.start + 1
  }

  function PartHeader(boundary: string, mime: string, r: Range, size: nat): string
    requires 0 <= r.start <= r.end
  {
    "--" + boundary + FastH1.CRLF + "Content-Type: " + mime + FastH1.CRLF + "Content-Range: bytes "
    + (Decimal(r.start) + "-" + Decimal(r.end) + "/" + Decimal(size)) + FastH1.CRLF + FastH1.CRLF
  }

  /** The value of a part's Content-Range header. */
  function RangeValue(r: Range, size: nat): string
    requires 0 <= r.start <= r.end
  {
    "bytes " + (Decimal(r.start) + "-" + Decimal(r.end) + "/" + Decimal(size))
  }

  /** The headers of a part, and the range they announce. */
  function PartHeaders(mime: string, r: Range, size: nat): seq<FastH1.Header>
    requires 0 <= r.start <= r.end
  {
    [("Content-Type", mime), ("Content-Range", RangeValue(r, size))]
  }

  /** A part begins with its boundary and two header lines, which read back as type and range. */
  lemma PartHeaderReads(boundary: string, mime: string, r: Range, size: nat)
    requires 0 <= r.start <= r.end
    ensures PartHeader(boundary, mime, r, size) == HeadOf("--" + boundary, PartHeaders(mime, r, size))
  {
    var a, b := ("Content-Type", mime), ("Content-Range", RangeValue(r, size));
    LinesConcat([a], [b]);
    LinesOne(a);
    LinesOne(b);
    assert PartHeaders(mime, r, size) == [a] + [b];
    PartText("--" + boundary, mime, Decimal(r.start) + "-" + Decimal(r.end) + "/" + Decimal(size));
  }

  lemma PartText(first: string, mime: string, numbers: string)
    ensures first + FastH1.CRLF + "Content-Type: " + mime + FastH1.CRLF + "Content-Range: bytes " + numbers
            + FastH1.CRLF + FastH1.CRLF
            == first + FastH1.CRLF + (("Content-Type" + ": " + mime + FastH1.CRLF)
                                      + ("Content-Range" + ": " + ("bytes " + numbers) + FastH1.CRLF)) + FastH1.CRLF
  {
    assert "Content-Type" + ": " == "Content-Type: ";
    assert "Content-Range" + ": " + "bytes " == "Content-Range: bytes ";
  }

  /** The range a part announces is its own, written as a range header writes it; the size follows the slash. */
  lemma PartRangeReadsBack(r: Range, size: nat)
    requires 0 <= r.start <= r.end
    ensures var value := RangeValue(r, size); var slash := FastH1.FindByte(value, '/', 0);
            && 6 <= slash && value[6..slash] == Decimal(r.start) + "-" + Decimal(r.end)
            && DigitsValue(value[slash + 1..]) == size
  {
    NoSlash(r.start, r.end);
    NumbersReadBack(Decimal(r.start) + "-" + Decimal(r.end), size);
  }

  lemma NoSlash(a: nat, b: nat)
    ensures '/' !in Decimal(a) + "-" + Decimal(b)
  {
    assert '/' !in Decimal(a) && '/' !in Decimal(b);
  }

  lemma NumbersReadBack(range: string, size: nat)
    requires '/' !in range
    ensures var value := "bytes " + (range + "/" + Decimal(size)); var slash := FastH1.FindByte(value, '/', 0);
            6 <= slash && value[6..slash] == range && DigitsValue(value[slash + 1..]) == size
  {
    RangeText(range, Decimal(size));
    DecimalReadsBack(size);
  }

  lemma RangeText(range: string, size: string)
    requires forall i :: 0 <= i < |range| ==> range[i] != '/'
    ensures var value, n := "bytes " + (range + "/" + size), |range|;
            && FastH1.FindByte(value, '/', 0) == n + 6
            && value[6..n + 6] == range && value[n + 7..] == size
  {
    var value, n := "bytes " + (range + "/" + size), |range|;
    forall k | 0 <= k < n + 6 ensures value[k] != '/' {
      assert k >= 6 ==> value[k] == range[k - 6];
      assert k < 6 ==> value[k] == "bytes "[k];
    }
    assert value[n + 6] == '/';
    FastH1.FoundAt(value, '/', 0, n + 6);
  }

  function Closing(boundary: string): string {
    FastH1.CRLF + "--" + boundary + "--" + FastH1.CRLF
  }

  predicate Usable(ranges: seq<Range>) {
    forall i :: 0 <= i < |ranges| ==> 0 <= ranges[i].start <= ranges[i].end
  }

  /** The sum the Content-Length header is computed from. */
  function PartsLength(boundary: string, mime: string, size: nat, ranges: seq<Range>): int
    requires Usable(ranges)
  {
    if ranges == [] then 0
    else
      var n := |ranges| - 1;
      PartsLength(boundary, mime, size, ranges[..n]) + |PartHeader(boundary, mime, ranges[n], size)| + Span(ranges[n])
  }

  function Announced(boundary: string, mime: string, size: nat, ranges: seq<Range>): int
    requires Usable(ranges)
  {
    PartsLength(boundary, mime, size, ranges) + 2 * (|ranges| - 1) + |Closing(boundary)|
  }

  /** Bytes of the ranges that the file no longer has. */
  function Missing(file: string, ranges: seq<Range>): (m: nat)
    requires Usable(ranges)
    ensures m == 0 <==> Inside(ranges, |file|)
  {
    if ranges == [] then 0
    else
      var n := |ranges| - 1;
      assert ranges == ranges[..n] + [ranges[n]];
      assert Inside(ranges, |file|) <==> Inside(ranges[..n], |file|) && ranges[n].end < |file|;
      Missing(file, ranges[..n]) + (Span(ranges[n]) - |Slice(file, ranges[n].start, Span(ranges[n]))|)
  }

  /** The body a multipart response should consist of. */
  function Parts(file: string, boundary: string, mime: string, size: nat, ranges: seq<Range>): string
    requires Usable(ranges)
  {
    if ranges == [] then ""
    else
      var n := |ranges| - 1;
      Parts(file, boundary, mime, size, ranges[..n]) + (if n > 0 then FastH1.CRLF else "")
      + PartHeader(boundary, mime, ranges[n], size) + Slice(file, ranges[n].start, Span(ranges[n]))
  }

  /** `msgs` carry the first `n` bytes from `start` on, all promising more. */
  ghost predicate Carried(file: string, start: nat, n: nat, msgs: seq<Message>) {
    BytesOf(msgs) == Slice(file, start, n) && (n > 0 ==> start + n <= |file|) && AllMore(msgs)
  }

  lemma CarriedGrows(file: string, start: nat, n: nat, msgs: seq<Message>, chunk: string)
    requires Carried(file, start, n, msgs) && chunk != ""
    requires start + n + |chunk| <= |file| && chunk == file[start + n..start + n + |chunk|]
    ensures Carried(file, start, n + |chunk|, msgs + [Body(chunk, true)])
  {
    SliceGrows(file, start, n, |chunk|);
    BytesOfAppend(msgs, Body(chunk, true));
    AllMoreGrows(msgs, chunk);
  }

  /** The inner read loop: one range, every message promising more. */
  method StreamRange(file: string, start: nat, count: nat) returns (msgs: seq<Message>)
    ensures BytesOf(msgs) == Slice(file, start, count) && AllMore(msgs)
  {
    msgs := [];
    var remaining := count;
    while remaining > 0
      invariant 0 <= remaining <= count
      invariant Carried(file, start, count - remaining, msgs)
      decreases remaining
    {
      ghost var n := count - remaining;
      var chunk := Read(file, start + (count - remaining), Least(CHUNK_SIZE, remaining));
      if chunk == "" {
        SliceEnds(file, start, n, count);
        return;
      }
      CarriedGrows(file, start, n, msgs, chunk);
      msgs := msgs + [Body(chunk, true)];
      remaining := remaining - |chunk|;
    }
  }

  lemma {:induction false} PartsAddUp(file: string, boundary: string, mime: string, size: nat, ranges: seq<Range>)
    requires Usable(ranges) && ranges != []
    ensures |Parts(file, boundary, mime, size, ranges)| ==
            PartsLength(boundary, mime, size, ranges) + 2 * (|ranges| - 1) - Missing(file, ranges)
    decreases |ranges|
  {
    var n := |ranges| - 1;
    if n > 0 {
      PartsAddUp(file, boundary, mime, size, ranges[..n]);
    }
  }

  /**
   `_send_206_multipart`: the messages carry the parts and the closing
   boundary, only the last one ends the body, and the announced length is what
   is streamed exactly when every range still lies inside the file.
   */
  method SendMultipart(file: string, boundary: string, mime: string, size: nat, ranges: seq<Range>)
    returns (announced: int, msgs: seq<Message>)
    requires Usable(ranges) && ranges != []
    ensures BytesOf(msgs) ==
            Parts(file, boundary, mime, size, ranges) + (FastH1.CRLF + "--" + boundary + "--" + FastH1.CRLF)
    ensures msgs != [] && AllMore(msgs[..|msgs| - 1]) && msgs[|msgs| - 1] == Body(Closing(boundary), false)
    ensures announced == Announced(boundary, mime, size, ranges)
    ensures |BytesOf(msgs)| == announced - Missing(file, ranges)
    ensures announced == |BytesOf(msgs)| <==> Inside(ranges, |file|)
  {
    announced := 0;
    for i := 0 to |ranges|
      invariant announced == PartsLength(boundary, mime, size, ranges[..i])
    {
      assert ranges[..i + 1][..i] == ranges[..i];
      announced := announced + |PartHeader(boundary, mime, ranges[i], size)| + Span(ranges[i]);
    }
    assert ranges[..|ranges|] == ranges;
    announced := announced + 2 * (|ranges| - 1);
    announced := announced + |Closing(boundary)|;

    msgs := StreamParts(file, boundary, mime, size, ranges);
    BytesOfAppend(msgs, Body(Closing(boundary), false));
    msgs := msgs + [Body(Closing(boundary), false)];
    PartsAddUp(file, boundary, mime, size, ranges);
  }

  lemma PartAppended(msgs: seq<Message>, part: string, data: seq<Message>)
    requires AllMore(msgs) && AllMore(data)
    ensures AllMore(msgs + [Body(part, true)] + data)
    ensures BytesOf(msgs + [Body(part, true)] + data) == BytesOf(msgs) + part + BytesOf(data)
  {
    BytesOfAppend(msgs, Body(part, true));
    BytesOfConcat(msgs + [Body(part, true)], data);
  }

  method StreamParts(file: string, boundary: string, mime: string, size: nat, ranges: seq<Range>)
    returns (msgs: seq<Message>)
    requires Usable(ranges)
    ensures BytesOf(msgs) == Parts(file, boundary, mime, size, ranges) && AllMore(msgs)
  {
    msgs := [];
    for i := 0 to |ranges|
      invariant BytesOf(msgs) == Parts(file, boundary, mime, size, ranges[..i]) && AllMore(msgs)
    {
      var part := PartHeader(boundary, mime, ranges[i], size);
      if i > 0 {
        part := FastH1.CRLF + part;
      }
      var data := StreamRange(file, ranges[i].start, Span(ranges[i]));
      PartAppended(msgs, part, data);
      PartsNext(file, boundary, mime, size, ranges, i);
      msgs := msgs + [Body(part, true)] + data;
    }
    assert ranges[..|ranges|] == ranges;
  }

  lemma PartsNext(file: string, boundary: string, mime: string, size: nat, ranges: seq<Range>, i: nat)
    requires Usable(ranges) && i < |ranges|
    ensures var part := PartHeader(boundary, mime, ranges[i], size);
            Parts(file, boundary, mime, size, ranges[..i + 1]) ==
            Parts(file, boundary, mime, size, ranges[..i])
            + (if i > 0 then FastH1.CRLF + part else part) + Slice(file, ranges[i].start, Span(ranges[i]))
  {
    assert ranges[..i + 1][..i] == ranges[..i];
    var p, part := Parts(file, boundary, mime, size, ranges[..i]), PartHeader(boundary, mime, ranges[i], size);
    assert p + FastH1.CRLF + part == p + (FastH1.CRLF + part);
    assert p + "" + part == p + part;
  }
}
