/**
 Feeding the parser a byte stream in pieces: parse, drop `consumed`, parse again
 (the contract of src/pounce/_fast_h1.py:68-93, 217-239).  A chunked request
 hands the connection over to its caller, an error closes it.
 */
module FastH1Feed {
  import opened Wrappers
  import opened FastH1

  // -------------------------------------------------- appending more bytes

  /** An outcome reached with the blank line present, other than need-more, is final. */
  lemma ParseStable(rd: Reader, a: string, b: string)
    requires FindBlank(a, 0) != -1 && Frame(rd, a) != NeedMore
    ensures Frame(rd, a + b) == Frame(rd, a)
  {
    var h := FindBlank(a, 0);
    BlankStable(a, b);
    assert (a + b)[..h] == a[..h];
    if Frame(rd, a).Done? {
      var c := Frame(rd, a).consumed;
      assert (a + b)[h + 4..c] == a[h + 4..c];
    }
  }

  /** A prefix that holds all of `consumed` parses alike. */
  lemma ParseReadsConsumed(rd: Reader, a: string, n: nat)
    requires Frame(rd, a).Done? && Frame(rd, a).consumed <= n <= |a|
    ensures Frame(rd, a[..n]) == Frame(rd, a)
  {
    var h, c := FindBlank(a, 0), Frame(rd, a).consumed;
    FindBlankFirst(a, 0);
    FindBlankFirst(a[..n], 0);
    assert BlankAt(a[..n], h);
    assert BlankAt(a, FindBlank(a[..n], 0));
    assert a[..n][..h] == a[..h];
    assert a[..n][h + 4..c] == a[h + 4..c];
  }

  /** Only the size checks call a request too large. */
  ghost predicate Honest(rd: Reader) {
    forall head :: rd.readHead(head) != Err(HeadersTooLarge)
  }

  /**
   The blank line starts within the limit, and a buffer that ends just before
   its last byte is already over the limit.
   */
  predicate Straddles(rd: Reader, data: string) {
    0 <= FindBlank(data, 0) <= rd.maxHeaderSize < FindBlank(data, 0) + 3
  }

  /** The verdict "too large" on a buffer without blank line stands, unless the blank line straddles the limit. */
  lemma TooLargeStands(rd: Reader, a: string, b: string)
    requires Honest(rd) && FindBlank(a, 0) == -1 && |a| > rd.maxHeaderSize
    ensures Frame(rd, a) == Failed(HeadersTooLarge)
    ensures Frame(rd, a + b) == Failed(HeadersTooLarge) <==> !Straddles(rd, a + b)
  {
    if FindBlank(a + b, 0) != -1 {
      BlankLate(a, b);
    }
  }

  function BlankByte(j: nat): char {
    if j % 2 == 0 then '\r' else '\n'
  }

  /** The last `k` bytes of `a` could be the start of a blank line that begins within the limit. */
  predicate EndsInsideBlank(rd: Reader, a: string, k: nat) {
    && 1 <= k <= 3 && k <= |a| && |a| - k <= rd.maxHeaderSize
    && forall j :: 0 <= j < k ==> a[|a| - k + j] == BlankByte(j)
  }

  function RestOfBlank(k: nat): string
    requires k <= 4
  {
    seq(4 - k, j requires 0 <= j => BlankByte(k + j))
  }

  lemma BlankCompleted(rd: Reader, a: string, k: nat)
    requires FindBlank(a, 0) == -1 && EndsInsideBlank(rd, a, k)
    ensures 0 <= FindBlank(a + RestOfBlank(k), 0) <= |a| - k
  {
    var s := a + RestOfBlank(k);
    FindBlankFirst(s, 0);
    forall j | 0 <= j < 4 ensures s[|a| - k + j] == BlankByte(j) {}
    assert BlankByte(0) == BlankByte(2) == '\r' && BlankByte(1) == BlankByte(3) == '\n';
    assert BlankAt(s, |a| - k);
  }

  lemma Overturned(rd: Reader, a: string, k: nat)
    requires Honest(rd) && FindBlank(a, 0) == -1 && |a| > rd.maxHeaderSize && EndsInsideBlank(rd, a, k)
    ensures Frame(rd, a + RestOfBlank(k)) != Failed(HeadersTooLarge)
  {
    BlankCompleted(rd, a, k);
    TooLargeStands(rd, a, RestOfBlank(k));
    BlankLate(a, RestOfBlank(k));
  }

  lemma StraddleEndsInside(rd: Reader, a: string, b: string)
    requires FindBlank(a, 0) == -1 && |a| > rd.maxHeaderSize && Straddles(rd, a + b)
    ensures EndsInsideBlank(rd, a, |a| - FindBlank(a + b, 0))
  {
    var s, h := a + b, FindBlank(a + b, 0);
    BlankLate(a, b);
    forall j | 0 <= j < |a| - h ensures a[h + j] == BlankByte(j) {
      assert a[h + j] == s[h + j];
    }
  }

  /** Exactly which "too large" verdicts can be overturned by further bytes. */
  lemma TooLargeFinalExactly(rd: Reader, a: string)
    requires Honest(rd) && FindBlank(a, 0) == -1 && |a| > rd.maxHeaderSize
    ensures (forall b :: Frame(rd, a + b) == Failed(HeadersTooLarge)) <==>
            !exists k :: EndsInsideBlank(rd, a, k)
  {
    if k :| EndsInsideBlank(rd, a, k) {
      Overturned(rd, a, k);
    } else {
      forall b ensures Frame(rd, a + b) == Failed(HeadersTooLarge) {
        TooLargeStands(rd, a, b);
        if Straddles(rd, a + b) {
          StraddleEndsInside(rd, a, b);
        }
      }
    }
  }

  // ---------------------------------------------------------- the feed loop

  datatype Item = Item(request: Request, body: string)

  datatype Conn = Open(buffer: string) | Closed(error: Error) | Handed(rest: string)

  datatype Session = Session(out: seq<Item>, conn: Conn)

  const START := Session([], Open(""))

  /** Parse requests off the front of a buffer until it needs more, fails or is handed over. */
  function Drain(rd: Reader, buffer: string): Session
    decreases |buffer|
  {
    match Frame(rd, buffer)
    case NeedMore => Session([], Open(buffer))
    case Failed(e) => Session([], Closed(e))
    case Done(r, body, consumed, chunked) =>
      if chunked then Session([Item(r, body)], Handed(buffer[consumed..]))
      else
        var rest := Drain(rd, buffer[consumed..]);
        Session([Item(r, body)] + rest.out, rest.conn)
  }

  function Feed(rd: Reader, s: Session, chunk: string): Session {
    match s.conn
    case Open(buffer) =>
      var d := Drain(rd, buffer + chunk);
      Session(s.out + d.out, d.conn)
    case Closed(_) => s
    case Handed(rest) => s.(conn := Handed(rest + chunk))
  }

  function FeedAll(rd: Reader, s: Session, chunks: seq<string>): Session
    decreases chunks
  {
    if chunks == [] then s else FeedAll(rd, Feed(rd, s, chunks[0]), chunks[1..])
  }

  function Concat(chunks: seq<string>): string {
    if chunks == [] then "" else chunks[0] + Concat(chunks[1..])
  }

  // ------------------------------------------------- chunking independence

  /** No request of the stream has a blank line that straddles the header limit. */
  predicate NoStraddle(rd: Reader, data: string)
    decreases |data|
  {
    && !Straddles(rd, data)
    && var o := Frame(rd, data);
    && (o.Done? && !o.chunked ==> NoStraddle(rd, data[o.consumed..]))
  }

  lemma {:induction false} DrainExtend(rd: Reader, a: string, b: string)
    requires Honest(rd) && NoStraddle(rd, a + b)
    ensures Drain(rd, a + b) == Feed(rd, Drain(rd, a), b)
    decreases |a|
  {
    var o := Frame(rd, a);
    if o == NeedMore {
      var d := Drain(rd, a + b);
      assert [] + d.out == d.out;
    } else if FindBlank(a, 0) == -1 {
      TooLargeStands(rd, a, b);
    } else {
      ParseStable(rd, a, b);
      if o.Done? {
        var c := o.consumed;
        assert (a + b)[c..] == a[c..] + b;
        if !o.chunked {
          DrainExtend(rd, a[c..], b);
          FeedPrepend(rd, Item(o.request, o.body), Drain(rd, a[c..]), b);
        }
      }
    }
  }

  /** What was already delivered does not matter to what comes next. */
  lemma FeedPrepend(rd: Reader, item: Item, s: Session, b: string)
    ensures var f := Feed(rd, s, b);
            Feed(rd, Session([item] + s.out, s.conn), b) == Session([item] + f.out, f.conn)
  {
    if s.conn.Open? {
      var d := Drain(rd, s.conn.buffer + b);
      assert [item] + s.out + d.out == [item] + (s.out + d.out);
    }
  }

  lemma {:induction false} NoStraddlePrefix(rd: Reader, a: string, b: string)
    requires NoStraddle(rd, a + b)
    ensures NoStraddle(rd, a)
    decreases |a|
  {
    if FindBlank(a, 0) != -1 {
      BlankStable(a, b);
      if Frame(rd, a).Done? && !Frame(rd, a).chunked {
        ParseStable(rd, a, b);
        var c := Frame(rd, a).consumed;
        assert (a + b)[c..] == a[c..] + b;
        NoStraddlePrefix(rd, a[c..], b);
      }
    }
  }

  lemma {:induction false} FeedAllFrom(rd: Reader, a: string, chunks: seq<string>)
    requires Honest(rd) && NoStraddle(rd, a + Concat(chunks))
    ensures FeedAll(rd, Drain(rd, a), chunks) == Drain(rd, a + Concat(chunks))
    decreases chunks
  {
    if chunks == [] {
      assert a + Concat(chunks) == a;
    } else {
      var rest := Concat(chunks[1..]);
      assert a + Concat(chunks) == a + chunks[0] + rest;
      NoStraddlePrefix(rd, a + chunks[0], rest);
      DrainExtend(rd, a, chunks[0]);
      FeedAllFrom(rd, a + chunks[0], chunks[1..]);
    }
  }

  // ------------------------------------------------------ and its converse

  lemma StraddleBreaks(rd: Reader, data: string)
    requires Honest(rd) && Straddles(rd, data)
    ensures var k := FindBlank(data, 0) + 3;
            k <= |data| && Feed(rd, Drain(rd, data[..k]), data[k..]) != Drain(rd, data)
  {
    var h := FindBlank(data, 0);
    var a := data[..h + 3];
    FindBlankFirst(data, 0);
    FindBlankFirst(a, 0);
    var g := FindBlank(a, 0);
    if g != -1 {
      assert BlankAt(data, g);
      assert false;
    }
    assert Drain(rd, a) == Session([], Closed(HeadersTooLarge));
  }

  lemma {:induction false} SomeSplitBreaks(rd: Reader, data: string) returns (k: nat)
    requires Honest(rd) && !NoStraddle(rd, data)
    ensures k <= |data| && Feed(rd, Drain(rd, data[..k]), data[k..]) != Drain(rd, data)
    decreases |data|
  {
    if Straddles(rd, data) {
      StraddleBreaks(rd, data);
      k := FindBlank(data, 0) + 3;
    } else {
      var o := Frame(rd, data);
      var c := o.consumed;
      var rest := data[c..];
      var j := SomeSplitBreaks(rd, rest);
      k := c + j;
      ParseReadsConsumed(rd, data, k);
      assert data[..k][c..] == rest[..j] && data[k..] == rest[j..];
      var item := Item(o.request, o.body);
      FeedPrepend(rd, item, Drain(rd, rest[..j]), rest[j..]);
      var f, d := Feed(rd, Drain(rd, rest[..j]), rest[j..]), Drain(rd, rest);
      assert ([item] + f.out)[1..] == f.out && ([item] + d.out)[1..] == d.out;
    }
  }

  /** Splitting the stream differently changes nothing that is delivered. */
  ghost predicate SplitInvariant(rd: Reader, data: string) {
    forall chunks :: Concat(chunks) == data ==> FeedAll(rd, START, chunks) == Drain(rd, data)
  }

  /**
   The requests, bodies and final state are the same however the stream is
   split, if and only if no header block's blank line straddles the limit.
   */
  lemma ChunkingIndependentExactly(rd: Reader, data: string)
    requires Honest(rd) && rd.maxHeaderSize >= 0
    ensures SplitInvariant(rd, data) <==> NoStraddle(rd, data)
  {
    assert Drain(rd, "") == START;
    if NoStraddle(rd, data) {
      forall chunks | Concat(chunks) == data ensures FeedAll(rd, START, chunks) == Drain(rd, data) {
        assert "" + data == data;
        FeedAllFrom(rd, "", chunks);
      }
    } else {
      var k := SomeSplitBreaks(rd, data);
      TwoChunks(rd, data, k);
    }
  }

  lemma TwoChunks(rd: Reader, data: string, k: nat)
    requires k <= |data|
    ensures Concat([data[..k], data[k..]]) == data
    ensures FeedAll(rd, START, [data[..k], data[k..]]) == Feed(rd, Drain(rd, data[..k]), data[k..])
  {
    var a, b := data[..k], data[k..];
    var chunks := [a, b];
    assert chunks[1..] == [b] && chunks[1..][1..] == [];
    assert Concat([b]) == b + Concat([]) == b by { assert [b][1..] == []; }
    assert a + b == data;
    assert "" + a == a;
    assert [] + Drain(rd, a).out == Drain(rd, a).out;
    assert Feed(rd, START, a) == Drain(rd, a);
    assert FeedAll(rd, Drain(rd, a), [b]) == Feed(rd, Drain(rd, a), b) by { assert [b][1..] == []; }
  }

  /** The parser of this server is such a reader. */
  lemma H1Chunking(lim: Limits, data: string)
    requires lim.maxHeaderSize >= 0
    ensures SplitInvariant(H1(lim), data) <==> NoStraddle(H1(lim), data)
  {
    assert Honest(H1(lim));
    ChunkingIndependentExactly(H1(lim), data);
  }

  /** The loop around the parser: keep parsing the front of the buffer and dropping what was consumed. */
  method DrainLoop(lim: Limits, data: string) returns (s: Session)
    ensures s == Drain(H1(lim), data)
  {
    var out, buffer := [], data;
    while true
      invariant Drain(H1(lim), data) == Prepend(out, Drain(H1(lim), buffer))
      decreases |buffer|
    {
      var o := ParseRequest(lim, buffer);
      match o
      case NeedMore => return Session(out, Open(buffer));
      case Failed(e) => return Session(out, Closed(e));
      case Done(r, body, consumed, chunked) =>
        PrependTwice(out, Item(r, body), Drain(H1(lim), buffer[consumed..]));
        out := out + [Item(r, body)];
        buffer := buffer[consumed..];
        if chunked {
          return Session(out, Handed(buffer));
        }
    }
  }

  function Prepend(out: seq<Item>, s: Session): Session {
    Session(out + s.out, s.conn)
  }

  lemma PrependTwice(out: seq<Item>, item: Item, s: Session)
    ensures Prepend(out, Prepend([item], s)) == Prepend(out + [item], s)
  {
    assert out + ([item] + s.out) == out + [item] + s.out;
  }

  /** One read after another. */
  method Serve(lim: Limits, chunks: seq<string>) returns (s: Session)
    ensures s == FeedAll(H1(lim), START, chunks)
    ensures lim.maxHeaderSize >= 0 && NoStraddle(H1(lim), Concat(chunks)) ==> s == Drain(H1(lim), Concat(chunks))
  {
    s := START;
    for i := 0 to |chunks|
      invariant FeedAll(H1(lim), s, chunks[i..]) == FeedAll(H1(lim), START, chunks)
    {
      assert chunks[i..][0] == chunks[i] && chunks[i..][1..] == chunks[i + 1..];
      if s.conn.Open? {
        var got := DrainLoop(lim, s.conn.buffer + chunks[i]);
        s := Session(s.out + got.out, got.conn);
      } else if s.conn.Handed? {
        s := s.(conn := Handed(s.conn.rest + chunks[i]));
      }
    }
    if lim.maxHeaderSize >= 0 {
      H1Chunking(lim, Concat(chunks));
    }
  }
}
