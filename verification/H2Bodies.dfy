/**
 Request-body accounting of one HTTP/2 connection
 (src/pounce/_h2_handler.py:110-162, 301-306, 355-427): which bytes reach the
 application of a stream, and when a stream is refused.  Stream ids are fresh,
 as the protocol requires of the peer.
 */
module H2Bodies {
  import opened Wrappers

  /**
   `tasks`, `bodyBytes` and `rejected` are the handler's own tables.  The others
   are the history: streams begun, those given an application task that cleans
   up after itself, those refused, their declared length, the bytes received
   since the request and the bytes put on the application's queue.
   */
  datatype Conn = Conn(
    tasks: set<int>,
    bodyBytes: map<int, int>,
    rejected: set<int>,
    begun: set<int>,
    spawned: set<int>,
    refused: set<int>,
    declared: map<int, Option<int>>,
    received: map<int, string>,
    queued: map<int, string>)

  const START := Conn({}, map[], {}, {}, {}, {}, map[], map[], map[])

  datatype Event =
    | Request(stream: int, contentLength: Option<int>)
    | WebSocketRequest(stream: int)
    | Body(stream: int, data: string)
    | Reset(stream: int)
    | TaskDone(stream: int)

  function Get(m: map<int, int>, k: int): int {
    if k in m then m[k] else 0
  }

  function Open(c: Conn, x: int, length: Option<int>): Conn {
    c.(begun := c.begun + {x}, declared := c.declared[x := length],
       received := c.received[x := ""], queued := c.queued[x := ""])
  }

  /** `_send_request_too_large`, as far as the tables go. */
  function Refuse(c: Conn, x: int): Conn {
    c.(bodyBytes := c.bodyBytes - {x}, rejected := c.rejected + {x}, refused := c.refused + {x})
  }

  predicate Exceeds(length: Option<int>, max: int) {
    length.Some? && length.value > max
  }

  function OnBody(max: int, c: Conn, x: int, data: string): Conn {
    if x !in c.begun then c
    else
      var c1 := c.(received := c.received[x := (if x in c.received then c.received[x] else "") + data]);
      if x in c.rejected || x !in c.tasks then c1
      else
        var n := Get(c.bodyBytes, x) + |data|;
        var c2 := c1.(bodyBytes := c.bodyBytes[x := n]);
        if n > max then Refuse(c2.(tasks := c.tasks - {x}), x)
        else c2.(queued := c.queued[x := (if x in c.queued then c.queued[x] else "") + data])
  }

  function Step(max: int, c: Conn, e: Event): Conn {
    match e
    case Request(x, length) =>
      if x in c.begun then c
      else if Exceeds(length, max) then Refuse(Open(c, x, length), x)
      else Open(c, x, length).(tasks := c.tasks + {x}, spawned := c.spawned + {x})
    case WebSocketRequest(x) =>
      if x in c.begun then c else Open(c, x, None).(tasks := c.tasks + {x})
    case Body(x, data) => OnBody(max, c, x, data)
    case Reset(x) =>
      c.(bodyBytes := c.bodyBytes - {x}, rejected := c.rejected - {x}, tasks := c.tasks - {x})
    case TaskDone(x) =>
      if x in c.spawned then
        c.(bodyBytes := c.bodyBytes - {x}, rejected := c.rejected - {x}, tasks := c.tasks - {x})
      else c
  }

  function Run(max: int, c: Conn, es: seq<Event>): Conn
    decreases es
  {
    if es == [] then c else Run(max, Step(max, c, es[0]), es[1..])
  }

  // ------------------------------------------------------------- invariants

  function Limit(max: int): int {
    if max < 0 then 0 else max
  }

  /** What holds of one stream at any time. */
  ghost predicate StreamOk(max: int, c: Conn, x: int) {
    && (x in c.begun ==> x in c.received && x in c.queued && x in c.declared)
    && (x in c.tasks || x in c.bodyBytes || x in c.rejected || x in c.refused || x in c.spawned ==> x in c.begun)
    && (x in c.tasks ==>
          x !in c.refused && x !in c.rejected && c.queued[x] == c.received[x] && Get(c.bodyBytes, x) == |c.queued[x]|)
    && (x in c.bodyBytes ==> x in c.tasks)
    && (x in c.begun ==> c.queued[x] <= c.received[x] && |c.queued[x]| <= Limit(max))
    && (x in c.refused ==> Exceeds(c.declared[x], max) || |c.received[x]| > max)
  }

  ghost predicate Inv(max: int, c: Conn) {
    forall x :: StreamOk(max, c, x)
  }

  lemma StepOk(max: int, c: Conn, e: Event, x: int)
    requires StreamOk(max, c, x)
    ensures StreamOk(max, Step(max, c, e), x)
  {
    if e.Body? {
      BodyOk(max, c, e, x);
    }
  }

  lemma BodyOk(max: int, c: Conn, e: Event, x: int)
    requires StreamOk(max, c, x) && e.Body?
    ensures StreamOk(max, Step(max, c, e), x)
  {}

  lemma {:induction false} RunOk(max: int, c: Conn, es: seq<Event>, x: int)
    requires StreamOk(max, c, x)
    ensures StreamOk(max, Run(max, c, es), x)
    decreases es
  {
    if es != [] {
      StepOk(max, c, es[0], x);
      RunOk(max, Step(max, c, es[0]), es[1..], x);
    }
  }

  /**
   In every order of events, what a stream's application was given is a prefix
   of what arrived for it and never more than the limit; while the stream is
   live it is all of it; and a stream is refused only for a declared or actual
   size over the limit.
   */
  lemma BodyAccounting(max: int, es: seq<Event>, x: int)
    requires x in Run(max, START, es).begun
    ensures var c := Run(max, START, es);
            && x in c.queued && x in c.received && x in c.declared
            && c.queued[x] <= c.received[x] && |c.queued[x]| <= Limit(max)
            && (x in c.tasks ==> c.queued[x] == c.received[x])
            && (x in c.refused ==> (c.declared[x].Some? && c.declared[x].value > max) || |c.received[x]| > max)
  {
    RunOk(max, START, es, x);
  }

  /** A new stream gets a task unless it declares a length over the limit; then it is refused and marked. */
  lemma RequestAnswered(max: int, es: seq<Event>, x: int, length: Option<int>)
    requires x !in Run(max, START, es).begun
    ensures var c' := Step(max, Run(max, START, es), Request(x, length));
            var tooLong := length.Some? && length.value > max;
            && x in c'.begun && x in c'.declared && c'.declared[x] == length
            && (x in c'.tasks <==> !tooLong)
            && (x in c'.refused <==> tooLong) && (x in c'.rejected <==> tooLong)
  {
    RunOk(max, START, es, x);
  }

  /**
   A task is taken away exactly by a reset, by its own end, or by data that
   takes the body over the limit; only the last refuses the stream, and marks it.
   */
  lemma TaskKeptExactly(max: int, es: seq<Event>, e: Event, x: int)
    requires x in Run(max, START, es).tasks
    ensures var c := Run(max, START, es); var c' := Step(max, c, e);
            && x in c.received
            && var over := e.Body? && e.stream == x && |c.received[x]| + |e.data| > max;
            && (x !in c'.tasks <==> e == Reset(x) || (e == TaskDone(x) && x in c.spawned) || over)
            && (x in c'.refused <==> over) && (x in c'.rejected <==> over)
  {
    RunOk(max, START, es, x);
  }

  /** The mark of a refused stream stays until a reset or the end of its task. */
  lemma MarkStays(max: int, c: Conn, e: Event, x: int)
    requires x in c.rejected && x in c.begun
    ensures x in Step(max, c, e).rejected <==> !(e == Reset(x) || (e == TaskDone(x) && x in c.spawned))
  {}

  /** A stream without a task never gets another byte, whatever the rejected set says by then. */
  lemma ClosedStep(max: int, c: Conn, e: Event, x: int)
    requires x in c.begun && x !in c.tasks && x in c.queued
    ensures var c' := Step(max, c, e);
            x in c'.begun && x !in c'.tasks && x in c'.queued && c'.queued[x] == c.queued[x]
  {}

  lemma {:induction false} ClosedStays(max: int, c: Conn, es: seq<Event>, x: int)
    requires x in c.begun && x !in c.tasks && x in c.queued
    ensures var c' := Run(max, c, es); x in c'.queued && c'.queued[x] == c.queued[x]
    decreases es
  {
    if es != [] {
      ClosedStep(max, c, es[0], x);
      ClosedStays(max, Step(max, c, es[0]), es[1..], x);
    }
  }

  lemma {:induction false} RunConcat(max: int, c: Conn, a: seq<Event>, b: seq<Event>)
    ensures Run(max, c, a + b) == Run(max, Run(max, c, a), b)
    decreases a
  {
    if a == [] {
      assert a + b == b;
    } else {
      assert (a + b)[1..] == a[1..] + b;
      RunConcat(max, Step(max, c, a[0]), a[1..], b);
    }
  }

  /**
   Nothing is queued after a refusal, even once the cancelled task's clean-up
   or a reset has cleared the rejected mark.
   */
  lemma RefusalIsFinal(max: int, before: seq<Event>, after: seq<Event>, x: int)
    requires x in Run(max, START, before).refused
    ensures var c, c' := Run(max, START, before), Run(max, START, before + after);
            x in c.queued && x in c'.queued && c'.queued[x] == c.queued[x]
  {
    RunOk(max, START, before, x);
    RunConcat(max, START, before, after);
    ClosedStays(max, Run(max, START, before), after, x);
  }

  // -------------------------------------------------------------- the object

  /** The handler's tables, changed event by event; the history is kept for the specification. */
  class StreamTables {
    const max: int
    var tasks: set<int>
    var bodyBytes: map<int, int>
    var rejected: set<int>
    ghost var history: Conn

    ghost predicate Valid()
      reads this
    {
      history.tasks == tasks && history.bodyBytes == bodyBytes && history.rejected == rejected && Inv(max, history)
    }

    constructor (max: int)
      ensures Valid() && this.max == max && history == START
    {
      this.max, tasks, bodyBytes, rejected, history := max, {}, map[], {}, START;
    }

    method SendRequestTooLarge(x: int)
      modifies this`bodyBytes, this`rejected
      ensures bodyBytes == old(bodyBytes) - {x} && rejected == old(rejected) + {x}
    {
      bodyBytes := bodyBytes - {x};
      rejected := rejected + {x};
    }

    /** `fresh` ids only: a request on an id already used does not happen. */
    method OnRequest(x: int, contentLength: Option<int>)
      requires Valid() && x !in history.begun
      modifies this
      ensures Valid() && history == Step(max, old(history), Request(x, contentLength))
    {
      InvStep(max, history, Request(x, contentLength));
      history := Step(max, history, Request(x, contentLength));
      if contentLength.Some? && contentLength.value > max {
        SendRequestTooLarge(x);
        return;
      }
      tasks := tasks + {x};
    }

    method OnWebSocketRequest(x: int)
      requires Valid() && x !in history.begun
      modifies this
      ensures Valid() && history == Step(max, old(history), WebSocketRequest(x))
    {
      InvStep(max, history, WebSocketRequest(x));
      history := Step(max, history, WebSocketRequest(x));
      tasks := tasks + {x};
    }

    /** The `finally` block of a stream's own task. */
    method OnTaskDone(x: int)
      requires Valid() && x in history.spawned
      modifies this
      ensures Valid() && history == Step(max, old(history), TaskDone(x))
    {
      InvStep(max, history, TaskDone(x));
      history := Step(max, history, TaskDone(x));
      tasks := tasks - {x};
      bodyBytes := bodyBytes - {x};
      rejected := rejected - {x};
    }

    /** Returns what is put on the stream's queue, if anything; data for an unknown stream is dropped. */
    method OnBodyReceived(x: int, data: string) returns (put: Option<string>)
      requires Valid()
      modifies this
      ensures Valid() && history == Step(max, old(history), Body(x, data))
      ensures x !in history.begun ==> put == None && history == old(history)
      ensures x in history.begun ==>
                && x in history.queued && x in old(history.queued)
                && history.queued[x] == old(history.queued)[x] + (if put.Some? then put.value else "")
    {
      InvStep(max, history, Body(x, data));
      assert StreamOk(max, history, x);
      history := Step(max, history, Body(x, data));
      if x in rejected {
        return None;
      }
      if x in tasks {
        bodyBytes := bodyBytes[x := (if x in bodyBytes then bodyBytes[x] else 0) + |data|];
        if bodyBytes[x] > max {
          tasks := tasks - {x};
          SendRequestTooLarge(x);
        } else {
          return Some(data);
        }
      }
      return None;
    }

    method OnStreamReset(x: int)
      requires Valid()
      modifies this
      ensures Valid() && history == Step(max, old(history), Reset(x))
    {
      InvStep(max, history, Reset(x));
      history := Step(max, history, Reset(x));
      bodyBytes := bodyBytes - {x};
      rejected := rejected - {x};
      tasks := tasks - {x};
    }
  }

  lemma InvStep(max: int, c: Conn, e: Event)
    requires Inv(max, c)
    ensures Inv(max, Step(max, c, e))
  {
    forall x ensures StreamOk(max, Step(max, c, e), x) {
      StepOk(max, c, e, x);
    }
  }
}
