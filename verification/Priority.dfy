/**
 The RFC 9218 write scheduler of an HTTP/2 connection (src/pounce/_priority.py).

 `Sched` is the state the lock protects, as a value; one function per locked
 section gives its effect.  `PriorityQueues` below holds the same state in
 fields and changes it in place; every method is proved to have exactly the
 effect of the corresponding function.  An `asyncio.Event` is a handle into
 `events`, because `remove_stream` forgets an event that waiters still hold.
 */
module Priority {
  import opened Wrappers

  datatype StreamPriority = StreamPriority(urgency: int, incremental: bool)

  const DEFAULT_PRIORITY := StreamPriority(3, false)

  type Buckets = map<int, seq<int>>

  datatype Sched = Sched(
    priorities: map<int, StreamPriority>,
    noninc: Buckets,
    inc: Buckets,
    turn: map<int, nat>,
    events: seq<bool>)

  const EMPTY := Sched(map[], map[], map[], map[], [])

  // ---------------------------------------------------------------- queries

  function PriorityOf(s: Sched, x: int): StreamPriority {
    if x in s.priorities then s.priorities[x] else DEFAULT_PRIORITY
  }

  function QueueIn(b: Buckets, u: int): seq<int> {
    if u in b then b[u] else []
  }

  /** The deque that serves priority `p`. */
  function Queue(s: Sched, p: StreamPriority): seq<int> {
    QueueIn(if p.incremental then s.inc else s.noninc, p.urgency)
  }

  predicate Ready(s: Sched, x: int) {
    x in Queue(s, PriorityOf(s, x))
  }

  predicate NoDup(q: seq<int>) {
    forall i, j :: 0 <= i < j < |q| ==> q[i] != q[j]
  }

  /** Each ready stream sits once, in the deque its current priority names. */
  ghost predicate QueuesOk(s: Sched) {
    forall p ::
      && NoDup(Queue(s, p))
      && forall x :: x in Queue(s, p) ==> PriorityOf(s, x) == p
  }

  /** Turn events belong to registered streams and are not shared. */
  ghost predicate TurnsOk(s: Sched) {
    && (forall x :: x in s.turn ==> x in s.priorities && s.turn[x] < |s.events|)
    && (forall x, y :: x in s.turn && y in s.turn && s.turn[x] == s.turn[y] ==> x == y)
  }

  ghost predicate Inv(s: Sched) {
    QueuesOk(s) && TurnsOk(s)
  }

  // ------------------------------------------------------------------ peek

  lemma {:induction false} LeastExists(us: set<int>)
    requires us != {}
    ensures exists m :: m in us && forall x :: x in us ==> m <= x
  {
    if forall y :: y !in us {
      assert false;
    }
    var y :| y in us;
    if us != {y} {
      var rest := us - {y};
      assert us == rest + {y};
      LeastExists(rest);
      var m :| m in rest && forall x :: x in rest ==> m <= x;
      var k := if m <= y then m else y;
      assert k in us && forall x :: x in us ==> k <= x;
    }
  }

  function Least(us: set<int>): (m: int)
    requires us != {}
    ensures m in us && forall x :: x in us ==> m <= x
  {
    LeastExists(us);
    var m :| m in us && forall x :: x in us ==> m <= x;
    m
  }

  /** `_peek_locked` over the urgencies still to be visited, lowest first. */
  function PeekIn(noninc: Buckets, inc: Buckets, us: set<int>): Option<int>
    decreases us
  {
    if us == {} then None
    else
      var u := Least(us);
      if QueueIn(noninc, u) != [] then Some(noninc[u][0])
      else if QueueIn(inc, u) != [] then Some(inc[u][0])
      else PeekIn(noninc, inc, us - {u})
  }

  function Peek(s: Sched): Option<int> {
    PeekIn(s.noninc, s.inc, s.noninc.Keys + s.inc.Keys)
  }

  /** RFC 9218 order of deques: lower urgency first, then non-incremental. */
  predicate Better(p: StreamPriority, q: StreamPriority) {
    p.urgency < q.urgency || (p.urgency == q.urgency && !p.incremental && q.incremental)
  }

  ghost predicate IsTop(s: Sched, p: StreamPriority) {
    Queue(s, p) != [] && forall q :: Better(q, p) ==> Queue(s, q) == []
  }

  lemma {:induction false} PeekInFindsTop(s: Sched, us: set<int>)
    requires forall p :: Queue(s, p) != [] ==> p.urgency in us
    ensures PeekIn(s.noninc, s.inc, us) == None ==> forall p :: Queue(s, p) == []
    ensures PeekIn(s.noninc, s.inc, us).Some? ==>
              exists p :: IsTop(s, p) && Queue(s, p)[0] == PeekIn(s.noninc, s.inc, us).value
    decreases us
  {
    if us != {} {
      var u := Least(us);
      var pn, pi := StreamPriority(u, false), StreamPriority(u, true);
      if Queue(s, pn) != [] {
        assert IsTop(s, pn);
      } else if Queue(s, pi) != [] {
        assert IsTop(s, pi);
      } else {
        forall p | Queue(s, p) != [] ensures p.urgency in us - {u} {
          assert p != pn && p != pi;
        }
        PeekInFindsTop(s, us - {u});
      }
    }
  }

  /** The stream picked is the head of the best non-empty deque, and there is no other. */
  lemma PeekIsTop(s: Sched, p: StreamPriority)
    requires IsTop(s, p)
    ensures Peek(s) == Some(Queue(s, p)[0])
  {
    PeekInFindsTop(s, s.noninc.Keys + s.inc.Keys);
    var q :| IsTop(s, q) && Queue(s, q)[0] == Peek(s).value;
    assert !Better(p, q) && !Better(q, p);
  }

  lemma TopExists(s: Sched) returns (p: StreamPriority)
    requires Peek(s).Some?
    ensures IsTop(s, p) && Peek(s) == Some(Queue(s, p)[0])
  {
    PeekInFindsTop(s, s.noninc.Keys + s.inc.Keys);
    p :| IsTop(s, p) && Queue(s, p)[0] == Peek(s).value;
  }

  lemma NothingReady(s: Sched)
    ensures Peek(s) == None <==> forall p :: Queue(s, p) == []
  {
    PeekInFindsTop(s, s.noninc.Keys + s.inc.Keys);
    if Peek(s).Some? {
      var p := TopExists(s);
      assert Queue(s, p) != [];
    }
  }

  // ------------------------------------------------------------ operations

  /** `deque.remove`: the first occurrence only. */
  function Without(q: seq<int>, x: int): seq<int> {
    if q == [] then [] else if q[0] == x then q[1..] else [q[0]] + Without(q[1..], x)
  }

  function DropFrom(b: Buckets, x: int): Buckets {
    map u | u in b :: Without(b[u], x)
  }

  function Unready(s: Sched, x: int): Sched {
    s.(noninc := DropFrom(s.noninc, x), inc := DropFrom(s.inc, x))
  }

  function Enqueue(b: Buckets, u: int, x: int): Buckets {
    var q := QueueIn(b, u);
    b[u := if x in q then q else q + [x]]
  }

  function AddReady(s: Sched, x: int, p: StreamPriority): Sched {
    if p.incremental then s.(inc := Enqueue(s.inc, p.urgency, x))
    else s.(noninc := Enqueue(s.noninc, p.urgency, x))
  }

  function SetEvent(events: seq<bool>, e: nat, value: bool): seq<bool> {
    if e < |events| then events[e := value] else events
  }

  function Wake(s: Sched): Sched {
    match Peek(s)
    case None => s
    case Some(x) =>
      if x in s.turn then s.(events := SetEvent(s.events, s.turn[x], true)) else s
  }

  /** `set_priority` before its wake-up: a scheduled stream moves to its new deque. */
  function Rebucket(s: Sched, x: int, p: StreamPriority): Sched {
    var s1 := Unready(s, x).(priorities := s.priorities[x := p]);
    if Ready(s, x) then AddReady(s1, x, p) else s1
  }

  predicate Rotates(s: Sched, x: int) {
    && x in s.priorities && s.priorities[x].incremental
    && var q := Queue(s, s.priorities[x]);
    && q != [] && q[0] == x
  }

  function Rotate(s: Sched, x: int): Sched {
    if !Rotates(s, x) then s
    else
      var u := s.priorities[x].urgency;
      s.(inc := s.inc[u := s.inc[u][1..] + [x]])
  }

  /** The locked part of `remove_stream` before its wake-up; the popped event is set later. */
  function Forget(s: Sched, x: int): Sched {
    Unready(s, x).(priorities := s.priorities - {x}, turn := s.turn - {x})
  }

  /** `await_turn` for a stream that has to wait: find or create its event, clear it. */
  function Park(s: Sched, x: int): Sched {
    if x in s.turn then s.(events := SetEvent(s.events, s.turn[x], false))
    else s.(turn := s.turn[x := |s.events|], events := s.events + [false])
  }

  datatype Op =
    | SetPriority(x: int, p: StreamPriority)
    | Schedule(x: int)
    | Unschedule(x: int)
    | MarkWrote(x: int)
    | RemoveStream(x: int)

  function Effect(s: Sched, op: Op): Sched {
    match op
    case SetPriority(x, p) => Rebucket(s, x, p)
    case Schedule(x) => AddReady(s, x, PriorityOf(s, x))
    case Unschedule(x) => Unready(s, x)
    case MarkWrote(x) => Rotate(s, x)
    case RemoveStream(x) => Forget(s, x)
  }

  /** One public call under the lock; all wake the head, except a `mark_wrote` that rotates nothing. */
  function Apply(s: Sched, op: Op): Sched {
    if op.MarkWrote? && !Rotates(s, op.x) then s else Wake(Effect(s, op))
  }

  function Run(s: Sched, ops: seq<Op>): Sched
    decreases ops
  {
    if ops == [] then s else Run(Apply(s, ops[0]), ops[1..])
  }

  // ----------------------------------------------------- effects on deques

  lemma {:induction false} WithoutMembers(q: seq<int>, x: int)
    requires NoDup(q)
    ensures NoDup(Without(q, x))
    ensures forall y :: y in Without(q, x) <==> y in q && y != x
    ensures x !in q ==> Without(q, x) == q
    ensures q != [] && q[0] != x ==> Without(q, x) != [] && Without(q, x)[0] == q[0]
  {
    if q != [] {
      var t := q[1..];
      assert forall y :: y in q <==> y == q[0] || y in t;
      assert q[0] !in t;
      WithoutMembers(t, x);
      if q[0] != x {
        assert q == [q[0]] + t;
        forall y | true ensures y in Without(q, x) <==> y == q[0] || y in Without(t, x) {}
      }
    }
  }

  /** What one call does to the deque of priority `p`. */
  function QueueAfter(s: Sched, op: Op, p: StreamPriority): seq<int> {
    var q := Queue(s, p);
    match op
    case SetPriority(x, p') => if Ready(s, x) && p == p' then Without(q, x) + [x] else Without(q, x)
    case Schedule(x) => if p == PriorityOf(s, x) && x !in q then q + [x] else q
    case MarkWrote(x) => if p == PriorityOf(s, x) && Rotates(s, x) then q[1..] + [x] else q
    case Unschedule(x) => Without(q, x)
    case RemoveStream(x) => Without(q, x)
  }

  lemma CallOnQueue(s: Sched, op: Op, p: StreamPriority)
    requires QueuesOk(s)
    ensures Queue(Effect(s, op), p) == QueueAfter(s, op, p)
    ensures Queue(Apply(s, op), p) == QueueAfter(s, op, p)
  {
    if op.SetPriority? {
      var s1 := Unready(s, op.x).(priorities := s.priorities[op.x := op.p]);
      assert Queue(s1, p) == Without(Queue(s, p), op.x);
      WithoutMembers(Queue(s, p), op.x);
    }
    if op.Unschedule? || op.RemoveStream? {
      assert Queue(Unready(s, op.x), p) == Without(Queue(s, p), op.x);
    }
  }

  lemma WakeKeeps(s: Sched)
    ensures forall p :: Queue(Wake(s), p) == Queue(s, p)
    ensures forall y :: PriorityOf(Wake(s), y) == PriorityOf(s, y)
    ensures Peek(Wake(s)) == Peek(s)
    ensures Inv(s) ==> Inv(Wake(s))
  {}

  /** Who is in the deque of priority `p` after a call. */
  lemma QueueAfterMembers(s: Sched, op: Op, p: StreamPriority)
    requires QueuesOk(s)
    ensures NoDup(QueueAfter(s, op, p))
    ensures forall y :: y in QueueAfter(s, op, p) <==>
              if y != op.x || op.MarkWrote? then y in Queue(s, p)
              else if op.Schedule? then y in Queue(s, p) || p == PriorityOf(s, y)
              else op.SetPriority? && Ready(s, y) && p == op.p
  {
    var q := Queue(s, p);
    WithoutMembers(q, op.x);
    if op.MarkWrote? && Rotates(s, op.x) && p == PriorityOf(s, op.x) {
      assert q == [op.x] + q[1..];
      assert forall y :: y in q[1..] + [op.x] <==> y in q;
    }
  }

  lemma PriorityAfter(s: Sched, op: Op, y: int)
    ensures PriorityOf(Effect(s, op), y) ==
            if y == op.x && op.SetPriority? then op.p
            else if y == op.x && op.RemoveStream? then DEFAULT_PRIORITY
            else PriorityOf(s, y)
  {}

  lemma CallKeepsQueues(s: Sched, op: Op)
    requires QueuesOk(s)
    ensures QueuesOk(Effect(s, op))
  {
    forall p
      ensures NoDup(Queue(Effect(s, op), p))
      ensures forall y :: y in Queue(Effect(s, op), p) ==> PriorityOf(Effect(s, op), y) == p
    {
      QueueKept(s, op, p);
    }
  }

  lemma QueueKept(s: Sched, op: Op, p: StreamPriority)
    requires QueuesOk(s)
    ensures NoDup(Queue(Effect(s, op), p))
    ensures forall y :: y in Queue(Effect(s, op), p) ==> PriorityOf(Effect(s, op), y) == p
  {
    CallOnQueue(s, op, p);
    QueueAfterMembers(s, op, p);
    forall y | y in QueueAfter(s, op, p) ensures PriorityOf(Effect(s, op), y) == p {
      PriorityAfter(s, op, y);
    }
  }

  lemma CallKeepsTurns(s: Sched, op: Op)
    requires TurnsOk(s)
    ensures TurnsOk(Effect(s, op))
  {}

  lemma CallKeepsInv(s: Sched, op: Op)
    requires Inv(s)
    ensures Inv(Apply(s, op))
  {
    CallKeepsQueues(s, op);
    CallKeepsTurns(s, op);
    WakeKeeps(Effect(s, op));
  }

  /** What the ready set should be after a call, with no deques in sight. */
  function WantedReady(r: set<int>, op: Op): set<int> {
    match op
    case Schedule(x) => r + {x}
    case Unschedule(x) => r - {x}
    case RemoveStream(x) => r - {x}
    case SetPriority(_, _) => r
    case MarkWrote(_) => r
  }

  function WantedReadyRun(r: set<int>, ops: seq<Op>): set<int>
    decreases ops
  {
    if ops == [] then r else WantedReadyRun(WantedReady(r, ops[0]), ops[1..])
  }

  lemma CallRefines(s: Sched, op: Op, r: set<int>)
    requires Inv(s)
    requires forall y :: Ready(s, y) <==> y in r
    ensures Inv(Apply(s, op))
    ensures forall y :: Ready(Apply(s, op), y) <==> y in WantedReady(r, op)
  {
    CallKeepsInv(s, op);
    WakeKeeps(Effect(s, op));
    forall y ensures Ready(Apply(s, op), y) <==> y in WantedReady(r, op) {
      var p := PriorityOf(Apply(s, op), y);
      PriorityAfter(s, op, y);
      CallOnQueue(s, op, p);
      QueueAfterMembers(s, op, p);
    }
  }

  /**
   After every operation sequence each ready stream is in exactly one deque,
   once, the one its current (or default) priority names, and the streams found
   there are exactly those the callers left scheduled.
   */
  lemma {:induction false} ReadySetRefinement(s: Sched, ops: seq<Op>, r: set<int>)
    requires Inv(s)
    requires forall y :: Ready(s, y) <==> y in r
    ensures Inv(Run(s, ops))
    ensures forall y :: Ready(Run(s, ops), y) <==> y in WantedReadyRun(r, ops)
    decreases ops
  {
    if ops != [] {
      CallRefines(s, ops[0], r);
      ReadySetRefinement(Apply(s, ops[0]), ops[1..], WantedReady(r, ops[0]));
    }
  }

  // -------------------------------------------------------- who goes next

  ghost predicate Before(q: seq<int>, x: int, y: int) {
    exists i, j :: 0 <= i < j < |q| && q[i] == x && q[j] == y
  }

  ghost predicate ServedBefore(s: Sched, x: int, y: int) {
    var px, py := PriorityOf(s, x), PriorityOf(s, y);
    Better(px, py) || (px == py && Before(Queue(s, px), x, y))
  }

  lemma PickPrecedesAll(s: Sched, x: int)
    requires Inv(s) && Peek(s) == Some(x)
    ensures Ready(s, x)
    ensures forall y :: Ready(s, y) && y != x ==> ServedBefore(s, x, y)
  {
    var p := TopExists(s);
    assert PriorityOf(s, x) == p;
    forall y | Ready(s, y) && y != x ensures ServedBefore(s, x, y) {
      var py := PriorityOf(s, y);
      assert Queue(s, py) != [];
      if py == p {
        var j :| 0 <= j < |Queue(s, p)| && Queue(s, p)[j] == y;
        assert 0 < j && Queue(s, p)[0] == x;
        assert Before(Queue(s, p), x, y);
      } else {
        assert !Better(py, p);
      }
    }
  }

  /**
   `next_stream` returns the least ready stream by urgency, non-incremental
   first, then queue position; None exactly when nothing is ready.
   */
  lemma NextIsLeastReady(s: Sched, x: int)
    requires Inv(s)
    ensures Peek(s) == Some(x) <==>
            Ready(s, x) && forall y :: Ready(s, y) && y != x ==> ServedBefore(s, x, y)
    ensures Peek(s) == None <==> forall y :: !Ready(s, y)
  {
    NothingReady(s);
    if Peek(s) == None {
      assert Queue(s, PriorityOf(s, x)) == [];
    } else {
      var z := Peek(s).value;
      PickPrecedesAll(s, z);
      if z != x && Ready(s, x) {
        assert ServedBefore(s, z, x);
        assert !ServedBefore(s, x, z);
      }
    }
  }
}
