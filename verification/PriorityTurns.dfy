/**
 Runs of the scheduler: round-robin fairness, stickiness of a non-incremental
 head, and the parking protocol of `await_turn` (src/pounce/_priority.py:204-245).
 */
module PriorityTurns {
  import opened Wrappers
  import opened Priority

  // ------------------------------------------------------------- fairness

  /** `n` rounds of `next_stream` followed by `mark_wrote`: who was served, and what is left. */
  function Rounds(s: Sched, n: nat): (seq<int>, Sched)
    decreases n
  {
    if n == 0 || Peek(s) == None then ([], s)
    else
      var (served, s') := Rounds(Apply(s, MarkWrote(Peek(s).value)), n - 1);
      ([Peek(s).value] + served, s')
  }

  lemma RoundsStep(s: Sched, n: nat)
    requires n > 0 && Peek(s).Some?
    ensures var r := Rounds(Apply(s, MarkWrote(Peek(s).value)), n - 1);
            Rounds(s, n) == ([Peek(s).value] + r.0, r.1)
  {}

  lemma RotateHead(s: Sched, p: StreamPriority)
    requires Inv(s) && IsTop(s, p) && p.incremental
    ensures var q := Queue(s, p); var s1 := Apply(s, MarkWrote(q[0]));
            && Peek(s) == Some(q[0])
            && s1.inc == s.inc[p.urgency := q[1..] + [q[0]]]
            && s1.noninc == s.noninc && s1.priorities == s.priorities && s1.turn == s.turn
            && Queue(s1, p) == q[1..] + [q[0]]
            && Inv(s1) && IsTop(s1, p)
  {
    var q, op := Queue(s, p), MarkWrote(Queue(s, p)[0]);
    PeekIsTop(s, p);
    assert q[0] in q && PriorityOf(s, q[0]) == p;
    CallKeepsInv(s, op);
    forall r ensures Queue(Apply(s, op), r) == QueueAfter(s, op, r) {
      CallOnQueue(s, op, r);
    }
  }

  lemma RotateSlices(q: seq<int>, n: nat)
    requires 0 < n <= |q|
    ensures var q1 := q[1..] + [q[0]];
            && [q[0]] + q1[..n - 1] == q[..n]
            && q1[n - 1..] + q1[..n - 1] == q[n..] + q[..n]
  {
    var q1 := q[1..] + [q[0]];
    assert q1[n - 1..] + q1[..n - 1] == q[n..] + ([q[0]] + q1[..n - 1]);
  }

  lemma {:induction false} RoundsRotate(s: Sched, p: StreamPriority, n: nat)
    requires Inv(s) && IsTop(s, p) && p.incremental
    requires n <= |Queue(s, p)|
    ensures var q, s' := Queue(s, p), Rounds(s, n).1;
            && Rounds(s, n).0 == q[..n]
            && s'.inc == s.inc[p.urgency := q[n..] + q[..n]]
            && s'.noninc == s.noninc && s'.priorities == s.priorities && s'.turn == s.turn
    decreases n
  {
    var q := Queue(s, p);
    PeekIsTop(s, p);
    if n == 0 {
      assert q[0..] + q[..0] == q;
    } else {
      var s1, q1 := Apply(s, MarkWrote(q[0])), q[1..] + [q[0]];
      RotateHead(s, p);
      RoundsRotate(s1, p, n - 1);
      RoundsStep(s, n);
      RotateSlices(q, n);
    }
  }

  /**
   With k incremental streams in the best deque, k rounds serve each of them
   exactly once, in order, and leave the deques as they were.
   */
  lemma RoundRobinFair(s: Sched, p: StreamPriority)
    requires Inv(s) && IsTop(s, p) && p.incremental
    ensures var (served, s') := Rounds(s, |Queue(s, p)|);
            && served == Queue(s, p) && NoDup(served)
            && s'.inc == s.inc && s'.noninc == s.noninc && s'.priorities == s.priorities
  {
    var q := Queue(s, p);
    RoundsRotate(s, p, |q|);
    assert q[|q|..] + q[..|q|] == q;
  }

  // ----------------------------------------------------------- stickiness

  /** The calls that put a stream ahead of a non-incremental head of urgency `u`. */
  predicate Preempts(s: Sched, op: Op, u: int) {
    match op
    case Schedule(x) => PriorityOf(s, x).urgency < u
    case SetPriority(x, p) => Ready(s, x) && p.urgency < u
    case _ => false
  }

  /** Calls that do not themselves withdraw or re-prioritise stream `h`. */
  predicate Spares(op: Op, h: int) {
    op.x != h || op.MarkWrote? || op.Schedule?
  }

  lemma HeadAfter(s: Sched, op: Op, p: StreamPriority, h: int)
    requires Inv(s) && IsTop(s, p) && Queue(s, p)[0] == h && PriorityOf(s, h) == p && !p.incremental
    requires Spares(op, h)
    ensures Queue(Apply(s, op), p) != [] && Queue(Apply(s, op), p)[0] == h
    ensures PriorityOf(Apply(s, op), h) == p
  {
    CallOnQueue(s, op, p);
    WithoutMembers(Queue(s, p), op.x);
    PriorityAfter(s, op, h);
    WakeKeeps(Effect(s, op));
  }

  lemma BetterAfter(s: Sched, op: Op, p: StreamPriority, q: StreamPriority)
    requires Inv(s) && IsTop(s, p) && !p.incremental && Better(q, p)
    ensures Queue(Apply(s, op), q) != [] <==>
            || (op.Schedule? && PriorityOf(s, op.x) == q)
            || (op.SetPriority? && Ready(s, op.x) && op.p == q)
  {
    CallOnQueue(s, op, q);
    assert Queue(s, q) == [];
  }

  /** A non-incremental head loses its slot to others exactly when one of strictly better urgency becomes ready. */
  lemma HeadKeptExactly(s: Sched, op: Op, h: int)
    requires Inv(s) && Peek(s) == Some(h) && !PriorityOf(s, h).incremental
    requires Spares(op, h)
    ensures Inv(Apply(s, op)) && PriorityOf(Apply(s, op), h) == PriorityOf(s, h)
    ensures Peek(Apply(s, op)) == Some(h) <==> !Preempts(s, op, PriorityOf(s, h).urgency)
  {
    var p, s' := PriorityOf(s, h), Apply(s, op);
    var top := TopExists(s);
    assert h in Queue(s, top);
    CallKeepsInv(s, op);
    HeadAfter(s, op, p, h);
    if Preempts(s, op, p.urgency) {
      BetterAfter(s, op, p, if op.Schedule? then PriorityOf(s, op.x) else op.p);
      if Peek(s').Some? {
        var top' := TopExists(s');
        assert !Better(p, top');
        assert Peek(s').value in Queue(s', top');
      }
    } else {
      forall q | Better(q, p) ensures Queue(s', q) == [] {
        BetterAfter(s, op, p, q);
      }
      PeekIsTop(s', p);
    }
  }

  predicate Calm(s: Sched, ops: seq<Op>, h: int, u: int)
    decreases ops
  {
    ops != [] ==>
      && Spares(ops[0], h) && !Preempts(s, ops[0], u)
      && Calm(Apply(s, ops[0]), ops[1..], h, u)
  }

  /** Through a whole run of such calls the same stream keeps writing. */
  lemma {:induction false} HeadSticks(s: Sched, ops: seq<Op>, h: int)
    requires Inv(s) && Peek(s) == Some(h) && !PriorityOf(s, h).incremental
    requires Calm(s, ops, h, PriorityOf(s, h).urgency)
    ensures Peek(Run(s, ops)) == Some(h)
    decreases ops
  {
    if ops != [] {
      HeadKeptExactly(s, ops[0], h);
      HeadSticks(Apply(s, ops[0]), ops[1..], h);
    }
  }

  // -------------------------------------------------------- waiting a turn

  /** A task inside `event.wait()`: its stream and the event object it holds. */
  datatype Waiter = Waiter(stream: int, event: nat)

  /** `releasing` holds events `remove_stream` has popped but not yet set. */
  datatype Sys = Sys(sched: Sched, waiters: map<nat, Waiter>, releasing: set<nat>)

  const START := Sys(EMPTY, map[], {})

  datatype Action =
    | Call(op: Op)
    | Release(event: nat)
    | Check(task: nat, stream: int)
    | Proceed(task: nat)

  predicate IsSet(s: Sched, e: nat) {
    e < |s.events| && s.events[e]
  }

  /** `await_turn` returns from its locked section instead of waiting. */
  predicate Returns(s: Sched, x: int) {
    x !in s.priorities || Peek(s) == Some(x)
  }

  function Act(y: Sys, a: Action): Sys {
    match a
    case Call(op) =>
      y.(sched := Apply(y.sched, op),
         releasing := if op.RemoveStream? && op.x in y.sched.turn
                      then y.releasing + {y.sched.turn[op.x]} else y.releasing)
    case Release(e) =>
      if e !in y.releasing then y
      else y.(sched := y.sched.(events := SetEvent(y.sched.events, e, true)),
              releasing := y.releasing - {e})
    case Check(t, x) =>
      if t in y.waiters || Returns(y.sched, x) then y
      else
        var s' := Park(y.sched, x);
        y.(sched := s', waiters := y.waiters[t := Waiter(x, s'.turn[x])])
    case Proceed(t) =>
      if t in y.waiters && IsSet(y.sched, y.waiters[t].event)
      then y.(waiters := y.waiters - {t}) else y
  }

  function ActAll(y: Sys, run: seq<Action>): Sys
    decreases run
  {
    if run == [] then y else ActAll(Act(y, run[0]), run[1..])
  }

  /** A waiter is awake, about to be released, or parked on the live event of a stream whose turn it is not. */
  ghost predicate WaiterOk(s: Sched, releasing: set<nat>, w: Waiter) {
    && w.event < |s.events|
    && (forall x :: x in s.turn && s.turn[x] == w.event ==> x == w.stream)
    && (|| s.events[w.event]
        || w.event in releasing
        || (w.stream in s.turn && s.turn[w.stream] == w.event && Peek(s) != Some(w.stream)))
  }

  ghost predicate SysInv(y: Sys) {
    && Inv(y.sched)
    && (forall e :: e in y.releasing ==>
          e < |y.sched.events| && forall x :: x in y.sched.turn ==> y.sched.turn[x] != e)
    && (forall t :: t in y.waiters ==> WaiterOk(y.sched, y.releasing, y.waiters[t]))
  }

  lemma EffectOnEvents(s: Sched, op: Op)
    ensures Effect(s, op).events == s.events
    ensures Effect(s, op).turn == if op.RemoveStream? then s.turn - {op.x} else s.turn
  {}

  lemma WakeSetsHead(s: Sched)
    ensures |Wake(s).events| == |s.events| && Wake(s).turn == s.turn && Peek(Wake(s)) == Peek(s)
    ensures forall e :: 0 <= e < |s.events| && s.events[e] ==> Wake(s).events[e]
    ensures forall x :: x in s.turn && s.turn[x] < |s.events| && Peek(s) == Some(x) ==> IsSet(Wake(s), s.turn[x])
    ensures forall e :: 0 <= e < |s.events| && Wake(s).events[e] != s.events[e] ==>
              Peek(s).Some? && Peek(s).value in s.turn && s.turn[Peek(s).value] == e
  {}

  /** Calls only ever set events, they leave the event of the new head set, and touch no other. */
  lemma CallsWakeHead(s: Sched, op: Op)
    requires Inv(s)
    ensures var s' := Apply(s, op);
            && |s'.events| == |s.events|
            && (forall e :: 0 <= e < |s.events| && s.events[e] ==> s'.events[e])
            && s'.turn == (if op.RemoveStream? then s.turn - {op.x} else s.turn)
            && (s' == s || forall x :: x in s'.turn && Peek(s') == Some(x) ==> IsSet(s', s'.turn[x]))
            && (forall e :: 0 <= e < |s.events| && s'.events[e] != s.events[e] ==>
                  exists x :: Peek(s') == Some(x) && x in s'.turn && s'.turn[x] == e)
  {
    EffectOnEvents(s, op);
    WakeSetsHead(Effect(s, op));
  }

  lemma CallKeepsSys(y: Sys, op: Op)
    requires SysInv(y)
    ensures SysInv(Act(y, Call(op)))
  {
    CallKeepsInv(y.sched, op);
    CallsWakeHead(y.sched, op);
  }

  lemma ParkKeeps(s: Sched, x: int)
    requires Inv(s) && x in s.priorities
    ensures var s' := Park(s, x);
            && Inv(s') && Peek(s') == Peek(s) && |s.events| <= |s'.events| && x in s'.turn
            && (forall z :: z in s.turn ==> z in s'.turn && s'.turn[z] == s.turn[z])
            && (forall z :: z in s'.turn ==> z in s.turn || (z == x && s'.turn[z] == |s.events|))
            && (forall e :: 0 <= e < |s.events| && e != s'.turn[x] ==> s'.events[e] == s.events[e])
  {
    var s' := Park(s, x);
    assert forall p :: Queue(s', p) == Queue(s, p);
    assert forall z :: PriorityOf(s', z) == PriorityOf(s, z);
  }

  lemma CheckKeepsSys(y: Sys, t: nat, x: int)
    requires SysInv(y)
    ensures SysInv(Act(y, Check(t, x)))
  {
    if t !in y.waiters && !Returns(y.sched, x) {
      ParkKeeps(y.sched, x);
    }
  }

  lemma ActKeepsSys(y: Sys, a: Action)
    requires SysInv(y)
    ensures SysInv(Act(y, a))
  {
    match a
    case Call(op) => CallKeepsSys(y, op);
    case Check(t, x) => CheckKeepsSys(y, t, x);
    case Release(e) =>
      var s' := Act(y, a).sched;
      assert forall p :: Queue(s', p) == Queue(y.sched, p);
      assert forall z :: PriorityOf(s', z) == PriorityOf(y.sched, z);
    case Proceed(t) =>
  }

  /** A task gets past the check exactly if its stream is unregistered or the least ready one; otherwise it parks. */
  lemma ParksExactly(y: Sys, t: nat, x: int)
    requires Inv(y.sched) && t !in y.waiters
    ensures var s, y' := y.sched, Act(y, Check(t, x));
            && (t in y'.waiters <==>
                  x in s.priorities && !(Ready(s, x) && forall z :: Ready(s, z) && z != x ==> ServedBefore(s, x, z)))
            && (t in y'.waiters ==> y'.waiters[t].stream == x && !IsSet(y'.sched, y'.waiters[t].event))
            && (t !in y'.waiters ==> y' == y)
  {
    NextIsLeastReady(y.sched, x);
  }

  /** and a parked task stays until the event it holds is set. */
  lemma LeavesExactly(y: Sys, t: nat)
    requires t in y.waiters
    ensures t !in Act(y, Proceed(t)).waiters <==> IsSet(y.sched, y.waiters[t].event)
  {}

  lemma {:induction false} RunKeepsSys(y: Sys, run: seq<Action>)
    requires SysInv(y)
    ensures SysInv(ActAll(y, run))
    decreases run
  {
    if run != [] {
      ActKeepsSys(y, run[0]);
      RunKeepsSys(Act(y, run[0]), run[1..]);
    }
  }

  /**
   In no interleaving does a stream stay parked on a clear event while it is
   the stream the scheduler would pick: a parked waiter holds the live event of
   its registered stream, whose turn it is not, or an event that `remove_stream`
   has popped and is about to set.
   */
  lemma NoLostWakeup(run: seq<Action>, t: nat)
    requires t in ActAll(START, run).waiters
    ensures var y := ActAll(START, run); var w := y.waiters[t];
            !IsSet(y.sched, w.event) ==>
              || w.event in y.releasing
              || (&& w.stream in y.sched.turn && y.sched.turn[w.stream] == w.event
                  && w.stream in y.sched.priorities && Peek(y.sched) != Some(w.stream))
  {
    RunKeepsSys(START, run);
  }

  /** A waiter whose turn has come, or whose stream is gone, gets out in its next two steps. */
  lemma WaiterGetsOut(run: seq<Action>, t: nat)
    requires t in ActAll(START, run).waiters
    requires Returns(ActAll(START, run).sched, ActAll(START, run).waiters[t].stream)
    ensures var y := ActAll(START, run); var w := y.waiters[t];
            t !in ActAll(y, [Release(w.event), Proceed(t), Check(t, w.stream)]).waiters
  {
    var y := ActAll(START, run);
    var w := y.waiters[t];
    RunKeepsSys(START, run);
    var y1 := Act(y, Release(w.event));
    var y2 := Act(y1, Proceed(t));
    assert IsSet(y1.sched, w.event);
    assert Peek(y2.sched) == Peek(y.sched) && y2.sched.priorities == y.sched.priorities;
    var steps := [Release(w.event), Proceed(t), Check(t, w.stream)];
    assert steps[1..] == [Proceed(t), Check(t, w.stream)] && steps[1..][1..] == [Check(t, w.stream)];
    calc {
      ActAll(y, steps);
      ActAll(y1, steps[1..]);
      ActAll(y2, steps[1..][1..]);
      Act(y2, Check(t, w.stream));
    }
  }
}
