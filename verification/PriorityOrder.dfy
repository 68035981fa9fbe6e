/**
 The order of service (src/pounce/_priority.py:120-202): where in its deque each
 call puts the stream it names, and that it moves no other.
 */
module PriorityOrder {
  import opened Wrappers
  import opened Priority

  /** `deque.remove` takes out the first occurrence and leaves the rest in place. */
  lemma {:induction false} WithoutAt(q: seq<int>, k: nat)
    requires k < |q| && q[k] !in q[..k]
    ensures Without(q, q[k]) == q[..k] + q[k + 1..]
    decreases k
  {
    if k > 0 {
      var t := q[1..];
      assert t[k - 1] == q[k] && forall y :: y in t[..k - 1] ==> y in q[..k];
      WithoutAt(t, k - 1);
      assert t[..k - 1] == q[..k][1..] && q[0] == q[..k][0];
      assert q[..k] == [q[0]] + t[..k - 1] && t[k..] == q[k + 1..];
    }
  }

  /** A call that withdraws the stream at place `k` of a deque closes the gap; a new priority puts it at the back. */
  lemma DequeAfterRemoval(s: Sched, op: Op, p: StreamPriority, k: nat)
    requires Inv(s) && k < |Queue(s, p)| && Queue(s, p)[k] == op.x
    requires op.Unschedule? || op.RemoveStream? || op.SetPriority?
    ensures var q := Queue(s, p);
            Queue(Apply(s, op), p) == q[..k] + q[k + 1..] + (if op.SetPriority? && op.p == p then [op.x] else [])
  {
    var q := Queue(s, p);
    CallOnQueue(s, op, p);
    assert NoDup(q) && op.x in q;
    WithoutAt(q, k);
  }

  // ------------------------------------------------------ the other streams

  lemma BeforeAround(u: seq<int>, x: int, v: seq<int>, a: int, b: int)
    requires a != x && b != x
    ensures Before(u + [x] + v, a, b) <==> Before(u + v, a, b)
  {
    var with', without, n := u + [x] + v, u + v, |u|;
    if i, j :| 0 <= i < j < |without| && without[i] == a && without[j] == b {
      var i', j' := if i < n then i else i + 1, if j < n then j else j + 1;
      assert with'[i'] == a && with'[j'] == b;
    }
    if i, j :| 0 <= i < j < |with'| && with'[i] == a && with'[j] == b {
      var i', j' := if i < n then i else i - 1, if j < n then j else j - 1;
      assert without[i'] == a && without[j'] == b;
    }
  }

  lemma BeforeAppend(q: seq<int>, x: int, a: int, b: int)
    requires a != x && b != x
    ensures Before(q + [x], a, b) <==> Before(q, a, b)
  {
    BeforeAround(q, x, [], a, b);
    assert q + [x] + [] == q + [x] && q + [] == q;
  }

  lemma BeforeWithout(q: seq<int>, x: int, a: int, b: int)
    requires NoDup(q) && a != x && b != x
    ensures Before(Without(q, x), a, b) <==> Before(q, a, b)
  {
    if x in q {
      var k :| 0 <= k < |q| && q[k] == x;
      var u, v := q[..k], q[k + 1..];
      WithoutAt(q, k);
      assert q == u + [x] + v;
      BeforeAround(u, x, v, a, b);
    } else {
      WithoutMembers(q, x);
    }
  }

  lemma BeforeRotated(q: seq<int>, a: int, b: int)
    requires q != [] && a != q[0] && b != q[0]
    ensures Before(q[1..] + [q[0]], a, b) <==> Before(q, a, b)
  {
    var x, v := q[0], q[1..];
    BeforeAppend(v, x, a, b);
    BeforeAround([], x, v, a, b);
    assert q == [] + [x] + v && [] + v == v;
  }

  lemma QueueOrder(s: Sched, op: Op, p: StreamPriority, a: int, b: int)
    requires Inv(s) && a != op.x && b != op.x
    ensures Before(QueueAfter(s, op, p), a, b) <==> Before(Queue(s, p), a, b)
  {
    var q, x := Queue(s, p), op.x;
    assert NoDup(q);
    if op.Schedule? {
      BeforeAppend(q, x, a, b);
    } else if op.MarkWrote? {
      if Rotates(s, x) && p == PriorityOf(s, x) {
        BeforeRotated(q, a, b);
      }
    } else {
      BeforeWithout(q, x, a, b);
      BeforeAppend(Without(q, x), x, a, b);
    }
  }

  /** No call changes the order in which any two other streams are served. */
  lemma OthersKeepOrder(s: Sched, op: Op, a: int, b: int)
    requires Inv(s) && a != op.x && b != op.x
    ensures ServedBefore(Apply(s, op), a, b) <==> ServedBefore(s, a, b)
  {
    var p := PriorityOf(s, a);
    PriorityAfter(s, op, a);
    PriorityAfter(s, op, b);
    WakeKeeps(Effect(s, op));
    CallOnQueue(s, op, p);
    QueueOrder(s, op, p, a, b);
  }

  // --------------------------------------------------- the stream concerned

  /** The calls after which a stream is last of its priority. */
  predicate GoesToBack(s: Sched, op: Op) {
    match op
    case Schedule(x) => !Ready(s, x)
    case SetPriority(x, _) => Ready(s, x)
    case MarkWrote(x) => x in s.priorities && s.priorities[x].incremental && IsHead(s, x)
    case _ => false
  }

  /** Nobody ready with the same priority is served before it. */
  predicate IsHead(s: Sched, x: int) {
    Ready(s, x) && Queue(s, PriorityOf(s, x))[0] == x
  }

  /** A stream that becomes ready, gets a new priority or has had its turn is served after all of its priority. */
  lemma ToTheBack(s: Sched, op: Op, y: int)
    requires Inv(s) && GoesToBack(s, op) && y != op.x
    requires Ready(Apply(s, op), y) && PriorityOf(Apply(s, op), y) == PriorityOf(Apply(s, op), op.x)
    ensures ServedBefore(Apply(s, op), y, op.x) && Ready(Apply(s, op), op.x)
  {
    var s', p := Apply(s, op), PriorityOf(Apply(s, op), op.x);
    PriorityAfter(s, op, op.x);
    WakeKeeps(Effect(s, op));
    CallOnQueue(s, op, p);
    var q := Queue(s', p);
    assert q[|q| - 1] == op.x;
    var i :| 0 <= i < |q| && q[i] == y;
    assert i < |q| - 1;
  }

  /** Every other call leaves the deque of every stream it does not withdraw as it was. */
  lemma NothingMoves(s: Sched, op: Op, p: StreamPriority)
    requires Inv(s) && !GoesToBack(s, op)
    requires (op.Unschedule? || op.RemoveStream?) ==> !Ready(s, op.x)
    ensures Queue(Apply(s, op), p) == Queue(s, p)
  {
    CallOnQueue(s, op, p);
    WithoutMembers(Queue(s, p), op.x);
    if op.x in Queue(s, p) {
      assert PriorityOf(s, op.x) == p;
    }
  }
}
