/**
 The handoff pool and its drain (src/pounce/async_pool.py:132-238) as a state
 machine.  `Poll` is one pass of whichever loop the pool is in; between passes
 the environment enqueues handoffs, requests shutdown, lets tasks finish and
 lets time pass, in any order.
 */
module AsyncPool {
  import opened Wrappers

  const IDLE_NEEDED := 6

  datatype TaskStatus = Running | Finished | Cancelled

  /** Where `_serve` is; `pending` are indices of the tasks being awaited. */
  datatype Phase =
    | Serving
    | DrainingQueue(deadline: int, idlePolls: nat)
    | Awaiting(pending: set<nat>, deadline: int)
    | Cancelling(pending: set<nat>)
    | Returned

  datatype Config = Config(timeout: nat, hasExtShutdown: bool)

  /**
   `accepted` lists every handoff ever enqueued, `started` those given a task,
   with `tasks` beside it.  `seen` records, for each pass of the queue drain,
   whether it found the queue empty and nothing in flight.
   */
  datatype Pool = Pool(
    accepted: seq<int>,
    queue: seq<int>,
    started: seq<int>,
    tasks: seq<TaskStatus>,
    poolShutdown: bool,
    extShutdown: bool,
    safetyDeadline: Option<int>,
    phase: Phase,
    seen: seq<bool>,
    clock: int)

  const START := Pool([], [], [], [], false, false, None, Serving, [], 0)

  predicate InFlight(p: Pool) {
    exists k :: 0 <= k < |p.tasks| && p.tasks[k] == Running
  }

  function RunningTasks(p: Pool): set<nat> {
    set k: nat | 0 <= k < |p.tasks| && p.tasks[k] == Running
  }

  // ------------------------------------------------------------------ steps

  /** `_start_handoff` on the head of the queue. */
  function StartNext(p: Pool): Pool
    requires p.queue != []
  {
    p.(queue := p.queue[1..], started := p.started + [p.queue[0]], tasks := p.tasks + [Running])
  }

  function LeaveServing(cfg: Config, p: Pool): Pool {
    p.(phase := DrainingQueue(p.clock + cfg.timeout, 0), seen := [])
  }

  function PollServing(cfg: Config, p: Pool): Pool {
    if p.poolShutdown then LeaveServing(cfg, p)
    else if cfg.hasExtShutdown && p.extShutdown && p.safetyDeadline.Some? && p.clock >= p.safetyDeadline.value
    then LeaveServing(cfg, p)
    else
      var p1 := if cfg.hasExtShutdown && p.extShutdown && p.safetyDeadline == None
                then p.(safetyDeadline := Some(p.clock + 2 * cfg.timeout)) else p;
      if p1.queue == [] then p1 else StartNext(p1)
  }

  /** `_drain_handoffs`: return at once, or wait for the tasks that are running now. */
  function BeginAwait(cfg: Config, p: Pool): Pool {
    if RunningTasks(p) == {} then p.(phase := Returned)
    else p.(phase := Awaiting(RunningTasks(p), p.clock + cfg.timeout))
  }

  function PollQueue(cfg: Config, p: Pool): Pool
    requires p.phase.DrainingQueue?
  {
    if p.clock >= p.phase.deadline then BeginAwait(cfg, p)
    else if p.queue != [] then
      StartNext(p).(phase := p.phase.(idlePolls := 0), seen := p.seen + [false])
    else
      var idle := !InFlight(p);
      var n := if idle then p.phase.idlePolls + 1 else 0;
      var p1 := p.(seen := p.seen + [idle]);
      if n >= IDLE_NEEDED then BeginAwait(cfg, p1) else p1.(phase := p.phase.(idlePolls := n))
  }

  function PollAwait(p: Pool): Pool
    requires p.phase.Awaiting?
  {
    var still := p.phase.pending * RunningTasks(p);
    if still == {} then p.(phase := Returned)
    else if p.clock >= p.phase.deadline then p.(phase := Cancelling(still))
    else p
  }

  function Poll(cfg: Config, p: Pool): Pool {
    match p.phase
    case Serving => PollServing(cfg, p)
    case DrainingQueue(_, _) => PollQueue(cfg, p)
    case Awaiting(_, _) => PollAwait(p)
    case Cancelling(pending) => if pending * RunningTasks(p) == {} then p.(phase := Returned) else p
    case Returned => p
  }

  datatype Event =
    | Accept(handoff: int)
    | RequestShutdown
    | ExtShutdown
    | Settle(task: nat)
    | Pass(dt: nat)
    | PollOnce

  function Next(cfg: Config, p: Pool, e: Event): Pool {
    match e
    case Accept(h) => p.(accepted := p.accepted + [h], queue := p.queue + [h])
    case RequestShutdown => p.(poolShutdown := true)
    case ExtShutdown => p.(extShutdown := true)
    case Pass(dt) => p.(clock := p.clock + dt)
    case PollOnce => Poll(cfg, p)
    case Settle(k) =>
      if k < |p.tasks| && p.tasks[k] == Running then
        p.(tasks := p.tasks[k := if p.phase.Cancelling? && k in p.phase.pending then Cancelled else Finished])
      else p
  }

  function Run(cfg: Config, p: Pool, es: seq<Event>): Pool
    decreases es
  {
    if es == [] then p else Run(cfg, Next(cfg, p, es[0]), es[1..])
  }

  // ------------------------------------------------------------- invariants

  predicate LastTrue(seen: seq<bool>, n: nat) {
    n <= |seen| && forall i :: |seen| - n <= i < |seen| ==> seen[i]
  }

  /** How many passes in a row, up to now, found nothing to do. */
  function Trailing(seen: seq<bool>): nat {
    if seen == [] || !seen[|seen| - 1] then 0 else Trailing(seen[..|seen| - 1]) + 1
  }

  lemma {:induction false} TrailingExactly(seen: seq<bool>, n: nat)
    ensures Trailing(seen) >= n <==> LastTrue(seen, n)
    decreases |seen|
  {
    if n > 0 && seen != [] && seen[|seen| - 1] {
      var rest := seen[..|seen| - 1];
      TrailingExactly(rest, n - 1);
      assert forall i :: 0 <= i < |rest| ==> rest[i] == seen[i];
    }
  }

  lemma TrailingAppend(seen: seq<bool>, b: bool)
    ensures Trailing(seen + [b]) == if b then Trailing(seen) + 1 else 0
  {
    assert (seen + [b])[..|seen|] == seen;
  }

  ghost predicate Inv(p: Pool) {
    && p.accepted == p.started + p.queue
    && |p.tasks| == |p.started|
    && (p.phase.DrainingQueue? ==> p.phase.idlePolls == Trailing(p.seen))
    && (p.phase.Awaiting? || p.phase.Cancelling? ==> RunningTasks(p) <= p.phase.pending)
    && (p.phase.Returned? ==> !InFlight(p))
  }

  lemma NothingRunning(p: Pool)
    ensures RunningTasks(p) == {} <==> !InFlight(p)
  {
    if k: nat :| k < |p.tasks| && p.tasks[k] == Running {
      assert k in RunningTasks(p);
    }
  }

  lemma StartKeeps(p: Pool)
    requires p.queue != [] && p.accepted == p.started + p.queue
    ensures StartNext(p).accepted == StartNext(p).started + StartNext(p).queue
  {
    assert p.queue == [p.queue[0]] + p.queue[1..];
  }

  lemma ServingKeepsInv(cfg: Config, p: Pool)
    requires Inv(p) && p.phase.Serving?
    ensures Inv(Poll(cfg, p))
  {
    if p.queue != [] {
      StartKeeps(p);
    }
  }

  lemma BeginAwaitKeepsInv(cfg: Config, p: Pool)
    requires p.accepted == p.started + p.queue && |p.tasks| == |p.started|
    ensures Inv(BeginAwait(cfg, p))
  {
    NothingRunning(p);
    assert RunningTasks(BeginAwait(cfg, p)) == RunningTasks(p);
  }

  lemma DrainKeepsInv(cfg: Config, p: Pool)
    requires Inv(p) && p.phase.DrainingQueue?
    ensures Inv(Poll(cfg, p))
  {
    if p.clock >= p.phase.deadline {
      BeginAwaitKeepsInv(cfg, p);
    } else if p.queue != [] {
      StartKeeps(p);
      TrailingAppend(p.seen, false);
    } else {
      TrailingAppend(p.seen, !InFlight(p));
      BeginAwaitKeepsInv(cfg, p.(seen := p.seen + [!InFlight(p)]));
    }
  }

  lemma WaitKeepsInv(cfg: Config, p: Pool)
    requires Inv(p) && (p.phase.Awaiting? || p.phase.Cancelling? || p.phase.Returned?)
    ensures Inv(Poll(cfg, p))
  {
    NothingRunning(p);
  }

  lemma PollKeepsInv(cfg: Config, p: Pool)
    requires Inv(p)
    ensures Inv(Poll(cfg, p))
  {
    match p.phase
    case Serving => ServingKeepsInv(cfg, p);
    case DrainingQueue(_, _) => DrainKeepsInv(cfg, p);
    case _ => WaitKeepsInv(cfg, p);
  }

  lemma NextKeepsInv(cfg: Config, p: Pool, e: Event)
    requires Inv(p)
    ensures Inv(Next(cfg, p, e))
  {
    match e
    case PollOnce => PollKeepsInv(cfg, p);
    case Accept(h) => assert p.started + p.queue + [h] == p.started + (p.queue + [h]);
    case Settle(k) =>
    case RequestShutdown =>
    case ExtShutdown =>
    case Pass(_) =>
  }

  lemma {:induction false} RunKeepsInv(cfg: Config, p: Pool, es: seq<Event>)
    requires Inv(p)
    ensures Inv(Run(cfg, p, es))
    decreases es
  {
    if es != [] {
      NextKeepsInv(cfg, p, es[0]);
      RunKeepsInv(cfg, Next(cfg, p, es[0]), es[1..]);
    }
  }

  /**
   In every interleaving each accepted handoff is either still queued or was
   started exactly once, in the order of acceptance; and once `_serve` has
   returned, every task it started is finished or cancelled.
   */
  lemma HandoffConservation(cfg: Config, es: seq<Event>)
    ensures var p := Run(cfg, START, es);
            && |p.started| + |p.queue| == |p.accepted| && |p.tasks| == |p.started|
            && (forall k :: 0 <= k < |p.started| ==> p.started[k] == p.accepted[k])
            && (forall k :: 0 <= k < |p.queue| ==> p.queue[k] == p.accepted[|p.started| + k])
            && (p.phase == Returned ==> forall k :: 0 <= k < |p.tasks| ==> p.tasks[k] != Running)
  {
    RunKeepsInv(cfg, START, es);
  }

  /** Each pass of the queue drain before its deadline records whether it found everything done. */
  lemma SeenExactly(cfg: Config, p: Pool)
    requires p.phase.DrainingQueue? && p.clock < p.phase.deadline
    ensures Poll(cfg, p).seen == p.seen + [p.queue == [] && !InFlight(p)]
  {}

  /**
   The queue drain is left before its deadline exactly when this pass and the
   five before it all found the queue empty with nothing in flight; by then
   everything accepted has been started and is done.
   */
  lemma IdleExitExactly(cfg: Config, es: seq<Event>)
    requires var p := Run(cfg, START, es); p.phase.DrainingQueue? && p.clock < p.phase.deadline
    ensures var p := Run(cfg, START, es);
            && (!Poll(cfg, p).phase.DrainingQueue? <==> LastTrue(p.seen, 5) && p.queue == [] && !InFlight(p))
            && (!Poll(cfg, p).phase.DrainingQueue? ==> Poll(cfg, p).phase == Returned && p.started == p.accepted)
  {
    var p := Run(cfg, START, es);
    RunKeepsInv(cfg, START, es);
    NothingRunning(p);
    TrailingExactly(p.seen, 5);
    var p1 := p.(seen := p.seen + [!InFlight(p)]);
    assert RunningTasks(p1) == RunningTasks(p);
    assert p.started + [] == p.started;
  }

  // --------------------------------------------------- what a pass has to do

  /** The head of the queue, and nothing else, has been given a task. */
  predicate StartsOne(p: Pool, q: Pool) {
    && p.queue != [] && q.queue == p.queue[1..]
    && q.started == p.started + [p.queue[0]] && q.tasks == p.tasks + [Running]
  }

  predicate StartsNone(p: Pool, q: Pool) {
    q.queue == p.queue && q.started == p.started && q.tasks == p.tasks
  }

  /** The pool has a reason to stop serving. */
  predicate Due(cfg: Config, p: Pool) {
    p.poolShutdown || (cfg.hasExtShutdown && p.extShutdown && p.safetyDeadline.Some? && p.clock >= p.safetyDeadline.value)
  }

  /**
   A serving pass leaves exactly when that is due, giving the drain its whole
   timeout; otherwise it starts the next handoff if there is one, and the first
   pass that sees an external shutdown arms the safety deadline.
   */
  lemma ServingPassExactly(cfg: Config, p: Pool)
    requires p.phase.Serving?
    ensures var q := Poll(cfg, p);
            && (if Due(cfg, p) then q.phase == DrainingQueue(p.clock + cfg.timeout, 0) && StartsNone(p, q)
                else q.phase == Serving && (if p.queue == [] then StartsNone(p, q) else StartsOne(p, q)))
            && q.safetyDeadline == (if !Due(cfg, p) && cfg.hasExtShutdown && p.extShutdown && p.safetyDeadline == None
                                    then Some(p.clock + 2 * cfg.timeout) else p.safetyDeadline)
  {}

  /** A pass of the queue drain starts the next handoff until its deadline; then it waits for what is running. */
  lemma DrainPassExactly(cfg: Config, p: Pool)
    requires p.phase.DrainingQueue?
    ensures var q := Poll(cfg, p);
            && (if p.clock < p.phase.deadline && p.queue != []
                then StartsOne(p, q) && q.phase == DrainingQueue(p.phase.deadline, 0)
                else StartsNone(p, q))
            && (p.clock >= p.phase.deadline ==>
                  q.phase == if InFlight(p) then Awaiting(RunningTasks(p), p.clock + cfg.timeout) else Returned)
  {
    NothingRunning(p);
  }

  /** The wait ends when its tasks are done, or at its deadline with exactly those still running cancelled. */
  lemma WaitPassExactly(cfg: Config, p: Pool)
    requires p.phase.Awaiting? || p.phase.Cancelling?
    ensures var q, still := Poll(cfg, p), p.phase.pending * RunningTasks(p);
            && StartsNone(p, q)
            && (still == {} ==> q.phase == Returned)
            && (still != {} && p.phase.Awaiting? ==>
                  q.phase == if p.clock >= p.phase.deadline then Cancelling(still) else p.phase)
            && (still != {} && p.phase.Cancelling? ==> q.phase == p.phase)
  {}

  function Passes(es: seq<Event>): nat
    decreases es
  {
    if es == [] then 0 else (if es[0].PollOnce? then 1 else 0) + Passes(es[1..])
  }

  predicate Undisturbed(cfg: Config, p: Pool) {
    !p.poolShutdown && !(cfg.hasExtShutdown && p.extShutdown)
  }

  lemma {:induction false} FlagsStay(cfg: Config, p: Pool, es: seq<Event>)
    requires Undisturbed(cfg, Run(cfg, p, es))
    ensures Undisturbed(cfg, p)
    decreases es
  {
    if es != [] {
      FlagsStay(cfg, Next(cfg, p, es[0]), es[1..]);
    }
  }

  function Least(a: int, b: int): int {
    if a <= b then a else b
  }

  lemma {:induction false} ProgressFrom(cfg: Config, p: Pool, es: seq<Event>)
    requires Inv(p) && p.phase.Serving? && Undisturbed(cfg, Run(cfg, p, es))
    ensures var q := Run(cfg, p, es);
            && q.phase.Serving?
            && Least(|p.started| + Passes(es), |p.accepted|) <= |q.started| <= |p.started| + Passes(es)
    decreases es
  {
    if es != [] {
      FlagsStay(cfg, p, es);
      NextKeepsInv(cfg, p, es[0]);
      ProgressFrom(cfg, Next(cfg, p, es[0]), es[1..]);
    }
  }

  /**
   While no shutdown is asked for, the pool goes on serving, and n passes start
   n of the handoffs accepted before them, or all there are; never more than
   one a pass.
   */
  lemma ServingProgress(cfg: Config, before: seq<Event>, after: seq<Event>)
    requires Run(cfg, START, before).phase.Serving? && Undisturbed(cfg, Run(cfg, START, before + after))
    ensures var p, q, n := Run(cfg, START, before), Run(cfg, START, before + after), Passes(after);
            && q.phase.Serving?
            && (if |p.started| + n <= |p.accepted| then |q.started| == |p.started| + n
                else |p.accepted| <= |q.started| <= |p.started| + n)
  {
    RunKeepsInv(cfg, START, before);
    RunConcat(cfg, START, before, after);
    ProgressFrom(cfg, Run(cfg, START, before), after);
  }

  // ------------------------------------------------------------ termination

  /** The time left in a phase never grows, so each wait below is bounded. */
  lemma DeadlinesFixed(cfg: Config, p: Pool, e: Event)
    ensures p.safetyDeadline.Some? ==> Next(cfg, p, e).safetyDeadline == p.safetyDeadline
    ensures var q := Next(cfg, p, e);
            && (p.phase.DrainingQueue? && q.phase.DrainingQueue? ==> q.phase.deadline == p.phase.deadline)
            && (p.phase.Awaiting? && q.phase.Awaiting? ==> q.phase == p.phase)
            && Rank(q.phase) >= Rank(p.phase)
  {}

  function Rank(ph: Phase): nat {
    match ph
    case Serving => 0
    case DrainingQueue(_, _) => 1
    case Awaiting(_, _) => 2
    case Cancelling(_) => 3
    case Returned => 4
  }

  /** Phases only move forward through a run. */
  lemma {:induction false} PhasesForward(cfg: Config, p: Pool, es: seq<Event>)
    ensures Rank(Run(cfg, p, es).phase) >= Rank(p.phase)
    ensures p.safetyDeadline.Some? ==> Run(cfg, p, es).safetyDeadline == p.safetyDeadline
    ensures p.phase.DrainingQueue? && Run(cfg, p, es).phase.DrainingQueue? ==>
              Run(cfg, p, es).phase.deadline == p.phase.deadline
    ensures p.phase.Awaiting? && Run(cfg, p, es).phase.Awaiting? ==> Run(cfg, p, es).phase == p.phase
    decreases es
  {
    if es != [] {
      DeadlinesFixed(cfg, p, es[0]);
      PhasesForward(cfg, Next(cfg, p, es[0]), es[1..]);
    }
  }

  predicate SafetyOver(p: Pool) {
    p.safetyDeadline.Some? && p.clock >= p.safetyDeadline.value
  }

  /**
   The next pass leaves a phase when its time is up: serving, on the pool's own
   shutdown or at the safety deadline the external one armed; draining the
   queue, at its deadline; waiting, at its deadline or when all tasks are done.
   */
  lemma PollLeavesOnTime(cfg: Config, es: seq<Event>)
    ensures var p := Run(cfg, START, es); var q := Poll(cfg, p);
            && (p.phase.Serving? && p.poolShutdown ==> !q.phase.Serving?)
            && (p.phase.Serving? && cfg.hasExtShutdown && p.extShutdown ==>
                  q.safetyDeadline.Some? || !q.phase.Serving?)
            && (p.phase.Serving? && cfg.hasExtShutdown && p.extShutdown && SafetyOver(p) ==> !q.phase.Serving?)
            && (p.phase.DrainingQueue? && p.clock >= p.phase.deadline ==> Rank(q.phase) >= 2)
            && (p.phase.Awaiting? && p.clock >= p.phase.deadline ==> Rank(q.phase) >= 3)
            && (Rank(p.phase) >= 2 && !InFlight(p) ==> q.phase == Returned)
  {
    var p := Run(cfg, START, es);
    NothingRunning(p);
    RunKeepsInv(cfg, START, es);
  }

  lemma {:induction false} RunConcat(cfg: Config, p: Pool, a: seq<Event>, b: seq<Event>)
    ensures Run(cfg, p, a + b) == Run(cfg, Run(cfg, p, a), b)
    decreases a
  {
    if a == [] {
      assert a + b == b;
    } else {
      assert (a + b)[1..] == a[1..] + b;
      RunConcat(cfg, Next(cfg, p, a[0]), a[1..], b);
    }
  }

  /**
   However many handoffs and whatever else arrives after the drain has begun:
   the first pass at or after its deadline is past the queue, and the first pass
   at or after the deadline of the wait is past the wait.
   */
  lemma DrainEndsOnTime(cfg: Config, before: seq<Event>, after: seq<Event>)
    ensures var p, q := Run(cfg, START, before), Run(cfg, START, before + after);
            && (p.phase.DrainingQueue? && q.clock >= p.phase.deadline ==> Rank(Poll(cfg, q).phase) >= 2)
            && (p.phase.Awaiting? && q.clock >= p.phase.deadline ==> Rank(Poll(cfg, q).phase) >= 3)
  {
    RunConcat(cfg, START, before, after);
    PhasesForward(cfg, Run(cfg, START, before), after);
    PollLeavesOnTime(cfg, before + after);
    DeadlinesFixed(cfg, Run(cfg, START, before + after), PollOnce);
  }

  // ------------------------------------------------- a bound for all phases

  /** Passes come at most `d` apart; `gap` is the time since the last one. */
  predicate Paced(es: seq<Event>, gap: nat, d: nat)
    decreases es
  {
    es != [] ==>
    match es[0]
    case Pass(dt) => gap + dt <= d && Paced(es[1..], gap + dt, d)
    case PollOnce => Paced(es[1..], 0, d)
    case _ => Paced(es[1..], gap, d)
  }

  /** Cancelled tasks have settled by the next pass. */
  predicate Obedient(cfg: Config, p: Pool, es: seq<Event>)
    decreases es
  {
    es != [] ==>
      && (es[0].PollOnce? && p.phase.Cancelling? ==> !InFlight(p))
      && Obedient(cfg, Next(cfg, p, es[0]), es[1..])
  }

  /** A shutdown has been asked for, and the last serving pass is due by `s`. */
  predicate LeavingBy(cfg: Config, p: Pool, last: int, s: int, d: nat) {
    && last + d <= s
    && (|| p.poolShutdown
        || (&& cfg.hasExtShutdown && p.extShutdown
            && (p.safetyDeadline.Some? ==> p.safetyDeadline.value + d <= s)
            && (p.safetyDeadline == None ==> last + 2 * d + 2 * cfg.timeout <= s)))
  }

  /** Each phase is as far along as its deadline allows, `last` being the clock at the last pass. */
  predicate OnTime(cfg: Config, p: Pool, last: int, s: int, d: nat) {
    && last <= p.clock <= last + d
    && match p.phase
       case Serving => LeavingBy(cfg, p, last, s, d)
       case DrainingQueue(deadline, _) => last <= deadline <= s + cfg.timeout
       case Awaiting(_, deadline) => last <= deadline <= s + 2 * cfg.timeout + d
       case Cancelling(_) => last <= s + 2 * cfg.timeout + 2 * d
       case Returned => true
  }

  lemma PollOnTime(cfg: Config, p: Pool, last: int, s: int, d: nat)
    requires Inv(p) && OnTime(cfg, p, last, s, d)
    requires p.phase.Cancelling? ==> !InFlight(p)
    ensures OnTime(cfg, Poll(cfg, p), p.clock, s, d)
  {
    NothingRunning(p);
  }

  lemma StepOnTime(cfg: Config, p: Pool, e: Event, last: int, s: int, d: nat)
    requires OnTime(cfg, p, last, s, d) && !e.PollOnce?
    requires e.Pass? ==> p.clock - last + e.dt <= d
    ensures OnTime(cfg, Next(cfg, p, e), last, s, d)
  {}

  lemma {:induction false} RunOnTime(cfg: Config, p: Pool, es: seq<Event>, last: int, s: int, d: nat)
    requires Inv(p) && OnTime(cfg, p, last, s, d)
    requires Paced(es, p.clock - last, d) && Obedient(cfg, p, es)
    ensures var q := Run(cfg, p, es);
            q.phase == Returned || q.clock <= s + 2 * cfg.timeout + 3 * d
    decreases es
  {
    if es != [] {
      var q := Next(cfg, p, es[0]);
      NextKeepsInv(cfg, p, es[0]);
      if es[0].PollOnce? {
        PollOnTime(cfg, p, last, s, d);
        RunOnTime(cfg, q, es[1..], q.clock, s, d);
      } else {
        StepOnTime(cfg, p, es[0], last, s, d);
        RunOnTime(cfg, q, es[1..], last, s, d);
      }
    }
  }

  lemma SafetyStep(cfg: Config, p: Pool, e: Event)
    requires p.safetyDeadline.Some? ==> p.safetyDeadline.value <= p.clock + 2 * cfg.timeout
    ensures var q := Next(cfg, p, e); q.safetyDeadline.Some? ==> q.safetyDeadline.value <= q.clock + 2 * cfg.timeout
  {}

  lemma {:induction false} SafetyNear(cfg: Config, p: Pool, es: seq<Event>)
    requires p.safetyDeadline.Some? ==> p.safetyDeadline.value <= p.clock + 2 * cfg.timeout
    ensures var q := Run(cfg, p, es); q.safetyDeadline.Some? ==> q.safetyDeadline.value <= q.clock + 2 * cfg.timeout
    decreases es
  {
    if es != [] {
      SafetyStep(cfg, p, es[0]);
      SafetyNear(cfg, Next(cfg, p, es[0]), es[1..]);
    }
  }

  /**
   Whatever arrives after a shutdown was asked for, with passes at most `d`
   apart and cancelled tasks obeying, `_serve` has returned after two timeouts
   and four passes, counted from the pool's own shutdown; the external one adds
   its safety margin of two timeouts and another pass.
   */
  lemma ServeReturnsInTime(cfg: Config, before: seq<Event>, after: seq<Event>, d: nat)
    requires var p := Run(cfg, START, before);
             && p.phase.Serving? && (p.poolShutdown || (cfg.hasExtShutdown && p.extShutdown))
             && Paced(after, 0, d) && Obedient(cfg, p, after)
    ensures var p, q := Run(cfg, START, before), Run(cfg, START, before + after);
            && (q.clock > p.clock + 4 * cfg.timeout + 5 * d ==> q.phase == Returned)
            && (p.poolShutdown && q.clock > p.clock + 2 * cfg.timeout + 4 * d ==> q.phase == Returned)
  {
    var p := Run(cfg, START, before);
    RunKeepsInv(cfg, START, before);
    SafetyNear(cfg, START, before);
    RunConcat(cfg, START, before, after);
    RunOnTime(cfg, p, after, p.clock, p.clock + 2 * d + 2 * cfg.timeout, d);
    if p.poolShutdown {
      RunOnTime(cfg, p, after, p.clock, p.clock + d, d);
    }
  }

  // -------------------------------------------------------------- the object

  /** `AsyncPool`, its loops taken one pass at a time. */
  class HandoffPool {
    const cfg: Config
    var accepted: seq<int>
    var queue: seq<int>
    var started: seq<int>
    var tasks: seq<TaskStatus>
    var poolShutdown: bool
    var extShutdown: bool
    var safetyDeadline: Option<int>
    var phase: Phase
    var seen: seq<bool>
    var clock: int

    function Model(): Pool
      reads this
    {
      Pool(accepted, queue, started, tasks, poolShutdown, extShutdown, safetyDeadline, phase, seen, clock)
    }

    constructor (cfg: Config)
      ensures this.cfg == cfg && Model() == START && Inv(Model())
    {
      this.cfg := cfg;
      accepted, queue, started, tasks, seen, clock := [], [], [], [], [], 0;
      poolShutdown, extShutdown, safetyDeadline, phase := false, false, None, Serving;
    }

    method AcceptHandoff(h: int)
      requires Inv(Model())
      modifies this`accepted, this`queue
      ensures Model() == Next(cfg, old(Model()), Accept(h)) && Inv(Model())
    {
      NextKeepsInv(cfg, Model(), Accept(h));
      accepted := accepted + [h];
      queue := queue + [h];
    }

    method StartHandoff()
      requires queue != []
      modifies this`queue, this`started, this`tasks
      ensures Model() == StartNext(old(Model()))
    {
      var handoff := queue[0];
      queue := queue[1..];
      started := started + [handoff];
      tasks := tasks + [Running];
    }

    method DrainHandoffs()
      modifies this`phase
      ensures Model() == BeginAwait(cfg, old(Model()))
    {
      var pending := RunningTasks(Model());
      phase := if pending == {} then Returned else Awaiting(pending, clock + cfg.timeout);
    }

    /** One look at the tasks `_drain_handoffs` waits for: done, over time and cancelled, or wait on. */
    method AwaitPass()
      requires phase.Awaiting?
      modifies this`phase
      ensures Model() == PollAwait(old(Model()))
    {
      var pending := phase.pending * RunningTasks(Model());
      if pending == {} {
        phase := Returned;
      } else if clock >= phase.deadline {
        phase := Cancelling(pending);
      }
    }

    /** One look at the cancelled tasks being gathered. */
    method GatherPass()
      requires phase.Cancelling?
      modifies this`phase
      ensures Model() == Poll(cfg, old(Model()))
    {
      if phase.pending * RunningTasks(Model()) == {} {
        phase := Returned;
      }
    }

    method ServePass()
      requires phase.Serving?
      modifies this
      ensures Model() == PollServing(cfg, old(Model()))
    {
      if poolShutdown {
        phase, seen := DrainingQueue(clock + cfg.timeout, 0), [];
        return;
      }
      if cfg.hasExtShutdown && extShutdown {
        if safetyDeadline == None {
          safetyDeadline := Some(clock + 2 * cfg.timeout);
        } else if clock >= safetyDeadline.value {
          phase, seen := DrainingQueue(clock + cfg.timeout, 0), [];
          return;
        }
      }
      if queue != [] {
        StartHandoff();
      }
    }

    method DrainQueuePass()
      requires phase.DrainingQueue?
      modifies this
      ensures Model() == PollQueue(cfg, old(Model()))
    {
      if clock >= phase.deadline {
        DrainHandoffs();
        return;
      }
      if queue == [] {
        var idle := !InFlight(Model());
        var idlePolls := if idle then phase.idlePolls + 1 else 0;
        seen := seen + [idle];
        if idlePolls >= IDLE_NEEDED {
          DrainHandoffs();
          return;
        }
        phase := phase.(idlePolls := idlePolls);
        return;
      }
      phase := phase.(idlePolls := 0);
      seen := seen + [false];
      StartHandoff();
    }
  }
}
