/**
 The poll loop that turns supervisor commands into worker state
 (src/pounce/_subinterpreter_bootstrap.py:289-399), and the split of the
 connection budget over workers (lines 107-111).

 Time is in milliseconds.  One `Tick` is one pass of the loop: the commands
 that arrived since the last pass, the clock when a deadline would be armed and
 when it is checked, and what the worker and its acceptor answer.  The
 environment chooses all of these freely.
 */
module DrainBridge {
  import opened Wrappers

  /** The time `n` passes sleep, at 50 ms each. */
  function PollTime(n: nat): nat {
    50 * n
  }

  datatype Command = Shutdown | Drain | ReloadDrain | Unknown

  datatype Status = Draining | Idle

  datatype Tick = Tick(arrivals: seq<Command>, armAt: int, now: int, workerIdle: bool, acceptorDone: bool)

  datatype Bridge = Bridge(
    queue: seq<Command>,
    draining: bool,
    deadline: Option<int>,
    idleAnnounced: bool,
    acceptorClosing: bool,
    log: seq<Status>,
    stopped: bool)

  const START := Bridge([], false, None, false, false, [], false)

  /** What the loop cannot change: the drain budget, and whether there is an acceptor to close. */
  datatype Config = Config(timeout: nat, hasServer: bool)

  // -------------------------------------------------------------- one pass

  /** CMD_DRAIN or CMD_RELOAD_DRAIN, the first time: announce, maybe close the acceptor, arm the deadline. */
  function BeginDrain(cfg: Config, b: Bridge, cmd: Command, armAt: int): Bridge {
    if (cmd != Drain && cmd != ReloadDrain) || b.draining then b
    else b.(log := b.log + [Draining], draining := true, deadline := Some(armAt + cfg.timeout),
            acceptorClosing := cmd == ReloadDrain && cfg.hasServer)
  }

  predicate AcceptorDrained(b: Bridge, t: Tick) {
    !b.acceptorClosing || t.acceptorDone
  }

  /** The rest of the pass, once the command has been handled. */
  function CheckDrain(b: Bridge, t: Tick): Bridge {
    if !b.draining then b
    else if b.deadline.Some? && t.now >= b.deadline.value then
      b.(log := if b.idleAnnounced then b.log else b.log + [Idle], stopped := true)
    else if !b.idleAnnounced && AcceptorDrained(b, t) && t.workerIdle then
      b.(log := b.log + [Idle], idleAnnounced := true)
    else b
  }

  function Step(cfg: Config, b: Bridge, t: Tick): Bridge {
    var q := b.queue + t.arrivals;
    if b.stopped then b.(queue := q)
    else if q == [] then CheckDrain(b, t)
    else if q[0] == Shutdown then b.(queue := q[1..], log := b.log + [Draining], stopped := true)
    else CheckDrain(BeginDrain(cfg, b.(queue := q[1..]), q[0], t.armAt), t)
  }

  /** The loop body, changing the bridge's variables in place. */
  class IicBridge {
    const cfg: Config
    var queue: seq<Command>
    var draining: bool
    var deadline: Option<int>
    var idleAnnounced: bool
    var acceptorClosing: bool
    var log: seq<Status>
    var stopped: bool

    function Model(): Bridge
      reads this
    {
      Bridge(queue, draining, deadline, idleAnnounced, acceptorClosing, log, stopped)
    }

    constructor (cfg: Config)
      ensures this.cfg == cfg && Model() == START
    {
      this.cfg := cfg;
      queue, draining, deadline, idleAnnounced, acceptorClosing, log, stopped := [], false, None, false, false, [], false;
    }

    method StartDraining(cmd: Command, armAt: int)
      modifies this
      ensures Model() == BeginDrain(cfg, old(Model()), cmd, armAt)
    {
      if (cmd == Drain || cmd == ReloadDrain) && !draining {
        log := log + [Draining];
        acceptorClosing := cmd == ReloadDrain && cfg.hasServer;
        draining := true;
        deadline := Some(armAt + cfg.timeout);
      }
    }

    method CheckDeadline(t: Tick)
      modifies this
      ensures Model() == CheckDrain(old(Model()), t)
    {
      if !draining {
        return;
      }
      if deadline.Some? && t.now >= deadline.value {
        if !idleAnnounced {
          log := log + [Idle];
        }
        stopped := true;
        return;
      }
      if !idleAnnounced && (!acceptorClosing || t.acceptorDone) && t.workerIdle {
        log := log + [Idle];
        idleAnnounced := true;
      }
    }

    method Poll(t: Tick)
      modifies this
      ensures Model() == Step(cfg, old(Model()), t)
    {
      queue := queue + t.arrivals;
      if stopped {
        return;
      }
      if queue != [] {
        var cmd := queue[0];
        queue := queue[1..];
        if cmd == Shutdown {
          log := log + [Draining];
          stopped := true;
          return;
        }
        StartDraining(cmd, t.armAt);
      }
      CheckDeadline(t);
    }
  }

  // ------------------------------------------------------------------ runs

  /** The state after the first `i` passes of a run. */
  function At(cfg: Config, ts: seq<Tick>, i: nat): Bridge
    requires i <= |ts|
  {
    if i == 0 then START else Step(cfg, At(cfg, ts, i - 1), ts[i - 1])
  }

  /** A pass sleeps for the poll interval, and the clock never goes back. */
  predicate InOrder(ts: seq<Tick>, i: nat)
    requires i < |ts|
  {
    ts[i].armAt <= ts[i].now && (i > 0 ==> ts[i - 1].now + PollTime(1) <= ts[i].armAt)
  }

  predicate Clocked(ts: seq<Tick>) {
    forall i :: 0 <= i < |ts| ==> InOrder(ts, i)
  }

  /** The flags say exactly what has been reported. */
  predicate Grammar(b: Bridge) {
    && (b.draining <==> b.deadline.Some?)
    && (b.idleAnnounced ==> b.draining)
    && (if b.stopped then
          || b.log == [Draining] || b.log == [Draining, Draining]
          || b.log == [Draining, Idle] || b.log == [Draining, Idle, Draining]
        else b.log == if !b.draining then [] else if b.idleAnnounced then [Draining, Idle] else [Draining])
  }

  lemma BeginGrammar(cfg: Config, b: Bridge, cmd: Command, armAt: int)
    requires Grammar(b) && !b.stopped
    ensures Grammar(BeginDrain(cfg, b, cmd, armAt)) && !BeginDrain(cfg, b, cmd, armAt).stopped
  {}

  lemma CheckGrammar(b: Bridge, t: Tick)
    requires Grammar(b) && !b.stopped
    ensures Grammar(CheckDrain(b, t))
  {}

  lemma ShutdownGrammar(b: Bridge)
    requires Grammar(b) && !b.stopped
    ensures Grammar(b.(log := b.log + [Draining], stopped := true))
  {}

  lemma StepGrammar(cfg: Config, b: Bridge, t: Tick)
    requires Grammar(b)
    ensures Grammar(Step(cfg, b, t))
  {
    var q := b.queue + t.arrivals;
    if b.stopped {
    } else if q == [] {
      CheckGrammar(b, t);
    } else {
      var b1 := b.(queue := q[1..]);
      if q[0] == Shutdown {
        ShutdownGrammar(b1);
      } else {
        BeginGrammar(cfg, b1, q[0], t.armAt);
        CheckGrammar(BeginDrain(cfg, b1, q[0], t.armAt), t);
      }
    }
  }

  /** What one pass keeps: an armed deadline, and everything once stopped. */
  lemma StepFixes(cfg: Config, b: Bridge, t: Tick)
    requires b.deadline.Some? ==> b.draining
    ensures b.deadline.Some? ==> Step(cfg, b, t).deadline == b.deadline
    ensures b.stopped ==> Step(cfg, b, t).stopped && Step(cfg, b, t).log == b.log
  {}

  lemma StepArms(cfg: Config, b: Bridge, t: Tick)
    requires b.deadline == None && Step(cfg, b, t).deadline.Some?
    ensures Step(cfg, b, t).deadline.value == t.armAt + cfg.timeout
  {}

  /** A pass that finds the deadline over stops. */
  lemma StepStops(cfg: Config, b: Bridge, t: Tick)
    requires b.deadline.Some? && b.draining && t.now >= b.deadline.value
    ensures Step(cfg, b, t).stopped
  {}

  lemma CheckIdle(b: Bridge, t: Tick)
    requires Idle !in b.log && Idle in CheckDrain(b, t).log
    ensures b.draining && CheckDrain(b, t).deadline == b.deadline && CheckDrain(b, t).acceptorClosing == b.acceptorClosing
    ensures (b.deadline.Some? && t.now >= b.deadline.value) || (t.workerIdle && AcceptorDrained(b, t))
  {}

  lemma StepIdle(cfg: Config, b: Bridge, t: Tick)
    requires Idle !in b.log && Idle in Step(cfg, b, t).log
    ensures var b' := Step(cfg, b, t);
            || (b'.deadline.Some? && t.now >= b'.deadline.value)
            || (t.workerIdle && AcceptorDrained(b', t))
  {
    var q := b.queue + t.arrivals;
    if q == [] {
      CheckIdle(b, t);
    } else {
      CheckIdle(BeginDrain(cfg, b.(queue := q[1..]), q[0], t.armAt), t);
    }
  }

  /**
   In every run the status log is DRAINING, then at most one IDLE, then at most
   one more DRAINING; so IDLE is reported at most once and never first.
   */
  lemma {:induction false} StatusGrammar(cfg: Config, ts: seq<Tick>, i: nat)
    requires i <= |ts|
    ensures Grammar(At(cfg, ts, i))
  {
    if i > 0 {
      StatusGrammar(cfg, ts, i - 1);
      StepGrammar(cfg, At(cfg, ts, i - 1), ts[i - 1]);
    }
  }

  lemma ArmedDrains(cfg: Config, ts: seq<Tick>, i: nat)
    requires i <= |ts|
    ensures At(cfg, ts, i).deadline.Some? <==> At(cfg, ts, i).draining
  {
    StatusGrammar(cfg, ts, i);
  }

  /** Once armed, the deadline never moves; once stopped, nothing is reported any more. */
  lemma {:induction false} DeadlineFixed(cfg: Config, ts: seq<Tick>, i: nat, j: nat)
    requires i <= j <= |ts|
    ensures At(cfg, ts, i).deadline.Some? ==> At(cfg, ts, j).deadline == At(cfg, ts, i).deadline
    ensures At(cfg, ts, i).stopped ==> At(cfg, ts, j).stopped && At(cfg, ts, j).log == At(cfg, ts, i).log
    decreases j
  {
    if i < j {
      DeadlineFixed(cfg, ts, i, j - 1);
      ArmedDrains(cfg, ts, j - 1);
      StepFixes(cfg, At(cfg, ts, j - 1), ts[j - 1]);
    }
  }

  /** IDLE is reported early only by an idle worker whose acceptor, if it was closed, has drained. */
  lemma IdleIsTrue(cfg: Config, ts: seq<Tick>, i: nat)
    requires i < |ts|
    requires Idle !in At(cfg, ts, i).log && Idle in At(cfg, ts, i + 1).log
    ensures At(cfg, ts, i + 1).deadline.Some?
    ensures ts[i].now < At(cfg, ts, i + 1).deadline.value ==>
              ts[i].workerIdle && AcceptorDrained(At(cfg, ts, i + 1), ts[i])
  {
    StatusGrammar(cfg, ts, i + 1);
    StepIdle(cfg, At(cfg, ts, i), ts[i]);
  }

  /** The first pass at or after the deadline is the last. */
  lemma StopsAtDeadline(cfg: Config, ts: seq<Tick>, i: nat)
    requires i < |ts|
    requires At(cfg, ts, i).deadline.Some? && ts[i].now >= At(cfg, ts, i).deadline.value
    ensures At(cfg, ts, i + 1).stopped
  {
    ArmedDrains(cfg, ts, i);
    StepStops(cfg, At(cfg, ts, i), ts[i]);
  }

  /** Where the deadline comes from: the pass that armed it. */
  lemma {:induction false} ArmedFrom(cfg: Config, ts: seq<Tick>, i: nat)
    requires i <= |ts| && Clocked(ts) && At(cfg, ts, i).deadline.Some?
    ensures i > 0 && At(cfg, ts, i).deadline.value <= ts[i - 1].now + cfg.timeout
  {
    if i > 0 {
      assert InOrder(ts, i - 1);
      if At(cfg, ts, i - 1).deadline.Some? {
        ArmedFrom(cfg, ts, i - 1);
        DeadlineFixed(cfg, ts, i - 1, i);
      } else {
        StepArms(cfg, At(cfg, ts, i - 1), ts[i - 1]);
      }
    }
  }

  lemma {:induction false} ClockAdvances(ts: seq<Tick>, i: nat, j: nat)
    requires i <= j < |ts| && Clocked(ts)
    ensures ts[j].now >= ts[i].now + PollTime(j - i)
    decreases j
  {
    if i < j {
      ClockAdvances(ts, i, j - 1);
      assert InOrder(ts, j);
    }
  }

  lemma DeadlineBound(cfg: Config, ts: seq<Tick>, i: nat, j: nat)
    requires Clocked(ts) && 0 < i <= j <= |ts| && At(cfg, ts, i).draining
    ensures var b := At(cfg, ts, j);
            b.deadline.Some? && b.deadline.value <= ts[i - 1].now + cfg.timeout
  {
    ArmedDrains(cfg, ts, i);
    ArmedFrom(cfg, ts, i);
    DeadlineFixed(cfg, ts, i, j);
  }

  /** However busy the worker stays, a drain is over within its budget, rounded up to whole passes. */
  lemma DrainTerminates(cfg: Config, ts: seq<Tick>, i: nat, n: nat)
    requires Clocked(ts) && 0 < i && i + n <= |ts|
    requires At(cfg, ts, i).draining && PollTime(n) >= cfg.timeout && n > 0
    ensures At(cfg, ts, i + n).stopped
  {
    DeadlineBound(cfg, ts, i, i + n - 1);
    ClockAdvances(ts, i - 1, i + n - 1);
    StopsAtDeadline(cfg, ts, i + n - 1);
  }

  /** A pass stops, or takes the command at the front and leaves the others one place further on. */
  lemma StepPops(cfg: Config, b: Bridge, t: Tick, k: nat)
    requires k < |b.queue| && b.queue[k] == Shutdown
    ensures var b' := Step(cfg, b, t);
            b'.stopped || (0 < k <= |b'.queue| && b'.queue[k - 1] == Shutdown)
  {
    var q := b.queue + t.arrivals;
    assert q[0] == b.queue[0] && q[k] == Shutdown;
    assert k > 0 ==> q[1..][k - 1] == q[k];
  }

  lemma ShutdownNearer(cfg: Config, ts: seq<Tick>, i: nat, k: nat)
    requires i < |ts| && k < |At(cfg, ts, i).queue| && At(cfg, ts, i).queue[k] == Shutdown
    ensures var b := At(cfg, ts, i + 1);
            b.stopped || (0 < k <= |b.queue| && b.queue[k - 1] == Shutdown)
  {
    StepPops(cfg, At(cfg, ts, i), ts[i], k);
  }

  lemma StaysStopped(cfg: Config, ts: seq<Tick>, i: nat, j: nat)
    requires i <= j <= |ts| && At(cfg, ts, i).stopped
    ensures At(cfg, ts, j).stopped
  {
    DeadlineFixed(cfg, ts, i, j);
  }

  /** A queued shutdown is reached once the commands before it have been polled, idle worker or not. */
  lemma ShutdownReached(cfg: Config, ts: seq<Tick>, i: nat, k: nat)
    requires i <= |ts| && k < |At(cfg, ts, i).queue| && At(cfg, ts, i).queue[k] == Shutdown
    requires i + k + 1 <= |ts|
    ensures At(cfg, ts, i + k + 1).stopped
  {
    StoppedBy(cfg, ts, i, k, i + k + 1);
  }

  lemma {:induction false} StoppedBy(cfg: Config, ts: seq<Tick>, i: nat, k: nat, j: nat)
    requires j == i + k + 1 <= |ts| && k < |At(cfg, ts, i).queue| && At(cfg, ts, i).queue[k] == Shutdown
    ensures At(cfg, ts, j).stopped
    decreases k
  {
    ShutdownNearer(cfg, ts, i, k);
    if At(cfg, ts, i + 1).stopped {
      StaysStopped(cfg, ts, i + 1, j);
    } else {
      StoppedBy(cfg, ts, i + 1, k - 1, j);
    }
  }

  // ----------------------------------------------- what a pass has to do

  /** The command a pass takes, if there is one. */
  function Taken(cfg: Config, ts: seq<Tick>, i: nat): Option<Command>
    requires i < |ts|
  {
    var q := At(cfg, ts, i).queue + ts[i].arrivals;
    if At(cfg, ts, i).stopped || q == [] then None else Some(q[0])
  }

  /** Commands are taken one a pass, in the order they arrived. */
  lemma CommandsInOrder(cfg: Config, ts: seq<Tick>, i: nat)
    requires i < |ts|
    ensures var q := At(cfg, ts, i).queue + ts[i].arrivals;
            At(cfg, ts, i + 1).queue == if Taken(cfg, ts, i) == None then q else q[1..]
  {
    var q := At(cfg, ts, i).queue + ts[i].arrivals;
    assert At(cfg, ts, i).queue == [] && ts[i].arrivals == [] ==> q == At(cfg, ts, i).queue;
  }

  predicate IsDrain(c: Option<Command>) {
    c == Some(Drain) || c == Some(ReloadDrain)
  }

  lemma StepDrains(cfg: Config, b: Bridge, t: Tick)
    requires b.deadline.Some? <==> b.draining
    ensures var b', q := Step(cfg, b, t), b.queue + t.arrivals;
            var starts := !b.stopped && !b.draining && q != [] && IsDrain(Some(q[0]));
            && (b'.draining <==> b.draining || starts)
            && (starts ==> b'.deadline == Some(t.armAt + cfg.timeout)
                           && (b'.acceptorClosing <==> q[0] == ReloadDrain && cfg.hasServer))
            && (!starts ==> b'.deadline == b.deadline && b'.acceptorClosing == b.acceptorClosing)
  {}

  /**
   A bridge drains from the pass that takes its first drain command on, and
   only then: the deadline is armed in that pass, and the acceptor closed by a
   reload that has one.
   */
  lemma DrainsExactly(cfg: Config, ts: seq<Tick>, i: nat)
    requires i < |ts|
    ensures var b, b', cmd := At(cfg, ts, i), At(cfg, ts, i + 1), Taken(cfg, ts, i);
            && (b'.draining <==> b.draining || IsDrain(cmd))
            && (!b.draining && IsDrain(cmd) ==>
                  && b'.deadline == Some(ts[i].armAt + cfg.timeout)
                  && (b'.acceptorClosing <==> cmd == Some(ReloadDrain) && cfg.hasServer))
            && (b.draining || !IsDrain(cmd) ==> b'.deadline == b.deadline && b'.acceptorClosing == b.acceptorClosing)
  {
    ArmedDrains(cfg, ts, i);
    StepDrains(cfg, At(cfg, ts, i), ts[i]);
  }

  lemma StepEnds(cfg: Config, b: Bridge, t: Tick)
    requires !b.stopped && (b.deadline.Some? <==> b.draining)
    ensures var b', q := Step(cfg, b, t), b.queue + t.arrivals;
            b'.stopped <==> (q != [] && q[0] == Shutdown) || (b'.draining && t.now >= b'.deadline.value)
  {
    StepDrains(cfg, b, t);
  }

  /** The loop ends with the pass that takes a shutdown, or that finds the deadline over, and with no other. */
  lemma StopsExactly(cfg: Config, ts: seq<Tick>, i: nat)
    requires i < |ts| && !At(cfg, ts, i).stopped
    ensures var b' := At(cfg, ts, i + 1);
            && (b'.draining ==> b'.deadline.Some?)
            && (b'.stopped <==>
                  Taken(cfg, ts, i) == Some(Shutdown) || (b'.draining && ts[i].now >= b'.deadline.value))
  {
    ArmedDrains(cfg, ts, i);
    ArmedDrains(cfg, ts, i + 1);
    StepEnds(cfg, At(cfg, ts, i), ts[i]);
  }

  function Begins(b: Bridge, q: seq<Command>): seq<Status> {
    if q != [] && (q[0] == Shutdown || (IsDrain(Some(q[0])) && !b.draining)) then [Draining] else []
  }

  /** A draining pass reports IDLE if it has not done so and the worker is done, or its time is up. */
  predicate Reports(b: Bridge, b': Bridge, t: Tick) {
    && b'.draining && !b.idleAnnounced
    && ((b'.deadline.Some? && t.now >= b'.deadline.value) || (t.workerIdle && (!b'.acceptorClosing || t.acceptorDone)))
  }

  lemma StepReports(cfg: Config, b: Bridge, t: Tick)
    requires !b.stopped && (b.deadline.Some? <==> b.draining)
    ensures var b', q := Step(cfg, b, t), b.queue + t.arrivals;
            b'.log == b.log + Begins(b, q)
                      + (if (q == [] || q[0] != Shutdown) && Reports(b, b', t) then [Idle] else [])
  {}

  /**
   What each pass reports: DRAINING when it takes a shutdown or the first drain
   command, and, unless it took a shutdown, IDLE once the worker is idle with
   its acceptor drained, or at the deadline.
   */
  lemma ReportsExactly(cfg: Config, ts: seq<Tick>, i: nat)
    requires i < |ts| && !At(cfg, ts, i).stopped
    ensures var b, b', cmd := At(cfg, ts, i), At(cfg, ts, i + 1), Taken(cfg, ts, i);
            b'.log == b.log + (if cmd == Some(Shutdown) || (IsDrain(cmd) && !b.draining) then [Draining] else [])
                      + (if cmd != Some(Shutdown) && Reports(b, b', ts[i]) then [Idle] else [])
  {
    ArmedDrains(cfg, ts, i);
    StepReports(cfg, At(cfg, ts, i), ts[i]);
  }

  /** In particular an idle worker is reported in the very pass that sees it idle, if not before. */
  lemma IdleIsReported(cfg: Config, ts: seq<Tick>, i: nat)
    requires i < |ts| && !At(cfg, ts, i).stopped && Taken(cfg, ts, i) != Some(Shutdown)
    requires At(cfg, ts, i + 1).draining && ts[i].workerIdle && ts[i].acceptorDone
    ensures Idle in At(cfg, ts, i + 1).log
  {
    var b := At(cfg, ts, i);
    ReportsExactly(cfg, ts, i);
    StatusGrammar(cfg, ts, i);
    if b.idleAnnounced {
      assert b.log[1] == Idle;
    }
  }

  // ------------------------------------------------------ connection budget

  /** The share of one worker: `divmod`, with the remainder going to the first workers. */
  function Share(maxConnections: nat, workers: nat, worker: nat): nat
    requires workers > 0
  {
    if maxConnections > 0 then
      maxConnections / workers + (if worker < maxConnections % workers then 1 else 0)
    else 0
  }

  function SumShares(maxConnections: nat, workers: nat, n: nat): nat
    requires workers > 0
  {
    if n == 0 then 0 else SumShares(maxConnections, workers, n - 1) + Share(maxConnections, workers, n - 1)
  }

  lemma {:induction false} PartialShares(m: nat, workers: nat, n: nat)
    requires workers > 0 && m > 0
    ensures SumShares(m, workers, n) == n * (m / workers) + (if n < m % workers then n else m % workers)
  {
    if n > 0 {
      PartialShares(m, workers, n - 1);
      assert n * (m / workers) == (n - 1) * (m / workers) + m / workers;
    }
  }

  /** The shares add up to the budget, differ by at most one, and leave nobody without when there is one each. */
  lemma BudgetConserved(maxConnections: nat, workers: nat)
    requires workers > 0
    ensures SumShares(maxConnections, workers, workers) == maxConnections
    ensures forall v, w :: 0 <= v < workers && 0 <= w < workers ==>
              Share(maxConnections, workers, v) <= Share(maxConnections, workers, w) + 1
    ensures forall v, w :: 0 <= v <= w < workers ==> Share(maxConnections, workers, v) >= Share(maxConnections, workers, w)
    ensures maxConnections >= workers ==> forall w :: 0 <= w < workers ==> Share(maxConnections, workers, w) >= 1
  {
    if maxConnections > 0 {
      PartialShares(maxConnections, workers, workers);
      assert maxConnections == workers * (maxConnections / workers) + maxConnections % workers;
    } else {
      NoShares(workers, workers);
    }
  }

  lemma {:induction false} NoShares(workers: nat, n: nat)
    requires workers > 0
    ensures SumShares(0, workers, n) == 0
  {
    if n > 0 {
      NoShares(workers, n - 1);
    }
  }
}
