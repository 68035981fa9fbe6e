/**
 Admission and load shedding (src/pounce/_request_queue.py:21-148, 196-240).

 Each HTTP request is a task that takes the steps of the wrapper one at a
 time, in any interleaving: take a slot of the semaphore or be shed, count
 itself in the reported depth, be recorded, run, release.  Tasks are not
 cancelled inside `acquire`.
 */
module RequestQueues {

  const UNLIMITED_SLOTS := 100_000

  /** The step a request has reached in the wrapper. */
  datatype Stage =
    | Blocked   // waits for a slot of an unlimited queue
    | Slotted   // has a slot, not yet in the reported depth
    | Counted   // in the reported depth, not yet recorded
    | Running   // recorded as queued, the app runs
    | Shedding  // refused, not yet recorded
    | Shed      // recorded as rejected
    | Done      // has released its slot

  /**
   `value` is the semaphore, `depth` the reported depth, `totalQueued` and
   `totalRejected` the metrics; `stage` has an entry for each request seen, in
   the order they came.
   */
  datatype Admission = Admission(
    maxDepth: nat,
    value: int,
    depth: int,
    totalQueued: nat,
    totalRejected: nat,
    stage: seq<Stage>)

  function Capacity(maxDepth: nat): nat {
    if maxDepth > 0 then maxDepth else UNLIMITED_SLOTS
  }

  function Start(maxDepth: nat): Admission {
    Admission(maxDepth, Capacity(maxDepth), 0, 0, 0, [])
  }

  /** How many requests are at each stage. */
  function Tally(q: Admission): multiset<Stage> {
    multiset(q.stage)
  }

  /** Requests that hold a slot. */
  function InFlight(c: multiset<Stage>): nat {
    c[Slotted] + c[Counted] + c[Running]
  }

  datatype Action =
    | Arrive                // a new request: semaphore check in acquire()
    | Unblock(task: nat)    // a waiter of an unlimited queue gets a slot
    | CountIn(task: nat)    // the depth is incremented
    | Record(task: nat)     // record_queued, then the app runs
    | RecordShed(task: nat) // record_rejected
    | Release(task: nat)    // the finally block

  predicate IsAt(q: Admission, t: nat, s: Stage) {
    t < |q.stage| && q.stage[t] == s
  }

  function Enter(q: Admission, s: Stage): Admission {
    q.(stage := q.stage + [s])
  }

  function Move(q: Admission, t: nat, s: Stage): Admission
    requires t < |q.stage|
  {
    q.(stage := q.stage[t := s])
  }

  function Next(q: Admission, a: Action): Admission {
    match a
    case Arrive =>
      if q.value == 0 || Blocked in q.stage
      then Enter(q, if q.maxDepth > 0 then Shedding else Blocked)
      else Enter(q, Slotted).(value := q.value - 1)
    case Unblock(t) =>
      if IsAt(q, t, Blocked) && q.value > 0 then Move(q, t, Slotted).(value := q.value - 1) else q
    case CountIn(t) =>
      if IsAt(q, t, Slotted) then Move(q, t, Counted).(depth := q.depth + 1) else q
    case Record(t) =>
      if IsAt(q, t, Counted) then Move(q, t, Running).(totalQueued := q.totalQueued + 1) else q
    case RecordShed(t) =>
      if IsAt(q, t, Shedding) then Move(q, t, Shed).(totalRejected := q.totalRejected + 1) else q
    case Release(t) =>
      if IsAt(q, t, Running)
      then Move(q, t, Done).(value := q.value + 1, depth := if q.depth - 1 > 0 then q.depth - 1 else 0)
      else q
  }

  function Run(q: Admission, run: seq<Action>): Admission
    decreases run
  {
    if run == [] then q else Run(Next(q, run[0]), run[1..])
  }

  /** The four counters agree with the census of the requests. */
  predicate Agree(q: Admission, c: multiset<Stage>) {
    && 0 <= q.value && q.value + InFlight(c) == Capacity(q.maxDepth)
    && q.depth == c[Counted] + c[Running]
    && q.totalQueued == c[Running] + c[Done]
    && q.totalRejected == c[Shed]
    && (q.maxDepth > 0 ==> c[Blocked] == 0)
    && (q.maxDepth == 0 ==> c[Shedding] == 0 && c[Shed] == 0)
  }

  predicate Inv(q: Admission) {
    Agree(q, Tally(q))
  }

  /** Moving one request takes it from one count to another. */
  lemma MoveTally(q: Admission, t: nat, to: Stage, s: Stage)
    requires t < |q.stage| && q.stage[t] != to
    ensures Tally(Move(q, t, to))[s] ==
            Tally(q)[s] + (if s == to then 1 else 0) - (if s == q.stage[t] then 1 else 0)
  {
    assert Tally(Move(q, t, to)) == Tally(q) - multiset{q.stage[t]} + multiset{to};
  }

  lemma MoveTallies(q: Admission, t: nat, to: Stage)
    requires t < |q.stage| && q.stage[t] != to
    ensures forall s :: Tally(Move(q, t, to))[s] ==
                        Tally(q)[s] + (if s == to then 1 else 0) - (if s == q.stage[t] then 1 else 0)
  {
    forall s ensures Tally(Move(q, t, to))[s] ==
                     Tally(q)[s] + (if s == to then 1 else 0) - (if s == q.stage[t] then 1 else 0) {
      MoveTally(q, t, to, s);
    }
  }

  lemma EnterTally(q: Admission, to: Stage, s: Stage)
    ensures Tally(Enter(q, to))[s] == Tally(q)[s] + (if s == to then 1 else 0)
  {
    assert Tally(Enter(q, to)) == Tally(q) + multiset{to};
  }

  lemma EnterTallies(q: Admission, to: Stage)
    ensures forall s :: Tally(Enter(q, to))[s] == Tally(q)[s] + (if s == to then 1 else 0)
  {
    forall s ensures Tally(Enter(q, to))[s] == Tally(q)[s] + (if s == to then 1 else 0) {
      EnterTally(q, to, s);
    }
  }

  lemma LetInKeepsInv(q: Admission)
    requires Inv(q) && q.value > 0
    ensures Inv(Enter(q, Slotted).(value := q.value - 1))
  {
    EnterTallies(q, Slotted);
    assert Tally(Enter(q, Slotted).(value := q.value - 1)) == Tally(Enter(q, Slotted));
  }

  lemma KeptOutKeepsInv(q: Admission)
    requires Inv(q)
    ensures Inv(Enter(q, if q.maxDepth > 0 then Shedding else Blocked))
  {
    EnterTallies(q, if q.maxDepth > 0 then Shedding else Blocked);
  }

  lemma ArriveKeepsInv(q: Admission)
    requires Inv(q)
    ensures Inv(Next(q, Arrive))
  {
    if q.value == 0 || Blocked in q.stage {
      KeptOutKeepsInv(q);
    } else {
      LetInKeepsInv(q);
    }
  }

  lemma UnblockKeepsInv(q: Admission, t: nat)
    requires Inv(q) && Next(q, Unblock(t)) != q
    ensures Inv(Next(q, Unblock(t)))
  {
    MoveTallies(q, t, Slotted);
    assert Tally(Next(q, Unblock(t))) == Tally(Move(q, t, Slotted));
  }

  lemma CountInKeepsInv(q: Admission, t: nat)
    requires Inv(q) && Next(q, CountIn(t)) != q
    ensures Inv(Next(q, CountIn(t)))
  {
    MoveTallies(q, t, Counted);
    assert Tally(Next(q, CountIn(t))) == Tally(Move(q, t, Counted));
  }

  lemma RecordKeepsInv(q: Admission, t: nat)
    requires Inv(q) && Next(q, Record(t)) != q
    ensures Inv(Next(q, Record(t)))
  {
    MoveTallies(q, t, Running);
    assert Tally(Next(q, Record(t))) == Tally(Move(q, t, Running));
  }

  lemma RecordShedKeepsInv(q: Admission, t: nat)
    requires Inv(q) && Next(q, RecordShed(t)) != q
    ensures Inv(Next(q, RecordShed(t)))
  {
    MoveTallies(q, t, Shed);
    assert Tally(Next(q, RecordShed(t))) == Tally(Move(q, t, Shed));
  }

  lemma ReleaseKeepsInv(q: Admission, t: nat)
    requires Inv(q) && Next(q, Release(t)) != q
    ensures Inv(Next(q, Release(t)))
  {
    MoveTallies(q, t, Done);
    assert Tally(Next(q, Release(t))) == Tally(Move(q, t, Done));
  }

  lemma NextKeepsInv(q: Admission, a: Action)
    requires Inv(q)
    ensures Inv(Next(q, a)) && Next(q, a).maxDepth == q.maxDepth
  {
    if a.Arrive? {
      ArriveKeepsInv(q);
    } else if Next(q, a) != q {
      match a
      case Unblock(t) => UnblockKeepsInv(q, t);
      case CountIn(t) => CountInKeepsInv(q, t);
      case Record(t) => RecordKeepsInv(q, t);
      case RecordShed(t) => RecordShedKeepsInv(q, t);
      case Release(t) => ReleaseKeepsInv(q, t);
    }
  }

  lemma {:induction false} RunKeepsInv(q: Admission, run: seq<Action>)
    requires Inv(q)
    ensures Inv(Run(q, run)) && Run(q, run).maxDepth == q.maxDepth
    decreases run
  {
    if run != [] {
      NextKeepsInv(q, run[0]);
      RunKeepsInv(Next(q, run[0]), run[1..]);
    }
  }

  /** Each request seen is at one stage. */
  lemma {:induction false} StagesAddUp(m: seq<Stage>)
    ensures var c := multiset(m);
            |m| == c[Blocked] + c[Slotted] + c[Counted] + c[Running] + c[Shedding] + c[Shed] + c[Done]
    decreases |m|
  {
    if m != [] {
      var k := |m| - 1;
      StagesAddUp(m[..k]);
      assert m == m[..k] + [m[k]];
      match m[k]
      case Blocked =>
      case Slotted =>
      case Counted =>
      case Running =>
      case Shedding =>
      case Shed =>
      case Done =>
    }
  }

  /**
   In every interleaving: no more requests hold slots than the limit; the
   reported depth is the number in flight, less those between taking their slot
   and counting themselves; and every request seen is in exactly one of the
   totals or still between two steps.
   */
  lemma AdmissionConservation(maxDepth: nat, run: seq<Action>)
    ensures var q := Run(Start(maxDepth), run); var c := Tally(q);
            && InFlight(c) <= Capacity(maxDepth)
            && q.depth == InFlight(c) - c[Slotted]
            && q.totalQueued + q.totalRejected + c[Blocked] + c[Slotted] + c[Counted] + c[Shedding] == |q.stage|
  {
    RunKeepsInv(Start(maxDepth), run);
    StagesAddUp(Run(Start(maxDepth), run).stage);
  }

  /** Each step takes the request it names one stage further, when it is there to take, and leaves the others alone. */
  lemma StepsAdvance(q: Admission, a: Action, t: nat)
    requires t < |q.stage|
    ensures var q' := Next(q, a);
            && t < |q'.stage| == |q.stage| + (if a == Arrive then 1 else 0)
            && q'.stage[t] ==
               if a == Unblock(t) && q.stage[t] == Blocked && q.value > 0 then Slotted
               else if a == CountIn(t) && q.stage[t] == Slotted then Counted
               else if a == Record(t) && q.stage[t] == Counted then Running
               else if a == RecordShed(t) && q.stage[t] == Shedding then Shed
               else if a == Release(t) && q.stage[t] == Running then Done
               else q.stage[t]
  {}

  /** A new request waits only at an unlimited queue with no slot left or somebody waiting; it is let in otherwise, if not shed. */
  lemma ArrivalExactly(maxDepth: nat, run: seq<Action>)
    ensures var q := Run(Start(maxDepth), run); var q' := Next(q, Arrive); 
            var full := InFlight(Tally(q)) == if maxDepth > 0 then maxDepth else 100_000;
            && (IsAt(q', |q.stage|, Blocked) <==> maxDepth == 0 && (full || Blocked in q.stage))
            && (maxDepth > 0 && !full ==> IsAt(q', |q.stage|, Slotted))
  {
    RunKeepsInv(Start(maxDepth), run);
    var q := Run(Start(maxDepth), run);
    assert Blocked in q.stage ==> Tally(q)[Blocked] > 0;
  }

  /** A request is shed exactly when it arrives at a bounded queue whose slots are all taken. */
  lemma ShedOnlyWhenFull(maxDepth: nat, run: seq<Action>)
    ensures var q := Run(Start(maxDepth), run);
            IsAt(Next(q, Arrive), |q.stage|, Shedding) <==> maxDepth > 0 && InFlight(Tally(q)) == maxDepth
  {
    RunKeepsInv(Start(maxDepth), run);
  }

  /** The clamp in `release` never acts, and a slot that was taken is given back. */
  lemma ReleaseReturnsSlot(maxDepth: nat, run: seq<Action>, t: nat)
    requires IsAt(Run(Start(maxDepth), run), t, Running)
    ensures var q := Run(Start(maxDepth), run); var q' := Next(q, Release(t));
            && q'.depth == q.depth - 1
            && InFlight(Tally(q')) == InFlight(Tally(q)) - 1
            && q'.value == q.value + 1
  {
    var q := Run(Start(maxDepth), run);
    RunKeepsInv(Start(maxDepth), run);
    NextKeepsInv(q, Release(t));
    assert q.stage[t] in Tally(q);
  }

  // -------------------------------------------------------------- the object

  /** An unlimited queue whose slots are all taken neither grants nor refuses: the caller waits. */
  datatype Answer = Granted | Refused | Waiting

  /** `RequestQueue` when nothing interleaves: `held` is the number of slots callers hold. */
  class RequestQueue {
    const maxDepth: nat
    var value: int
    var queueDepth: int
    ghost var held: nat

    ghost predicate Valid()
      reads this
    {
      0 <= value && value + held == Capacity(maxDepth) && queueDepth == held
    }

    constructor (maxDepth: nat)
      ensures Valid() && this.maxDepth == maxDepth && held == 0
    {
      this.maxDepth, value, queueDepth, held := maxDepth, Capacity(maxDepth), 0, 0;
    }

    /** `acquire` up to the point where it answers or has to wait for a release. */
    method Acquire() returns (answer: Answer)
      requires Valid()
      modifies this
      ensures Valid() && held == old(held) + (if answer == Granted then 1 else 0)
      ensures answer == Granted <==> old(held) < Capacity(maxDepth)
      ensures answer == Refused <==> maxDepth > 0 && old(held) == maxDepth
    {
      if maxDepth == 0 {
        if value == 0 {
          return Waiting;
        }
        value, queueDepth, held := value - 1, queueDepth + 1, held + 1;
        return Granted;
      }
      if value == 0 {
        return Refused;
      }
      value, queueDepth, held := value - 1, queueDepth + 1, held + 1;
      return Granted;
    }

    method Release()
      requires Valid() && held > 0
      modifies this
      ensures Valid() && held == old(held) - 1
    {
      value := value + 1;
      queueDepth := if queueDepth - 1 > 0 then queueDepth - 1 else 0;
      held := held - 1;
    }

    method GetDepth() returns (d: int)
      requires Valid()
      ensures d == held <= Capacity(maxDepth)
    {
      d := queueDepth;
    }
  }
}
