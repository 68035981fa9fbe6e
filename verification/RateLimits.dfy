/**
 The per-IP rate limiter with cleanup and a hard cap
 (src/pounce/_rate_limiter.py:114-232), one caller at a time.

 The `OrderedDict` is a map plus the list of its keys, least recently seen
 first.  A request carries the three clock readings the code takes: in
 `_maybe_cleanup`, when a bucket is created, and in `consume`.
 */
module RateLimits {
  import opened Lru
  import opened TokenBuckets

  const IDLE_EVICTION_SECONDS := 300.0
  const CLEANUP_INTERVAL := 300.0

  datatype Config = Config(lim: Limit, maxTrackedIps: nat)

  datatype Limiter = Limiter(table: map<string, Bucket>, order: seq<string>, lastCleanup: real)

  datatype Request = Request(ip: string, cleanupAt: real, createAt: real, consumeAt: real)

  predicate Stale(lim: Limit, b: Bucket, now: real) {
    IsFull(lim, b, now) || now - b.last >= IDLE_EVICTION_SECONDS
  }

  function Drop(l: Limiter, gone: set<string>): Limiter {
    l.(table := l.table - gone, order := Keep(l.order, gone))
  }

  function StaleIps(lim: Limit, table: map<string, Bucket>, now: real): set<string> {
    set ip | ip in table && Stale(lim, table[ip], now)
  }

  function Cleanup(cfg: Config, l: Limiter, now: real): Limiter {
    if |l.order| < cfg.maxTrackedIps && now - l.lastCleanup < CLEANUP_INTERVAL then l
    else Drop(l, StaleIps(cfg.lim, l.table, now)).(lastCleanup := now)
  }

  /** The eviction loop: forget the least recently seen until there is room for one more. */
  function Evict(cfg: Config, l: Limiter): (r: Limiter)
    ensures cfg.maxTrackedIps > 0 ==> |r.order| < cfg.maxTrackedIps
    decreases |l.order|
  {
    if |l.order| < cfg.maxTrackedIps || l.order == [] then l
    else Evict(cfg, l.(table := l.table - {l.order[0]}, order := l.order[1..]))
  }

  /** The bucket of `ip` is present and most recently seen. */
  function Lookup(cfg: Config, l: Limiter, ip: string, createAt: real): (r: Limiter)
    ensures ip in r.table
  {
    if ip in l.table then l.(order := Keep(l.order, {ip}) + [ip])
    else
      var e := Evict(cfg, l);
      e.(table := e.table[ip := Fresh(cfg.lim, createAt)], order := e.order + [ip])
  }

  function Check(cfg: Config, l: Limiter, q: Request): (Limiter, bool) {
    var l' := Lookup(cfg, Cleanup(cfg, l, q.cleanupAt), q.ip, q.createAt);
    var b := l'.table[q.ip];
    (l'.(table := l'.table[q.ip := Spend(cfg.lim, b, q.consumeAt)]), Admits(cfg.lim, b, q.consumeAt))
  }

  function Answered(cfg: Config, l: Limiter, qs: seq<Request>): seq<bool>
    decreases qs
  {
    if qs == [] then []
    else [Check(cfg, l, qs[0]).1] + Answered(cfg, Check(cfg, l, qs[0]).0, qs[1..])
  }

  function Final(cfg: Config, l: Limiter, qs: seq<Request>): Limiter
    decreases qs
  {
    if qs == [] then l else Final(cfg, Check(cfg, l, qs[0]).0, qs[1..])
  }

  // -------------------------------------------------------------- size cap

  ghost predicate TableOk(l: Limiter) {
    NoDup(l.order) && forall ip :: ip in l.order <==> ip in l.table
  }

  lemma {:induction false} EvictOk(cfg: Config, l: Limiter)
    requires TableOk(l)
    ensures TableOk(Evict(cfg, l))
    ensures forall ip :: ip in Evict(cfg, l).table ==> ip in l.table && Evict(cfg, l).table[ip] == l.table[ip]
    decreases |l.order|
  {
    if |l.order| >= cfg.maxTrackedIps && l.order != [] {
      var l' := l.(table := l.table - {l.order[0]}, order := l.order[1..]);
      assert forall ip :: ip in l.order <==> ip == l.order[0] || ip in l.order[1..];
      EvictOk(cfg, l');
    }
  }

  lemma CheckOk(cfg: Config, l: Limiter, q: Request)
    requires TableOk(l) && |l.order| <= cfg.maxTrackedIps && cfg.maxTrackedIps > 0
    ensures TableOk(Check(cfg, l, q).0) && |Check(cfg, l, q).0.order| <= cfg.maxTrackedIps
  {
    var l1 := Cleanup(cfg, l, q.cleanupAt);
    KeepNoDup(l.order, StaleIps(cfg.lim, l.table, q.cleanupAt));
    assert TableOk(l1);
    EvictOk(cfg, l1);
    if q.ip in l1.table {
      KeepNoDup(l1.order, {q.ip});
      KeepShorter(l1.order, q.ip);
    }
  }

  /** However many addresses ask, and whatever the clock does, at most the cap is tracked. */
  lemma {:induction false} SizeCapped(cfg: Config, l: Limiter, qs: seq<Request>)
    requires TableOk(l) && |l.order| <= cfg.maxTrackedIps && cfg.maxTrackedIps > 0
    ensures TableOk(Final(cfg, l, qs)) && |Final(cfg, l, qs).order| <= cfg.maxTrackedIps
    decreases qs
  {
    if qs != [] {
      CheckOk(cfg, l, qs[0]);
      SizeCapped(cfg, Check(cfg, l, qs[0]).0, qs[1..]);
    }
  }

  // -------------------------------------------------- cleanup transparency

  /** The reference: a bucket per address, created on its first request and never forgotten. */
  function RefCheck(lim: Limit, table: map<string, Bucket>, q: Request): (map<string, Bucket>, bool) {
    var b := if q.ip in table then table[q.ip] else Fresh(lim, q.createAt);
    (table[q.ip := Spend(lim, b, q.consumeAt)], Admits(lim, b, q.consumeAt))
  }

  function RefAnswered(lim: Limit, table: map<string, Bucket>, qs: seq<Request>): seq<bool>
    decreases qs
  {
    if qs == [] then []
    else [RefCheck(lim, table, qs[0]).1] + RefAnswered(lim, RefCheck(lim, table, qs[0]).0, qs[1..])
  }

  /** The clock never goes back, within a request or from one to the next. */
  predicate ClockFrom(now: real, qs: seq<Request>)
    decreases qs
  {
    qs != [] ==>
      now <= qs[0].cleanupAt <= qs[0].createAt <= qs[0].consumeAt && ClockFrom(qs[0].consumeAt, qs[1..])
  }

  /** The cap never forces a bucket out. */
  predicate CapUnused(cfg: Config, l: Limiter, qs: seq<Request>)
    decreases qs
  {
    qs != [] ==>
      var l1 := Cleanup(cfg, l, qs[0].cleanupAt);
      && (qs[0].ip !in l1.table ==> |l1.order| < cfg.maxTrackedIps)
      && CapUnused(cfg, Check(cfg, l, qs[0]).0, qs[1..])
  }

  predicate Floor(lim: Limit, b: Bucket, now: real) {
    b.last <= now && b.tokens >= Min(0.0, lim.burst as real)
  }

  /** The limiter forgot only buckets that are full by now. */
  ghost predicate Agrees(lim: Limit, l: Limiter, table: map<string, Bucket>, now: real) {
    && (forall ip :: ip in table ==> Floor(lim, table[ip], now))
    && (forall ip :: ip in l.table ==> ip in table && l.table[ip] == table[ip])
    && (forall ip :: ip in table && ip !in l.table ==> IsFull(lim, table[ip], now))
  }

  lemma StaysFull(lim: Limit, b: Bucket, t: real, u: real)
    requires lim.rate >= 0.0 && t <= u && IsFull(lim, b, t)
    ensures IsFull(lim, b, u)
  {
    ScaleMono(lim.rate, t - b.last, u - b.last);
  }

  lemma FullFrom(burst: real, tokens: real, earned: real)
    requires tokens >= Min(0.0, burst) && earned >= 0.0 && earned >= burst
    ensures Min(burst, tokens + earned) >= burst
  {}

  lemma IdleEarns(rate: real, burst: real, idle: real)
    requires rate >= 0.0 && rate * IDLE_EVICTION_SECONDS >= burst && idle >= IDLE_EVICTION_SECONDS
    ensures idle * rate >= 0.0 && idle * rate >= burst
  {
    ScaleMono(rate, IDLE_EVICTION_SECONDS, idle);
    ScaleMono(rate, 0.0, idle);
  }

  lemma IdleIsFull(lim: Limit, b: Bucket, now: real)
    requires lim.rate >= 0.0 && lim.rate * IDLE_EVICTION_SECONDS >= lim.burst as real
    requires Floor(lim, b, now) && Stale(lim, b, now)
    ensures IsFull(lim, b, now)
  {
    if now - b.last >= IDLE_EVICTION_SECONDS {
      IdleEarns(lim.rate, lim.burst as real, now - b.last);
      FullFrom(lim.burst as real, b.tokens, (now - b.last) * lim.rate);
    }
  }

  lemma RaisedFloor(burst: real, tokens: real, earned: real)
    requires tokens >= Min(0.0, burst) && earned >= 0.0
    ensures Min(burst, tokens + earned) >= Min(0.0, burst)
  {}

  lemma RefillAtOnce(lim: Limit, b: Bucket)
    ensures Refill(lim, b, b.last) == Min(lim.burst as real, b.tokens)
  {
    assert b.last - b.last == 0.0;
  }

  lemma SpendKeepsFloor(lim: Limit, b: Bucket, now: real)
    requires lim.rate >= 0.0 && Floor(lim, b, now)
    ensures Floor(lim, Spend(lim, b, now), now)
  {
    ScaleMono(lim.rate, 0.0, now - b.last);
    RaisedFloor(lim.burst as real, b.tokens, (now - b.last) * lim.rate);
  }

  lemma StaysAtBurst(burst: real, earned: real)
    requires earned >= 0.0
    ensures Min(burst, burst + earned) == burst
  {}

  lemma AtMostBurst(burst: real, level: real)
    ensures Min(burst, level) >= burst ==> Min(burst, level) == burst
  {}

  lemma FullSpendsAlike(lim: Limit, b: Bucket, createAt: real, now: real)
    requires lim.rate >= 0.0 && createAt <= now && IsFull(lim, b, now)
    ensures Spend(lim, b, now) == Spend(lim, Fresh(lim, createAt), now)
    ensures Admits(lim, b, now) == Admits(lim, Fresh(lim, createAt), now)
  {
    ScaleMono(lim.rate, 0.0, now - createAt);
    StaysAtBurst(lim.burst as real, (now - createAt) * lim.rate);
    assert Refill(lim, Fresh(lim, createAt), now) == lim.burst as real;
    AtMostBurst(lim.burst as real, b.tokens + (now - b.last) * lim.rate);
    assert Refill(lim, b, now) == lim.burst as real;
  }

  lemma AgreesLater(lim: Limit, l: Limiter, table: map<string, Bucket>, t: real, u: real)
    requires lim.rate >= 0.0 && t <= u && Agrees(lim, l, table, t)
    ensures Agrees(lim, l, table, u)
  {
    forall ip | ip in table && ip !in l.table ensures IsFull(lim, table[ip], u) {
      StaysFull(lim, table[ip], t, u);
    }
  }

  lemma CleanupAgrees(cfg: Config, l: Limiter, table: map<string, Bucket>, now: real)
    requires cfg.lim.rate >= 0.0 && cfg.lim.rate * IDLE_EVICTION_SECONDS >= cfg.lim.burst as real
    requires Agrees(cfg.lim, l, table, now)
    ensures Agrees(cfg.lim, Cleanup(cfg, l, now), table, now)
  {
    forall ip | ip in table && ip !in Cleanup(cfg, l, now).table ensures IsFull(cfg.lim, table[ip], now) {
      if ip in l.table {
        IdleIsFull(cfg.lim, table[ip], now);
      }
    }
  }

  lemma CheckAgrees(cfg: Config, l: Limiter, table: map<string, Bucket>, now: real, q: Request)
    requires cfg.lim.rate >= 0.0 && cfg.lim.rate * IDLE_EVICTION_SECONDS >= cfg.lim.burst as real
    requires now <= q.cleanupAt <= q.createAt <= q.consumeAt
    requires Agrees(cfg.lim, l, table, now)
    requires q.ip in Cleanup(cfg, l, q.cleanupAt).table || |Cleanup(cfg, l, q.cleanupAt).order| < cfg.maxTrackedIps
    ensures Check(cfg, l, q).1 == RefCheck(cfg.lim, table, q).1
    ensures Agrees(cfg.lim, Check(cfg, l, q).0, RefCheck(cfg.lim, table, q).0, q.consumeAt)
  {
    var lim, l1 := cfg.lim, Cleanup(cfg, l, q.cleanupAt);
    AgreesLater(lim, l, table, now, q.cleanupAt);
    CleanupAgrees(cfg, l, table, q.cleanupAt);
    AgreesLater(lim, l1, table, q.cleanupAt, q.consumeAt);
    if q.ip !in l1.table && q.ip in table {
      FullSpendsAlike(lim, table[q.ip], q.createAt, q.consumeAt);
    }
    var b := if q.ip in table then table[q.ip] else Fresh(lim, q.createAt);
    SpendKeepsFloor(lim, b, q.consumeAt);
  }

  lemma {:induction false} RunsAgree(cfg: Config, l: Limiter, table: map<string, Bucket>, now: real, qs: seq<Request>)
    requires cfg.lim.rate >= 0.0 && cfg.lim.rate * IDLE_EVICTION_SECONDS >= cfg.lim.burst as real
    requires Agrees(cfg.lim, l, table, now) && ClockFrom(now, qs) && CapUnused(cfg, l, qs)
    ensures Answered(cfg, l, qs) == RefAnswered(cfg.lim, table, qs)
    decreases qs
  {
    if qs != [] {
      CheckAgrees(cfg, l, table, now, qs[0]);
      RunsAgree(cfg, Check(cfg, l, qs[0]).0, RefCheck(cfg.lim, table, qs[0]).0, qs[0].consumeAt, qs[1..]);
    }
  }

  // --------------------------------- what goes wrong when refilling is slow

  /** `n` copies of `q`, then `rest`. */
  function Times(q: Request, n: nat, rest: seq<Request>): seq<Request> {
    if n == 0 then rest else [q] + Times(q, n - 1, rest)
  }

  function At(t: real): Request {
    Request("client", t, t, t)
  }

  predicate AllTrue(a: seq<bool>) {
    forall i :: 0 <= i < |a| ==> a[i]
  }

  /** The limiter that tracks one client with `x` tokens, last used and cleaned at `t`. */
  function Only(x: real, t: real): Limiter {
    Limiter(map["client" := Bucket(x, t)], ["client"], t)
  }

  lemma CheckOnly(cfg: Config, x: real, t: real)
    requires cfg.maxTrackedIps > 0 && 1.0 <= x < cfg.lim.burst as real
    ensures Cleanup(cfg, Only(x, t), t) == Only(x, t)
    ensures Check(cfg, Only(x, t), At(t)) == (Only(x - 1.0, t), true)
  {
    var l := Only(x, t);
    RefillAtOnce(cfg.lim, Bucket(x, t));
    assert Refill(cfg.lim, Bucket(x, t), t) == x;
    assert Spend(cfg.lim, Bucket(x, t), t) == Bucket(x - 1.0, t);
    assert StaleIps(cfg.lim, l.table, t) == {};
    assert l.table - {} == l.table;
    assert Keep(["client"], {}) == ["client"];
    assert Keep(["client"], {"client"}) == [];
    assert l.table["client" := Bucket(x - 1.0, t)] == Only(x - 1.0, t).table;
    assert Lookup(cfg, l, "client", t) == l;
  }

  /** Every request of the run is admitted, with the cap never hit. */
  predicate Passes(cfg: Config, l: Limiter, qs: seq<Request>) {
    AllTrue(Answered(cfg, l, qs)) && CapUnused(cfg, l, qs)
  }

  /** Put one passing request in front of a run that passes. */
  lemma PrependPass(cfg: Config, l: Limiter, l': Limiter, q: Request, qs: seq<Request>)
    requires Check(cfg, l, q) == (l', true)
    requires q.ip in Cleanup(cfg, l, q.cleanupAt).table || |Cleanup(cfg, l, q.cleanupAt).order| < cfg.maxTrackedIps
    requires Passes(cfg, l', qs)
    ensures Passes(cfg, l, [q] + qs)
  {
    assert ([q] + qs)[1..] == qs;
  }

  lemma PassOnly(cfg: Config, x: real, t: real, qs: seq<Request>)
    requires cfg.maxTrackedIps > 0 && 1.0 <= x < cfg.lim.burst as real
    requires Passes(cfg, Only(x - 1.0, t), qs)
    ensures Passes(cfg, Only(x, t), [At(t)] + qs)
  {
    CheckOnly(cfg, x, t);
    PrependPass(cfg, Only(x, t), Only(x - 1.0, t), At(t), qs);
  }

  lemma {:induction false} BurstPasses(cfg: Config, n: nat, t: real, rest: seq<Request>)
    requires cfg.maxTrackedIps > 0 && n < cfg.lim.burst
    requires Passes(cfg, Only(0.0, t), rest)
    ensures Passes(cfg, Only(n as real, t), Times(At(t), n, rest))
    decreases n
  {
    if n > 0 {
      BurstPasses(cfg, n - 1, t, rest);
      assert n as real - 1.0 == (n - 1) as real;
      PassOnly(cfg, n as real, t, Times(At(t), n - 1, rest));
    }
  }

  /** A client that is not tracked any more starts from a full bucket. */
  lemma CheckFresh(cfg: Config, l: Limiter, t: real)
    requires cfg.maxTrackedIps > 0 && cfg.lim.burst >= 1
    requires Cleanup(cfg, l, t) == Limiter(map[], [], t)
    ensures Check(cfg, l, At(t)) == (Only(cfg.lim.burst as real - 1.0, t), true)
  {
    RefillAtOnce(cfg.lim, Fresh(cfg.lim, t));
    assert Refill(cfg.lim, Fresh(cfg.lim, t), t) == cfg.lim.burst as real;
    var l' := Lookup(cfg, Limiter(map[], [], t), "client", t);
    assert l'.table == map["client" := Fresh(cfg.lim, t)] && l'.order == ["client"];
    assert Spend(cfg.lim, Fresh(cfg.lim, t), t) == Bucket(cfg.lim.burst as real - 1.0, t);
    assert l'.table["client" := Bucket(cfg.lim.burst as real - 1.0, t)] == Only(cfg.lim.burst as real - 1.0, t).table;
  }

  lemma PassFresh(cfg: Config, l: Limiter, t: real, qs: seq<Request>)
    requires cfg.maxTrackedIps > 0 && cfg.lim.burst >= 1
    requires Cleanup(cfg, l, t) == Limiter(map[], [], t)
    requires Passes(cfg, Only(cfg.lim.burst as real - 1.0, t), qs)
    ensures Passes(cfg, l, [At(t)] + qs)
  {
    CheckFresh(cfg, l, t);
    PrependPass(cfg, l, Only(cfg.lim.burst as real - 1.0, t), At(t), qs);
  }

  lemma FreshBurst(cfg: Config, l: Limiter, t: real, rest: seq<Request>)
    requires cfg.maxTrackedIps > 0 && cfg.lim.burst >= 1
    requires Cleanup(cfg, l, t) == Limiter(map[], [], t)
    requires Passes(cfg, Only(0.0, t), rest)
    ensures Passes(cfg, l, Times(At(t), cfg.lim.burst, rest))
  {
    var b := cfg.lim.burst;
    assert b as real - 1.0 == (b - 1) as real;
    BurstPasses(cfg, b - 1, t, rest);
    PassFresh(cfg, l, t, Times(At(t), b - 1, rest));
  }

  /** Idle for the whole window, the client is forgotten even though its bucket is not full. */
  lemma IdleForgotten(cfg: Config, t: real)
    ensures Cleanup(cfg, Only(0.0, t), t + IDLE_EVICTION_SECONDS) == Limiter(map[], [], t + IDLE_EVICTION_SECONDS)
  {
    var l := Only(0.0, t);
    assert StaleIps(cfg.lim, l.table, t + IDLE_EVICTION_SECONDS) == {"client"};
    assert l.table - {"client"} == map[];
    assert Keep(["client"], {"client"}) == [];
  }

  lemma {:induction false} RefBurst(lim: Limit, table: map<string, Bucket>, x: real, t: real, n: nat, rest: seq<Request>)
    requires table == map["client" := Bucket(x, t)] && x <= lim.burst as real
    requires AllTrue(RefAnswered(lim, table, Times(At(t), n, rest)))
    ensures n > 0 ==> x >= n as real
    ensures AllTrue(RefAnswered(lim, map["client" := Bucket(x - n as real, t)], rest))
    decreases n
  {
    var qs := Times(At(t), n, rest);
    if n == 0 {
      assert qs == rest;
    } else {
      var t1 := map["client" := Bucket(x - 1.0, t)];
      assert qs[0] == At(t) && qs[1..] == Times(At(t), n - 1, rest);
      RefillAtOnce(lim, Bucket(x, t));
      assert Refill(lim, Bucket(x, t), t) == x;
      var (table', ok) := RefCheck(lim, table, At(t));
      assert RefAnswered(lim, table, qs) == [ok] + RefAnswered(lim, table', qs[1..]);
      assert RefAnswered(lim, table, qs)[0];
      assert table' == t1;
      assert forall i :: 0 <= i < |RefAnswered(lim, table', qs[1..])| ==>
               RefAnswered(lim, table', qs[1..])[i] == RefAnswered(lim, table, qs)[i + 1];
      RefBurst(lim, t1, x - 1.0, t, n - 1, rest);
      assert x - 1.0 - (n - 1) as real == x - n as real;
    }
  }

  lemma {:induction false} TimesClock(t: real, now: real, n: nat, rest: seq<Request>)
    requires now <= t && ClockFrom(t, rest)
    ensures ClockFrom(now, Times(At(t), n, rest))
    decreases n
  {
    var qs := Times(At(t), n, rest);
    if n == 0 {
      assert qs == rest;
      if rest != [] {
        assert now <= rest[0].cleanupAt;
      }
    } else {
      assert qs[0] == At(t) && qs[1..] == Times(At(t), n - 1, rest);
      TimesClock(t, t, n - 1, rest);
    }
  }

  /** Spend the burst, wait out the idle window, spend the burst again. */
  function Comeback(b: nat, t0: real): seq<Request> {
    Times(At(t0), b, Times(At(t0 + IDLE_EVICTION_SECONDS), b, []))
  }

  /** The reference bucket is empty after the first burst. */
  lemma RefFirstBurst(lim: Limit, t: real, rest: seq<Request>)
    requires lim.burst >= 1 && AllTrue(RefAnswered(lim, map[], Times(At(t), lim.burst, rest)))
    ensures AllTrue(RefAnswered(lim, map["client" := Bucket(0.0, t)], rest))
  {
    var b, s1 := lim.burst, map["client" := Bucket(lim.burst as real - 1.0, t)];
    RefillAtOnce(lim, Fresh(lim, t));
    assert Spend(lim, Fresh(lim, t), t) == Bucket(b as real - 1.0, t);
    RefTail(lim, map[], s1, At(t), Times(At(t), b - 1, rest));
    RefBurst(lim, s1, b as real - 1.0, t, b - 1, rest);
    assert b as real - 1.0 - (b - 1) as real == 0.0;
  }

  /** After the idle window it holds rate * 300 tokens, too few for a second burst. */
  lemma RefSecondBurst(lim: Limit, t0: real)
    requires 0.0 <= lim.rate && lim.rate * IDLE_EVICTION_SECONDS < lim.burst as real && lim.burst >= 1
    ensures !AllTrue(RefAnswered(lim, map["client" := Bucket(0.0, t0)],
                                 Times(At(t0 + IDLE_EVICTION_SECONDS), lim.burst, [])))
  {
    var b, t1, x := lim.burst, t0 + IDLE_EVICTION_SECONDS, lim.rate * IDLE_EVICTION_SECONDS;
    var s := map["client" := Bucket(0.0, t0)];
    if AllTrue(RefAnswered(lim, s, Times(At(t1), b, []))) {
      assert Refill(lim, Bucket(0.0, t0), t1) == x;
      var s' := map["client" := Spend(lim, Bucket(0.0, t0), t1)];
      RefTail(lim, s, s', At(t1), Times(At(t1), b - 1, []));
      RefBurst(lim, s', x - 1.0, t1, b - 1, []);
    }
  }

  lemma RefTail(lim: Limit, s: map<string, Bucket>, s': map<string, Bucket>, q: Request, rest: seq<Request>)
    requires AllTrue(RefAnswered(lim, s, [q] + rest)) && RefCheck(lim, s, q).0 == s'
    ensures RefCheck(lim, s, q).1 && AllTrue(RefAnswered(lim, s', rest))
  {
    var all := RefAnswered(lim, s, [q] + rest);
    assert ([q] + rest)[1..] == rest;
    assert all == [RefCheck(lim, s, q).1] + RefAnswered(lim, s', rest);
    assert all[0];
    assert forall i :: 0 <= i < |all| - 1 ==> RefAnswered(lim, s', rest)[i] == all[i + 1];
  }

  lemma ComebackPasses(cfg: Config, t0: real)
    requires cfg.maxTrackedIps > 0 && cfg.lim.burst >= 1
    ensures var l0, qs := Limiter(map[], [], t0), Comeback(cfg.lim.burst, t0);
            Passes(cfg, l0, qs) && ClockFrom(t0, qs)
  {
    var b, t1 := cfg.lim.burst, t0 + IDLE_EVICTION_SECONDS;
    IdleForgotten(cfg, t0);
    FreshBurst(cfg, Only(0.0, t0), t1, []);
    FreshBurst(cfg, Limiter(map[], [], t0), t0, Times(At(t1), b, []));
    TimesClock(t1, t0, b, []);
    TimesClock(t0, t0, b, Times(At(t1), b, []));
  }

  /** Cleanup cannot be noticed: as long as the cap is not hit, every run is answered as by the reference. */
  ghost predicate Transparent(cfg: Config, t0: real) {
    forall qs :: ClockFrom(t0, qs) && CapUnused(cfg, Limiter(map[], [], t0), qs) ==>
      Answered(cfg, Limiter(map[], [], t0), qs) == RefAnswered(cfg.lim, map[], qs)
  }

  /**
   Cleanup is invisible exactly when a bucket refills completely within the
   idle window: rate * 300 >= burst.
   */
  lemma CleanupTransparentExactly(cfg: Config, t0: real)
    requires cfg.lim.rate >= 0.0 && cfg.maxTrackedIps > 0
    ensures Transparent(cfg, t0) <==> cfg.lim.rate * IDLE_EVICTION_SECONDS >= cfg.lim.burst as real
  {
    var l0 := Limiter(map[], [], t0);
    if cfg.lim.rate * IDLE_EVICTION_SECONDS >= cfg.lim.burst as real {
      forall qs | ClockFrom(t0, qs) && CapUnused(cfg, l0, qs)
        ensures Answered(cfg, l0, qs) == RefAnswered(cfg.lim, map[], qs)
      {
        RunsAgree(cfg, l0, map[], t0, qs);
      }
    } else {
      ScaleMono(cfg.lim.rate, 0.0, IDLE_EVICTION_SECONDS);
      var qs := Comeback(cfg.lim.burst, t0);
      ComebackPasses(cfg, t0);
      if AllTrue(RefAnswered(cfg.lim, map[], qs)) {
        RefFirstBurst(cfg.lim, t0, Times(At(t0 + IDLE_EVICTION_SECONDS), cfg.lim.burst, []));
        RefSecondBurst(cfg.lim, t0);
        assert false;
      }
      assert Answered(cfg, l0, qs) != RefAnswered(cfg.lim, map[], qs);
    }
  }

  // ------------------------------------------------------------ the object

  /** `RateLimiter`, with the state of each bucket object kept in the table. */
  class RateLimiter {
    const cfg: Config
    var table: map<string, Bucket>
    var order: seq<string>
    var lastCleanup: real

    function Model(): Limiter
      reads this
    {
      Limiter(table, order, lastCleanup)
    }

    /** A cap below one is refused by the original constructor. */
    constructor (cfg: Config, now: real)
      requires cfg.maxTrackedIps > 0
      ensures this.cfg == cfg && Model() == Limiter(map[], [], now) && TableOk(Model())
    {
      this.cfg, table, order, lastCleanup := cfg, map[], [], now;
    }

    /** The addresses to drop, probed in table order. */
    method FindStale(now: real) returns (stale: seq<string>)
      requires TableOk(Model())
      ensures forall ip :: ip in stale <==> ip in StaleIps(cfg.lim, table, now)
    {
      stale := [];
      for i := 0 to |order|
        invariant forall ip :: ip in stale <==> ip in order[..i] && ip in table && Stale(cfg.lim, table[ip], now)
      {
        assert order[i] in Model().order;
        assert order[..i + 1] == order[..i] + [order[i]];
        if Stale(cfg.lim, table[order[i]], now) {
          stale := stale + [order[i]];
        }
      }
      assert order[..|order|] == Model().order;
    }

    /** Delete what was found, looking once more before each deletion. */
    method DropStale(stale: seq<string>, now: real, ghost gone: set<string>)
      requires TableOk(Model())
      requires forall ip :: ip in stale <==> ip in gone
      requires gone == StaleIps(cfg.lim, table, now)
      modifies this`table, this`order
      ensures Model() == Drop(old(Model()), gone)
    {
      ghost var l, done := Model(), {};
      DropNone(l);
      for i := 0 to |stale|
        invariant Model() == Drop(l, done)
        invariant forall ip :: ip in done <==> ip in stale[..i]
      {
        var ip := stale[i];
        DropOneMore(l, done, ip);
        assert stale[..i + 1] == stale[..i] + [ip];
        if ip in table {
          assert ip in gone && table[ip] == l.table[ip];
          if Stale(cfg.lim, table[ip], now) {
            table := table - {ip};
            order := Keep(order, {ip});
          }
        }
        done := done + {ip};
      }
      assert stale[..|stale|] == stale;
      assert done == gone;
    }

    method MaybeCleanup(now: real)
      requires TableOk(Model())
      modifies this
      ensures Model() == Cleanup(cfg, old(Model()), now)
    {
      if |order| < cfg.maxTrackedIps && now - lastCleanup < CLEANUP_INTERVAL {
        return;
      }
      var stale := FindStale(now);
      DropStale(stale, now, StaleIps(cfg.lim, table, now));
      lastCleanup := now;
    }

    method EvictForOne()
      requires cfg.maxTrackedIps > 0
      modifies this
      ensures Model() == Evict(cfg, old(Model()))
    {
      while |order| >= cfg.maxTrackedIps
        invariant Evict(cfg, Model()) == Evict(cfg, old(Model()))
        decreases |order|
      {
        table := table - {order[0]};
        order := order[1..];
      }
    }

    method CheckRateLimit(q: Request) returns (ok: bool)
      requires TableOk(Model()) && |order| <= cfg.maxTrackedIps && cfg.maxTrackedIps > 0
      modifies this
      ensures TableOk(Model()) && |order| <= cfg.maxTrackedIps
      ensures (Model(), ok) == Check(cfg, old(Model()), q)
    {
      CheckOk(cfg, Model(), q);
      MaybeCleanup(q.cleanupAt);
      if q.ip !in table {
        EvictForOne();
        table := table[q.ip := Fresh(cfg.lim, q.createAt)];
        order := order + [q.ip];
      } else {
        order := Keep(order, {q.ip}) + [q.ip];
      }
      ok := Admits(cfg.lim, table[q.ip], q.consumeAt);
      table := table[q.ip := Spend(cfg.lim, table[q.ip], q.consumeAt)];
    }
  }

  lemma DropNone(l: Limiter)
    ensures Drop(l, {}) == l
  {
    KeepAll(l.order);
    assert l.table - {} == l.table;
  }

  lemma DropOneMore(l: Limiter, gone: set<string>, ip: string)
    ensures Drop(Drop(l, gone), {ip}) == Drop(l, gone + {ip})
    ensures TableOk(l) && ip !in Drop(l, gone).table ==> Drop(l, gone + {ip}) == Drop(l, gone)
  {
    KeepTwice(l.order, gone, {ip});
    assert l.table - gone - {ip} == l.table - (gone + {ip});
    if ip !in Drop(l, gone).table && TableOk(l) {
      KeepAbsent(Keep(l.order, gone), ip);
      assert l.table - gone - {ip} == l.table - gone;
    }
  }
}
