/**
 Which buckets the limiter forgets (src/pounce/_rate_limiter.py:177-232): all
 stale ones when cleanup is due, and the least recently seen at the cap.
 */
module RateLimitOrder {
  import opened Lru
  import opened TokenBuckets
  import opened RateLimits

  /** Cleanup waits out its interval unless the table is full; then a bucket stays exactly if it is neither full nor idle. */
  lemma CleanupExactly(cfg: Config, l: Limiter, now: real, ip: string)
    ensures var due, c := now - l.lastCleanup >= 300.0 || |l.order| >= cfg.maxTrackedIps, Cleanup(cfg, l, now);
            && (!due ==> c == l)
            && (due ==> c.lastCleanup == now)
            && (due ==> (ip in c.table <==>
                           && ip in l.table
                           && l.table[ip].tokens + (now - l.table[ip].last) * cfg.lim.rate < cfg.lim.burst as real
                           && now - l.table[ip].last < 300.0))
            && (ip in c.table ==> c.table[ip] == l.table[ip])
  {}

  /** How many buckets have to go before one more fits. */
  function Surplus(cfg: Config, l: Limiter): (n: nat)
    requires cfg.maxTrackedIps > 0
    ensures n <= |l.order|
  {
    if |l.order| < cfg.maxTrackedIps then 0 else |l.order| - cfg.maxTrackedIps + 1
  }

  lemma {:induction false} EvictOrder(cfg: Config, l: Limiter)
    requires cfg.maxTrackedIps > 0
    ensures Evict(cfg, l).order == l.order[Surplus(cfg, l)..] && Evict(cfg, l).lastCleanup == l.lastCleanup
    decreases |l.order|
  {
    if |l.order| >= cfg.maxTrackedIps {
      var l' := l.(table := l.table - {l.order[0]}, order := l.order[1..]);
      EvictOrder(cfg, l');
      assert Surplus(cfg, l') == Surplus(cfg, l) - 1;
      TailOf(l.order, Surplus(cfg, l));
    }
  }

  /** Eviction takes as many as it has to, from the front. */
  lemma EvictExactly(cfg: Config, l: Limiter)
    requires TableOk(l) && cfg.maxTrackedIps > 0
    ensures var n, e := Surplus(cfg, l), Evict(cfg, l);
            && e.order == l.order[n..] && e.lastCleanup == l.lastCleanup
            && (forall ip :: ip in e.table <==> ip in l.table && ip !in l.order[..n])
            && (forall ip :: ip in e.table ==> e.table[ip] == l.table[ip])
  {
    var n, e := Surplus(cfg, l), Evict(cfg, l);
    EvictOrder(cfg, l);
    EvictOk(cfg, l);
    forall ip ensures ip in e.table <==> ip in l.table && ip !in l.order[..n] {
      PartsApart(l.order, n, ip);
      assert ip in e.order <==> ip in e.table;
    }
  }

  // ----------------------------------------------------------- over a run

  /** The place of the last request of an address, or -1. */
  function LastSeen(qs: seq<Request>, ip: string): int {
    if qs == [] then -1
    else if qs[|qs| - 1].ip == ip then |qs| - 1
    else LastSeen(qs[..|qs| - 1], ip)
  }

  lemma {:induction false} LastSeenExactly(qs: seq<Request>, ip: string)
    ensures var n := LastSeen(qs, ip);
            && -1 <= n < |qs| && (n >= 0 ==> qs[n].ip == ip)
            && forall i :: n < i < |qs| ==> qs[i].ip != ip
    decreases |qs|
  {
    if qs != [] && qs[|qs| - 1].ip != ip {
      LastSeenExactly(qs[..|qs| - 1], ip);
    }
  }

  lemma LastSeenAppend(qs: seq<Request>, q: Request, ip: string)
    ensures LastSeen(qs + [q], ip) == if ip == q.ip then |qs| else LastSeen(qs, ip)
  {
    assert (qs + [q])[..|qs|] == qs;
  }

  /** The tracked addresses are listed by their last request. */
  ghost predicate ByRecency(order: seq<string>, qs: seq<Request>) {
    SortedBy(order, ip => LastSeen(qs, ip))
  }

  lemma TouchKeepsRecency(order: seq<string>, qs: seq<Request>, q: Request)
    requires ByRecency(order, qs) && q.ip !in order
    ensures ByRecency(order + [q.ip], qs + [q])
  {
    forall ip ensures LastSeen(qs + [q], ip) == if ip == q.ip then |qs| else LastSeen(qs, ip) {
      LastSeenAppend(qs, q, ip);
    }
    forall i | 0 <= i < |order| ensures LastSeen(qs, order[i]) < |qs| && order[i] != q.ip {
      LastSeenExactly(qs, order[i]);
    }
  }

  lemma CleanupKeepsRecency(cfg: Config, l: Limiter, qs: seq<Request>, now: real)
    requires TableOk(l) && ByRecency(l.order, qs)
    ensures TableOk(Cleanup(cfg, l, now)) && ByRecency(Cleanup(cfg, l, now).order, qs)
  {
    var gone := StaleIps(cfg.lim, l.table, now);
    KeepSorted(l.order, gone, ip => LastSeen(qs, ip));
    KeepNoDup(l.order, gone);
  }

  lemma CheckKeepsRecency(cfg: Config, l: Limiter, qs: seq<Request>, q: Request)
    requires TableOk(l) && cfg.maxTrackedIps > 0 && ByRecency(l.order, qs)
    ensures ByRecency(Check(cfg, l, q).0.order, qs + [q])
  {
    var l1 := Cleanup(cfg, l, q.cleanupAt);
    CleanupKeepsRecency(cfg, l, qs, q.cleanupAt);
    KeepSorted(l1.order, {q.ip}, ip => LastSeen(qs, ip));
    EvictExactly(cfg, l1);
    var kept := if q.ip in l1.table then Keep(l1.order, {q.ip}) else Evict(cfg, l1).order;
    assert ByRecency(kept, qs);
    TouchKeepsRecency(kept, qs, q);
  }

  /** However long the run, the table's order is that of the last requests. */
  lemma {:induction false} RecencyOrder(cfg: Config, l: Limiter, before: seq<Request>, qs: seq<Request>)
    requires TableOk(l) && cfg.maxTrackedIps > 0 && |l.order| <= cfg.maxTrackedIps && ByRecency(l.order, before)
    ensures ByRecency(Final(cfg, l, qs).order, before + qs)
    decreases qs
  {
    if qs == [] {
      assert before + qs == before;
    } else {
      CheckOk(cfg, l, qs[0]);
      CheckKeepsRecency(cfg, l, before, qs[0]);
      RecencyOrder(cfg, Check(cfg, l, qs[0]).0, before + [qs[0]], qs[1..]);
      assert before + [qs[0]] + qs[1..] == before + qs;
    }
  }

  lemma EvictsFirstRanked(cfg: Config, l: Limiter, rank: string -> int, a: string, b: string)
    requires TableOk(l) && cfg.maxTrackedIps > 0 && SortedBy(l.order, rank)
    requires a in l.table && a !in Evict(cfg, l).table && b in Evict(cfg, l).table
    ensures rank(a) < rank(b)
  {
    EvictExactly(cfg, l);
    EvictOk(cfg, l);
    assert b in Evict(cfg, l).order;
    PartsRanked(l.order, Surplus(cfg, l), rank, a, b);
  }

  /** At the cap, every address forced out was last seen before every one that stays. */
  lemma EvictsLeastRecent(cfg: Config, t0: real, qs: seq<Request>, now: real, a: string, b: string)
    requires cfg.maxTrackedIps > 0
    requires var l := Cleanup(cfg, Final(cfg, Limiter(map[], [], t0), qs), now);
             a in l.table && a !in Evict(cfg, l).table && b in Evict(cfg, l).table
    ensures LastSeen(qs, a) < LastSeen(qs, b)
  {
    var l0 := Limiter(map[], [], t0);
    SizeCapped(cfg, l0, qs);
    RecencyOrder(cfg, l0, [], qs);
    assert [] + qs == qs;
    CleanupKeepsRecency(cfg, Final(cfg, l0, qs), qs, now);
    EvictsFirstRanked(cfg, Cleanup(cfg, Final(cfg, l0, qs), now), ip => LastSeen(qs, ip), a, b);
  }
}
