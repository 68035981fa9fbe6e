/**
 One client's token bucket (src/pounce/_rate_limiter.py:33-111), over real time
 and real tokens.  The clock is a parameter.
 */
module TokenBuckets {

  datatype Limit = Limit(rate: real, burst: int)

  datatype Bucket = Bucket(tokens: real, last: real)

  function Min(a: real, b: real): real {
    if a <= b then a else b
  }

  function Fresh(lim: Limit, now: real): Bucket {
    Bucket(lim.burst as real, now)
  }

  /** The token level after the refill at `now`. */
  function Refill(lim: Limit, b: Bucket, now: real): real {
    Min(lim.burst as real, b.tokens + (now - b.last) * lim.rate)
  }

  predicate Admits(lim: Limit, b: Bucket, now: real) {
    Refill(lim, b, now) >= 1.0
  }

  function Spend(lim: Limit, b: Bucket, now: real): Bucket {
    Bucket(Refill(lim, b, now) - (if Admits(lim, b, now) then 1.0 else 0.0), now)
  }

  predicate IsFull(lim: Limit, b: Bucket, now: real) {
    Refill(lim, b, now) >= lim.burst as real
  }

  class TokenBucket {
    const lim: Limit
    var tokens: real
    var lastRefill: real

    function Model(): Bucket
      reads this
    {
      Bucket(tokens, lastRefill)
    }

    constructor (lim: Limit, now: real)
      ensures this.lim == lim && Model() == Fresh(lim, now)
    {
      this.lim, tokens, lastRefill := lim, lim.burst as real, now;
    }

    method Consume(now: real) returns (ok: bool)
      modifies this
      ensures Model() == Spend(lim, old(Model()), now)
      ensures ok == Admits(lim, old(Model()), now)
    {
      var elapsed := now - lastRefill;
      var refill := elapsed * lim.rate;
      tokens := Min(lim.burst as real, tokens + refill);
      assert tokens == Refill(lim, old(Model()), now);
      lastRefill := now;
      if tokens >= 1.0 {
        tokens := tokens - 1.0;
        return true;
      }
      return false;
    }

    method IsFullAt(now: real) returns (full: bool)
      ensures full == IsFull(lim, Model(), now)
    {
      var elapsed := now - lastRefill;
      var tokensAfterRefill := Min(lim.burst as real, tokens + elapsed * lim.rate);
      full := tokensAfterRefill >= lim.burst as real;
    }

    method IdleSince(now: real) returns (idle: real)
      ensures idle == now - Model().last
    {
      idle := now - lastRefill;
    }
  }

  // ------------------------------------------------- one bucket over a run

  /** The bucket created at `t0` after a request at each time of `ts`. */
  function After(lim: Limit, t0: real, ts: seq<real>): Bucket {
    if ts == [] then Fresh(lim, t0)
    else Spend(lim, After(lim, t0, ts[..|ts| - 1]), ts[|ts| - 1])
  }

  predicate Answer(lim: Limit, t0: real, ts: seq<real>, i: nat)
    requires i < |ts|
  {
    Admits(lim, After(lim, t0, ts[..i]), ts[i])
  }

  /** The answers the bucket gives, request by request. */
  function Answers(lim: Limit, t0: real, ts: seq<real>): (a: seq<bool>)
    ensures |a| == |ts|
    ensures forall i :: 0 <= i < |ts| ==> a[i] == Answer(lim, t0, ts, i)
  {
    seq(|ts|, i requires 0 <= i < |ts| => Answer(lim, t0, ts, i))
  }

  function One(b: bool): int {
    if b then 1 else 0
  }

  /** How many of the choices `a[j..i]` are admissions. */
  function Count(a: seq<bool>, j: nat, i: nat): nat
    requires j <= i <= |a|
  {
    if i == j then 0 else Count(a, j, i - 1) + One(a[i - 1])
  }

  /** What a window that starts at time `s` with choice `j` still allows at choice `i`. */
  function Room(lim: Limit, ts: seq<real>, a: seq<bool>, s: real, j: nat, i: nat): real
    requires j <= i < |ts| && |a| == |ts|
  {
    lim.burst as real + lim.rate * (ts[i] - s) - Count(a, j, i) as real
  }

  /** Every window ending at request `i`, from the creation or any earlier request, has room for `x`. */
  ghost predicate AllWindows(lim: Limit, t0: real, ts: seq<real>, a: seq<bool>, i: nat, x: real)
    requires i < |ts| && |a| == |ts|
  {
    && Room(lim, ts, a, t0, 0, i) >= x
    && forall j {:trigger Room(lim, ts, a, ts[j], j, i)} :: 0 <= j <= i ==> Room(lim, ts, a, ts[j], j, i) >= x
  }

  // The next definitions know nothing of rates and times: `g[i]` is what the
  // bucket earns between request `i` and the one before it.

  /** The level before request `i` if the earlier requests were admitted as `a` says. */
  function LevelOf(burst: real, g: seq<real>, a: seq<bool>, i: nat): real
    requires i < |g| == |a|
  {
    Min(burst, (if i == 0 then burst else LevelOf(burst, g, a, i - 1) - One(a[i - 1]) as real) + g[i])
  }

  function Sum(g: seq<real>, k: nat, n: nat): real
    requires k <= n <= |g|
  {
    if k == n then 0.0 else Sum(g, k, n - 1) + g[n - 1]
  }

  /** Window `k` starts at the creation for 0, else with request `k - 1`. */
  function RoomOf(burst: real, g: seq<real>, a: seq<bool>, k: nat, i: nat): real
    requires k <= i + 1 <= |g| == |a|
  {
    burst + Sum(g, k, i + 1) - Count(a, if k == 0 then 0 else k - 1, i) as real
  }

  predicate HasRoom(burst: real, g: seq<real>, a: seq<bool>, i: nat, x: real, k: int)
    requires i < |g| == |a|
  {
    0 <= k <= i + 1 ==> RoomOf(burst, g, a, k, i) >= x
  }

  ghost predicate Fits(burst: real, g: seq<real>, a: seq<bool>, i: nat, x: real)
    requires i < |g| == |a|
  {
    forall k :: HasRoom(burst, g, a, i, x, k)
  }

  lemma RoomOfStep(burst: real, g: seq<real>, a: seq<bool>, k: nat, i: nat)
    requires k <= i < |g| == |a| && i > 0
    ensures RoomOf(burst, g, a, k, i) == RoomOf(burst, g, a, k, i - 1) - One(a[i - 1]) as real + g[i]
  {
    var f := if k == 0 then 0 else k - 1;
    assert Sum(g, k, i + 1) == Sum(g, k, i) + g[i];
    assert Count(a, f, i) == Count(a, f, i - 1) + One(a[i - 1]);
    assert RoomOf(burst, g, a, k, i) == burst + Sum(g, k, i + 1) - Count(a, f, i) as real;
    assert RoomOf(burst, g, a, k, i - 1) == burst + Sum(g, k, i) - Count(a, f, i - 1) as real;
  }

  lemma FitsStep(burst: real, g: seq<real>, a: seq<bool>, i: nat, x: real, x': real)
    requires 0 < i < |g| == |a| && x' == x + One(a[i - 1]) as real - g[i]
    ensures Fits(burst, g, a, i, x) <==> burst >= x && Fits(burst, g, a, i - 1, x')
  {
    assert Sum(g, i + 1, i + 1) == 0.0 && Count(a, i, i) == 0;
    assert RoomOf(burst, g, a, i + 1, i) == burst;
    if Fits(burst, g, a, i, x) {
      assert HasRoom(burst, g, a, i, x, i + 1);
      var before: nat := i - 1;
      forall k ensures HasRoom(burst, g, a, before, x', k) {
        if 0 <= k <= i {
          assert HasRoom(burst, g, a, i, x, k);
          RoomOfStep(burst, g, a, k, i);
        }
      }
    }
    if burst >= x && Fits(burst, g, a, i - 1, x') {
      forall k ensures HasRoom(burst, g, a, i, x, k) {
        if 0 <= k <= i {
          assert HasRoom(burst, g, a, i - 1, x', k);
          RoomOfStep(burst, g, a, k, i);
        }
      }
    }
  }

  lemma {:induction false} LevelFits(burst: real, g: seq<real>, a: seq<bool>, i: nat, x: real)
    requires i < |g| == |a|
    ensures LevelOf(burst, g, a, i) >= x <==> Fits(burst, g, a, i, x)
  {
    if i == 0 {
      assert Sum(g, 0, 1) == Sum(g, 0, 0) + g[0] && Sum(g, 1, 1) == 0.0 && Count(a, 0, 0) == 0;
      assert RoomOf(burst, g, a, 0, 0) == burst + g[0] && RoomOf(burst, g, a, 1, 0) == burst;
      assert Fits(burst, g, a, 0, x) ==> HasRoom(burst, g, a, 0, x, 0) && HasRoom(burst, g, a, 0, x, 1);
    } else {
      var x' := x + One(a[i - 1]) as real - g[i];
      LevelFits(burst, g, a, i - 1, x');
      FitsStep(burst, g, a, i, x, x');
    }
  }

  /** Two ways of admitting: what one is ahead in level it is behind in admissions, at most. */
  lemma LeadStep(burst: real, g: seq<real>, a: seq<bool>, b: seq<bool>, i: nat, lead: real)
    requires 0 < i < |g| == |a| == |b| && lead >= 0.0
    requires lead >= (LevelOf(burst, g, a, i - 1) - One(a[i - 1]) as real) - (LevelOf(burst, g, b, i - 1) - One(b[i - 1]) as real)
    ensures lead >= LevelOf(burst, g, a, i) - LevelOf(burst, g, b, i)
  {}

  /** The steps by which `p` rises. */
  function Rises(p: seq<real>): (g: seq<real>)
    requires p != []
    ensures |g| == |p| - 1
  {
    seq(|p| - 1, i requires 0 <= i < |p| - 1 => p[i + 1] - p[i])
  }

  lemma {:induction false} RisesAddUp(p: seq<real>, k: nat, n: nat)
    requires k <= n < |p|
    ensures Sum(Rises(p), k, n) == p[n] - p[k]
  {
    if k < n {
      RisesAddUp(p, k, n - 1);
      assert Rises(p)[n - 1] == p[n] - p[n - 1];
    }
  }

  // ------------------------------------------------- back to rates and times

  /** The time the window numbered `k` starts. */
  function WindowStart(t0: real, ts: seq<real>, k: nat): real
    requires k <= |ts|
  {
    if k == 0 then t0 else ts[k - 1]
  }

  /** What a bucket would have earned by each of these times, had it started at time zero. */
  function Earned(lim: Limit, t0: real, ts: seq<real>): (p: seq<real>)
    ensures |p| == |ts| + 1
  {
    seq(|ts| + 1, k requires 0 <= k <= |ts| => WindowStart(t0, ts, k) * lim.rate)
  }

  function Gains(lim: Limit, t0: real, ts: seq<real>): (g: seq<real>)
    ensures |g| == |ts|
  {
    Rises(Earned(lim, t0, ts))
  }

  lemma Distribute(r: real, a: real, b: real)
    ensures b * r - a * r == (b - a) * r == r * (b - a)
  {}

  /** Between a request and the one before it the bucket earns rate times the time. */
  lemma GainAt(lim: Limit, t0: real, ts: seq<real>, i: nat)
    requires i < |ts|
    ensures Gains(lim, t0, ts)[i] == (ts[i] - WindowStart(t0, ts, i)) * lim.rate
  {
    var p := Earned(lim, t0, ts);
    assert p[i + 1] == ts[i] * lim.rate;
    Distribute(lim.rate, WindowStart(t0, ts, i), ts[i]);
  }

  lemma EarnedBetween(lim: Limit, t0: real, ts: seq<real>, k: nat, i: nat)
    requires k <= i + 1 <= |ts|
    ensures Earned(lim, t0, ts)[i + 1] - Earned(lim, t0, ts)[k] == lim.rate * (ts[i] - WindowStart(t0, ts, k))
  {
    assert WindowStart(t0, ts, i + 1) == ts[i];
    Distribute(lim.rate, WindowStart(t0, ts, k), ts[i]);
  }

  /** What is earned from one request to the next adds up to rate times length. */
  lemma GainsAddUp(lim: Limit, t0: real, ts: seq<real>, k: nat, i: nat)
    requires k <= i + 1 <= |ts|
    ensures Sum(Gains(lim, t0, ts), k, i + 1) == lim.rate * (ts[i] - WindowStart(t0, ts, k))
  {
    RisesAddUp(Earned(lim, t0, ts), k, i + 1);
    EarnedBetween(lim, t0, ts, k, i);
  }

  lemma RoomAgrees(lim: Limit, t0: real, ts: seq<real>, a: seq<bool>, k: nat, i: nat)
    requires k <= i + 1 <= |ts| == |a|
    ensures RoomOf(lim.burst as real, Gains(lim, t0, ts), a, k, i) ==
            Room(lim, ts, a, WindowStart(t0, ts, k), if k == 0 then 0 else k - 1, i)
  {
    GainsAddUp(lim, t0, ts, k, i);
  }

  lemma WindowsFit(lim: Limit, t0: real, ts: seq<real>, a: seq<bool>, i: nat, x: real)
    requires i < |ts| == |a|
    ensures AllWindows(lim, t0, ts, a, i, x) <==> Fits(lim.burst as real, Gains(lim, t0, ts), a, i, x)
  {
    var burst, g := lim.burst as real, Gains(lim, t0, ts);
    if AllWindows(lim, t0, ts, a, i, x) {
      forall k ensures HasRoom(burst, g, a, i, x, k) {
        if 0 <= k <= i + 1 {
          RoomAgrees(lim, t0, ts, a, k, i);
          assert k > 0 ==> Room(lim, ts, a, ts[k - 1], k - 1, i) >= x;
        }
      }
    }
    if Fits(burst, g, a, i, x) {
      assert HasRoom(burst, g, a, i, x, 0);
      RoomAgrees(lim, t0, ts, a, 0, i);
      forall j | 0 <= j <= i ensures Room(lim, ts, a, ts[j], j, i) >= x {
        assert HasRoom(burst, g, a, i, x, j + 1);
        RoomAgrees(lim, t0, ts, a, j + 1, i);
      }
    }
  }

  /** The level before request `i` of a run of requests. */
  function Level(lim: Limit, t0: real, ts: seq<real>, a: seq<bool>, i: nat): real
    requires i < |ts| == |a|
  {
    LevelOf(lim.burst as real, Gains(lim, t0, ts), a, i)
  }

  /** The level is the tightest window, whatever was admitted before. */
  lemma LevelIsTightest(lim: Limit, t0: real, ts: seq<real>, a: seq<bool>, i: nat, x: real)
    requires i < |ts| && |a| == |ts|
    ensures Level(lim, t0, ts, a, i) >= x <==> AllWindows(lim, t0, ts, a, i, x)
  {
    LevelFits(lim.burst as real, Gains(lim, t0, ts), a, i, x);
    WindowsFit(lim, t0, ts, a, i, x);
  }

  lemma AfterStep(lim: Limit, t0: real, ts: seq<real>, i: nat)
    requires i < |ts|
    ensures After(lim, t0, ts[..i + 1]) == Spend(lim, After(lim, t0, ts[..i]), ts[i])
  {
    assert ts[..i + 1][..i] == ts[..i];
  }

  lemma SpendLeaves(lim: Limit, b: Bucket, t: real, level: real)
    requires level == Refill(lim, b, t)
    ensures Spend(lim, b, t) == Bucket(level - One(Admits(lim, b, t)) as real, t)
  {}

  lemma LevelStep(burst: real, g: seq<real>, a: seq<bool>, i: nat)
    requires i < |g| == |a|
    ensures LevelOf(burst, g, a, i) ==
            Min(burst, (if i == 0 then burst else LevelOf(burst, g, a, i - 1) - One(a[i - 1]) as real) + g[i])
  {}

  lemma LevelNext(lim: Limit, t0: real, ts: seq<real>, a: seq<bool>, i: nat, tokens: real)
    requires i < |ts| == |a|
    requires tokens == if i == 0 then lim.burst as real else Level(lim, t0, ts, a, i - 1) - One(a[i - 1]) as real
    ensures Level(lim, t0, ts, a, i) == Refill(lim, Bucket(tokens, WindowStart(t0, ts, i)), ts[i])
  {
    LevelStep(lim.burst as real, Gains(lim, t0, ts), a, i);
    GainAt(lim, t0, ts, i);
  }

  /** The bucket before request `i`: filled up at the one before, less what that took. */
  lemma {:induction false} AfterIs(lim: Limit, t0: real, ts: seq<real>, i: nat)
    requires i < |ts|
    ensures var a := Answers(lim, t0, ts);
            After(lim, t0, ts[..i]) ==
            Bucket(if i == 0 then lim.burst as real else Level(lim, t0, ts, a, i - 1) - One(a[i - 1]) as real,
                   WindowStart(t0, ts, i))
    decreases i, 0
  {
    if i > 0 {
      var a := Answers(lim, t0, ts);
      LevelIsRefill(lim, t0, ts, i - 1);
      AfterStep(lim, t0, ts, i - 1);
      SpendLeaves(lim, After(lim, t0, ts[..i - 1]), ts[i - 1], Level(lim, t0, ts, a, i - 1));
    }
  }

  lemma {:induction false} LevelIsRefill(lim: Limit, t0: real, ts: seq<real>, i: nat)
    requires i < |ts|
    ensures Level(lim, t0, ts, Answers(lim, t0, ts), i) == Refill(lim, After(lim, t0, ts[..i]), ts[i])
    decreases i, 1
  {
    AfterIs(lim, t0, ts, i);
    LevelNext(lim, t0, ts, Answers(lim, t0, ts), i, After(lim, t0, ts[..i]).tokens);
  }

  /**
   The bucket is exact: a request is admitted if and only if admitting it keeps
   every window ending at it, from the creation or from any earlier request,
   within burst + rate * length.
   */
  lemma AdmissionExact(lim: Limit, t0: real, ts: seq<real>, i: nat)
    requires i < |ts|
    ensures Answers(lim, t0, ts)[i] <==> AllWindows(lim, t0, ts, Answers(lim, t0, ts), i, 1.0)
  {
    LevelIsRefill(lim, t0, ts, i);
    LevelIsTightest(lim, t0, ts, Answers(lim, t0, ts), i, 1.0);
  }

  // --------------------------------------------------- any window of time

  /** Admissions among the first `n` requests whose time lies in [s, e]. */
  function Within(ts: seq<real>, a: seq<bool>, n: nat, s: real, e: real): nat
    requires n <= |ts| && |a| == |ts|
  {
    if n == 0 then 0
    else Within(ts, a, n - 1, s, e) + One(a[n - 1] && s <= ts[n - 1] <= e)
  }

  lemma {:induction false} WithinAfter(ts: seq<real>, a: seq<bool>, j: nat, n: nat, s: real, e: real)
    requires j <= n <= |ts| && |a| == |ts|
    requires forall k :: 0 <= k < j ==> ts[k] < s
    ensures Within(ts, a, n, s, e) <= Count(a, j, n)
    decreases n
  {
    if n > j {
      WithinAfter(ts, a, j, n - 1, s, e);
    } else if n > 0 {
      WithinAfter(ts, a, n - 1, n - 1, s, e);
    }
  }

  lemma {:induction false} FirstFrom(ts: seq<real>, n: nat, s: real) returns (j: nat)
    requires n < |ts| && s <= ts[n]
    ensures j <= n && s <= ts[j] && forall k :: 0 <= k < j ==> ts[k] < s
  {
    j := 0;
    while ts[j] < s
      invariant j <= n && forall k :: 0 <= k < j ==> ts[k] < s
      decreases n - j
    {
      j := j + 1;
    }
  }

  lemma ScaleMono(r: real, x: real, y: real)
    requires r >= 0.0 && x <= y
    ensures r * x <= r * y && x * r <= y * r
  {}

  lemma LastInWindow(lim: Limit, t0: real, ts: seq<real>, a: seq<bool>, i: nat, s: real, e: real)
    requires i < |ts| && |a| == |ts| && lim.rate >= 0.0
    requires AllWindows(lim, t0, ts, a, i, 1.0) && s <= ts[i] <= e
    ensures Within(ts, a, i, s, e) as real + 1.0 <= lim.burst as real + lim.rate * (e - s)
  {
    var j := FirstFrom(ts, i, s);
    var room := Room(lim, ts, a, ts[j], j, i);
    assert room >= 1.0;
    var earned := lim.rate * (ts[i] - ts[j]);
    assert room == lim.burst as real + earned - Count(a, j, i) as real;
    assert earned <= lim.rate * (e - s) by {
      ScaleMono(lim.rate, ts[i] - ts[j], e - s);
    }
    assert Within(ts, a, i, s, e) <= Count(a, j, i) by {
      WithinAfter(ts, a, j, i, s, e);
    }
  }

  /** No window of time, wherever it starts and ends, sees more than burst + rate * length admissions. */
  lemma {:induction false} WindowBound(lim: Limit, t0: real, ts: seq<real>, n: nat, s: real, e: real)
    requires n <= |ts| && lim.rate >= 0.0 && s <= e
    ensures var w := Within(ts, Answers(lim, t0, ts), n, s, e);
            w == 0 || w as real <= lim.burst as real + lim.rate * (e - s)
    decreases n
  {
    var a := Answers(lim, t0, ts);
    if n > 0 {
      var i := n - 1;
      if a[i] && s <= ts[i] <= e {
        AdmissionExact(lim, t0, ts, i);
        LastInWindow(lim, t0, ts, a, i, s, e);
      } else {
        WindowBound(lim, t0, ts, i, s, e);
      }
    }
  }

  // ------------------------------------------------------------ optimality

  ghost predicate Conformant(lim: Limit, t0: real, ts: seq<real>, a: seq<bool>)
    requires |a| == |ts|
  {
    forall i :: 0 <= i < |ts| && a[i] ==> AllWindows(lim, t0, ts, a, i, 1.0)
  }

  lemma {:induction false} BucketLeads(lim: Limit, t0: real, ts: seq<real>, a: seq<bool>, i: nat)
    requires i < |ts| && |a| == |ts| && Conformant(lim, t0, ts, a)
    ensures var g := Answers(lim, t0, ts); var lead := Count(g, 0, i) - Count(a, 0, i);
            lead >= 0 && lead as real >= Level(lim, t0, ts, a, i) - Level(lim, t0, ts, g, i)
  {
    var g := Answers(lim, t0, ts);
    if i > 0 {
      BucketLeads(lim, t0, ts, a, i - 1);
      AheadAfter(lim, t0, ts, a, i - 1);
      LeadStep(lim.burst as real, Gains(lim, t0, ts), a, g, i, (Count(g, 0, i) - Count(a, 0, i)) as real);
    }
  }

  lemma AheadAfter(lim: Limit, t0: real, ts: seq<real>, a: seq<bool>, i: nat)
    requires i < |ts| && |a| == |ts| && Conformant(lim, t0, ts, a)
    requires var g := Answers(lim, t0, ts); var lead := Count(g, 0, i) - Count(a, 0, i);
             lead >= 0 && lead as real >= Level(lim, t0, ts, a, i) - Level(lim, t0, ts, g, i)
    ensures var g := Answers(lim, t0, ts); var lead := Count(g, 0, i + 1) - Count(a, 0, i + 1);
            lead >= 0 && lead as real >=
              (Level(lim, t0, ts, a, i) - One(a[i]) as real) - (Level(lim, t0, ts, g, i) - One(g[i]) as real)
  {
    var g := Answers(lim, t0, ts);
    LevelIsRefill(lim, t0, ts, i);
    if a[i] {
      LevelIsTightest(lim, t0, ts, a, i, 1.0);
    }
  }

  /**
   No other way of admitting requests that respects the same windows admits
   more of them, at any point of the run.
   */
  lemma BucketIsMaximal(lim: Limit, t0: real, ts: seq<real>, a: seq<bool>, n: nat)
    requires n <= |ts| && |a| == |ts| && Conformant(lim, t0, ts, a)
    ensures Count(a, 0, n) <= Count(Answers(lim, t0, ts), 0, n)
  {
    if n > 0 {
      BucketLeads(lim, t0, ts, a, n - 1);
      AheadAfter(lim, t0, ts, a, n - 1);
    }
  }
}
