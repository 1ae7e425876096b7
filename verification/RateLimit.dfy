/** The rate limiter: a Redis counter per client that expires a window after its first increment.
    Times are in milliseconds. */
module RateLimit {
  import opened Prelude

  datatype Counter = Counter(count: nat, expires: Option<int>)

  datatype Request = Request(key: string, at: int)

  function Get(store: map<string, Counter>, key: string): Option<Counter> {
    if key in store then Some(store[key]) else None
  }

  predicate Gone(c: Option<Counter>, now: int) {
    c.None? || (c.value.expires.Some? && now >= c.value.expires.value)
  }

  /** INCR: a missing or expired key starts again at 1, without an expiry. */
  function Incr(c: Option<Counter>, now: int): Counter {
    if Gone(c, now) then Counter(1, None) else c.value.(count := c.value.count + 1)
  }

  /** What a request does to its counter: increment, and set the expiry on the first increment. */
  function Hit(c: Option<Counter>, now: int, life: int): Counter {
    var n := Incr(c, now);
    if n.count == 1 then n.(expires := Some(now + life)) else n
  }

  function Serve(store: map<string, Counter>, r: Request, life: int): map<string, Counter> {
    store[r.key := Hit(Get(store, r.key), r.at, life)]
  }

  datatype Response = Response(passed: bool, remaining: int, ttl: Option<int>, retryAfter: Option<int>)

  /** The window a Redis EXPIRE is sent for: whole seconds, rounded down, but one second for anything
      between nothing and a second. */
  function Lifetime(window: int): int {
    if 0 < window < 1000 then 1000 else window / 1000 * 1000
  }

  /** That is one second for anything shorter, and otherwise the longest whole number of seconds within the
      window. */
  lemma LifetimeIsWholeSeconds(window: int)
    requires window > 0
    ensures Lifetime(window) % 1000 == 0
    ensures if window < 1000 then Lifetime(window) == 1000 else Lifetime(window) <= window < Lifetime(window) + 1000
  {
  }

  function Max(a: int, b: int): int { if a > b then a else b }

  class Limiter {
    const limit: int
    const window: int    // in milliseconds
    var store: map<string, Counter>

    constructor (limit: int, window: int)
      requires window > 0
      ensures this.limit == limit && this.window == window && store == map[]
    {
      this.limit, this.window, store := limit, window, map[];
    }

    /** One request.  When Redis does not answer the increment, the request goes through uncounted. */
    method Handle(r: Request, redisUp: bool) returns (res: Response)
      modifies this
      ensures store == if redisUp then Serve(old(store), r, Lifetime(window)) else old(store)
      ensures !redisUp ==> res == Response(true, 0, None, None)
      ensures redisUp ==> var c := Hit(Get(old(store), r.key), r.at, Lifetime(window));
        && (res.passed <==> c.count <= limit)
        && res.remaining >= 0 && (res.remaining > 0 ==> res.remaining + c.count == limit)
        && (res.remaining == 0 <==> c.count >= limit)
        && (res.retryAfter.Some? <==> !res.passed)
        && res.ttl == (if c.expires.Some? then Some(c.expires.value - r.at) else None)
        && (res.retryAfter.Some? ==> res.retryAfter.value >= 1)
        // no more than a second too long
        && (res.retryAfter.Some? && c.expires.Some? ==>
             1000 * (res.retryAfter.value - 1) <= Max(0, c.expires.value - r.at))
        // a client that waits as long as it is told to finds its counter gone
        && (res.retryAfter.Some? && c.expires.Some? ==> Gone(Some(c), r.at + 1000 * res.retryAfter.value))
    {
      if !redisUp { return Response(true, 0, None, None); }
      var c := Incr(Get(store, r.key), r.at);
      store := store[r.key := c];
      if c.count == 1 {
        c := c.(expires := Some(r.at + Lifetime(window)));
        store := store[r.key := c];
      }
      var ttl := if c.expires.None? then None else Some(c.expires.value - r.at);
      var remaining := Max(0, limit - c.count);
      if c.count > limit {
        return Response(false, remaining, ttl, Some(if ttl.Some? && ttl.value > 0 then ttl.value / 1000 + 1 else 1));
      }
      res := Response(true, remaining, ttl, None);
    }
  }

  // ---- runs ----

  function StoreAfter(run: seq<Request>, life: int): map<string, Counter> {
    if run == [] then map[] else Serve(StoreAfter(run[..|run| - 1], life), run[|run| - 1], life)
  }

  function CounterOf(run: seq<Request>, key: string, life: int): Option<Counter> {
    Get(StoreAfter(run, life), key)
  }

  /** Whether the last request of a run passes. */
  predicate LastPasses(run: seq<Request>, limit: nat, life: int)
    requires run != []
  {
    Hit(CounterOf(run[..|run| - 1], run[|run| - 1].key, life), run[|run| - 1].at, life).count <= limit
  }

  predicate InOrder(run: seq<Request>) {
    forall i, j :: 0 <= i < j < |run| ==> run[i].at <= run[j].at
  }

  /** How many requests of a client pass in the half-open interval [from, from + span). */
  function PassesWithin(run: seq<Request>, key: string, limit: nat, life: int, span: int, from: int): nat {
    if run == [] then 0
    else
      var r := run[|run| - 1];
      PassesWithin(run[..|run| - 1], key, limit, life, span, from)
      + if r.key == key && from <= r.at < from + span && LastPasses(run, limit, life) then 1 else 0
  }

  /** How many requests of a client have passed since its current counter started. */
  function PassesInLifetime(run: seq<Request>, key: string, limit: nat, life: int): nat {
    if run == [] then 0
    else
      var r := run[|run| - 1];
      var before := run[..|run| - 1];
      if r.key != key then PassesInLifetime(before, key, limit, life)
      else
        (if Gone(CounterOf(before, key, life), r.at) then 0 else PassesInLifetime(before, key, limit, life))
        + if LastPasses(run, limit, life) then 1 else 0
  }

  /** The times of a client's requests since its counter last started: a request that comes a life or more
      after the first of them starts anew. */
  function Since(run: seq<Request>, key: string, life: int): seq<int> {
    if run == [] then []
    else
      var r, w := run[|run| - 1], Since(run[..|run| - 1], key, life);
      if r.key != key then w else if w == [] || r.at >= w[0] + life then [r.at] else w + [r.at]
  }

  /** The stored counter of a client counts exactly those requests and expires a life after the first; so
      a request passes exactly when it is one of the first limit of them, whatever other clients do. */
  lemma {:induction false} CountsOwnRequests(run: seq<Request>, key: string, life: int)
    requires life > 0
    ensures var w, c := Since(run, key, life), CounterOf(run, key, life);
      && (c == if w == [] then None else Some(Counter(|w|, Some(w[0] + life))))
      && (run != [] && run[|run| - 1].key == key ==> forall limit :: LastPasses(run, limit, life) <==> |w| <= limit)
  {
    if run != [] {
      CountsOwnRequests(run[..|run| - 1], key, life);
    }
  }

  function Min(a: nat, b: nat): nat { if a < b then a else b }

  /** In each counter lifetime exactly the first limit requests pass. */
  lemma {:induction false} LifetimeBound(run: seq<Request>, key: string, limit: nat, life: int)
    ensures var c := CounterOf(run, key, life);
      PassesInLifetime(run, key, limit, life) == if c.None? then 0 else Min(c.value.count, limit)
  {
    if run != [] {
      LifetimeBound(run[..|run| - 1], key, limit, life);
    }
  }

  /** The passes of one client inside a life, split at the start of the current counter. */
  datatype Tally = Tally(earlier: nat, current: nat)

  function Split(run: seq<Request>, key: string, limit: nat, life: int, from: int): Tally {
    if run == [] then Tally(0, 0)
    else
      var r := run[|run| - 1];
      var before := run[..|run| - 1];
      var t := Split(before, key, limit, life, from);
      if r.key != key then t
      else
        var one := if from <= r.at < from + life && LastPasses(run, limit, life) then 1 else 0;
        if Gone(CounterOf(before, key, life), r.at) then Tally(t.earlier + t.current, one)
        else Tally(t.earlier, t.current + one)
  }

  lemma {:induction false} SplitAddsUp(run: seq<Request>, key: string, limit: nat, life: int, from: int)
    ensures var t := Split(run, key, limit, life, from);
      t.earlier + t.current == PassesWithin(run, key, limit, life, life, from)
  {
    if run != [] {
      SplitAddsUp(run[..|run| - 1], key, limit, life, from);
    }
  }

  /** What is known about a counter and the passes in a life [from, from + life) when the
      client's last request came at last. */
  predicate Fits(c: Option<Counter>, t: Tally, last: int, limit: nat, life: int, from: int) {
    match c
    case None => t == Tally(0, 0)
    case Some(n) =>
      && n.count >= 1 && n.expires.Some?
      && var start := n.expires.value - life;
      && start <= last
      && (last < from ==> t == Tally(0, 0))
      && t.current <= Min(n.count, limit)
      && (start < from ==> t.earlier == 0 && t.current <= Min(n.count, limit) - 1)
      && (from <= start < from + life ==> t.earlier <= limit - 1)
      && (start >= from + life ==> t.current == 0 && t.earlier <= 2 * limit - 1)
  }

  lemma FitsStep(c: Option<Counter>, t: Tally, last: int, now: int, limit: nat, life: int, from: int)
    requires limit >= 1 && life > 0 && last <= now
    requires Fits(c, t, last, limit, life, from)
    ensures var c2 := Hit(c, now, life);
      var one := if from <= now < from + life && c2.count <= limit then 1 else 0;
      Fits(Some(c2), if Gone(c, now) then Tally(t.earlier + t.current, one) else Tally(t.earlier, t.current + one),
           now, limit, life, from)
  {
  }

  lemma {:induction false} RunFits(run: seq<Request>, key: string, limit: nat, life: int, from: int) returns (last: int)
    requires InOrder(run) && limit >= 1 && life > 0
    ensures Fits(CounterOf(run, key, life), Split(run, key, limit, life, from), last, limit, life, from)
    ensures run != [] ==> last <= run[|run| - 1].at
  {
    last := 0;
    if run != [] {
      var n := |run| - 1;
      var before := run[..n];
      last := RunFits(before, key, limit, life, from);
      if n > 0 { assert before[n - 1] == run[n - 1] && run[n - 1].at <= run[n].at; }
      if run[n].key == key {
        if n == 0 { last := run[n].at; }
        FitsStep(CounterOf(before, key, life), Split(before, key, limit, life, from), last, run[n].at, limit, life,
          from);
        last := run[n].at;
      } else if n == 0 {
        last := run[n].at;
      }
    }
  }

  /** With Redis answering and limit >= 1, at most 2 * limit - 1 requests of a client pass in any
      half-open interval as long as a counter lives. */
  lemma LifetimeRateBound(run: seq<Request>, key: string, limit: nat, life: int, from: int)
    requires InOrder(run) && limit >= 1 && life > 0
    ensures PassesWithin(run, key, limit, life, life, from) <= 2 * limit - 1
  {
    var last := RunFits(run, key, limit, life, from);
    SplitAddsUp(run, key, limit, life, from);
  }

  lemma {:induction false} LongerSpansPassMore(run: seq<Request>, key: string, limit: nat, life: int, span: int,
        longer: int, from: int)
    requires span <= longer
    ensures PassesWithin(run, key, limit, life, span, from) <= PassesWithin(run, key, limit, life, longer, from)
  {
    if run != [] { LongerSpansPassMore(run[..|run| - 1], key, limit, life, span, longer, from); }
  }

  /** Rate bound.  For a window that is sent unshortened, at most 2 * limit - 1 requests of a client pass
      in any half-open interval as long as the window. */
  lemma RateBound(run: seq<Request>, key: string, limit: nat, window: int, from: int)
    requires InOrder(run) && limit >= 1 && 0 < window <= Lifetime(window)
    ensures PassesWithin(run, key, limit, Lifetime(window), window, from) <= 2 * limit - 1
  {
    LifetimeRateBound(run, key, limit, Lifetime(window), from);
    LongerSpansPassMore(run, key, limit, Lifetime(window), window, Lifetime(window), from);
  }

  // ---- when the bound holds, and that it is reached ----

  lemma AppendRequest(run: seq<Request>, r: Request, limit: nat, life: int, span: int, from: int)
    ensures var all := run + [r]; var c := CounterOf(run, r.key, life);
      && CounterOf(all, r.key, life) == Some(Hit(c, r.at, life))
      && PassesWithin(all, r.key, limit, life, span, from) == PassesWithin(run, r.key, limit, life, span, from)
         + if from <= r.at < from + span && Hit(c, r.at, life).count <= limit then 1 else 0
  {
    var all := run + [r];
    assert all[..|all| - 1] == run && all[|all| - 1] == r;
  }

  function Burst(run: seq<Request>, key: string, at: int, n: nat): (all: seq<Request>)
    ensures |all| == |run| + n
  {
    if n == 0 then run else Burst(run, key, at, n - 1) + [Request(key, at)]
  }

  lemma {:induction false} BurstPasses(run: seq<Request>, key: string, at: int, n: nat, limit: nat, life: int,
        span: int, from: int)
    requires CounterOf(run, key, life).Some? && !Gone(CounterOf(run, key, life), at)
    requires CounterOf(run, key, life).value.count >= 1
    requires CounterOf(run, key, life).value.count + n <= limit
    ensures var all := Burst(run, key, at, n); var c := CounterOf(run, key, life).value;
      && CounterOf(all, key, life) == Some(c.(count := c.count + n))
      && PassesWithin(all, key, limit, life, span, from) == PassesWithin(run, key, limit, life, span, from)
         + if from <= at < from + span then n else 0
  {
    hide CounterOf;
    hide PassesWithin;
    if n > 0 {
      BurstPasses(run, key, at, n - 1, limit, life, span, from);
      AppendRequest(Burst(run, key, at, n - 1), Request(key, at), limit, life, span, from);
    }
  }

  lemma InOrderAppend(run: seq<Request>, r: Request)
    requires InOrder(run) && (run != [] ==> run[|run| - 1].at <= r.at)
    ensures InOrder(run + [r]) && (run + [r])[|run + [r]| - 1] == r
  {
    var all := run + [r];
    forall i, j | 0 <= i < j < |all| ensures all[i].at <= all[j].at {
      assert i < |run| - 1 ==> run[i].at <= run[|run| - 1].at;
    }
  }

  lemma {:induction false} BurstInOrder(run: seq<Request>, key: string, at: int, n: nat)
    requires InOrder(run) && run != [] && run[|run| - 1].at <= at
    ensures var all := Burst(run, key, at, n); InOrder(all) && all != [] && all[|all| - 1].at <= at
  {
    if n > 0 {
      BurstInOrder(run, key, at, n - 1);
      InOrderAppend(Burst(run, key, at, n - 1), Request(key, at));
    }
  }

  /** What is known of a client's counter and passes at the end of a run. */
  ghost predicate At(run: seq<Request>, key: string, limit: nat, life: int, span: int, from: int, c: Option<Counter>,
                     passes: nat, last: int) {
    && InOrder(run) && (run != [] ==> run[|run| - 1].at <= last)
    && CounterOf(run, key, life) == c && PassesWithin(run, key, limit, life, span, from) == passes
  }

  /** A request that finds no counter any more. */
  lemma StartsCounter(run: seq<Request>, key: string, limit: nat, life: int, span: int, from: int, c: Option<Counter>,
                      passes: nat, last: int, at: int) returns (all: seq<Request>)
    requires At(run, key, limit, life, span, from, c, passes, last) && Gone(c, at) && last <= at
    requires 1 <= limit
    ensures At(all, key, limit, life, span, from, Some(Counter(1, Some(at + life))),
               if from <= at < from + span then passes + 1 else passes, at) && all != []
  {
    all := run + [Request(key, at)];
    AppendRequest(run, Request(key, at), limit, life, span, from);
    InOrderAppend(run, Request(key, at));
    hide CounterOf;
    hide PassesWithin;
    hide InOrder;
  }

  /** More requests at once while the counter lives. */
  lemma MoreAtOnce(run: seq<Request>, key: string, limit: nat, life: int, span: int, from: int, c: Counter,
                   passes: nat, last: int, at: int, n: nat) returns (all: seq<Request>)
    requires At(run, key, limit, life, span, from, Some(c), passes, last) && run != []
    requires last <= at && !Gone(Some(c), at) && 1 <= c.count && c.count + n <= limit
    ensures At(all, key, limit, life, span, from, Some(c.(count := c.count + n)),
               if from <= at < from + span then passes + n else passes, at)
  {
    hide CounterOf;
    hide PassesWithin;
    hide InOrder;
    BurstInOrder(run, key, at, n);
    BurstPasses(run, key, at, n, limit, life, span, from);
    all := Burst(run, key, at, n);
  }

  /** n requests at once, the first of which finds no counter any more. */
  lemma NewCounter(run: seq<Request>, key: string, limit: nat, life: int, span: int, from: int, c: Option<Counter>,
                   passes: nat, last: int, at: int, n: nat) returns (all: seq<Request>)
    requires At(run, key, limit, life, span, from, c, passes, last) && Gone(c, at) && last <= at
    requires 1 <= n <= limit && life > 0
    ensures At(all, key, limit, life, span, from, Some(Counter(n, Some(at + life))),
               if from <= at < from + span then passes + n else passes, at)
  {
    hide At;
    var one := StartsCounter(run, key, limit, life, span, from, c, passes, last, at);
    all := MoreAtOnce(one, key, limit, life, span, from, Counter(1, Some(at + life)),
                      if from <= at < from + span then passes + 1 else passes, at, at, n - 1);
  }

  lemma Nothing(key: string, limit: nat, life: int, span: int, from: int, last: int)
    ensures At([], key, limit, life, span, from, None, 0, last)
  {
  }

  /** The bound is exact for every limit and window: one request, the rest of the limit just before the
      counter expires, and a full limit right after. */
  lemma RateBoundIsReached(key: string, limit: nat, window: int) returns (run: seq<Request>, from: int)
    requires limit >= 1 && window >= 2 && window <= Lifetime(window)
    ensures InOrder(run) && PassesWithin(run, key, limit, Lifetime(window), window, from) == 2 * limit - 1
  {
    var life := Lifetime(window);
    from := life - 1;
    Nothing(key, limit, life, window, from, 0);
    var one := StartsCounter([], key, limit, life, window, from, None, 0, 0, 0);
    var full := MoreAtOnce(one, key, limit, life, window, from, Counter(1, Some(life)), 0, 0, life - 1, limit - 1);
    run := NewCounter(full, key, limit, life, window, from, Some(Counter(limit, Some(life))), limit - 1, life - 1,
      life, limit);
  }

  /** A window that loses its fraction of a second breaks the bound: a full limit at once, and another
      when the shortened counter has expired, all within the window. */
  lemma ShortenedWindowPassesMore(key: string, limit: nat, window: int) returns (run: seq<Request>)
    requires limit >= 1 && 0 < Lifetime(window) < window
    ensures InOrder(run) && PassesWithin(run, key, limit, Lifetime(window), window, 0) == 2 * limit
  {
    var life := Lifetime(window);
    Nothing(key, limit, life, window, 0, 0);
    var full := NewCounter([], key, limit, life, window, 0, None, 0, 0, 0, limit);
    run := NewCounter(full, key, limit, life, window, 0, Some(Counter(limit, Some(life))), limit, 0, life, limit);
  }

  /** The bound of 2 * limit - 1 holds for intervals of the window's length exactly when the window is a
      whole number of seconds or shorter than one. */
  lemma RateBoundExactlyWhen(key: string, limit: nat, window: int)
    requires limit >= 1 && window > 0
    ensures (forall run, from :: InOrder(run) ==>
      PassesWithin(run, key, limit, Lifetime(window), window, from) <= 2 * limit - 1)
      <==> window < 1000 || window % 1000 == 0
  {
    if window < 1000 || window % 1000 == 0 {
      forall run, from | InOrder(run)
        ensures PassesWithin(run, key, limit, Lifetime(window), window, from) <= 2 * limit - 1
      {
        RateBound(run, key, limit, window, from);
      }
    } else {
      var run := ShortenedWindowPassesMore(key, limit, window);
    }
  }
}
