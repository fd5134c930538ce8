/** The fixed-window rate limiter (src/auth/rate-limit.ts). Times are milliseconds. */
module RateLimiter {
  import opened Arith
  import opened Options

  datatype Bucket = Bucket(count: int, resetAt: int)

  datatype Decision =
    | Decided(allowed: bool, limit: int, remaining: int, resetAt: int, retryAfterSeconds: Option<int>)
    | InvalidRequest

  /** The bucket a request at `now` is counted in, before it is counted. */
  function Current(stored: Option<Bucket>, windowSeconds: int, now: int): Bucket {
    if stored.None? || stored.value.resetAt <= now then Bucket(0, now + windowSeconds * 1000) else stored.value
  }

  function Counted(b: Bucket): Bucket {
    b.(count := b.count + 1)
  }

  /** The answer for a bucket that already counts the request. */
  function Answer(b: Bucket, limit: int, now: int): Decision {
    Decided(b.count <= limit, limit, Max(limit - b.count, 0), b.resetAt,
            if b.count > limit then Some(Max(1, CeilDiv(b.resetAt - now, 1000))) else None)
  }

  class RateLimiter {
    var buckets: map<string, Bucket>

    constructor ()
      ensures buckets == map[]
    {
      buckets := map[];
    }

    function Stored(key: string): Option<Bucket>
      reads this
    {
      if key in buckets then Some(buckets[key]) else None
    }

    method Fetch(key: string, limit: int, windowSeconds: int, now: int) returns (decision: Decision)
      modifies this
      ensures key == "" || limit == 0 || windowSeconds == 0 ==>
                decision == InvalidRequest && buckets == old(buckets)
      ensures !(key == "" || limit == 0 || windowSeconds == 0) ==>
                var b := Counted(Current(old(Stored(key)), windowSeconds, now));
                decision == Answer(b, limit, now) && buckets == old(buckets)[key := b]
    {
      if key == "" || limit == 0 || windowSeconds == 0 {
        return InvalidRequest;
      }
      var existing := if key in buckets then buckets[key] else Bucket(0, now + windowSeconds * 1000);
      var bucket := if existing.resetAt <= now then Bucket(0, now + windowSeconds * 1000) else existing;
      bucket := bucket.(count := bucket.count + 1);
      buckets := buckets[key := bucket];
      var remaining := Max(limit - bucket.count, 0);
      var retryAfterSeconds := Max(1, CeilDiv(bucket.resetAt - now, 1000));
      decision := Decided(bucket.count <= limit, limit, remaining, bucket.resetAt,
                          if bucket.count > limit then Some(retryAfterSeconds) else None);
    }
  }

  // ----- histories of one key, whose limit and window never change -----

  /** The limits of a route class; every class of the source has a positive limit and window. */
  datatype Config = Config(limit: int, windowSeconds: int) {
    predicate Valid() {
      limit >= 1 && windowSeconds >= 1
    }

    function WindowMs(): int {
      windowSeconds * 1000
    }
  }

  /** Arrival times of the requests on the key, in order. */
  predicate Monotone(times: seq<int>) {
    forall i, j :: 0 <= i < j < |times| ==> times[i] <= times[j]
  }

  /** The stored bucket after the whole history. */
  function After(c: Config, times: seq<int>): Option<Bucket> {
    if times == [] then None
    else
      var n := |times| - 1;
      Some(Counted(Current(After(c, times[..n]), c.windowSeconds, times[n])))
  }

  /** The answer to the last request of the history. */
  function LastAnswer(c: Config, times: seq<int>): Decision
    requires times != []
  {
    Answer(After(c, times).value, c.limit, times[|times| - 1])
  }

  /** Whether it was let through. */
  predicate LastAllowed(c: Config, times: seq<int>)
    requires times != []
  {
    LastAnswer(c, times).allowed
  }

  /** Requests let through at times in [from, to). */
  function AllowedBetween(c: Config, times: seq<int>, from: int, to: int): nat {
    if times == [] then 0
    else
      var n := |times| - 1;
      AllowedBetween(c, times[..n], from, to)
      + if from <= times[n] < to && LastAllowed(c, times) then 1 else 0
  }

  /** Requests let through in the bucket that resets at resetAt. */
  function AllowedInBucket(c: Config, times: seq<int>, resetAt: int): nat {
    if times == [] then 0
    else
      AllowedInBucket(c, times[..|times| - 1], resetAt)
      + if After(c, times).value.resetAt == resetAt && LastAllowed(c, times) then 1 else 0
  }

  /** Every request falls inside its bucket, which is one window long. */
  lemma {:induction false} BucketHoldsLast(c: Config, times: seq<int>)
    requires c.Valid() && Monotone(times) && times != []
    ensures var b := After(c, times).value;
      b.count >= 1 && b.resetAt - c.WindowMs() <= times[|times| - 1] < b.resetAt
  {
    var n := |times| - 1;
    if n > 0 {
      BucketHoldsLast(c, times[..n]);
    }
  }

  /** No bucket lets more than `limit` requests through. */
  lemma {:induction false} BucketBound(c: Config, times: seq<int>, resetAt: int)
    requires c.Valid() && Monotone(times)
    ensures AllowedInBucket(c, times, resetAt) <= c.limit
    ensures times != [] ==> var b := After(c, times).value;
      && (b.resetAt == resetAt ==> AllowedInBucket(c, times, resetAt) <= b.count)
      && (b.resetAt < resetAt ==> AllowedInBucket(c, times, resetAt) == 0)
  {
    if times != [] {
      var n := |times| - 1;
      BucketBound(c, times[..n], resetAt);
      BucketHoldsLast(c, times);
      if n > 0 {
        BucketHoldsLast(c, times[..n]);
      }
    }
  }

  /**
   The credit a history can have used in [from, to): nothing before `from`; a bucket opened before
   `from` has spent its opening request outside; later buckets open at least a window apart.
  */
  ghost predicate WithinCredit(c: Config, b: Bucket, last: int, from: int, to: int, allowed: nat)
    requires c.Valid()
  {
    var start := b.resetAt - c.WindowMs();
    if last < from then allowed == 0
    else if start < from then allowed <= Min(b.count, c.limit) - 1
    else if start < to then allowed <= c.limit - 1 + c.limit * ((start - from) / c.WindowMs()) + Min(b.count, c.limit)
    else allowed <= c.limit - 1 + c.limit * CeilDiv(to - from, c.WindowMs())
  }

  /** Buckets that open at least a window apart lie in different windows of any grid. */
  lemma WindowsApart(limit: int, w: int, a: int, b: int)
    requires limit >= 1 && w >= 1 && a + w <= b
    ensures limit * (a / w) + limit <= limit * (b / w)
  {
    DivStep(a, w);
    DivMonotone(a + w, b, w);
    MulGap(limit, a / w, b / w);
  }

  lemma CeilOfInside(limit: int, w: int, d: int, x: int)
    requires limit >= 1 && w >= 1 && 0 <= x < d
    ensures limit * (x / w) + limit <= limit * CeilDiv(d, w)
  {
    DivStep(x, w);
    DivMonotone(x + w, d + w - 1, w);
    MulGap(limit, x / w, CeilDiv(d, w));
  }

  /** What one more request does to the credit. */
  lemma CreditStep(c: Config, before: Bucket, last: int, t: int, from: int, to: int, used: nat, after: Bucket)
    requires c.Valid() && from <= to && last <= t
    requires before.count >= 1 && before.resetAt - c.WindowMs() <= last < before.resetAt
    requires after == Counted(Current(Some(before), c.windowSeconds, t))
    requires WithinCredit(c, before, last, from, to, used)
    ensures WithinCredit(c, after, t, from, to, used + if from <= t < to && after.count <= c.limit then 1 else 0)
  {
    var w := c.WindowMs();
    var start := before.resetAt - w;
    MulMonotone(c.limit, 0, CeilDiv(to - from, w));
    if before.resetAt <= t {
      if from <= start < to {
        WindowsApart(c.limit, w, start - from, t - from);
        CeilOfInside(c.limit, w, to - from, start - from);
      }
      if from <= t {
        DivMonotone(0, t - from, w);
        MulMonotone(c.limit, 0, (t - from) / w);
      }
    }
  }

  lemma {:induction false} CreditKept(c: Config, times: seq<int>, from: int, to: int)
    requires c.Valid() && Monotone(times) && times != [] && from <= to
    ensures WithinCredit(c, After(c, times).value, times[|times| - 1], from, to, AllowedBetween(c, times, from, to))
  {
    hide WithinCredit;
    var n := |times| - 1;
    if n > 0 {
      var past := times[..n];
      CreditKept(c, past, from, to);
      BucketHoldsLast(c, past);
      CreditStep(c, After(c, past).value, past[n - 1], times[n], from, to, AllowedBetween(c, past, from, to),
                 After(c, times).value);
    } else {
      FirstCredit(c, times, from, to);
    }
  }

  lemma FirstCredit(c: Config, times: seq<int>, from: int, to: int)
    requires c.Valid() && |times| == 1 && from <= to
    ensures WithinCredit(c, After(c, times).value, times[0], from, to, AllowedBetween(c, times, from, to))
  {
    if from <= times[0] {
      DivMonotone(0, times[0] - from, c.WindowMs());
      MulMonotone(c.limit, 0, (times[0] - from) / c.WindowMs());
    }
    DivMonotone(0, to - from + c.WindowMs() - 1, c.WindowMs());
    MulMonotone(c.limit, 0, CeilDiv(to - from, c.WindowMs()));
  }

  /** Any stretch of time lets at most `limit - 1 + limit * windows` requests through. */
  lemma IntervalBound(c: Config, times: seq<int>, from: int, to: int)
    requires c.Valid() && Monotone(times) && from <= to
    ensures AllowedBetween(c, times, from, to) <= c.limit - 1 + c.limit * CeilDiv(to - from, c.WindowMs())
  {
    MulMonotone(c.limit, 0, CeilDiv(to - from, c.WindowMs()));
    if times != [] {
      CreditKept(c, times, from, to);
      BucketHoldsLast(c, times);
      var start := After(c, times).value.resetAt - c.WindowMs();
      if from <= start < to {
        CeilOfInside(c.limit, c.WindowMs(), to - from, start - from);
      }
    }
  }

  /** One window length lets at most one request less than two limits through. */
  lemma WindowBound(c: Config, times: seq<int>, from: int)
    requires c.Valid() && Monotone(times)
    ensures AllowedBetween(c, times, from, from + 1000 * c.windowSeconds) <= 2 * c.limit - 1
  {
    IntervalBound(c, times, from, from + c.WindowMs());
    DivUnique(c.WindowMs() + c.WindowMs() - 1, c.WindowMs(), 1);
  }

  // ----- the bound is reached -----

  /** One request, the rest of the limit at the end of its window, and a full limit right after. */
  function Burst(c: Config): (times: seq<int>)
    requires c.Valid()
    ensures |times| == 2 * c.limit
  {
    seq(2 * c.limit, i => if i == 0 then 0 else if i < c.limit then c.WindowMs() - 1 else c.WindowMs())
  }

  lemma {:induction false} BurstPrefix(c: Config, n: nat)
    requires c.Valid() && 1 <= n <= 2 * c.limit
    ensures var w, past := c.WindowMs(), Burst(c)[..n];
      && AllowedBetween(c, past, 1, 1 + w) == n - 1
      && After(c, past) == Some(if n <= c.limit then Bucket(n, w) else Bucket(n - c.limit, 2 * w))
  {
    var past := Burst(c)[..n];
    if n > 1 {
      BurstPrefix(c, n - 1);
      assert past[..n - 1] == Burst(c)[..n - 1];
    } else {
      assert past[..0] == [];
    }
  }

  lemma WindowBoundReached(c: Config)
    requires c.Valid()
    ensures Monotone(Burst(c)) && AllowedBetween(c, Burst(c), 1, 1 + c.WindowMs()) == 2 * c.limit - 1
  {
    BurstPrefix(c, 2 * c.limit);
    assert Burst(c)[..2 * c.limit] == Burst(c);
  }

  // ----- waiting -----

  /**
   With no other traffic on the key, a denied caller that waits k seconds is let through exactly when k
   is at least the seconds it was told: never too early, and not a second later than needed.
  */
  lemma RetryAfterIsLeast(c: Config, times: seq<int>, k: nat)
    requires c.Valid() && Monotone(times) && times != [] && !LastAllowed(c, times)
    ensures var now := times[|times| - 1];
      var answer := LastAnswer(c, times);
      && answer.retryAfterSeconds.Some?
      && (LastAllowed(c, times + [now + 1000 * k]) <==> k >= answer.retryAfterSeconds.value)
  {
    var now, b := times[|times| - 1], After(c, times).value;
    BucketHoldsLast(c, times);
    var later := times + [now + 1000 * k];
    assert later[..|times|] == times;
    assert LastAllowed(c, later) <==> b.resetAt <= now + 1000 * k;
  }

  /** The first `limit` requests of a window are let through, and the next one is not. */
  lemma {:induction false} LimitIsReached(c: Config, now: int, n: nat)
    requires c.Valid() && n >= 1
    ensures LastAllowed(c, seq(n, _ => now)) <==> n <= c.limit
    ensures After(c, seq(n, _ => now)) == Some(Bucket(n, now + 1000 * c.windowSeconds))
    ensures AllowedInBucket(c, seq(n, _ => now), now + 1000 * c.windowSeconds) == Min(n, c.limit)
  {
    var times := seq(n, _ => now);
    if n > 1 {
      LimitIsReached(c, now, n - 1);
      assert times[..n - 1] == seq(n - 1, _ => now);
    } else {
      assert times[..0] == [] && After(c, []) == None;
    }
    assert times[n - 1] == now && After(c, times) == Some(Bucket(n, now + 1000 * c.windowSeconds));
  }

  /** A wait is told exactly to those who are not let through. */
  lemma RetryAfterGiven(c: Config, times: seq<int>)
    requires times != []
    ensures LastAnswer(c, times).Decided? && LastAnswer(c, times).limit == c.limit
    ensures LastAnswer(c, times).retryAfterSeconds.Some? <==> !LastAnswer(c, times).allowed
  {
  }

  /** `remaining` is the number of further requests that would be let through at the same instant. */
  lemma {:induction false} RemainingIsExact(c: Config, times: seq<int>, k: nat)
    requires c.Valid() && Monotone(times) && times != [] && k >= 1
    ensures var now := times[|times| - 1];
      && LastAnswer(c, times).remaining >= 0
      && (LastAllowed(c, times + seq(k, _ => now)) <==> k <= LastAnswer(c, times).remaining)
  {
    SameInstant(c, times, k);
  }

  lemma {:induction false} SameInstant(c: Config, times: seq<int>, k: nat)
    requires c.Valid() && Monotone(times) && times != []
    ensures var now, b := times[|times| - 1], After(c, times).value;
      After(c, times + seq(k, _ => now)) == Some(b.(count := b.count + k))
  {
    var now := times[|times| - 1];
    var later := times + seq(k, _ => now);
    BucketHoldsLast(c, times);
    if k == 0 {
      assert later == times;
    } else {
      assert later[..|later| - 1] == times + seq(k - 1, _ => now);
      SameInstant(c, times, k - 1);
    }
  }

  /** The bucket lasts until `resetAt`, which is at most a window away: from then on a request is the first again. */
  lemma ResetAtIsExact(c: Config, times: seq<int>, later: int)
    requires c.Valid() && Monotone(times) && times != [] && times[|times| - 1] <= later
    ensures var now, answer := times[|times| - 1], LastAnswer(c, times);
      && now < answer.resetAt <= now + 1000 * c.windowSeconds
      && (After(c, times + [later]).value.count == 1 <==> later >= answer.resetAt)
  {
    BucketHoldsLast(c, times);
    assert (times + [later])[..|times|] == times;
  }

  // ----- the route classes -----

  datatype RouteClass = StrictRoute | NormalRoute | ExpensiveRoute

  function ConfigOf(r: RouteClass): (c: Config)
    ensures c.Valid()
  {
    match r
    case StrictRoute => Config(10, 60)
    case NormalRoute => Config(120, 60)
    case ExpensiveRoute => Config(20, 300)
  }

  /** In any minute at most 19 strict and 239 normal requests of one key pass, and 39 expensive ones in any five. */
  lemma ClassBounds(times: seq<int>, from: int)
    requires Monotone(times)
    ensures AllowedBetween(ConfigOf(StrictRoute), times, from, from + 60_000) <= 19
    ensures AllowedBetween(ConfigOf(NormalRoute), times, from, from + 60_000) <= 239
    ensures AllowedBetween(ConfigOf(ExpensiveRoute), times, from, from + 300_000) <= 39
  {
    WindowBound(ConfigOf(StrictRoute), times, from);
    WindowBound(ConfigOf(NormalRoute), times, from);
    WindowBound(ConfigOf(ExpensiveRoute), times, from);
  }
}
