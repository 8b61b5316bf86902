/**
  The token-bucket rate limiter (internal/api/ratelimit.go), with time in
  seconds and tokens as reals. A request reads the clock once for the periodic
  eviction of idle buckets and once for its own bucket.
  */
module RateLimiter {

  const CLEAN_EVERY := 300.0
  const IDLE := 600.0

  datatype Bucket = Bucket(tokens: real, last: real)

  datatype Config = Config(rate: real, burst: int)

  datatype Limiter = Limiter(buckets: map<string, Bucket>, lastClean: real)

  datatype Request = Request(ip: string, cleanAt: real, now: real)

  // ---------- One request ----------

  function Cleaned(l: Limiter, now: real): Limiter {
    if now - l.lastClean > CLEAN_EVERY then
      Limiter(map ip | ip in l.buckets && !(now - l.buckets[ip].last > IDLE) :: l.buckets[ip], now)
    else l
  }

  function Refilled(c: Config, b: Bucket, now: real): Bucket {
    var tokens := b.tokens + (now - b.last) * c.rate;
    Bucket(if tokens > c.burst as real then c.burst as real else tokens, now)
  }

  /** The bucket of ip as the request finds it, refilled. */
  function Found(c: Config, l: Limiter, ip: string, now: real): Bucket {
    Refilled(c, if ip in l.buckets then l.buckets[ip] else Bucket(c.burst as real, now), now)
  }

  function Taken(b: Bucket): Bucket {
    if b.tokens < 1.0 then b else b.(tokens := b.tokens - 1.0)
  }

  function Before(l: Limiter, r: Request, evicting: bool): Limiter {
    if evicting then Cleaned(l, r.cleanAt) else l
  }

  predicate Admits(c: Config, l: Limiter, r: Request, evicting: bool) {
    Found(c, Before(l, r, evicting), r.ip, r.now).tokens >= 1.0
  }

  function After(c: Config, l: Limiter, r: Request, evicting: bool): Limiter {
    var l' := Before(l, r, evicting);
    l'.(buckets := l'.buckets[r.ip := Taken(Found(c, l', r.ip, r.now))])
  }

  class Limits {
    const config: Config
    var buckets: map<string, Bucket>
    var lastClean: real

    ghost function Current(): Limiter
      reads this
    {
      Limiter(buckets, lastClean)
    }

    constructor (rate: real, burst: int, now: real)
      ensures config == Config(rate, burst) && Current() == Fresh(now)
    {
      config := Config(rate, burst);
      buckets := map[];
      lastClean := now;
    }

    method Allow(r: Request) returns (allowed: bool)
      modifies this
      ensures allowed == Admits(config, old(Current()), r, true)
      ensures Current() == After(config, old(Current()), r, true)
    {
      hide Cleaned;
      CleanIfDue(r.cleanAt);
      ghost var cleaned := Current();
      if r.ip !in buckets {
        buckets := buckets[r.ip := Bucket(config.burst as real, r.now)];
      }
      var b := buckets[r.ip];
      var elapsed := r.now - b.last;
      b := b.(tokens := b.tokens + elapsed * config.rate);
      if b.tokens > config.burst as real {
        b := b.(tokens := config.burst as real);
      }
      b := b.(last := r.now);
      assert b == Found(config, cleaned, r.ip, r.now);
      allowed := b.tokens >= 1.0;
      if allowed {
        b := b.(tokens := b.tokens - 1.0);
      }
      buckets := buckets[r.ip := b];
      assert buckets == cleaned.buckets[r.ip := b];
    }

    method CleanIfDue(now: real)
      modifies this
      ensures Current() == Cleaned(old(Current()), now)
    {
      if now - lastClean > CLEAN_EVERY {
        EvictIdle(now);
        lastClean := now;
      }
    }

    method EvictIdle(now: real)
      modifies this`buckets
      ensures buckets == map ip | ip in old(buckets) && !(now - old(buckets)[ip].last > IDLE) :: old(buckets)[ip]
    {
      var todo := buckets.Keys;
      while todo != {}
        invariant todo <= buckets.Keys <= old(buckets.Keys)
        invariant forall ip | ip in old(buckets) ::
                    ip in buckets <==> ip in todo || !(now - old(buckets)[ip].last > IDLE)
        invariant forall ip | ip in buckets :: buckets[ip] == old(buckets)[ip]
        decreases todo
      {
        var ip :| ip in todo;
        todo := todo - {ip};
        if now - buckets[ip].last > IDLE {
          buckets := buckets - {ip};
        }
      }
    }
  }

  // ---------- Runs ----------

  function Fresh(now: real): Limiter {
    Limiter(map[], now)
  }

  function Run(c: Config, l: Limiter, rs: seq<Request>, evicting: bool): Limiter
    decreases |rs|
  {
    if |rs| == 0 then l else After(c, Run(c, l, rs[..|rs| - 1], evicting), rs[|rs| - 1], evicting)
  }

  /** The decision on request i of a run that starts with no buckets. */
  predicate Decision(c: Config, start: real, rs: seq<Request>, evicting: bool, i: nat)
    requires i < |rs|
  {
    Admits(c, Run(c, Fresh(start), rs[..i], evicting), rs[i], evicting)
  }

  /** The clock does not go back. */
  ghost predicate Timed(start: real, rs: seq<Request>) {
    && (forall i | 0 <= i < |rs| :: start <= rs[i].cleanAt <= rs[i].now)
    && (forall i, j | 0 <= i < j < |rs| :: rs[i].now <= rs[j].cleanAt)
  }

  function End(start: real, rs: seq<Request>): real {
    if rs == [] then start else rs[|rs| - 1].now
  }

  lemma TimedPrefix(start: real, rs: seq<Request>)
    requires Timed(start, rs) && rs != []
    ensures Timed(start, rs[..|rs| - 1]) && End(start, rs[..|rs| - 1]) <= rs[|rs| - 1].cleanAt <= rs[|rs| - 1].now
  {}

  // ---------- A bucket never overflows ----------

  ghost predicate Capped(c: Config, l: Limiter, now: real) {
    forall ip | ip in l.buckets :: Level(c, l.buckets[ip], now)
  }

  ghost predicate Level(c: Config, b: Bucket, now: real) {
    && b.last <= now && b.tokens <= c.burst as real
    && (c.rate >= 0.0 && c.burst >= 0 ==> b.tokens >= 0.0)
  }

  lemma RefillKeepsLevel(c: Config, b: Bucket, now: real)
    requires Level(c, b, now)
    ensures Level(c, Refilled(c, b, now), now) && Level(c, Taken(Refilled(c, b, now)), now)
  {
    if c.rate >= 0.0 {
      assert (now - b.last) * c.rate >= 0.0;
    }
  }

  lemma AfterKeepsCapped(c: Config, l: Limiter, r: Request, evicting: bool, before: real)
    requires Capped(c, l, before) && before <= r.now
    ensures Capped(c, After(c, l, r, evicting), r.now)
    ensures Level(c, Found(c, Before(l, r, evicting), r.ip, r.now), r.now)
  {
    hide Refilled, Taken;
    var l' := Before(l, r, evicting);
    RefillKeepsLevel(c, if r.ip in l'.buckets then l'.buckets[r.ip] else Bucket(c.burst as real, r.now), r.now);
  }

  lemma {:induction false} RunKeepsCapped(c: Config, start: real, rs: seq<Request>, evicting: bool)
    requires Timed(start, rs)
    ensures Capped(c, Run(c, Fresh(start), rs, evicting), End(start, rs))
    decreases |rs|
  {
    hide After, Capped;
    if |rs| > 0 {
      TimedPrefix(start, rs);
      RunKeepsCapped(c, start, rs[..|rs| - 1], evicting);
      AfterKeepsCapped(
        c, Run(c, Fresh(start), rs[..|rs| - 1], evicting), rs[|rs| - 1], evicting, End(start, rs[..|rs| - 1]));
    } else {
      FreshIsCapped(c, start);
    }
  }

  lemma FreshIsCapped(c: Config, start: real)
    ensures Capped(c, Fresh(start), start)
  {}

  // ---------- Eviction does not show ----------

  /** A limiter that evicts has the same buckets, but for some that would be full by now. */
  ghost predicate Shadows(c: Config, evicting: Limiter, keeping: Limiter, now: real) {
    && evicting.buckets.Keys <= keeping.buckets.Keys
    && (forall ip | ip in evicting.buckets :: evicting.buckets[ip] == keeping.buckets[ip])
    && (forall ip | ip in keeping.buckets && ip !in evicting.buckets :: now - keeping.buckets[ip].last >= IDLE)
  }

  lemma IdleMeansFull(c: Config, b: Bucket, now: real)
    requires Level(c, b, now) && now - b.last >= IDLE && c.burst >= 1 && c.rate * IDLE >= c.burst as real
    ensures Refilled(c, b, now) == Refilled(c, Bucket(c.burst as real, now), now)
  {
    assert c.rate > 0.0;
    assert (now - b.last - IDLE) * c.rate >= 0.0;
    assert b.tokens + (now - b.last) * c.rate >= c.burst as real;
    assert (now - now) * c.rate == 0.0;
  }

  lemma StepKeepsShadows(c: Config, e: Limiter, k: Limiter, r: Request, before: real)
    requires Shadows(c, e, k, before) && Capped(c, k, before) && before <= r.cleanAt <= r.now
    requires c.burst >= 1 && c.rate * IDLE >= c.burst as real
    ensures Admits(c, e, r, true) == Admits(c, k, r, false)
    ensures Shadows(c, After(c, e, r, true), After(c, k, r, false), r.now)
  {
    hide Refilled, Taken, Level;
    var e' := Before(e, r, true);
    assert Shadows(c, e', k, r.now);
    if r.ip in k.buckets && r.ip !in e'.buckets {
      LaterLevel(c, k.buckets[r.ip], before, r.now);
      IdleMeansFull(c, k.buckets[r.ip], r.now);
    }
  }

  lemma LaterLevel(c: Config, b: Bucket, before: real, now: real)
    requires Level(c, b, before) && before <= now
    ensures Level(c, b, now)
  {}

  lemma {:induction false} RunKeepsShadows(c: Config, start: real, rs: seq<Request>)
    requires Timed(start, rs) && c.burst >= 1 && c.rate * IDLE >= c.burst as real
    ensures Shadows(c, Run(c, Fresh(start), rs, true), Run(c, Fresh(start), rs, false), End(start, rs))
    decreases |rs|
  {
    hide After, Shadows, Capped, Admits;
    if |rs| > 0 {
      var earlier := rs[..|rs| - 1];
      TimedPrefix(start, rs);
      RunKeepsShadows(c, start, earlier);
      RunKeepsCapped(c, start, earlier, false);
      StepKeepsShadows(
        c, Run(c, Fresh(start), earlier, true), Run(c, Fresh(start), earlier, false), rs[|rs| - 1],
        End(start, earlier));
    } else {
      FreshShadows(c, start);
    }
  }

  lemma FreshShadows(c: Config, start: real)
    ensures Shadows(c, Fresh(start), Fresh(start), start)
  {}

  lemma SmallBurstAdmitsNothing(c: Config, start: real, rs: seq<Request>, evicting: bool, i: nat)
    requires Timed(start, rs) && i < |rs| && c.burst < 1
    ensures !Decision(c, start, rs, evicting, i)
  {
    hide Run, Found;
    PrefixTimed(start, rs, i);
    RunKeepsCapped(c, start, rs[..i], evicting);
    AfterKeepsCapped(c, Run(c, Fresh(start), rs[..i], evicting), rs[i], evicting, End(start, rs[..i]));
  }

  lemma PrefixTimed(start: real, rs: seq<Request>, i: nat)
    requires Timed(start, rs) && i < |rs|
    ensures Timed(start, rs[..i]) && End(start, rs[..i]) <= rs[i].cleanAt <= rs[i].now
  {}

  /** The decisions are those of a limiter that never evicts, if a bucket refills within the idle time. */
  lemma EvictionIsInvisible(c: Config, start: real, rs: seq<Request>, i: nat)
    requires Timed(start, rs) && i < |rs| && c.rate * IDLE >= c.burst as real
    ensures Decision(c, start, rs, true, i) == Decision(c, start, rs, false, i)
  {
    hide Run, Admits, Shadows, Capped;
    if c.burst < 1 {
      SmallBurstAdmitsNothing(c, start, rs, true, i);
      SmallBurstAdmitsNothing(c, start, rs, false, i);
    } else {
      PrefixTimed(start, rs, i);
      RunKeepsShadows(c, start, rs[..i]);
      RunKeepsCapped(c, start, rs[..i], false);
      StepKeepsShadows(
        c, Run(c, Fresh(start), rs[..i], true), Run(c, Fresh(start), rs[..i], false), rs[i], End(start, rs[..i]));
    }
  }

  // ---------- The window bound ----------

  predicate InWindow(r: Request, ip: string, s: real, t: real) {
    r.ip == ip && s <= r.now <= t
  }

  /** How many requests of ip the run admits in the window [s, t]. */
  function Admitted(c: Config, start: real, rs: seq<Request>, evicting: bool, ip: string, s: real, t: real): nat
    decreases |rs|
  {
    if |rs| == 0 then 0
    else
      var n := |rs| - 1;
      Admitted(c, start, rs[..n], evicting, ip, s, t) +
      if InWindow(rs[n], ip, s, t) && Decision(c, start, rs, evicting, n) then 1 else 0
  }

  function Bound(c: Config, s: real, t: real): real {
    (if c.burst > 0 then c.burst as real else 0.0) + c.rate * (t - s)
  }

  /** Admissions so far plus tokens left never exceed what the window has supplied. */
  ghost predicate Paid(c: Config, l: Limiter, count: nat, ip: string, s: real, t: real) {
    && (count > 0 ==> ip in l.buckets && l.buckets[ip].last >= s)
    && count as real <= Bound(c, s, t)
    && (ip in l.buckets && s <= l.buckets[ip].last <= t ==>
          count as real + l.buckets[ip].tokens <= Bound(c, s, l.buckets[ip].last))
  }

  lemma BoundGrows(c: Config, s: real, t: real, u: real)
    requires c.rate >= 0.0 && t <= u
    ensures Bound(c, s, t) + c.rate * (u - t) == Bound(c, s, u) && Bound(c, s, t) <= Bound(c, s, u)
  {
    assert c.rate * (u - t) >= 0.0;
    assert c.rate * (t - s) + c.rate * (u - t) == c.rate * (u - s);
  }

  lemma RefillIsPaid(c: Config, b: Bucket, now: real, count: nat, s: real)
    requires c.rate >= 0.0 && b.last <= now && count as real + b.tokens <= Bound(c, s, b.last)
    ensures count as real + Refilled(c, b, now).tokens <= Bound(c, s, now)
  {
    hide Bound;
    BoundGrows(c, s, b.last, now);
    assert (now - b.last) * c.rate == c.rate * (now - b.last);
  }

  lemma FirstIsPaid(c: Config, tokens: real, s: real, now: real)
    requires c.rate >= 0.0 && c.burst >= 1 && s <= now && tokens <= c.burst as real
    ensures tokens <= Bound(c, s, now)
  {
    BoundGrows(c, s, s, now);
  }

  lemma StepKeepsPaid(c: Config, l: Limiter, r: Request, count: nat, ip: string, s: real, t: real, before: real)
    requires Paid(c, l, count, ip, s, t) && Capped(c, l, before) && before <= r.now
    requires c.rate >= 0.0 && c.burst >= 1 && s <= t
    ensures var more := if InWindow(r, ip, s, t) && Admits(c, l, r, false) then count + 1 else count;
            Paid(c, After(c, l, r, false), more, ip, s, t)
  {
    hide Bound, Refilled;
    var found := Found(c, l, r.ip, r.now);
    AfterKeepsCapped(c, l, r, false, before);
    RefilledNow(c, if r.ip in l.buckets then l.buckets[r.ip] else Bucket(c.burst as real, r.now), r.now);
    if InWindow(r, ip, s, t) {
      if count == 0 {
        FirstIsPaid(c, found.tokens, s, r.now);
      } else {
        RefillIsPaid(c, l.buckets[ip], r.now, count, s);
      }
      assert count as real + found.tokens <= Bound(c, s, r.now);
      BoundGrows(c, s, r.now, t);
    }
  }

  lemma RefilledNow(c: Config, b: Bucket, now: real)
    ensures Refilled(c, b, now).last == now
  {}

  lemma {:induction false} RunIsPaid(
    c: Config, start: real, rs: seq<Request>, ip: string, s: real, t: real)
    requires Timed(start, rs) && c.rate >= 0.0 && c.burst >= 1 && s <= t
    ensures Paid(c, Run(c, Fresh(start), rs, false), Admitted(c, start, rs, false, ip, s, t), ip, s, t)
    decreases |rs|
  {
    hide After, Paid, Capped, Admits;
    if |rs| > 0 {
      var earlier, r := rs[..|rs| - 1], rs[|rs| - 1];
      var l, count := Run(c, Fresh(start), earlier, false), Admitted(c, start, earlier, false, ip, s, t);
      TimedPrefix(start, rs);
      RunIsPaid(c, start, earlier, ip, s, t);
      RunKeepsCapped(c, start, earlier, false);
      StepKeepsPaid(c, l, r, count, ip, s, t, End(start, earlier));
    } else {
      FreshIsPaid(c, start, ip, s, t);
    }
  }

  lemma FreshIsPaid(c: Config, start: real, ip: string, s: real, t: real)
    requires c.rate >= 0.0 && s <= t
    ensures Paid(c, Fresh(start), 0, ip, s, t)
  {
    BoundGrows(c, s, s, t);
  }

  lemma PaidBound(c: Config, l: Limiter, count: nat, ip: string, s: real, t: real)
    requires Paid(c, l, count, ip, s, t)
    ensures count as real <= Bound(c, s, t)
  {}

  lemma {:induction false} SameAdmitted(c: Config, start: real, rs: seq<Request>, ip: string, s: real, t: real)
    requires Timed(start, rs) && EvictionHidden(c)
    ensures Admitted(c, start, rs, true, ip, s, t) == Admitted(c, start, rs, false, ip, s, t)
    decreases |rs|
  {
    hide Decision;
    if |rs| > 0 {
      TimedPrefix(start, rs);
      SameAdmitted(c, start, rs[..|rs| - 1], ip, s, t);
      assert Decision(c, start, rs, true, |rs| - 1) == Decision(c, start, rs, false, |rs| - 1);
    }
  }

  lemma {:induction false} SmallBurstCountsNothing(
    c: Config, start: real, rs: seq<Request>, evicting: bool, ip: string, s: real, t: real)
    requires Timed(start, rs) && c.burst < 1
    ensures Admitted(c, start, rs, evicting, ip, s, t) == 0
    decreases |rs|
  {
    hide Decision;
    if |rs| > 0 {
      TimedPrefix(start, rs);
      SmallBurstCountsNothing(c, start, rs[..|rs| - 1], evicting, ip, s, t);
      SmallBurstAdmitsNothing(c, start, rs, evicting, |rs| - 1);
    }
  }

  /** A limiter that never evicts admits at most burst + rate * (t - s) requests of one IP in [s, t]. */
  lemma WindowBoundWithoutEviction(c: Config, start: real, rs: seq<Request>, ip: string, s: real, t: real)
    requires Timed(start, rs) && c.rate >= 0.0 && s <= t
    ensures Admitted(c, start, rs, false, ip, s, t) as real <= Bound(c, s, t)
  {
    hide Run, Admitted, Paid;
    if c.burst >= 1 {
      RunIsPaid(c, start, rs, ip, s, t);
      PaidBound(c, Run(c, Fresh(start), rs, false), Admitted(c, start, rs, false, ip, s, t), ip, s, t);
    } else {
      SmallBurstCountsNothing(c, start, rs, false, ip, s, t);
      BoundGrows(c, s, s, t);
    }
  }

  // ---------- The exact condition ----------

  ghost predicate BoundHolds(c: Config) {
    forall start: real, rs: seq<Request>, ip: string, s: real, t: real | Timed(start, rs) && s <= t ::
      Admitted(c, start, rs, true, ip, s, t) as real <= Bound(c, s, t)
  }

  ghost predicate EvictionHidden(c: Config) {
    forall start: real, rs: seq<Request>, i: nat | Timed(start, rs) && i < |rs| ::
      Decision(c, start, rs, true, i) == Decision(c, start, rs, false, i)
  }

  function Salvo(n: nat, at: real): seq<Request> {
    seq(n, _ => Request("a", at, at))
  }

  /** burst requests at instant 0, and burst more at instant t. */
  function TwoSalvos(c: Config, t: real): seq<Request>
    requires c.burst >= 1
  {
    Salvo(c.burst, 0.0) + Salvo(c.burst, t)
  }

  /** An instant after the idle time at which a drained bucket has not refilled. */
  function Gap(c: Config): (t: real)
    requires c.burst >= 1 && c.rate * IDLE < c.burst as real
    ensures t > IDLE && c.rate * t < c.burst as real
  {
    if c.rate <= 0.0 then
      assert c.rate * (IDLE + 1.0) <= 0.0;
      IDLE + 1.0
    else
      var missing := c.burst as real - c.rate * IDLE;
      var wait := missing / (2.0 * c.rate);
      assert c.rate * wait == missing / 2.0;
      assert c.rate * (IDLE + wait) == c.rate * IDLE + c.rate * wait;
      IDLE + wait
  }

  /** The limiter with a bucket for "a" only. */
  function Holding(tokens: real, at: real, lastClean: real): Limiter {
    Limiter(map["a" := Bucket(tokens, at)], lastClean)
  }

  lemma SameInstant(c: Config, b: Bucket, now: real)
    requires b.last == now && b.tokens <= c.burst as real
    ensures Refilled(c, b, now) == b
  {
    assert (now - b.last) * c.rate == 0.0;
  }

  lemma OpeningShot(c: Config)
    requires c.burst >= 1
    ensures var r := Request("a", 0.0, 0.0);
            Admits(c, Fresh(0.0), r, true) && After(c, Fresh(0.0), r, true) == Holding((c.burst - 1) as real, 0.0, 0.0)
  {
    hide Refilled;
    SameInstant(c, Bucket(c.burst as real, 0.0), 0.0);
  }

  lemma NextShot(c: Config, tokens: int, at: real)
    requires 1 <= tokens <= c.burst
    ensures var l, r := Holding(tokens as real, at, at), Request("a", at, at);
            Admits(c, l, r, true) && After(c, l, r, true) == Holding((tokens - 1) as real, at, at)
  {
    hide Refilled;
    var l, r := Holding(tokens as real, at, at), Request("a", at, at);
    assert Before(l, r, true) == l;
    SameInstant(c, Bucket(tokens as real, at), at);
    assert l.buckets["a" := Bucket((tokens - 1) as real, at)] == map["a" := Bucket((tokens - 1) as real, at)];
  }

  /** The drained bucket is evicted and comes back full. */
  lemma ShotAfterIdling(c: Config, t: real)
    requires c.burst >= 1 && t > IDLE
    ensures var l, r := Holding(0.0, 0.0, 0.0), Request("a", t, t);
            Admits(c, l, r, true) && After(c, l, r, true) == Holding((c.burst - 1) as real, t, t)
  {
    hide Refilled;
    var l := Holding(0.0, 0.0, 0.0);
    assert Cleaned(l, t) == Limiter(map[], t);
    SameInstant(c, Bucket(c.burst as real, t), t);
  }

  lemma OneMore(c: Config, rs: seq<Request>, n: nat, t: real)
    requires 0 < n <= |rs| && InWindow(rs[n - 1], "a", 0.0, t)
    requires Admits(c, Run(c, Fresh(0.0), rs[..n - 1], true), rs[n - 1], true)
    ensures Admitted(c, 0.0, rs[..n], true, "a", 0.0, t) == Admitted(c, 0.0, rs[..n - 1], true, "a", 0.0, t) + 1
    ensures Run(c, Fresh(0.0), rs[..n], true) == After(c, Run(c, Fresh(0.0), rs[..n - 1], true), rs[n - 1], true)
  {
    hide Admits, After;
    assert rs[..n][..n - 1] == rs[..n - 1];
  }

  lemma SalvoAt(c: Config, t: real, i: nat)
    requires c.burst >= 1 && i < 2 * c.burst && t > IDLE
    ensures |TwoSalvos(c, t)| == 2 * c.burst
    ensures TwoSalvos(c, t)[i] == if i < c.burst then Request("a", 0.0, 0.0) else Request("a", t, t)
    ensures InWindow(TwoSalvos(c, t)[i], "a", 0.0, t)
  {}

  lemma {:induction false} FirstSalvo(c: Config, t: real, n: nat)
    requires c.burst >= 1 && n <= c.burst <= |TwoSalvos(c, t)| && t > IDLE
    ensures Admitted(c, 0.0, TwoSalvos(c, t)[..n], true, "a", 0.0, t) == n
    ensures Run(c, Fresh(0.0), TwoSalvos(c, t)[..n], true) ==
            if n == 0 then Fresh(0.0) else Holding((c.burst - n) as real, 0.0, 0.0)
    decreases n
  {
    hide Admits, After, TwoSalvos, InWindow, Holding;
    if n > 0 {
      FirstSalvo(c, t, n - 1);
      SalvoAt(c, t, n - 1);
      if n == 1 {
        OpeningShot(c);
      } else {
        NextShot(c, c.burst - (n - 1), 0.0);
      }
      OneMore(c, TwoSalvos(c, t), n, t);
    }
  }

  lemma {:induction false} SecondSalvo(c: Config, t: real, n: nat)
    requires c.burst >= 1 && n <= c.burst && c.burst + n <= |TwoSalvos(c, t)| && t > IDLE
    ensures Admitted(c, 0.0, TwoSalvos(c, t)[..c.burst + n], true, "a", 0.0, t) == c.burst + n
    ensures Run(c, Fresh(0.0), TwoSalvos(c, t)[..c.burst + n], true) ==
            if n == 0 then Holding(0.0, 0.0, 0.0) else Holding((c.burst - n) as real, t, t)
    decreases n
  {
    hide Admits, After, TwoSalvos, InWindow, Holding, Admitted, Run;
    if n == 0 {
      FirstSalvo(c, t, c.burst);
    } else {
      SecondSalvo(c, t, n - 1);
      SalvoAt(c, t, c.burst + n - 1);
      if n == 1 {
        ShotAfterIdling(c, t);
      } else {
        NextShot(c, c.burst - (n - 1), t);
      }
      assert c.burst + (n - 1) == c.burst + n - 1;
      OneMore(c, TwoSalvos(c, t), c.burst + n, t);
    }
  }

  lemma SalvosAreTimed(c: Config, t: real)
    requires c.burst >= 1 && t > IDLE
    ensures Timed(0.0, TwoSalvos(c, t)) && |TwoSalvos(c, t)| == c.burst + c.burst
    ensures TwoSalvos(c, t)[..c.burst + c.burst] == TwoSalvos(c, t)
  {}

  /** Too slow a refill: the evicting limiter admits more than the bound. */
  lemma SlowRefillBreaksBound(c: Config) returns (t: real)
    requires c.rate >= 0.0 && c.rate * IDLE < c.burst as real
    ensures c.burst >= 1 && t > IDLE && Timed(0.0, TwoSalvos(c, t))
    ensures Admitted(c, 0.0, TwoSalvos(c, t), true, "a", 0.0, t) as real > Bound(c, 0.0, t)
  {
    hide Admitted, TwoSalvos, Timed, Bound, Gap, Run, Holding;
    BurstPositive(c);
    t := Gap(c);
    SalvosAreTimed(c, t);
    SecondSalvo(c, t, c.burst);
    BoundBelow(c, t);
  }

  /** Eviction changes no decision in any run if and only if a bucket refills within the idle time. */
  lemma EvictionHiddenExactly(c: Config)
    requires c.rate >= 0.0
    ensures EvictionHidden(c) <==> c.rate * 600.0 >= c.burst as real
  {
    hide Decision, Admitted, Bound;
    if c.rate * IDLE >= c.burst as real {
      forall start: real, rs: seq<Request>, i: nat | Timed(start, rs) && i < |rs|
        ensures Decision(c, start, rs, true, i) == Decision(c, start, rs, false, i)
      {
        EvictionIsInvisible(c, start, rs, i);
      }
    } else if EvictionHidden(c) {
      var t := SlowRefillBreaksBound(c);
      SameAdmitted(c, 0.0, TwoSalvos(c, t), "a", 0.0, t);
      WindowBoundWithoutEviction(c, 0.0, TwoSalvos(c, t), "a", 0.0, t);
    }
  }

  /** The window bound holds in every run if and only if a bucket refills within the idle time. */
  lemma WindowBoundExactly(c: Config)
    requires c.rate >= 0.0
    ensures BoundHolds(c) <==> c.rate * 600.0 >= c.burst as real
  {
    hide Decision, Admitted, Bound;
    if c.rate * IDLE >= c.burst as real {
      EvictionHiddenExactly(c);
      forall start: real, rs: seq<Request>, ip: string, s: real, t: real | Timed(start, rs) && s <= t
        ensures Admitted(c, start, rs, true, ip, s, t) as real <= Bound(c, s, t)
      {
        SameAdmitted(c, start, rs, ip, s, t);
        WindowBoundWithoutEviction(c, start, rs, ip, s, t);
      }
    } else {
      var t := SlowRefillBreaksBound(c);
    }
  }

  lemma BoundBelow(c: Config, t: real)
    requires c.burst >= 1 && c.rate * t < c.burst as real
    ensures Bound(c, 0.0, t) < (c.burst + c.burst) as real
  {}

  lemma BurstPositive(c: Config)
    requires c.rate >= 0.0 && c.rate * IDLE < c.burst as real
    ensures c.burst >= 1
  {
    assert c.rate * IDLE >= 0.0;
  }

  // ---------- Every decision, exactly ----------

  /** How many requests of ip with an index in [j, n) a limiter that never evicts admits. */
  function Served(c: Config, start: real, rs: seq<Request>, ip: string, j: nat, n: nat): nat
    requires n <= |rs|
    decreases n
  {
    if n <= j then 0
    else
      var one := if rs[n - 1].ip == ip && Decision(c, start, rs, false, n - 1) then 1 else 0;
      Served(c, start, rs, ip, j, n - 1) + one
  }

  /** The tokens refilled between two instants. */
  function Gain(c: Config, from: real, to: real): real {
    c.rate * (to - from)
  }

  lemma GainAdds(c: Config, from: real, mid: real, to: real)
    ensures Gain(c, from, mid) + Gain(c, mid, to) == Gain(c, from, to) && Gain(c, from, from) == 0.0
    ensures c.rate >= 0.0 && from <= to ==> Gain(c, from, to) >= 0.0
  {}

  lemma RefilledByGain(c: Config, b: Bucket, now: real)
    ensures var tokens := b.tokens + Gain(c, b.last, now);
            Refilled(c, b, now).tokens == if tokens > c.burst as real then c.burst as real else tokens
  {}

  /** What the supply since request j leaves at instant t: the burst, the refill, less the admissions. */
  function Left(c: Config, start: real, rs: seq<Request>, ip: string, j: nat, n: nat, t: real): real
    requires j < n <= |rs|
  {
    c.burst as real + Gain(c, rs[j].now, t) - Served(c, start, rs, ip, j, n) as real
  }

  predicate Mine(rs: seq<Request>, j: nat, ip: string)
    requires j < |rs|
  {
    rs[j].ip == ip
  }

  /** tokens is the least of the burst and of what is left since each earlier request. */
  ghost predicate Least(c: Config, start: real, rs: seq<Request>, ip: string, n: nat, t: real, tokens: real)
    requires n <= |rs|
  {
    && tokens <= c.burst as real
    && (forall j: nat | j < n && Mine(rs, j, ip) :: tokens <= Left(c, start, rs, ip, j, n, t))
    && (tokens == c.burst as real
        || exists j: nat | j < n && Mine(rs, j, ip) :: tokens == Left(c, start, rs, ip, j, n, t))
  }

  /** The bucket after n requests, if ip was among them. */
  ghost predicate Tracks(c: Config, start: real, rs: seq<Request>, ip: string, n: nat, l: Limiter)
    requires n <= |rs|
  {
    && (ip !in l.buckets ==> forall j: nat | j < n :: !Mine(rs, j, ip))
    && (ip in l.buckets ==> Least(c, start, rs, ip, n, l.buckets[ip].last, l.buckets[ip].tokens))
  }

  lemma LeftGrows(c: Config, start: real, rs: seq<Request>, ip: string, j: nat, n: nat, t: real, u: real)
    requires j < n <= |rs|
    ensures Left(c, start, rs, ip, j, n, t) + Gain(c, t, u) == Left(c, start, rs, ip, j, n, u)
  {
    hide Gain, Served;
    GainAdds(c, rs[j].now, t, u);
  }

  /** Refilling moves the least to the new instant. */
  lemma RefillIsLeast(c: Config, start: real, rs: seq<Request>, ip: string, n: nat, b: Bucket, now: real)
    requires n <= |rs| && Least(c, start, rs, ip, n, b.last, b.tokens) && b.last <= now && c.rate >= 0.0
    ensures Least(c, start, rs, ip, n, now, Refilled(c, b, now).tokens)
  {
    hide Left, Gain, Refilled;
    var gain := Gain(c, b.last, now);
    GainAdds(c, b.last, b.last, now);
    RefilledByGain(c, b, now);
    forall j: nat | j < n && Mine(rs, j, ip)
      ensures Left(c, start, rs, ip, j, n, b.last) + gain == Left(c, start, rs, ip, j, n, now)
    {
      LeftGrows(c, start, rs, ip, j, n, b.last, now);
    }
  }

  lemma FoundIsLeast(c: Config, start: real, rs: seq<Request>, n: nat, l: Limiter)
    requires n < |rs| && Tracks(c, start, rs, rs[n].ip, n, l) && c.rate >= 0.0
    requires rs[n].ip in l.buckets ==> l.buckets[rs[n].ip].last <= rs[n].now
    ensures Least(c, start, rs, rs[n].ip, n, rs[n].now, Found(c, l, rs[n].ip, rs[n].now).tokens)
  {
    hide Left, Refilled;
    var ip, now := rs[n].ip, rs[n].now;
    if ip in l.buckets {
      RefillIsLeast(c, start, rs, ip, n, l.buckets[ip], now);
    } else {
      SameInstant(c, Bucket(c.burst as real, now), now);
    }
  }

  /** Taking a token, or being refused one, counts in every window that ends here. */
  lemma TakenIsLeast(c: Config, start: real, rs: seq<Request>, n: nat, b: Bucket)
    requires n < |rs| && b.last == rs[n].now && c.burst >= 1
    requires Least(c, start, rs, rs[n].ip, n, b.last, b.tokens)
    requires Decision(c, start, rs, false, n) <==> b.tokens >= 1.0
    ensures Least(c, start, rs, rs[n].ip, n + 1, b.last, Taken(b).tokens)
  {
    hide Decision, Gain;
    var ip := rs[n].ip;
    GainAdds(c, b.last, b.last, b.last);
    var one := if b.tokens >= 1.0 then 1.0 else 0.0;
    forall j: nat | j < n && Mine(rs, j, ip)
      ensures Left(c, start, rs, ip, j, n + 1, b.last) == Left(c, start, rs, ip, j, n, b.last) - one
    {}
    assert Served(c, start, rs, ip, n, n) == 0;
    assert Left(c, start, rs, ip, n, n + 1, b.last) == c.burst as real - one;
    assert Mine(rs, n, ip);
    if b.tokens != c.burst as real {
      var j: nat :| j < n && Mine(rs, j, ip) && b.tokens == Left(c, start, rs, ip, j, n, b.last);
      assert Taken(b).tokens == Left(c, start, rs, ip, j, n + 1, b.last);
    }
  }

  /** A request of another address leaves the bucket as it tracks. */
  lemma OtherKeepsTracks(c: Config, start: real, rs: seq<Request>, ip: string, n: nat, l: Limiter, l': Limiter)
    requires n < |rs| && Tracks(c, start, rs, ip, n, l) && rs[n].ip != ip
    requires (ip in l'.buckets <==> ip in l.buckets) && (ip in l.buckets ==> l'.buckets[ip] == l.buckets[ip])
    ensures Tracks(c, start, rs, ip, n + 1, l')
  {
    hide Gain, Decision;
    forall j: nat, t: real | j < n
      ensures Left(c, start, rs, ip, j, n + 1, t) == Left(c, start, rs, ip, j, n, t)
    {
      assert Served(c, start, rs, ip, j, n + 1) == Served(c, start, rs, ip, j, n);
    }
    assert !Mine(rs, n, ip);
    if ip in l.buckets && l.buckets[ip].tokens != c.burst as real {
      var b := l.buckets[ip];
      var j: nat :| j < n && Mine(rs, j, ip) && b.tokens == Left(c, start, rs, ip, j, n, b.last);
      assert l'.buckets[ip].tokens == Left(c, start, rs, ip, j, n + 1, l'.buckets[ip].last);
    }
  }

  lemma {:induction false} RunTracks(c: Config, start: real, rs: seq<Request>, ip: string, n: nat)
    requires Timed(start, rs) && n <= |rs| && c.rate >= 0.0 && c.burst >= 1
    ensures Tracks(c, start, rs, ip, n, Run(c, Fresh(start), rs[..n], false))
    decreases n
  {
    if n > 0 {
      var m := n - 1;
      var l := Run(c, Fresh(start), rs[..m], false);
      RunTracks(c, start, rs, ip, m);
      assert rs[..n][..m] == rs[..m];
      RunUnfold(c, start, rs, n);
      if rs[m].ip == ip {
        LastBefore(c, start, rs, ip, m);
        RequestTracks(c, start, rs, m, l);
      } else {
        OtherKeepsTracks(c, start, rs, ip, m, l, After(c, l, rs[m], false));
      }
    }
  }

  lemma RunUnfold(c: Config, start: real, rs: seq<Request>, n: nat)
    requires 0 < n <= |rs|
    ensures Run(c, Fresh(start), rs[..n], false) == After(c, Run(c, Fresh(start), rs[..n - 1], false), rs[n - 1], false)
  {
    hide After;
    assert rs[..n][..n - 1] == rs[..n - 1];
  }

  lemma LastBefore(c: Config, start: real, rs: seq<Request>, ip: string, n: nat)
    requires Timed(start, rs) && n < |rs|
    ensures var l := Run(c, Fresh(start), rs[..n], false); ip in l.buckets ==> l.buckets[ip].last <= rs[n].now
  {
    hide Run;
    PrefixTimed(start, rs, n);
    RunKeepsCapped(c, start, rs[..n], false);
  }

  lemma RequestTracks(c: Config, start: real, rs: seq<Request>, n: nat, l: Limiter)
    requires n < |rs| && l == Run(c, Fresh(start), rs[..n], false) && c.rate >= 0.0 && c.burst >= 1
    requires Tracks(c, start, rs, rs[n].ip, n, l)
    requires rs[n].ip in l.buckets ==> l.buckets[rs[n].ip].last <= rs[n].now
    ensures Tracks(c, start, rs, rs[n].ip, n + 1, After(c, l, rs[n], false))
  {
    hide Run, Least, Refilled;
    var b := Found(c, l, rs[n].ip, rs[n].now);
    var ip, now := rs[n].ip, rs[n].now;
    RefilledNow(c, if ip in l.buckets then l.buckets[ip] else Bucket(c.burst as real, now), now);
    FoundIsLeast(c, start, rs, n, l);
    TakenIsLeast(c, start, rs, n, b);
  }

  /**
    A limiter that never evicts refuses a request if and only if, since some
    earlier request of the same address, admitting it would exceed the burst
    plus what was refilled.
    */
  lemma RefusedExactly(c: Config, start: real, rs: seq<Request>, i: nat)
    requires Timed(start, rs) && i < |rs| && c.rate >= 0.0 && c.burst >= 1
    ensures !Decision(c, start, rs, false, i) <==>
            exists j: nat | j < i && Mine(rs, j, rs[i].ip) ::
              Served(c, start, rs, rs[i].ip, j, i) as real + 1.0 > c.burst as real + c.rate * (rs[i].now - rs[j].now)
  {
    hide Run, Refilled, Served, Left, Found, Timed;
    var l, ip, now := Run(c, Fresh(start), rs[..i], false), rs[i].ip, rs[i].now;
    RunTracks(c, start, rs, ip, i);
    LastBefore(c, start, rs, ip, i);
    FoundIsLeast(c, start, rs, i, l);
    var tokens := Found(c, l, ip, now).tokens;
    forall j: nat | j < i && Mine(rs, j, ip)
      ensures Left(c, start, rs, ip, j, i, now) < 1.0 <==>
              Served(c, start, rs, ip, j, i) as real + 1.0 > c.burst as real + c.rate * (now - rs[j].now)
    {
      LeftMeans(c, start, rs, ip, j, i, now);
    }
    if tokens < 1.0 {
      var j: nat :| j < i && Mine(rs, j, ip) && tokens == Left(c, start, rs, ip, j, i, now);
      assert Served(c, start, rs, ip, j, i) as real + 1.0 > c.burst as real + c.rate * (now - rs[j].now);
    }
  }

  lemma LeftMeans(c: Config, start: real, rs: seq<Request>, ip: string, j: nat, n: nat, t: real)
    requires j < n <= |rs|
    ensures Left(c, start, rs, ip, j, n, t) < 1.0 <==>
            Served(c, start, rs, ip, j, n) as real + 1.0 > c.burst as real + c.rate * (t - rs[j].now)
  {
    hide Served, Gain;
    GainIs(c, rs[j].now, t);
  }

  lemma GainIs(c: Config, from: real, to: real)
    ensures Gain(c, from, to) == c.rate * (to - from)
  {}

  /** The same of the limiter with eviction, if a bucket refills within the idle time. */
  lemma RefusedExactlyWithEviction(c: Config, start: real, rs: seq<Request>, i: nat)
    requires Timed(start, rs) && i < |rs| && c.burst >= 1 && c.rate * 600.0 >= c.burst as real
    ensures !Decision(c, start, rs, true, i) <==>
            exists j: nat | j < i && Mine(rs, j, rs[i].ip) ::
              Served(c, start, rs, rs[i].ip, j, i) as real + 1.0 > c.burst as real + c.rate * (rs[i].now - rs[j].now)
  {
    hide Decision, Served;
    assert c.rate > 0.0;
    EvictionIsInvisible(c, start, rs, i);
    RefusedExactly(c, start, rs, i);
  }

  /** A sweep drops exactly the buckets idle for over 600 s; within 300 s of the last one it does not happen. */
  lemma SweepsExactly(l: Limiter, now: real, ip: string)
    ensures ip in Cleaned(l, now).buckets <==>
            ip in l.buckets && (now - l.lastClean <= 300.0 || now - l.buckets[ip].last <= 600.0)
    ensures ip in Cleaned(l, now).buckets ==> Cleaned(l, now).buckets[ip] == l.buckets[ip]
  {}
}
