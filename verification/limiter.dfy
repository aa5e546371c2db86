/**
 The keyed rate limiter: a map from client IP to that client's token bucket,
 with default parameters for buckets created on first sight of an IP, and the
 body of one tick of a bucket's monitoring task (refill when not full, evict
 when full and idle for more than a minute).

 Time is an integer number of nanoseconds counted from Go's zero `time.Time`
 (January 1 of year 1, UTC), so that a bucket's initial `lastTakeAt` of 0 is
 that zero time; `now` is passed in where the Go code reads the wall clock.
 */
module Limiter {
  import opened TokenBuckets

  const Second: int := 1_000_000_000
  /** The idle threshold after which a full bucket is evicted. */
  const Minute: int := 60 * Second

  /** The abstract value of a limiter: each IP's bucket value and the defaults. */
  datatype LimiterState = LimiterState(
    buckets: map<string, Bucket>,
    defaultAllowRequests: int,
    defaultInterval: int)

  /** The bucket an admission for `ip` is decided against: the mapped one, or a fresh default one. */
  function BucketFor(l: LimiterState, ip: string): Bucket {
    if ip in l.buckets then l.buckets[ip] else NewBucket(l.defaultAllowRequests, l.defaultInterval)
  }

  /** One admission request for `ip` at time `now`: the decision and the new limiter. */
  function Allowed(l: LimiterState, ip: string, now: int): (bool, LimiterState) {
    var (ok, b) := Take(BucketFor(l, ip), now);
    (ok, l.(buckets := l.buckets[ip := b]))
  }

  /** Explicit registration of `ip` with its own parameters; ignored when `ip` is already mapped. */
  function WithIp(l: LimiterState, ip: string, allowRequests: int, interval: int): LimiterState {
    if ip in l.buckets then l else l.(buckets := l.buckets[ip := NewBucket(allowRequests, interval)])
  }

  predicate Idle(b: Bucket, now: int) { now > b.lastTakeAt + Minute }

  /**
   One tick of the monitoring task of `ip`: the result says whether the task
   stops. A full, idle bucket is evicted; a full, recently used one is left
   alone; a bucket that is not full is refilled by its capacity.
   */
  function Ticked(l: LimiterState, ip: string, now: int): (bool, LimiterState)
    requires ip in l.buckets
  {
    var b := l.buckets[ip];
    if Full(b) then
      if Idle(b, now) then (true, l.(buckets := l.buckets - {ip})) else (false, l)
    else
      (false, l.(buckets := l.buckets[ip := Added(b, b.cap)]))
  }

  /** Consecutive admission requests for one IP at the given times, with no tick in between. */
  function AllowAll(l: LimiterState, ip: string, times: seq<int>): (r: (seq<bool>, LimiterState))
    ensures |r.0| == |times|
    ensures r.1.defaultAllowRequests == l.defaultAllowRequests
    ensures r.1.defaultInterval == l.defaultInterval
    ensures r.1.buckets.Keys == if times == [] then l.buckets.Keys else l.buckets.Keys + {ip}
    decreases |times|
  {
    if times == [] then ([], l)
    else
      var (ok, l1) := Allowed(l, ip, times[0]);
      var (rest, l2) := AllowAll(l1, ip, times[1..]);
      ([ok] + rest, l2)
  }

  /** The intended limiter invariant: every bucket, and every bucket it will create, is bounded. */
  predicate Healthy(l: LimiterState) {
    l.defaultAllowRequests >= 0 && forall ip :: ip in l.buckets ==> Bounded(l.buckets[ip])
  }

  /** A first request for an unseen IP is decided against a fresh full default bucket. */
  lemma FirstAllow(l: LimiterState, ip: string, now: int)
    requires ip !in l.buckets
    ensures Allowed(l, ip, now).0 <==> l.defaultAllowRequests > 0
    ensures Allowed(l, ip, now).1.buckets.Keys == l.buckets.Keys + {ip}
    ensures Allowed(l, ip, now).1.buckets[ip]
      == Take(NewBucket(l.defaultAllowRequests, l.defaultInterval), now).1
  {
  }

  /** A request for a mapped IP keeps the key set and touches only that IP's bucket. */
  lemma AllowMapped(l: LimiterState, ip: string, now: int)
    requires ip in l.buckets
    ensures Allowed(l, ip, now).1.buckets.Keys == l.buckets.Keys
    ensures (Allowed(l, ip, now).0, Allowed(l, ip, now).1.buckets[ip]) == Take(l.buckets[ip], now)
  {
  }

  /** A request for one IP leaves every other IP's entry, present or absent, as it was. */
  lemma AllowOtherKeys(l: LimiterState, a: string, b: string, now: int)
    requires a != b
    ensures b in Allowed(l, a, now).1.buckets <==> b in l.buckets
    ensures b in l.buckets ==> Allowed(l, a, now).1.buckets[b] == l.buckets[b]
    ensures BucketFor(Allowed(l, a, now).1, b) == BucketFor(l, b)
  {
  }

  /** A run of requests for one IP is the bucket's run of takes, stored back under that IP. */
  lemma {:induction false} AllowAllTakes(l: LimiterState, ip: string, times: seq<int>)
    ensures AllowAll(l, ip, times).0 == Takes(BucketFor(l, ip), times).0
    ensures times != [] ==>
      AllowAll(l, ip, times).1 == l.(buckets := l.buckets[ip := Takes(BucketFor(l, ip), times).1])
    decreases |times|
  {
    if times != [] {
      var b := BucketFor(l, ip);
      var (ok, l1) := Allowed(l, ip, times[0]);
      var b1 := Take(b, times[0]).1;
      assert BucketFor(l1, ip) == b1;
      AllowAllTakes(l1, ip, times[1..]);
      if times[1..] == [] {
        assert AllowAll(l1, ip, times[1..]).1 == l1;
      } else {
        assert l1.(buckets := l1.buckets[ip := Takes(b1, times[1..]).1])
          == l.(buckets := l.buckets[ip := Takes(b1, times[1..]).1]);
      }
    }
  }

  /**
   Exhausting one IP does not change another IP's outcome: after any run of
   requests for `a`, a request for `b` is decided exactly as before.
   */
  lemma ExhaustingOneKeySparesOthers(l: LimiterState, a: string, b: string, times: seq<int>, now: int)
    requires a != b
    ensures Allowed(AllowAll(l, a, times).1, b, now).0 == Allowed(l, b, now).0
    ensures BucketFor(AllowAll(l, a, times).1, b) == BucketFor(l, b)
  {
    AllowAllTakes(l, a, times);
  }

  /**
   Consecutive requests for an unseen IP are admitted exactly while the fresh
   default bucket has permits: with default capacity `c`, the first `c` succeed
   and all later ones fail (all of them when `c <= 0`).
   */
  lemma FreshKeyAdmissions(l: LimiterState, ip: string, times: seq<int>)
    requires ip !in l.buckets
    ensures AllowAll(l, ip, times).0 == seq(|times|, i => i < l.defaultAllowRequests)
  {
    AllowAllTakes(l, ip, times);
    if l.defaultAllowRequests >= 0 {
      ExactAdmissions(BucketFor(l, ip), times);
    } else {
      EmptyBucketRefusesAll(BucketFor(l, ip), times);
      assert seq(|times|, i => false) == seq(|times|, i => i < l.defaultAllowRequests);
    }
  }

  /** Registration is first-wins: an existing bucket and its parameters are kept. */
  lemma WithIpFirstWins(l: LimiterState, ip: string, allowRequests: int, interval: int)
    requires ip in l.buckets
    ensures WithIp(l, ip, allowRequests, interval) == l
  {
  }

  /** Registering an unseen IP installs a full bucket with the given parameters and nothing else. */
  lemma WithIpInstallsFull(l: LimiterState, ip: string, allowRequests: int, interval: int)
    requires ip !in l.buckets
    ensures var l' := WithIp(l, ip, allowRequests, interval);
      && l'.buckets.Keys == l.buckets.Keys + {ip}
      && l'.buckets[ip] == NewBucket(allowRequests, interval)
      && Full(l'.buckets[ip])
      && (forall k :: k in l.buckets ==> l'.buckets[k] == l.buckets[k])
  {
  }

  /** A tick on a bucket that is not full refills it to exactly its capacity and keeps the keys. */
  lemma TickRefills(l: LimiterState, ip: string, now: int)
    requires ip in l.buckets && !Full(l.buckets[ip]) && l.buckets[ip].size >= 0
    ensures !Ticked(l, ip, now).0
    ensures Ticked(l, ip, now).1.buckets.Keys == l.buckets.Keys
    ensures Ticked(l, ip, now).1.buckets[ip] == l.buckets[ip].(size := l.buckets[ip].cap)
  {
  }

  /**
   The eviction guard: a tick removes the IP, and stops its task, exactly when
   the bucket is full and idle for more than a minute; a full bucket that is
   not idle is left entirely unchanged.
   */
  lemma TickEvictsOnlyFullAndIdle(l: LimiterState, ip: string, now: int)
    requires ip in l.buckets
    ensures Ticked(l, ip, now).0 <==> ip !in Ticked(l, ip, now).1.buckets
    ensures ip !in Ticked(l, ip, now).1.buckets <==> Full(l.buckets[ip]) && Idle(l.buckets[ip], now)
    ensures Full(l.buckets[ip]) && !Idle(l.buckets[ip], now) ==> Ticked(l, ip, now).1 == l
    ensures Ticked(l, ip, now).1.buckets.Keys - {ip} == l.buckets.Keys - {ip}
  {
  }

  /** A tick of one IP never changes another IP's bucket. */
  lemma TickOtherKeys(l: LimiterState, ip: string, other: string, now: int)
    requires ip in l.buckets && other != ip
    ensures other in Ticked(l, ip, now).1.buckets <==> other in l.buckets
    ensures other in l.buckets ==> Ticked(l, ip, now).1.buckets[other] == l.buckets[other]
  {
  }

  /** After an eviction, the next request for that IP behaves exactly like a first-ever request. */
  lemma AllowAfterEviction(l: LimiterState, ip: string, now: int, later: int)
    requires ip in l.buckets && Ticked(l, ip, now).0
    ensures Allowed(Ticked(l, ip, now).1, ip, later).0 <==> l.defaultAllowRequests > 0
    ensures Allowed(Ticked(l, ip, now).1, ip, later).1.buckets[ip]
      == Take(NewBucket(l.defaultAllowRequests, l.defaultInterval), later).1
  {
    FirstAllow(Ticked(l, ip, now).1, ip, later);
  }

  /** Every operation keeps the limiter healthy (registration when its capacity is non-negative). */
  lemma OperationsKeepHealthy(l: LimiterState, ip: string, now: int, allowRequests: int, interval: int)
    requires Healthy(l)
    ensures Healthy(Allowed(l, ip, now).1)
    ensures allowRequests >= 0 ==> Healthy(WithIp(l, ip, allowRequests, interval))
    ensures ip in l.buckets ==> Healthy(Ticked(l, ip, now).1)
  {
    TakeKeepsBounded(BucketFor(l, ip), now);
    if ip in l.buckets {
      AddedKeepsBounded(l.buckets[ip], l.buckets[ip].cap);
    }
  }

  /**
   A bucket that was never taken from still carries the zero time, so the first
   tick at any time more than a minute after that zero time evicts it: this is
   the fate of an IP registered with `AddIp` and not requested before its first tick.
   */
  lemma NeverTakenEvictedAtFirstTick(l: LimiterState, ip: string, now: int)
    requires ip in l.buckets && l.buckets[ip].lastTakeAt == 0 && Full(l.buckets[ip]) && now > Minute
    ensures Ticked(l, ip, now).0 && ip !in Ticked(l, ip, now).1.buckets
  {
  }

  /** A registration followed by a tick more than a minute after the zero time evicts the new IP. */
  lemma RegisteredThenTickedEvicts(l: LimiterState, ip: string, allowRequests: int, interval: int, now: int)
    requires ip !in l.buckets && now > Minute
    ensures var l1 := WithIp(l, ip, allowRequests, interval);
      ip in l1.buckets && Ticked(l1, ip, now).0 && Ticked(l1, ip, now).1.buckets == l.buckets
  {
    var l1 := WithIp(l, ip, allowRequests, interval);
    NeverTakenEvictedAtFirstTick(l1, ip, now);
    assert l1.buckets - {ip} == l.buckets;
  }

  /**
   Capacity 5 and a 10-second interval: seven rapid requests for "A" from time
   `t0` on give five admissions and two refusals; after a tick ten seconds later
   refills the bucket, the eighth request is admitted.
   */
  lemma BurstThenRefill(t0: int)
    ensures var l0 := LimiterState(map[], 5, 10 * Second);
      var (oks, l1) := AllowAll(l0, "A", seq(7, i => t0 + i));
      && oks == [true, true, true, true, true, false, false]
      && "A" in l1.buckets
      && !Ticked(l1, "A", t0 + 10 * Second).0
      && Allowed(Ticked(l1, "A", t0 + 10 * Second).1, "A", t0 + 10 * Second + 1).0
  {
    var l0 := LimiterState(map[], 5, 10 * Second);
    var times := seq(7, i => t0 + i);
    FreshKeyAdmissions(l0, "A", times);
    AllowAllTakes(l0, "A", times);
    ExactAdmissions(BucketFor(l0, "A"), times);
    var l1 := AllowAll(l0, "A", times).1;
    assert l1.buckets["A"].size == 0 && l1.buckets["A"].cap == 5;
    TickRefills(l1, "A", t0 + 10 * Second);
  }

  /**
   Registering "B" with capacity 1 and then again with capacity 100 keeps the
   first registration: one request is admitted, the next refused.
   */
  lemma SecondRegistrationIgnored(l: LimiterState, t1: int, t2: int)
    requires "B" !in l.buckets
    ensures var l1 := WithIp(WithIp(l, "B", 1, 5 * Second), "B", 100, Second);
      var (ok1, l2) := Allowed(l1, "B", t1);
      ok1 && !Allowed(l2, "B", t2).0
  {
  }

  /**
   The limiter, updated in place. Each IP maps to its own bucket object; no
   two IPs share one.
   */
  class RateLimiter {
    var limitsByIp: map<string, TokenBucket>
    const defaultAllowRequests: int
    const defaultInterval: int

    ghost predicate Valid()
      reads this
    {
      forall a, b :: a in limitsByIp && b in limitsByIp && a != b ==> limitsByIp[a] != limitsByIp[b]
    }

    ghost function Abstract(): LimiterState
      reads this, limitsByIp.Values
    {
      LimiterState(
        map ip | ip in limitsByIp :: limitsByIp[ip].State(),
        defaultAllowRequests,
        defaultInterval)
    }

    constructor (defaultAllowRequests: int, defaultInterval: int)
      ensures Valid()
      ensures Abstract() == LimiterState(map[], defaultAllowRequests, defaultInterval)
    {
      limitsByIp := map[];
      this.defaultAllowRequests := defaultAllowRequests;
      this.defaultInterval := defaultInterval;
    }

    method Allow(ip: string, now: int) returns (ok: bool)
      requires Valid()
      modifies this, if ip in limitsByIp then {limitsByIp[ip]} else {}
      ensures Valid()
      ensures (ok, Abstract()) == Allowed(old(Abstract()), ip, now)
      ensures ip in old(limitsByIp) ==> limitsByIp == old(limitsByIp)
      ensures ip !in old(limitsByIp) ==>
        ip in limitsByIp && fresh(limitsByIp[ip]) && limitsByIp == old(limitsByIp)[ip := limitsByIp[ip]]
    {
      var tokenBucket: TokenBucket;
      if ip in limitsByIp {
        tokenBucket := limitsByIp[ip];
      } else {
        tokenBucket := new TokenBucket(defaultAllowRequests, defaultInterval);
        limitsByIp := limitsByIp[ip := tokenBucket];
      }
      ghost var start := old(Abstract());
      assert tokenBucket.State() == BucketFor(start, ip);
      ok := tokenBucket.AllowTake(now);
      assert Abstract() == start.(buckets := start.buckets[ip := tokenBucket.State()]);
    }

    method AddIp(ip: string, allowRequests: int, interval: int)
      requires Valid()
      modifies this
      ensures Valid()
      ensures Abstract() == WithIp(old(Abstract()), ip, allowRequests, interval)
      ensures ip in old(limitsByIp) ==> limitsByIp == old(limitsByIp)
      ensures ip !in old(limitsByIp) ==>
        ip in limitsByIp && fresh(limitsByIp[ip]) && limitsByIp == old(limitsByIp)[ip := limitsByIp[ip]]
    {
      if ip in limitsByIp {
        return;
      }
      var tokenBucket := new TokenBucket(allowRequests, interval);
      limitsByIp := limitsByIp[ip := tokenBucket];
    }

    /** One tick of the monitoring task of `ip`; `stop` says that the task ends. */
    method Tick(ip: string, now: int) returns (stop: bool)
      requires Valid() && ip in limitsByIp
      modifies this, limitsByIp[ip]
      ensures Valid()
      ensures (stop, Abstract()) == Ticked(old(Abstract()), ip, now)
      ensures limitsByIp == if stop then old(limitsByIp) - {ip} else old(limitsByIp)
    {
      var tb := limitsByIp[ip];
      var full := tb.IsFull();
      if full {
        if now > tb.LastTakeAt() + Minute {
          limitsByIp := limitsByIp - {ip};
          assert Abstract() == old(Abstract()).(buckets := old(Abstract()).buckets - {ip});
          return true;
        }
        return false;
      }
      tb.Add(tb.cap);
      assert Abstract() == old(Abstract()).(buckets := old(Abstract()).buckets[ip := tb.State()]);
      return false;
    }
  }
}
