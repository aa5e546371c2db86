/**
 A token bucket for one client: a counter `size` of remaining permits, a
 capacity `cap` that refills clamp to, the interval between refills, and the
 time of the last successful take.

 Time is an integer number of nanoseconds (the unit of Go's `time.Duration`);
 the zero timestamp stands for Go's zero `time.Time`. Integers are unbounded
 here; the one place where the 64-bit width of Go's `int` changes the outcome
 is modelled separately at the end of the module (`AddedAsWritten`).
 */
module TokenBuckets {

  /** The abstract value of a bucket: every field of the Go struct except its lock. */
  datatype Bucket = Bucket(cap: int, insertInterval: int, size: int, lastTakeAt: int)

  function Min(a: int, b: int): int { if a <= b then a else b }

  function Max(a: int, b: int): int { if a <= b then b else a }

  /** A freshly created bucket: full, never taken from. */
  function NewBucket(cap: int, insertInterval: int): Bucket {
    Bucket(cap, insertInterval, cap, 0)
  }

  predicate Full(b: Bucket) { b.size == b.cap }

  /** The intended bucket invariant: the counter lies between 0 and the capacity. */
  predicate Bounded(b: Bucket) { 0 <= b.size <= b.cap }

  /** Refill by `delta`, clamped to the capacity. */
  function Added(b: Bucket, delta: int): Bucket {
    var s := b.size + delta;
    b.(size := if s > b.cap then b.cap else s)
  }

  /** One more permit, with no clamp. */
  function Incremented(b: Bucket): Bucket {
    b.(size := b.size + 1)
  }

  /** One permit consumed at time `now`. */
  function Decremented(b: Bucket, now: int): Bucket {
    b.(size := b.size - 1, lastTakeAt := now)
  }

  /** One admission attempt at time `now`: the decision and the new bucket. */
  function Take(b: Bucket, now: int): (bool, Bucket) {
    if b.size > 0 then (true, Decremented(b, now)) else (false, b)
  }

  /** Consecutive admission attempts at the given times, with no refill in between. */
  function Takes(b: Bucket, times: seq<int>): (r: (seq<bool>, Bucket))
    ensures |r.0| == |times|
    ensures r.1.cap == b.cap && r.1.insertInterval == b.insertInterval
    ensures r.1.size <= b.size
    decreases |times|
  {
    if times == [] then ([], b)
    else
      var (ok, b1) := Take(b, times[0]);
      var (rest, b2) := Takes(b1, times[1..]);
      ([ok] + rest, b2)
  }

  lemma NewBucketIsFull(cap: int, insertInterval: int)
    ensures var b := NewBucket(cap, insertInterval);
      Full(b) && b.cap == cap && b.insertInterval == insertInterval && b.lastTakeAt == 0
    ensures Bounded(NewBucket(cap, insertInterval)) <==> cap >= 0
  {
  }

  lemma AddedIsClampedSum(b: Bucket, delta: int)
    ensures Added(b, delta).size == Min(b.size + delta, b.cap)
    ensures Added(b, delta).size <= b.cap
    ensures Added(b, delta).(size := b.size) == b
  {
  }

  /** Adding a non-negative amount keeps the bucket invariant. */
  lemma AddedKeepsBounded(b: Bucket, delta: int)
    requires Bounded(b) && delta >= 0
    ensures Bounded(Added(b, delta))
    ensures Added(b, delta).size >= b.size
  {
  }

  /** A refill of a whole capacity from a non-negative counter lands exactly on the capacity. */
  lemma AddingCapFills(b: Bucket)
    requires b.size >= 0
    ensures Full(Added(b, b.cap))
  {
  }

  /** Unlike `Added`, `Incremented` does not clamp: from a full bucket it overshoots. */
  lemma IncrementedOvershootsFull(b: Bucket)
    requires Full(b)
    ensures Incremented(b).size == b.cap + 1
    ensures !Bounded(Incremented(b))
  {
  }

  lemma TakeDecides(b: Bucket, now: int)
    ensures Take(b, now).0 <==> b.size > 0
    ensures Take(b, now).0 ==> Take(b, now).1 == b.(size := b.size - 1, lastTakeAt := now)
    ensures !Take(b, now).0 ==> Take(b, now).1 == b
  {
  }

  /** The counter never goes negative: a take only decrements a positive counter. */
  lemma TakeKeepsBounded(b: Bucket, now: int)
    requires Bounded(b)
    ensures Bounded(Take(b, now).1)
  {
  }

  /**
   From a non-negative counter `n`, consecutive takes are admitted exactly
   while permits remain: the first `n` attempts succeed and every later one
   fails; the counter ends at `max(n - k, 0)` and the last-take time is that
   of the last admitted attempt.
   */
  lemma {:induction false} ExactAdmissions(b: Bucket, times: seq<int>)
    requires b.size >= 0
    ensures Takes(b, times).0 == seq(|times|, i => i < b.size)
    ensures Takes(b, times).1.size == Max(b.size - |times|, 0)
    ensures var k := Min(b.size, |times|);
      Takes(b, times).1.lastTakeAt == if k == 0 then b.lastTakeAt else times[k - 1]
    decreases |times|
  {
    if times != [] {
      var (ok, b1) := Take(b, times[0]);
      ExactAdmissions(b1, times[1..]);
      var rest := Takes(b1, times[1..]).0;
      assert Takes(b, times).0 == [ok] + rest;
      if b.size > 0 {
        assert b1.size == b.size - 1;
        forall i | 0 <= i < |rest|
          ensures rest[i] == (i + 1 < b.size)
        {
        }
      } else {
        assert b1 == b;
      }
    }
  }

  /** A bucket with no permits refuses every attempt of a run and is left unchanged. */
  lemma {:induction false} EmptyBucketRefusesAll(b: Bucket, times: seq<int>)
    requires b.size <= 0
    ensures Takes(b, times) == (seq(|times|, i => false), b)
    decreases |times|
  {
    if times != [] {
      assert Take(b, times[0]) == (false, b);
      EmptyBucketRefusesAll(b, times[1..]);
      assert Takes(b, times).0 == [false] + Takes(b, times[1..]).0;
      assert [false] + seq(|times| - 1, i => false) == seq(|times|, i => false);
      assert Takes(b, times).1 == b;
    } else {
      assert seq(|times|, i => false) == [];
    }
  }

  /** A full bucket of capacity `c` admits exactly `c` consecutive requests; the next is refused. */
  lemma FullBucketAdmitsCapacity(cap: int, insertInterval: int, times: seq<int>)
    requires cap >= 0 && |times| == cap + 1
    ensures Takes(NewBucket(cap, insertInterval), times).0 == seq(cap, i => true) + [false]
    ensures Takes(NewBucket(cap, insertInterval), times).1.size == 0
  {
    var b := NewBucket(cap, insertInterval);
    ExactAdmissions(b, times);
    assert Takes(b, times).0 == seq(cap, i => true) + [false];
  }

  /** The bucket of one client, updated in place. */
  class TokenBucket {
    const cap: int
    const insertInterval: int
    var size: int
    var lastTakeAt: int

    ghost function State(): Bucket
      reads this
    {
      Bucket(cap, insertInterval, size, lastTakeAt)
    }

    ghost predicate Valid()
      reads this
    {
      Bounded(State())
    }

    constructor (cap: int, insertInterval: int)
      ensures State() == NewBucket(cap, insertInterval)
      ensures Valid() <==> cap >= 0
    {
      this.cap := cap;
      this.insertInterval := insertInterval;
      size := cap;
      lastTakeAt := 0;
    }

    function InsertInterval(): (d: int)
      reads this
      ensures d == State().insertInterval
    {
      insertInterval
    }

    method Inc()
      modifies this
      ensures State() == Incremented(old(State()))
      ensures size == old(size) + 1 && lastTakeAt == old(lastTakeAt)
    {
      size := size + 1;
    }

    method Add(delta: int)
      modifies this
      ensures State() == Added(old(State()), delta)
      ensures size == Min(old(size) + delta, cap) && size <= cap
      ensures lastTakeAt == old(lastTakeAt)
      ensures old(Valid()) && delta >= 0 ==> Valid()
    {
      size := size + delta;
      if size > cap {
        size := cap;
      }
    }

    method Dec(now: int)
      modifies this
      ensures State() == Decremented(old(State()), now)
    {
      size := size - 1;
      lastTakeAt := now;
    }

    function LastTakeAt(): (t: int)
      reads this
      ensures t == State().lastTakeAt
    {
      lastTakeAt
    }

    method AllowTake(now: int) returns (ok: bool)
      modifies this
      ensures (ok, State()) == Take(old(State()), now)
      ensures ok <==> old(size) > 0
      ensures ok ==> size == old(size) - 1 && lastTakeAt == now
      ensures !ok ==> size == old(size) && lastTakeAt == old(lastTakeAt)
      ensures old(Valid()) ==> Valid()
    {
      var curSize := size;
      if curSize > 0 {
        Dec(now);
        return true;
      }
      return false;
    }

    method IsFull() returns (full: bool)
      ensures full <==> Full(State())
      ensures full <==> size == cap
    {
      if size == cap {
        return true;
      }
      return false;
    }
  }

  // On 64-bit platforms Go's `int` is 64 bits wide (on 32-bit ones it is 32
  // bits, and the same wrap happens from 2^31 on); `t.size += delta` wraps
  // around on overflow.

  const MinInt64: int := -0x8000_0000_0000_0000
  const MaxInt64: int := 0x7FFF_FFFF_FFFF_FFFF

  predicate InInt64(x: int) { MinInt64 <= x <= MaxInt64 }

  /** Two's-complement truncation of an integer to 64 bits. */
  function Wrap64(x: int): (r: int)
    ensures InInt64(r)
    ensures (x - r) % 0x1_0000_0000_0000_0000 == 0
    ensures InInt64(x) ==> r == x
  {
    (x - MinInt64) % 0x1_0000_0000_0000_0000 + MinInt64
  }

  /** `Add` as the Go code computes it on 64-bit integers: the sum wraps before it is clamped. */
  function AddedAsWritten(b: Bucket, delta: int): (r: Bucket)
    ensures r.size <= b.cap
    ensures r.size == b.cap || InInt64(r.size)
    ensures r.(size := b.size) == b
  {
    var s := Wrap64(b.size + delta);
    b.(size := if s > b.cap then b.cap else s)
  }

  /**
   A bucket of the largest 64-bit capacity, after a single admitted request,
   is not full; its refill by its capacity wraps the counter to -3 instead of
   filling it.
   */
  lemma RefillWrapsNearMaxInt64(now: int)
    ensures var b := Take(NewBucket(MaxInt64, 1_000_000_000), now).1;
      Bounded(b) && !Full(b) && AddedAsWritten(b, b.cap).size == -3
  {
  }

  /** Whenever the sum does not overflow, the Go computation and the model agree. */
  lemma AddedAsWrittenAgrees(b: Bucket, delta: int)
    requires InInt64(b.size + delta)
    ensures AddedAsWritten(b, delta) == Added(b, delta)
  {
  }

  /**
   The clamped sum of the model always fits in 64 bits when the bucket does and
   the amount is non-negative, so a saturating 64-bit refill computes it exactly.
   */
  lemma AddedFitsInt64(b: Bucket, delta: int)
    requires Bounded(b) && InInt64(b.cap) && InInt64(delta) && delta >= 0
    ensures InInt64(Added(b, delta).size)
    ensures Added(b, delta).size >= b.size
  {
  }

  // The bucket's `sync.RWMutex`: the number of read holders and whether a writer holds it.

  datatype RWLock = RWLock(readers: nat, writer: bool)

  /** `Lock` can be acquired: nobody holds the mutex. */
  predicate CanLock(m: RWLock) { m.readers == 0 && !m.writer }

  /** `RLock` can be acquired: no writer holds the mutex. */
  predicate CanRLock(m: RWLock) { !m.writer }

  /**
   `IsFull` as the Go code runs it: the read lock is taken, and released only
   on the path that answers "not full".
   */
  function IsFullAsWritten(b: Bucket, m: RWLock): (r: (bool, RWLock))
    requires CanRLock(m)
    ensures r.0 <==> Full(b)
    ensures r.1.writer == m.writer
    ensures r.1.readers == if r.0 then m.readers + 1 else m.readers
  {
    var held := m.(readers := m.readers + 1);
    if b.size == b.cap then (true, held) else (false, m)
  }

  /**
   On a full bucket with a free mutex, `IsFull` as written answers "full" and
   returns still holding a read lock, so the write lock that `Dec` needs can no
   longer be acquired, while the read lock that `AllowTake` takes first still can.
   */
  lemma IsFullLeaksReadLock(b: Bucket)
    requires Full(b) && b.size > 0
    ensures var (full, m) := IsFullAsWritten(b, RWLock(0, false));
      && full
      && m.readers == 1
      && CanRLock(m) && Take(b, 0).0
      && !CanLock(m)
  {
  }

  /** `IsFull` with the read lock released on both paths, as the model's `TokenBucket.IsFull` behaves. */
  function IsFullReleasing(b: Bucket, m: RWLock): (r: (bool, RWLock))
    requires CanRLock(m)
    ensures r.0 <==> Full(b)
    ensures r.1 == m
  {
    var held := m.(readers := m.readers + 1);
    var full := b.size == b.cap;
    (full, held.(readers := held.readers - 1))
  }

  /** With the released read lock, a free mutex stays free whatever the answer, so a later `Dec` can lock it. */
  lemma IsFullReleasingKeepsLockFree(b: Bucket, m: RWLock)
    requires CanLock(m)
    ensures CanLock(IsFullReleasing(b, m).1)
    ensures IsFullReleasing(b, m).0 == IsFullAsWritten(b, m).0
  {
  }
}
