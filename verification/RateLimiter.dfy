/** The bounded token-bucket limiter in front of the login surface. */
module RateLimiter {
  import opened Bytes
  import opened Saturating

  type Key = string

  const EVICTION_SWEEP := 16

  datatype Rate = Rate(burst: U32, perMinute: U32)

  datatype Bucket = Bucket(milliTokens: U64, touched: U64)

  /** The map of buckets, and its keys, oldest first. */
  datatype Buckets = Buckets(byKey: map<Key, Bucket>, order: seq<Key>)

  /** `allow` answers a boolean; its two ways of saying no are kept apart here. */
  datatype Answer = Allowed | Limited | NoRoom

  // ----- levels

  function Ceiling(rate: Rate): U64 {
    rate.burst * 1000
  }

  function PerSecond(rate: Rate): U64 {
    rate.perMinute * 1000 / 60
  }

  /** What a bucket has come back to by `now`, before the ceiling is applied. */
  function Regained(rate: Rate, b: Bucket, now: U64): U64 {
    SatAdd(b.milliTokens, SatMul(SatSub(now, b.touched), PerSecond(rate)))
  }

  predicate Refilled(rate: Rate, b: Bucket, now: U64) {
    Regained(rate, b, now) >= Ceiling(rate)
  }

  // ----- one call

  /** The test one sweep at `now` puts to each bucket it examines. */
  function RefilledAt(rate: Rate, now: U64): Bucket -> bool {
    b => Refilled(rate, b, now)
  }

  /** The state after the oldest key has been examined: forgotten if refilled, sent to the back if not. */
  function SweptOne(s: Buckets, refilled: Bucket -> bool): Buckets
    requires s.order != []
  {
    var oldest := s.order[0];
    if oldest !in s.byKey || refilled(s.byKey[oldest]) then Buckets(s.byKey - {oldest}, s.order[1..])
    else Buckets(s.byKey, s.order[1..] + [oldest])
  }

  /** Examine the `n` oldest keys, one after the other. */
  function Sweep(s: Buckets, n: nat, refilled: Bucket -> bool): Buckets
    requires n <= |s.order|
    decreases n
  {
    if n == 0 then s else Sweep(SweptOne(s, refilled), n - 1, refilled)
  }

  function Spend(rate: Rate, s: Buckets, key: Key, now: U64): (Buckets, Answer)
    requires key in s.byKey
  {
    var milli := Min(Regained(rate, s.byKey[key], now), Ceiling(rate));
    if milli < 1000 then (s.(byKey := s.byKey[key := Bucket(milli, now)]), Limited)
    else (s.(byKey := s.byKey[key := Bucket(milli - 1000, now)]), Allowed)
  }

  function Admit(rate: Rate, capacity: nat, s: Buckets, now: U64): Buckets {
    if |s.byKey| >= capacity then Sweep(s, Min(EVICTION_SWEEP, |s.order|), RefilledAt(rate, now)) else s
  }

  function Call(rate: Rate, capacity: nat, s: Buckets, key: Key, now: U64): (Buckets, Answer) {
    if key in s.byKey then Spend(rate, s, key, now)
    else
      var swept := Admit(rate, capacity, s, now);
      if |swept.byKey| >= capacity then (swept, NoRoom)
      else
        var full := Bucket(Ceiling(rate), now);
        Spend(rate, Buckets(swept.byKey[key := full], swept.order + [key]), key, now)
  }

  /** The limiter as the source runs it: two collections updated in place under one lock. */
  class Limiter {
    const rate: Rate
    const capacity: nat
    var byKey: map<Key, Bucket>
    var order: seq<Key>

    constructor (rate: Rate, capacity: nat)
      ensures this.rate == rate
      ensures this.capacity == if capacity == 0 then 1 else capacity
      ensures Buckets(byKey, order) == Buckets(map[], [])
    {
      this.rate := rate;
      this.capacity := if capacity == 0 then 1 else capacity;
      byKey := map[];
      order := [];
    }

    /** The eviction sweep: at most `EVICTION_SWEEP` pops from the front of the queue. */
    method SweepInPlace(now: U64)
      modifies this
      ensures Buckets(byKey, order) ==
              old(Sweep(Buckets(byKey, order), Min(EVICTION_SWEEP, |order|), RefilledAt(rate, now)))
    {
      ghost var before := Buckets(byKey, order);
      ghost var refilled := RefilledAt(rate, now);
      var steps := Min(EVICTION_SWEEP, |order|);
      for i := 0 to steps
        invariant steps - i <= |order|
        invariant Sweep(Buckets(byKey, order), steps - i, refilled) == Sweep(before, steps, refilled)
      {
        var oldest := order[0];
        order := order[1..];
        if oldest !in byKey || Refilled(rate, byKey[oldest], now) {
          byKey := byKey - {oldest};
        } else {
          order := order + [oldest];
        }
      }
    }

    method Allow(key: Key, now: U64) returns (ok: bool)
      modifies this
      ensures Buckets(byKey, order) == Call(rate, capacity, old(Buckets(byKey, order)), key, now).0
      ensures ok <==> Call(rate, capacity, old(Buckets(byKey, order)), key, now).1 == Allowed
    {
      var ceiling := Ceiling(rate);
      if key !in byKey {
        if |byKey| >= capacity {
          SweepInPlace(now);
          if |byKey| >= capacity {
            return false;
          }
        }
        byKey := byKey[key := Bucket(ceiling, now)];
        order := order + [key];
      }
      var milli := Min(Regained(rate, byKey[key], now), ceiling);
      if milli < 1000 {
        byKey := byKey[key := Bucket(milli, now)];
        return false;
      }
      byKey := byKey[key := Bucket(milli - 1000, now)];
      return true;
    }
  }

  // ----- what a state promises

  ghost predicate Distinct(keys: seq<Key>) {
    forall i, j | 0 <= i < j < |keys| :: keys[i] != keys[j]
  }

  /** The queue lists exactly the map's keys, once each. */
  ghost predicate Linked(s: Buckets) {
    && Distinct(s.order)
    && (forall i | 0 <= i < |s.order| :: s.order[i] in s.byKey)
    && (forall k | k in s.byKey :: k in s.order)
  }

  ghost predicate Sane(rate: Rate, s: Buckets) {
    forall k | k in s.byKey :: s.byKey[k].milliTokens <= Ceiling(rate)
  }

  ghost predicate Valid(rate: Rate, capacity: nat, s: Buckets) {
    Linked(s) && Sane(rate, s) && |s.byKey| <= capacity
  }

  /** No bucket was touched after `now`. */
  ghost predicate Current(s: Buckets, now: U64) {
    forall k | k in s.byKey :: s.byKey[k].touched <= now
  }

  /** The level of one bucket at `now`, in plain integers: only the clock's own difference stops at zero. */
  function BucketLevel(rate: Rate, b: Bucket, now: U64): int {
    Min(Ceiling(rate), b.milliTokens + SatSub(now, b.touched) * PerSecond(rate))
  }

  /** The allowance `key` has left at `now`: a key nobody remembers has all of it. */
  function Level(rate: Rate, s: Buckets, key: Key, now: U64): int {
    if key in s.byKey then BucketLevel(rate, s.byKey[key], now) else Ceiling(rate)
  }

  /** Saturation is never visible: the u64 computation gives the unbounded one's answer, on any clock. */
  lemma SaturationInvisible(rate: Rate, b: Bucket, now: U64)
    requires b.milliTokens <= Ceiling(rate)
    ensures Min(Regained(rate, b, now), Ceiling(rate)) == BucketLevel(rate, b, now)
    ensures Refilled(rate, b, now) <==> BucketLevel(rate, b, now) == Ceiling(rate)
  {
  }

  /** Time only adds, at most `PerSecond` a second, and reading a bucket early changes nothing. */
  lemma LevelOverTime(rate: Rate, b: Bucket, now: U64, later: U64)
    requires b.milliTokens <= Ceiling(rate) && now <= later
    ensures 0 <= BucketLevel(rate, b, now) <= BucketLevel(rate, b, later)
    ensures BucketLevel(rate, b, later) <= BucketLevel(rate, b, now) + (later - now) * PerSecond(rate)
    ensures b.touched <= now ==>
              BucketLevel(rate, Bucket(BucketLevel(rate, b, now), now), later) == BucketLevel(rate, b, later)
  {
    var r := PerSecond(rate);
    var before, between := SatSub(now, b.touched), SatSub(later, b.touched) - SatSub(now, b.touched);
    MulNonNegative(before, r);
    MulNonNegative(between, r);
    MulNonNegative(later - now - between, r);
    Distribute(before, between, r);
    Distribute(between, later - now - between, r);
  }

  // ----- the sweep, without its recursion

  function Kept(byKey: map<Key, Bucket>, keys: seq<Key>, refilled: Bucket -> bool): (kept: seq<Key>)
    requires forall i | 0 <= i < |keys| :: keys[i] in byKey
  {
    if keys == [] then []
    else (if refilled(byKey[keys[0]]) then [] else [keys[0]]) + Kept(byKey, keys[1..], refilled)
  }

  lemma {:induction false} KeptFrame(m: map<Key, Bucket>, m': map<Key, Bucket>, keys: seq<Key>,
                                     refilled: Bucket -> bool)
    requires forall i | 0 <= i < |keys| :: keys[i] in m && keys[i] in m' && m[keys[i]] == m'[keys[i]]
    ensures Kept(m, keys, refilled) == Kept(m', keys, refilled)
  {
    if keys != [] {
      KeptFrame(m, m', keys[1..], refilled);
    }
  }

  lemma LinkedAfterOne(s: Buckets, refilled: Bucket -> bool)
    requires Linked(s) && s.order != []
    ensures Linked(SweptOne(s, refilled))
  {
  }

  /** The part of `Linked` a sweep of `n` keys leans on. */
  ghost predicate Sweepable(s: Buckets, n: nat) {
    && n <= |s.order|
    && Distinct(s.order)
    && (forall i | 0 <= i < n :: s.order[i] in s.byKey)
  }

  lemma RotateOne(order: seq<Key>, n: nat)
    requires 0 < n <= |order|
    ensures order[1..][..n - 1] == order[1..n]
    ensures (order[1..] + [order[0]])[..n - 1] == order[1..n]
    ensures order[1..][n - 1..] == order[n..]
    ensures (order[1..] + [order[0]])[n - 1..] == order[n..] + [order[0]]
    ensures order[..n] == [order[0]] + order[1..n]
  {
  }

  lemma RotateDistinct(order: seq<Key>)
    requires order != [] && Distinct(order)
    ensures Distinct(order[1..]) && Distinct(order[1..] + [order[0]])
    ensures order[0] !in order[1..]
  {
  }

  lemma SweepableAfterOne(s: Buckets, n: nat, refilled: Bucket -> bool)
    requires 0 < n && Sweepable(s, n)
    ensures Sweepable(SweptOne(s, refilled), n - 1)
    ensures forall i | 0 <= i < n - 1 ::
              var k := s.order[1..n][i];
              k in s.byKey && k in SweptOne(s, refilled).byKey && SweptOne(s, refilled).byKey[k] == s.byKey[k]
  {
  }

  lemma Regroup(front: seq<Key>, k: Key, back: seq<Key>)
    ensures front + [k] + back == front + ([k] + back)
  {
  }

  /** One sweep examines exactly the `n` oldest keys, none twice; those not refilled go behind the others, in order. */
  lemma {:induction false} SweepOrder(s: Buckets, n: nat, refilled: Bucket -> bool)
    requires Sweepable(s, n)
    ensures Sweep(s, n, refilled).order == s.order[n..] + Kept(s.byKey, s.order[..n], refilled)
    decreases n
  {
    if n > 0 {
      var s' := SweptOne(s, refilled);
      SweepableAfterOne(s, n, refilled);
      RotateOne(s.order, n);
      SweepOrder(s', n - 1, refilled);
      KeptFrame(s.byKey, s'.byKey, s.order[1..n], refilled);
      assert s.order[..n][1..] == s.order[1..n];
      Regroup(s.order[n..], s.order[0], Kept(s.byKey, s.order[1..n], refilled));
    }
  }

  /** Exactly the refilled ones among the `n` oldest are forgotten; every other bucket is untouched. */
  lemma {:induction false} SweepForgets(s: Buckets, n: nat, refilled: Bucket -> bool, k: Key)
    requires Sweepable(s, n)
    ensures var r := Sweep(s, n, refilled).byKey;
            && (k in r <==> k in s.byKey && !(k in s.order[..n] && refilled(s.byKey[k])))
            && (k in r ==> r[k] == s.byKey[k])
    decreases n
  {
    if n > 0 {
      var s' := SweptOne(s, refilled);
      SweepableAfterOne(s, n, refilled);
      RotateOne(s.order, n);
      RotateDistinct(s.order);
      SweepForgets(s', n - 1, refilled, k);
      assert k in s.order[..n] <==> k == s.order[0] || k in s.order[1..n];
      assert s'.order[..n - 1] == s.order[1..n];
      assert s.order[0] !in s.order[1..n] by {
        assert forall i | 0 <= i < n - 1 :: s.order[1..n][i] == s.order[1..][i];
      }
    }
  }

  lemma {:induction false} SweepLinked(s: Buckets, n: nat, refilled: Bucket -> bool)
    requires Linked(s) && n <= |s.order|
    ensures Linked(Sweep(s, n, refilled))
    decreases n
  {
    if n > 0 {
      LinkedAfterOne(s, refilled);
      SweepLinked(SweptOne(s, refilled), n - 1, refilled);
    }
  }
}
