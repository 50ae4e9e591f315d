/** What the bounded limiter guarantees over whole runs, measured against buckets nobody ever forgets. */
module RateLimiterRuns {
  import opened Bytes
  import opened Saturating
  import opened RateLimiter

  // ----- the effect of one call

  lemma SubsetSize<T>(a: set<T>, b: set<T>)
    requires a <= b
    ensures |a| <= |b|
    ensures |a| == |b| ==> a == b
  {
    assert b == a + (b - a);
    assert |b| == |a| + |b - a|;
  }

  lemma AdmitEffect(rate: Rate, capacity: nat, s: Buckets, now: U64, k: Key)
    requires Valid(rate, capacity, s)
    ensures var swept := Admit(rate, capacity, s, now).byKey;
            && (k in swept ==> k in s.byKey && swept[k] == s.byKey[k])
            && (k in s.byKey && k !in swept ==> BucketLevel(rate, s.byKey[k], now) == Ceiling(rate))
  {
    if |s.byKey| >= capacity {
      SweepForgets(s, Min(EVICTION_SWEEP, |s.order|), RefilledAt(rate, now), k);
      if k in s.byKey {
        SaturationInvisible(rate, s.byKey[k], now);
      }
    }
  }

  lemma AdmitKeepsValid(rate: Rate, capacity: nat, s: Buckets, now: U64)
    requires Valid(rate, capacity, s)
    ensures Valid(rate, capacity, Admit(rate, capacity, s, now))
  {
    var swept := Admit(rate, capacity, s, now);
    if |s.byKey| >= capacity {
      SweepLinked(s, Min(EVICTION_SWEEP, |s.order|), RefilledAt(rate, now));
    }
    forall k | k in swept.byKey
      ensures k in s.byKey && swept.byKey[k] == s.byKey[k]
    {
      AdmitEffect(rate, capacity, s, now, k);
    }
    assert swept.byKey.Keys <= s.byKey.Keys;
    SubsetSize(swept.byKey.Keys, s.byKey.Keys);
  }

  /** The bucket a call on `key` leaves behind, when the limiter has room for it. */
  function Spent(level: int): int {
    if level >= 1000 then level - 1000 else level
  }

  lemma SpendEffect(rate: Rate, s: Buckets, key: Key, now: U64)
    requires key in s.byKey && s.byKey[key].milliTokens <= Ceiling(rate)
    ensures var level := Level(rate, s, key, now);
            && 0 <= level <= Ceiling(rate)
            && Spend(rate, s, key, now).1 == (if level >= 1000 then Allowed else Limited)
            && Spend(rate, s, key, now).0 == s.(byKey := s.byKey[key := Bucket(Spent(level), now)])
  {
    SaturationInvisible(rate, s.byKey[key], now);
    LevelOverTime(rate, s.byKey[key], now, now);
  }

  lemma LinkedInsert(s: Buckets, key: Key, b: Bucket)
    requires Linked(s) && key !in s.byKey
    ensures Linked(Buckets(s.byKey[key := b], s.order + [key]))
  {
  }

  /** The state a call spends from: the same as before, or with a full bucket for the newcomer. */
  function Prepared(rate: Rate, capacity: nat, s: Buckets, key: Key, now: U64): Buckets {
    if key in s.byKey then s
    else
      var swept := Admit(rate, capacity, s, now);
      Buckets(swept.byKey[key := Bucket(Ceiling(rate), now)], swept.order + [key])
  }

  lemma PreparedEffect(rate: Rate, capacity: nat, s: Buckets, key: Key, now: U64)
    requires Valid(rate, capacity, s)
    requires Call(rate, capacity, s, key, now).1 != NoRoom
    ensures Valid(rate, capacity, Prepared(rate, capacity, s, key, now))
    ensures Call(rate, capacity, s, key, now) == Spend(rate, Prepared(rate, capacity, s, key, now), key, now)
    ensures Level(rate, Prepared(rate, capacity, s, key, now), key, now) == Level(rate, s, key, now)
  {
    if key !in s.byKey {
      var swept := Admit(rate, capacity, s, now);
      AdmitKeepsValid(rate, capacity, s, now);
      AdmitEffect(rate, capacity, s, now, key);
      LinkedInsert(swept, key, Bucket(Ceiling(rate), now));
      assert swept.byKey[key := Bucket(Ceiling(rate), now)].Keys == swept.byKey.Keys + {key};
    }
  }

  lemma SpendKeepsValid(rate: Rate, capacity: nat, s: Buckets, key: Key, now: U64)
    requires Valid(rate, capacity, s) && key in s.byKey
    ensures Valid(rate, capacity, Spend(rate, s, key, now).0)
  {
    SpendEffect(rate, s, key, now);
    assert Spend(rate, s, key, now).0.byKey.Keys == s.byKey.Keys;
  }

  /** Every call keeps the queue and the map in step, the map inside its capacity, the levels sane. */
  lemma CallKeepsValid(rate: Rate, capacity: nat, s: Buckets, key: Key, now: U64)
    requires Valid(rate, capacity, s)
    ensures Valid(rate, capacity, Call(rate, capacity, s, key, now).0)
  {
    if Call(rate, capacity, s, key, now).1 == NoRoom {
      AdmitKeepsValid(rate, capacity, s, now);
    } else {
      PreparedEffect(rate, capacity, s, key, now);
      SpendKeepsValid(rate, capacity, Prepared(rate, capacity, s, key, now), key, now);
    }
  }

  lemma CallKeepsCurrent(rate: Rate, capacity: nat, s: Buckets, key: Key, now: U64)
    requires Valid(rate, capacity, s) && Current(s, now)
    ensures Current(Call(rate, capacity, s, key, now).0, now)
  {
    var s' := Call(rate, capacity, s, key, now).0;
    forall k | k in s'.byKey
      ensures s'.byKey[k].touched <= now
    {
      if k == key && Call(rate, capacity, s, key, now).1 != NoRoom {
        CallOnOwnKey(rate, capacity, s, key, now);
      } else {
        CallOnOtherKey(rate, capacity, s, key, now, k);
      }
    }
  }

  /** A call is answered from the caller's allowance alone, and takes nothing else from anybody. */
  lemma CallOnOwnKey(rate: Rate, capacity: nat, s: Buckets, key: Key, now: U64)
    requires Valid(rate, capacity, s)
    requires Call(rate, capacity, s, key, now).1 != NoRoom
    ensures var level := Level(rate, s, key, now);
            && Call(rate, capacity, s, key, now).1 == (if level >= 1000 then Allowed else Limited)
            && 0 <= level <= Ceiling(rate)
            && key in Call(rate, capacity, s, key, now).0.byKey
            && Call(rate, capacity, s, key, now).0.byKey[key] == Bucket(Spent(level), now)
  {
    PreparedEffect(rate, capacity, s, key, now);
    SpendEffect(rate, Prepared(rate, capacity, s, key, now), key, now);
  }

  /** How a call can leave another key's bucket: as it was, or forgotten because it was full. */
  lemma CallOnOtherKey(rate: Rate, capacity: nat, s: Buckets, key: Key, now: U64, k: Key)
    requires Valid(rate, capacity, s)
    requires k != key || Call(rate, capacity, s, key, now).1 == NoRoom
    ensures var s' := Call(rate, capacity, s, key, now).0;
            && (k in s'.byKey ==> k in s.byKey && s'.byKey[k] == s.byKey[k])
            && (k in s.byKey && k !in s'.byKey ==> BucketLevel(rate, s.byKey[k], now) == Ceiling(rate))
  {
    AdmitEffect(rate, capacity, s, now, k);
    if Call(rate, capacity, s, key, now).1 != NoRoom {
      PreparedEffect(rate, capacity, s, key, now);
      SpendEffect(rate, Prepared(rate, capacity, s, key, now), key, now);
    }
  }

  /** Eviction and refusal forget nothing: from now on, every other allowance is what it would have been. */
  lemma OtherLevelsUnchanged(rate: Rate, capacity: nat, s: Buckets, key: Key, now: U64, k: Key, later: U64)
    requires Valid(rate, capacity, s) && now <= later
    requires k != key || Call(rate, capacity, s, key, now).1 == NoRoom
    ensures var s' := Call(rate, capacity, s, key, now).0;
            Level(rate, s', k, later) == Level(rate, s, k, later)
  {
    CallOnOtherKey(rate, capacity, s, key, now, k);
    if k in s.byKey {
      LevelOverTime(rate, s.byKey[k], now, later);
    }
  }

  // ----- runs

  datatype Request = Request(key: Key, now: U64)

  /** A run from the empty limiter, on whatever clock its requests show. */
  datatype Run = Run(states: seq<Buckets>, requests: seq<Request>, answers: seq<Answer>)

  ghost predicate IsRun(rate: Rate, capacity: nat, run: Run) {
    && |run.states| == |run.requests| + 1
    && |run.answers| == |run.requests|
    && run.states[0] == Buckets(map[], [])
    && (forall i | 0 <= i < |run.requests| :: StepAt(rate, capacity, run, i))
  }

  ghost predicate StepAt(rate: Rate, capacity: nat, run: Run, i: nat)
    requires |run.states| == |run.requests| + 1 && |run.answers| == |run.requests| && i < |run.requests|
  {
    (run.states[i + 1], run.answers[i])
    == Call(rate, capacity, run.states[i], run.requests[i].key, run.requests[i].now)
  }

  ghost predicate ClockForward(requests: seq<Request>) {
    forall i, j | 0 <= i <= j < |requests| :: requests[i].now <= requests[j].now
  }

  /** In every reachable state the queue lists exactly the map's keys and the map fits its capacity. */
  lemma {:induction false} RunKeepsValid(rate: Rate, capacity: nat, run: Run, i: nat)
    requires IsRun(rate, capacity, run) && i < |run.requests|
    ensures Valid(rate, capacity, run.states[i])
    ensures Valid(rate, capacity, run.states[i + 1])
  {
    if i > 0 {
      RunKeepsValid(rate, capacity, run, i - 1);
    }
    assert StepAt(rate, capacity, run, i);
    CallKeepsValid(rate, capacity, run.states[i], run.requests[i].key, run.requests[i].now);
  }

  /** On a clock that never goes back, no bucket is ever ahead of it. */
  lemma {:induction false} RunStaysCurrent(rate: Rate, capacity: nat, run: Run, i: nat)
    requires IsRun(rate, capacity, run) && ClockForward(run.requests) && i < |run.requests|
    ensures Current(run.states[i], run.requests[i].now)
    ensures Current(run.states[i + 1], run.requests[i].now)
  {
    if i > 0 {
      RunStaysCurrent(rate, capacity, run, i - 1);
      assert run.requests[i - 1].now <= run.requests[i].now;
    }
    RunKeepsValid(rate, capacity, run, i);
    assert StepAt(rate, capacity, run, i);
    CallKeepsCurrent(rate, capacity, run.states[i], run.requests[i].key, run.requests[i].now);
  }

  // ----- refinement: the limiter answers as if it never forgot anybody

  type Ideal = map<Key, Bucket>

  function IdealLevel(rate: Rate, ideal: Ideal, key: Key, now: U64): int {
    Level(rate, Buckets(ideal, []), key, now)
  }

  /** One call on unbounded buckets: no queue, no capacity, no sweep. */
  function IdealCall(rate: Rate, ideal: Ideal, key: Key, now: U64): (Ideal, Answer) {
    LevelRange(rate, Buckets(ideal, []), key, now);
    var level := IdealLevel(rate, ideal, key, now);
    (ideal[key := Bucket(Spent(level), now)], if level >= 1000 then Allowed else Limited)
  }

  lemma LevelRange(rate: Rate, s: Buckets, key: Key, now: U64)
    ensures 0 <= Level(rate, s, key, now) <= Ceiling(rate)
  {
    if key in s.byKey {
      MulNonNegative(SatSub(now, s.byKey[key].touched), PerSecond(rate));
    }
  }

  /** What the limiter remembers is what the ideal remembers; what it forgot is full there too. */
  ghost predicate Agrees(rate: Rate, s: Buckets, ideal: Ideal, now: U64) {
    && (forall k | k in ideal :: ideal[k].milliTokens <= Ceiling(rate))
    && (forall k | k in s.byKey :: k in ideal && ideal[k] == s.byKey[k])
    && (forall k | k in ideal && k !in s.byKey :: BucketLevel(rate, ideal[k], now) == Ceiling(rate))
  }

  lemma AgreesLater(rate: Rate, s: Buckets, ideal: Ideal, now: U64, later: U64)
    requires Agrees(rate, s, ideal, now) && now <= later
    ensures Agrees(rate, s, ideal, later)
  {
    forall k | k in ideal && k !in s.byKey
      ensures BucketLevel(rate, ideal[k], later) == Ceiling(rate)
    {
      LevelOverTime(rate, ideal[k], now, later);
    }
  }

  lemma AgreeOnLevel(rate: Rate, s: Buckets, ideal: Ideal, k: Key, now: U64)
    requires Agrees(rate, s, ideal, now)
    ensures IdealLevel(rate, ideal, k, now) == Level(rate, s, k, now)
  {
  }

  lemma RefinesCall(rate: Rate, capacity: nat, s: Buckets, ideal: Ideal, key: Key, now: U64)
    requires Valid(rate, capacity, s) && Agrees(rate, s, ideal, now)
    requires Call(rate, capacity, s, key, now).1 != NoRoom
    ensures IdealCall(rate, ideal, key, now).1 == Call(rate, capacity, s, key, now).1
    ensures Agrees(rate, Call(rate, capacity, s, key, now).0, IdealCall(rate, ideal, key, now).0, now)
  {
    CallOnOwnKey(rate, capacity, s, key, now);
    AgreeOnLevel(rate, s, ideal, key, now);
    var s' := Call(rate, capacity, s, key, now).0;
    var ideal' := IdealCall(rate, ideal, key, now).0;
    forall k | k in ideal' && k != key
      ensures k in s'.byKey ==> ideal'[k] == s'.byKey[k]
      ensures k !in s'.byKey ==> BucketLevel(rate, ideal'[k], now) == Ceiling(rate)
    {
      CallOnOtherKey(rate, capacity, s, key, now, k);
    }
    forall k | k in s'.byKey
      ensures k in ideal'
    {
      if k != key {
        CallOnOtherKey(rate, capacity, s, key, now, k);
      }
    }
  }

  lemma RefinesRefusal(rate: Rate, capacity: nat, s: Buckets, ideal: Ideal, key: Key, now: U64)
    requires Valid(rate, capacity, s) && Agrees(rate, s, ideal, now)
    requires Call(rate, capacity, s, key, now).1 == NoRoom
    ensures Agrees(rate, Call(rate, capacity, s, key, now).0, ideal, now)
  {
    var s' := Call(rate, capacity, s, key, now).0;
    forall k
      ensures k in s'.byKey ==> k in ideal && ideal[k] == s'.byKey[k]
      ensures k in ideal && k !in s'.byKey ==> BucketLevel(rate, ideal[k], now) == Ceiling(rate)
    {
      CallOnOtherKey(rate, capacity, s, key, now, k);
    }
  }

  /** The ideal limiter's history of the first `n` calls: those refused for lack of room never reach it. */
  ghost predicate IsIdealRun(rate: Rate, run: Run, ideals: seq<Ideal>, idealAnswers: seq<Answer>, n: nat) {
    && n <= |run.requests| == |run.answers|
    && |ideals| == n + 1 && |idealAnswers| == n
    && ideals[0] == map[]
    && (forall i | 0 <= i < n :: IdealAt(rate, run, ideals, idealAnswers, i))
  }

  ghost predicate IdealAt(rate: Rate, run: Run, ideals: seq<Ideal>, idealAnswers: seq<Answer>, i: nat)
    requires i < |run.requests| == |run.answers| && i < |idealAnswers| && i + 1 < |ideals|
  {
    if run.answers[i] == NoRoom then ideals[i + 1] == ideals[i]
    else (ideals[i + 1], idealAnswers[i]) == IdealCall(rate, ideals[i], run.requests[i].key, run.requests[i].now)
  }

  lemma RefinesStep(rate: Rate, capacity: nat, s: Buckets, s': Buckets, answer: Answer,
                    ideal: Ideal, ideal': Ideal, idealAnswer: Answer, request: Request)
    requires Valid(rate, capacity, s) && Agrees(rate, s, ideal, request.now)
    requires (s', answer) == Call(rate, capacity, s, request.key, request.now)
    requires if answer == NoRoom then ideal' == ideal
             else (ideal', idealAnswer) == IdealCall(rate, ideal, request.key, request.now)
    ensures answer != NoRoom ==> idealAnswer == answer
    ensures Agrees(rate, s', ideal', request.now)
  {
    if answer == NoRoom {
      RefinesRefusal(rate, capacity, s, ideal, request.key, request.now);
    } else {
      RefinesCall(rate, capacity, s, ideal, request.key, request.now);
    }
  }

  lemma RefinesAt(rate: Rate, capacity: nat, run: Run, ideals: seq<Ideal>, idealAnswers: seq<Answer>, n: nat, i: nat)
    requires IsRun(rate, capacity, run) && ClockForward(run.requests)
    requires IsIdealRun(rate, run, ideals, idealAnswers, n) && i < n
    requires Agrees(rate, run.states[i], ideals[i], run.requests[i].now)
    ensures run.answers[i] != NoRoom ==> idealAnswers[i] == run.answers[i]
    ensures Agrees(rate, run.states[i + 1], ideals[i + 1], run.requests[i].now)
  {
    RunKeepsValid(rate, capacity, run, i);
    assert StepAt(rate, capacity, run, i);
    assert IdealAt(rate, run, ideals, idealAnswers, i);
    RefinesStep(rate, capacity, run.states[i], run.states[i + 1], run.answers[i],
                ideals[i], ideals[i + 1], idealAnswers[i], run.requests[i]);
  }

  /** The main refinement: every call there was room for is answered as the unbounded limiter answers it. */
  lemma {:induction false} BoundedRefinesIdeal(rate: Rate, capacity: nat, run: Run, ideals: seq<Ideal>,
                                               idealAnswers: seq<Answer>, n: nat, i: nat)
    requires IsRun(rate, capacity, run) && ClockForward(run.requests)
    requires IsIdealRun(rate, run, ideals, idealAnswers, n) && i < n
    ensures run.answers[i] != NoRoom ==> idealAnswers[i] == run.answers[i]
    ensures Agrees(rate, run.states[i + 1], ideals[i + 1], run.requests[i].now)
  {
    if i > 0 {
      BoundedRefinesIdeal(rate, capacity, run, ideals, idealAnswers, n, i - 1);
      AgreesLater(rate, run.states[i], ideals[i], run.requests[i - 1].now, run.requests[i].now);
    }
    RefinesAt(rate, capacity, run, ideals, idealAnswers, n, i);
  }

  lemma ExtendIdealRun(rate: Rate, run: Run, ideals: seq<Ideal>, idealAnswers: seq<Answer>, n: nat,
                       ideal: Ideal, answer: Answer)
    requires IsIdealRun(rate, run, ideals, idealAnswers, n) && n < |run.requests|
    requires if run.answers[n] == NoRoom then ideal == ideals[n]
             else (ideal, answer) == IdealCall(rate, ideals[n], run.requests[n].key, run.requests[n].now)
    ensures IsIdealRun(rate, run, ideals + [ideal], idealAnswers + [answer], n + 1)
  {
    forall i | 0 <= i < n + 1
      ensures IdealAt(rate, run, ideals + [ideal], idealAnswers + [answer], i)
    {
      if i < n {
        assert IdealAt(rate, run, ideals, idealAnswers, i);
      }
    }
  }

  /** There is always an ideal run to compare with. */
  lemma {:induction false} IdealRunExists(rate: Rate, run: Run, n: nat)
    returns (ideals: seq<Ideal>, idealAnswers: seq<Answer>)
    requires n <= |run.requests| == |run.answers|
    ensures IsIdealRun(rate, run, ideals, idealAnswers, n)
  {
    if n == 0 {
      ideals, idealAnswers := [map[]], [];
    } else {
      ideals, idealAnswers := IdealRunExists(rate, run, n - 1);
      var request := run.requests[n - 1];
      var next := IdealCall(rate, ideals[n - 1], request.key, request.now);
      var ideal := if run.answers[n - 1] == NoRoom then ideals[n - 1] else next.0;
      ExtendIdealRun(rate, run, ideals, idealAnswers, n - 1, ideal, next.1);
      ideals, idealAnswers := ideals + [ideal], idealAnswers + [next.1];
    }
  }

  // ----- the bound on any key over any window

  /** 1 if call `i` was made by `key` and allowed. */
  ghost function Hit(run: Run, key: Key, i: nat): nat
    requires i < |run.requests| == |run.answers|
  {
    if run.requests[i].key == key && run.answers[i] == Allowed then 1 else 0
  }

  /** How many of the calls `i..j` were made by `key` and allowed. */
  ghost function AllowedCount(run: Run, key: Key, i: nat, j: nat): nat
    requires i <= j <= |run.requests| == |run.answers|
    decreases j
  {
    if i == j then 0 else AllowedCount(run, key, i, j - 1) + Hit(run, key, j - 1)
  }

  /** How far the clock went up in all between call `i` and call `j`, its steps back not counted. */
  ghost function Climb(requests: seq<Request>, i: nat, j: nat): nat
    requires i <= j < |requests|
    decreases j
  {
    if i == j then 0 else Climb(requests, i, j - 1) + SatSub(requests[j].now, requests[j - 1].now)
  }

  lemma FreshLevel(rate: Rate, milli: U64, now: U64)
    requires milli <= Ceiling(rate)
    ensures BucketLevel(rate, Bucket(milli, now), now) == milli
  {
  }

  /** A call takes 1000 from its own key when it is allowed, and nothing from anybody otherwise. */
  lemma StepPotential(rate: Rate, capacity: nat, s: Buckets, s': Buckets, answer: Answer, request: Request, key: Key)
    requires Valid(rate, capacity, s)
    requires (s', answer) == Call(rate, capacity, s, request.key, request.now)
    ensures Level(rate, s', key, request.now) + (if request.key == key && answer == Allowed then 1000 else 0)
         == Level(rate, s, key, request.now)
  {
    if request.key != key || answer == NoRoom {
      OtherLevelsUnchanged(rate, capacity, s, request.key, request.now, key, request.now);
    } else {
      CallOnOwnKey(rate, capacity, s, key, request.now);
      FreshLevel(rate, Spent(Level(rate, s, key, request.now)), request.now);
    }
  }

  lemma HitCosts(rate: Rate, capacity: nat, run: Run, key: Key, i: nat)
    requires IsRun(rate, capacity, run) && i < |run.requests|
    ensures Level(rate, run.states[i + 1], key, run.requests[i].now) + 1000 * Hit(run, key, i)
         == Level(rate, run.states[i], key, run.requests[i].now)
  {
    RunKeepsValid(rate, capacity, run, i);
    assert StepAt(rate, capacity, run, i);
    StepPotential(rate, capacity, run.states[i], run.states[i + 1], run.answers[i], run.requests[i], key);
  }

  /** Between two calls an allowance grows by at most the refill of the clock's own climb. */
  lemma WaitEarns(rate: Rate, s: Buckets, key: Key, now: U64, next: U64)
    requires Sane(rate, s)
    ensures Level(rate, s, key, next) <= Level(rate, s, key, now) + SatSub(next, now) * PerSecond(rate)
  {
    MulNonNegative(SatSub(next, now), PerSecond(rate));
    if key in s.byKey {
      if now <= next {
        LevelOverTime(rate, s.byKey[key], now, next);
      } else {
        LevelOverTime(rate, s.byKey[key], next, now);
      }
    }
  }

  lemma {:induction false} WindowPotential(rate: Rate, capacity: nat, run: Run, key: Key, i: nat, j: nat)
    requires IsRun(rate, capacity, run) && i < j <= |run.requests|
    ensures 1000 * AllowedCount(run, key, i, j) + Level(rate, run.states[j], key, run.requests[j - 1].now)
         <= Ceiling(rate) + Climb(run.requests, i, j - 1) * PerSecond(rate)
    decreases j
  {
    HitCosts(rate, capacity, run, key, j - 1);
    if i < j - 1 {
      WindowPotential(rate, capacity, run, key, i, j - 1);
      var before, now := run.requests[j - 2].now, run.requests[j - 1].now;
      RunKeepsValid(rate, capacity, run, j - 1);
      WaitEarns(rate, run.states[j - 1], key, before, now);
      Distribute(Climb(run.requests, i, j - 2), SatSub(now, before), PerSecond(rate));
    } else {
      LevelRange(rate, run.states[i], key, run.requests[i].now);
      assert AllowedCount(run, key, i, i) == 0;
    }
  }

  /**
   * No key gets more than its burst and the refill of the clock's climb, over any window of any run:
   * with evictions, with refusals, and on a clock that jumps either way.
   */
  lemma ClimbBound(rate: Rate, capacity: nat, run: Run, key: Key, i: nat, j: nat)
    requires IsRun(rate, capacity, run) && i < j <= |run.requests|
    ensures 1000 * AllowedCount(run, key, i, j)
         <= rate.burst * 1000 + Climb(run.requests, i, j - 1) * (rate.perMinute * 1000 / 60)
  {
    WindowPotential(rate, capacity, run, key, i, j);
    LevelRange(rate, run.states[j], key, run.requests[j - 1].now);
  }

  lemma {:induction false} ForwardClimb(requests: seq<Request>, i: nat, j: nat)
    requires ClockForward(requests) && i <= j < |requests|
    ensures Climb(requests, i, j) == requests[j].now - requests[i].now
    decreases j
  {
    if i < j {
      ForwardClimb(requests, i, j - 1);
    }
  }

  /** On a clock that never goes back that is the burst and the refill of the elapsed time. */
  lemma WindowBound(rate: Rate, capacity: nat, run: Run, key: Key, i: nat, j: nat)
    requires IsRun(rate, capacity, run) && ClockForward(run.requests) && i < j <= |run.requests|
    ensures 1000 * AllowedCount(run, key, i, j)
         <= rate.burst * 1000 + (run.requests[j - 1].now - run.requests[i].now) * (rate.perMinute * 1000 / 60)
  {
    ClimbBound(rate, capacity, run, key, i, j);
    ForwardClimb(run.requests, i, j - 1);
  }

  // ----- and what a key is owed

  /** One call of a remembered key, with its numbers written out. */
  lemma CallInNumbers(rate: Rate, capacity: nat, s: Buckets, key: Key, now: U64)
    requires Valid(rate, capacity, s) && key in s.byKey && s.byKey[key].touched <= now
    ensures var b := s.byKey[key];
            var level := Min(rate.burst * 1000, b.milliTokens + (now - b.touched) * (rate.perMinute * 1000 / 60));
            && Call(rate, capacity, s, key, now).1 == (if level >= 1000 then Allowed else Limited)
            && Call(rate, capacity, s, key, now).0.order == s.order
            && Call(rate, capacity, s, key, now).0.byKey
               == s.byKey[key := Bucket(if level >= 1000 then level - 1000 else level, now)]
  {
    SpendEffect(rate, s, key, now);
  }

  /** A newcomer there is room for starts with a whole burst. */
  lemma NewcomerInNumbers(rate: Rate, capacity: nat, s: Buckets, key: Key, now: U64)
    requires Valid(rate, capacity, s) && key !in s.byKey && |s.byKey| < capacity
    ensures Call(rate, capacity, s, key, now).1 == (if rate.burst >= 1 then Allowed else Limited)
    ensures Call(rate, capacity, s, key, now).0.order == s.order + [key]
    ensures Call(rate, capacity, s, key, now).0.byKey
            == s.byKey[key := Bucket(if rate.burst >= 1 then rate.burst * 1000 - 1000 else 0, now)]
  {
    CallOnOwnKey(rate, capacity, s, key, now);
    var full := Buckets(s.byKey[key := Bucket(Ceiling(rate), now)], s.order + [key]);
    SpendEffect(rate, full, key, now);
    FreshLevel(rate, Ceiling(rate), now);
  }

  /** No call between `j` and `i` was one of `key`'s that the limiter had room for. */
  ghost predicate QuietBetween(run: Run, key: Key, j: nat, i: nat)
    requires |run.answers| == |run.requests|
  {
    forall m | j < m < i && m < |run.requests| :: run.requests[m].key != key || run.answers[m] == NoRoom
  }

  /** While a key is quiet, what it will have later does not change. */
  lemma {:induction false} QuietLevel(rate: Rate, capacity: nat, run: Run, key: Key, j: nat, i: nat, later: U64)
    requires IsRun(rate, capacity, run) && ClockForward(run.requests) && j < i <= |run.requests|
    requires QuietBetween(run, key, j, i) && run.requests[i - 1].now <= later
    ensures Level(rate, run.states[i], key, later) == Level(rate, run.states[j + 1], key, later)
    decreases i
  {
    if j + 1 < i {
      QuietLevel(rate, capacity, run, key, j, i - 1, later);
      RunKeepsValid(rate, capacity, run, i - 1);
      assert StepAt(rate, capacity, run, i - 1);
      OtherLevelsUnchanged(rate, capacity, run.states[i - 1], run.requests[i - 1].key, run.requests[i - 1].now,
                           key, later);
    }
  }

  lemma AnswerAt(rate: Rate, capacity: nat, run: Run, i: nat)
    requires IsRun(rate, capacity, run) && i < |run.requests| && run.answers[i] != NoRoom
    ensures var request := run.requests[i];
            && (run.answers[i] == Allowed <==> Level(rate, run.states[i], request.key, request.now) >= 1000)
            && request.key in run.states[i + 1].byKey
            && run.states[i + 1].byKey[request.key].touched == request.now
  {
    RunKeepsValid(rate, capacity, run, i);
    assert StepAt(rate, capacity, run, i);
    CallOnOwnKey(rate, capacity, run.states[i], run.requests[i].key, run.requests[i].now);
  }

  lemma LevelInNumbers(rate: Rate, s: Buckets, key: Key, now: U64)
    requires key in s.byKey && s.byKey[key].touched <= now
    ensures Level(rate, s, key, now) ==
            Min(rate.burst * 1000,
                s.byKey[key].milliTokens + (now - s.byKey[key].touched) * (rate.perMinute * 1000 / 60))
  {
  }

  /**
   * A key is owed what it left behind and what has come back since: over every run, whatever was evicted
   * in between, its next call that is not refused for room is allowed exactly when that makes one token.
   */
  lemma OwedSinceLastCall(rate: Rate, capacity: nat, run: Run, key: Key, j: nat, i: nat)
    requires IsRun(rate, capacity, run) && ClockForward(run.requests) && j < i < |run.requests|
    requires run.requests[j].key == key == run.requests[i].key && QuietBetween(run, key, j, i)
    requires run.answers[j] != NoRoom && run.answers[i] != NoRoom
    ensures key in run.states[j + 1].byKey
    ensures var left := run.states[j + 1].byKey[key].milliTokens;
            var waited := run.requests[i].now - run.requests[j].now;
            run.answers[i] == Allowed <==>
            Min(rate.burst * 1000, left + waited * (rate.perMinute * 1000 / 60)) >= 1000
  {
    AnswerAt(rate, capacity, run, j);
    AnswerAt(rate, capacity, run, i);
    QuietLevel(rate, capacity, run, key, j, i, run.requests[i].now);
    LevelInNumbers(rate, run.states[j + 1], key, run.requests[i].now);
  }

  /** Whoever waits for a token's refill between calls is never told to slow down. */
  lemma PatientIsServed(rate: Rate, capacity: nat, run: Run, key: Key, j: nat, i: nat)
    requires IsRun(rate, capacity, run) && ClockForward(run.requests) && j < i < |run.requests|
    requires run.requests[j].key == key == run.requests[i].key && QuietBetween(run, key, j, i)
    requires run.answers[j] != NoRoom && rate.burst >= 1
    requires (run.requests[i].now - run.requests[j].now) * (rate.perMinute * 1000 / 60) >= 1000
    ensures run.answers[i] != Limited
  {
    if run.answers[i] != NoRoom {
      OwedSinceLastCall(rate, capacity, run, key, j, i);
    }
  }

  // ----- finding room

  /** A sweep that leaves the map as large as it was dropped nobody: it only turned the queue. */
  lemma FruitlessSweep(s: Buckets, n: nat, refilled: Bucket -> bool)
    requires Sweepable(s, n)
    requires |Sweep(s, n, refilled).byKey| >= |s.byKey|
    ensures forall i | 0 <= i < n :: !refilled(s.byKey[s.order[i]])
    ensures Sweep(s, n, refilled) == Buckets(s.byKey, s.order[n..] + s.order[..n])
  {
    var r := Sweep(s, n, refilled).byKey;
    forall k | k in r
      ensures k in s.byKey && r[k] == s.byKey[k]
    {
      SweepForgets(s, n, refilled, k);
    }
    assert r.Keys <= s.byKey.Keys;
    SubsetSize(r.Keys, s.byKey.Keys);
    forall i | 0 <= i < n
      ensures !refilled(s.byKey[s.order[i]])
    {
      SweepForgets(s, n, refilled, s.order[i]);
      assert s.order[..n][i] == s.order[i];
      assert s.order[i] in r.Keys;
    }
    SweepOrder(s, n, refilled);
    KeepsAll(s.byKey, s.order[..n], refilled);
  }

  /** A refusal for lack of room forgets nobody, and all it examined were drained. */
  lemma RefusalTurnsQueue(rate: Rate, capacity: nat, s: Buckets, key: Key, now: U64)
    requires Valid(rate, capacity, s)
    requires Call(rate, capacity, s, key, now).1 == NoRoom
    ensures var n := Min(EVICTION_SWEEP, |s.order|);
            && Call(rate, capacity, s, key, now).0 == Buckets(s.byKey, s.order[n..] + s.order[..n])
            && (forall i | 0 <= i < n :: !Refilled(rate, s.byKey[s.order[i]], now))
  {
    var refilled := RefilledAt(rate, now);
    assert refilled == RefilledAt(rate, now);
    FruitlessSweep(s, Min(EVICTION_SWEEP, |s.order|), refilled);
    assert forall b :: refilled(b) == Refilled(rate, b, now);
  }

  /** Exactly when there is no room: a newcomer, a full map, and none of the sixteen oldest buckets full again. */
  lemma NoRoomExactlyWhen(rate: Rate, capacity: nat, s: Buckets, key: Key, now: U64)
    requires Valid(rate, capacity, s)
    ensures Call(rate, capacity, s, key, now).1 == NoRoom <==>
            && key !in s.byKey && |s.byKey| >= capacity
            && forall i | 0 <= i < |s.order| && i < 16 :: Level(rate, s, s.order[i], now) < rate.burst * 1000
  {
    forall i | 0 <= i < |s.order|
      ensures Refilled(rate, s.byKey[s.order[i]], now) <==> Level(rate, s, s.order[i], now) >= rate.burst * 1000
    {
      SaturationInvisible(rate, s.byKey[s.order[i]], now);
    }
    if Call(rate, capacity, s, key, now).1 == NoRoom {
      RefusalTurnsQueue(rate, capacity, s, key, now);
    } else if key !in s.byKey && |s.byKey| >= capacity {
      RoomWasMade(rate, capacity, s, now);
    }
  }

  /** A sweep that makes room found a bucket full again. */
  lemma RoomWasMade(rate: Rate, capacity: nat, s: Buckets, now: U64)
    requires Valid(rate, capacity, s) && |s.byKey| >= capacity
    requires |Admit(rate, capacity, s, now).byKey| < capacity
    ensures exists i | 0 <= i < |s.order| && i < 16 :: Refilled(rate, s.byKey[s.order[i]], now)
  {
    var n := Min(EVICTION_SWEEP, |s.order|);
    var r := Sweep(s, n, RefilledAt(rate, now)).byKey;
    if forall i | 0 <= i < n :: !Refilled(rate, s.byKey[s.order[i]], now) {
      forall k | k in s.byKey
        ensures k in r.Keys
      {
        SweepForgets(s, n, RefilledAt(rate, now), k);
      }
      assert s.byKey.Keys <= r.Keys;
      SubsetSize(s.byKey.Keys, r.Keys);
    }
  }

  lemma {:induction false} KeepsAll(m: map<Key, Bucket>, keys: seq<Key>, refilled: Bucket -> bool)
    requires forall i | 0 <= i < |keys| :: keys[i] in m && !refilled(m[keys[i]])
    ensures Kept(m, keys, refilled) == keys
  {
    if keys != [] {
      KeepsAll(m, keys[1..], refilled);
      assert keys == [keys[0]] + keys[1..];
    }
  }

  ghost predicate AllRefused(run: Run, i: nat, n: nat) {
    i + n <= |run.answers| && forall k | i <= k < i + n :: run.answers[k] == NoRoom
  }

  /** One refusal either examines the key at place `p`, and finds it drained, or moves it up 16 places. */
  lemma RefusalMovesUp(rate: Rate, capacity: nat, s: Buckets, s': Buckets, request: Request, p: nat)
    requires Valid(rate, capacity, s) && p < |s.order|
    requires Call(rate, capacity, s, request.key, request.now) == (s', NoRoom)
    ensures s'.byKey == s.byKey
    ensures p < EVICTION_SWEEP ==> !Refilled(rate, s.byKey[s.order[p]], request.now)
    ensures p >= EVICTION_SWEEP ==> p - EVICTION_SWEEP < |s'.order| && s'.order[p - EVICTION_SWEEP] == s.order[p]
  {
    RefusalTurnsQueue(rate, capacity, s, request.key, request.now);
    RotatePlace(s.order, p);
  }

  lemma RotatePlace(order: seq<Key>, p: nat)
    requires p < |order|
    ensures var n := Min(EVICTION_SWEEP, |order|);
            p >= EVICTION_SWEEP ==> (order[n..] + order[..n])[p - EVICTION_SWEEP] == order[p]
  {
  }

  lemma RefusalAt(rate: Rate, capacity: nat, run: Run, i: nat, p: nat)
    requires IsRun(rate, capacity, run)
    requires i < |run.requests| && run.answers[i] == NoRoom && p < |run.states[i].order|
    ensures run.states[i + 1].byKey == run.states[i].byKey
    ensures run.states[i].order[p] in run.states[i].byKey
    ensures p < EVICTION_SWEEP ==> !Refilled(rate, run.states[i].byKey[run.states[i].order[p]], run.requests[i].now)
    ensures p >= EVICTION_SWEEP ==>
              && p - EVICTION_SWEEP < |run.states[i + 1].order|
              && run.states[i + 1].order[p - EVICTION_SWEEP] == run.states[i].order[p]
  {
    RunKeepsValid(rate, capacity, run, i);
    assert StepAt(rate, capacity, run, i);
    RefusalMovesUp(rate, capacity, run.states[i], run.states[i + 1], run.requests[i], p);
  }

  /** The key at place `p` of the queue is examined within the first `p / EVICTION_SWEEP + 1` refusals. */
  lemma {:induction false} RefusalsReach(rate: Rate, capacity: nat, run: Run, i: nat, n: nat, p: nat) returns (at: nat)
    requires IsRun(rate, capacity, run) && AllRefused(run, i, n)
    requires p < |run.states[i].order| && p < n * EVICTION_SWEEP
    ensures i <= at < i + n
    ensures run.states[i].order[p] in run.states[i].byKey
    ensures !Refilled(rate, run.states[i].byKey[run.states[i].order[p]], run.requests[at].now)
    decreases n
  {
    RefusalAt(rate, capacity, run, i, p);
    if p < EVICTION_SWEEP {
      at := i;
    } else {
      at := RefusalsReach(rate, capacity, run, i + 1, n - 1, p - EVICTION_SWEEP);
    }
  }

  /**
   * A flood cannot hide room: if newcomers are refused `n` times in a row and `16 * n` covers the
   * queue, then not one of the remembered buckets had refilled when the first of them was refused.
   */
  lemma RefusalsExamineAll(rate: Rate, capacity: nat, run: Run, i: nat, n: nat, key: Key)
    requires IsRun(rate, capacity, run) && ClockForward(run.requests) && AllRefused(run, i, n)
    requires n > 0 && |run.states[i].order| <= n * EVICTION_SWEEP
    requires key in run.states[i].byKey
    ensures run.states[i].byKey[key].touched <= run.requests[i].now
    ensures Level(rate, run.states[i], key, run.requests[i].now) < Ceiling(rate)
  {
    var s := run.states[i];
    RunKeepsValid(rate, capacity, run, i);
    RunStaysCurrent(rate, capacity, run, i);
    assert key in s.order;
    var p :| 0 <= p < |s.order| && s.order[p] == key;
    var at := RefusalsReach(rate, capacity, run, i, n, p);
    var b := s.byKey[key];
    LevelOverTime(rate, b, run.requests[i].now, run.requests[at].now);
    SaturationInvisible(rate, b, run.requests[at].now);
  }

  // ----- why the clock matters

  /** The first moment at which a bucket is full again, if it ever is. */
  function RefillsAt(rate: Rate, b: Bucket): Option<nat> {
    var ceiling, perSecond := Ceiling(rate), PerSecond(rate);
    if b.milliTokens >= ceiling then Some(0)
    else if perSecond == 0 then None
    else Some(b.touched + Rounds(ceiling - b.milliTokens, perSecond))
  }

  /** How many times `step` it takes to make up `missing`. */
  function Rounds(missing: nat, step: nat): nat
    requires step > 0
  {
    (missing + step - 1) / step
  }

  lemma RoundsAreEnough(missing: nat, step: nat, n: nat)
    requires step > 0
    ensures n * step >= missing <==> n >= Rounds(missing, step)
  {
    var r := Rounds(missing, step);
    assert r * step >= missing && (r - 1) * step < missing;
    if n >= r {
      MulNonNegative(n - r, step);
      Distribute(r, n - r, step);
    } else {
      MulNonNegative(r - 1 - n, step);
      Distribute(n, r - 1 - n, step);
    }
  }

  lemma FullFromRefill(rate: Rate, b: Bucket, t: U64)
    requires b.milliTokens <= Ceiling(rate)
    ensures BucketLevel(rate, b, t) == Ceiling(rate) <==> RefillsAt(rate, b).Some? && t >= RefillsAt(rate, b).value
  {
    var missing := Ceiling(rate) - b.milliTokens;
    if missing > 0 && PerSecond(rate) > 0 {
      RoundsAreEnough(missing, PerSecond(rate), SatSub(t, b.touched));
    } else {
      MulNonNegative(SatSub(t, b.touched), PerSecond(rate));
    }
  }

  /**
   * Forgetting a bucket is invisible exactly from the moment it would have been full again. A call made
   * while its clock stood at or past the bucket's last use comes at or after that moment; a clock that
   * later goes back behind it shows the loss.
   */
  lemma ForgettingShowsBeforeRefill(rate: Rate, capacity: nat, s: Buckets, key: Key, now: U64, k: Key, t: U64)
    requires Valid(rate, capacity, s) && k in s.byKey
    requires k !in Call(rate, capacity, s, key, now).0.byKey
    ensures RefillsAt(rate, s.byKey[k]).Some? && RefillsAt(rate, s.byKey[k]).value <= now
    ensures Level(rate, Call(rate, capacity, s, key, now).0, k, t) == Level(rate, s, k, t)
            <==> t >= RefillsAt(rate, s.byKey[k]).value
  {
    if k == key && Call(rate, capacity, s, key, now).1 != NoRoom {
      CallOnOwnKey(rate, capacity, s, key, now);
    }
    CallOnOtherKey(rate, capacity, s, key, now, k);
    FullFromRefill(rate, s.byKey[k], now);
    FullFromRefill(rate, s.byKey[k], t);
  }

  /** On a clock that goes back, a burst of one is spent twice in a window with no elapsed time at all. */
  lemma ClockMustNotGoBack() returns (run: Run)
    ensures IsRun(Rate(1, 60), 1, run)
    ensures run.requests == [Request("a", 10), Request("a", 9), Request("a", 10)]
    ensures run.answers == [Allowed, Limited, Allowed]
    ensures AllowedCount(run, "a", 0, 3) == 2
  {
    var rate := Rate(1, 60);
    var s0 := Buckets(map[], []);
    var s1 := Buckets(map["a" := Bucket(0, 10)], ["a"]);
    var s2 := Buckets(map["a" := Bucket(0, 9)], ["a"]);
    assert Ceiling(rate) == 1000 && PerSecond(rate) == 1000;
    assert Regained(rate, Bucket(1000, 10), 10) == 1000;
    assert Regained(rate, Bucket(0, 10), 9) == 0;
    assert Regained(rate, Bucket(0, 9), 10) == 1000;
    assert map["a" := Bucket(1000, 10)]["a" := Bucket(0, 10)] == s1.byKey;
    assert s1.byKey["a" := Bucket(0, 9)] == s2.byKey;
    assert s2.byKey["a" := Bucket(0, 10)] == s1.byKey;
    assert Spend(rate, Buckets(map["a" := Bucket(1000, 10)], ["a"]), "a", 10) == (s1, Allowed);
    assert Admit(rate, 1, s0, 10) == s0;
    assert s0.order + ["a"] == ["a"];
    assert Call(rate, 1, s0, "a", 10) == (s1, Allowed);
    assert Spend(rate, s1, "a", 9) == (s2, Limited);
    assert Spend(rate, s2, "a", 10) == (s1, Allowed);
    run := Run([s0, s1, s2, s1], [Request("a", 10), Request("a", 9), Request("a", 10)], [Allowed, Limited, Allowed]);
    assert StepAt(rate, 1, run, 0) && StepAt(rate, 1, run, 1) && StepAt(rate, 1, run, 2);
    assert AllowedCount(run, "a", 0, 1) == 1 && AllowedCount(run, "a", 0, 2) == 1;
  }

  lemma FirstUse(capacity: nat, s: Buckets, key: Key, now: U64)
    requires key !in s.byKey && |s.byKey| < capacity
    ensures Call(Rate(1, 60), capacity, s, key, now)
         == (Buckets(s.byKey[key := Bucket(0, now)], s.order + [key]), Allowed)
  {
    var rate := Rate(1, 60);
    assert Ceiling(rate) == 1000 && PerSecond(rate) == 1000;
    assert Regained(rate, Bucket(1000, now), now) == 1000;
    assert s.byKey[key := Bucket(1000, now)][key := Bucket(0, now)] == s.byKey[key := Bucket(0, now)];
  }

  lemma SweepsBoth(x: Key, y: Key, b: Bucket, refilled: Bucket -> bool)
    requires x != y && refilled(b)
    ensures Sweep(Buckets(map[x := b, y := b], [x, y]), 2, refilled) == Buckets(map[], [])
  {
    var both := Buckets(map[x := b, y := b], [x, y]);
    var one := Buckets(map[y := b], [y]);
    assert both.byKey - {x} == one.byKey && both.order[1..] == one.order;
    assert SweptOne(both, refilled) == one;
    assert SweptOne(one, refilled) == Buckets(map[], []);
  }

  /** A newcomer finds both buckets refilled a second later, and takes the place of both. */
  lemma SecondLater(x: Key, y: Key, z: Key)
    requires x != y && y != z && z != x
    ensures var full := Buckets(map[x := Bucket(0, 10), y := Bucket(0, 10)], [x, y]);
            Call(Rate(1, 60), 2, full, z, 11) == (Buckets(map[z := Bucket(0, 11)], [z]), Allowed)
  {
    var full := Buckets(map[x := Bucket(0, 10), y := Bucket(0, 10)], [x, y]);
    var none := Buckets(map[], []);
    assert Regained(Rate(1, 60), Bucket(0, 10), 11) == 1000;
    SweepsBoth(x, y, Bucket(0, 10), RefilledAt(Rate(1, 60), 11));
    assert full.byKey.Keys == {x, y};
    assert Admit(Rate(1, 60), 2, full, 11) == none;
    FirstUse(2, none, z, 11);
    assert none.byKey[z := Bucket(0, 11)] == map[z := Bucket(0, 11)] && none.order + [z] == [z];
  }

  /** Four calls of three callers: the last one comes on a clock one second back. */
  function Overtaking(x: Key, y: Key, z: Key): seq<Request> {
    [Request(x, 10), Request(y, 10), Request(z, 11), Request(x, 10)]
  }

  const FOUR_ALLOWED := [Allowed, Allowed, Allowed, Allowed]

  lemma FirstCalls(x: Key, y: Key)
    requires x != y
    ensures var s1 := Buckets(map[x := Bucket(0, 10)], [x]);
            && Call(Rate(1, 60), 2, Buckets(map[], []), x, 10) == (s1, Allowed)
            && Call(Rate(1, 60), 2, s1, y, 10)
            == (Buckets(map[x := Bucket(0, 10), y := Bucket(0, 10)], [x, y]), Allowed)
  {
    FirstUse(2, Buckets(map[], []), x, 10);
    FirstUse(2, Buckets(map[x := Bucket(0, 10)], [x]), y, 10);
    assert [] + [x] == [x] && [x] + [y] == [x, y];
    assert map[][x := Bucket(0, 10)] == map[x := Bucket(0, 10)];
    assert map[x := Bucket(0, 10)][y := Bucket(0, 10)] == map[x := Bucket(0, 10), y := Bucket(0, 10)];
  }

  lemma OvertakingRun(x: Key, y: Key, z: Key) returns (run: Run)
    requires x != y && y != z && z != x
    ensures IsRun(Rate(1, 60), 2, run) && run.requests == Overtaking(x, y, z) && run.answers == FOUR_ALLOWED
  {
    var s1 := Buckets(map[x := Bucket(0, 10)], [x]);
    var s2 := Buckets(map[x := Bucket(0, 10), y := Bucket(0, 10)], [x, y]);
    var s3 := Buckets(map[z := Bucket(0, 11)], [z]);
    var s4 := Call(Rate(1, 60), 2, s3, x, 10);
    FirstCalls(x, y);
    SecondLater(x, y, z);
    FirstUse(2, s3, x, 10);
    run := FourCalls(Rate(1, 60), 2, Overtaking(x, y, z), s1, s2, s3, s4.0);
  }

  lemma FourCalls(rate: Rate, capacity: nat, requests: seq<Request>, s1: Buckets, s2: Buckets, s3: Buckets, s4: Buckets)
    returns (run: Run)
    requires |requests| == 4
    requires Call(rate, capacity, Buckets(map[], []), requests[0].key, requests[0].now) == (s1, Allowed)
    requires Call(rate, capacity, s1, requests[1].key, requests[1].now) == (s2, Allowed)
    requires Call(rate, capacity, s2, requests[2].key, requests[2].now) == (s3, Allowed)
    requires Call(rate, capacity, s3, requests[3].key, requests[3].now) == (s4, Allowed)
    ensures IsRun(rate, capacity, run) && run.requests == requests && run.answers == FOUR_ALLOWED
  {
    run := Run([Buckets(map[], []), s1, s2, s3, s4], requests, FOUR_ALLOWED);
    assert StepAt(rate, capacity, run, 0) && StepAt(rate, capacity, run, 1);
    assert StepAt(rate, capacity, run, 2) && StepAt(rate, capacity, run, 3);
  }

  lemma IdealRemembers(run: Run, ideals: seq<Ideal>, idealAnswers: seq<Answer>, x: Key, y: Key, z: Key)
    requires x != y && y != z && z != x
    requires run.requests == Overtaking(x, y, z) && run.answers == FOUR_ALLOWED
    requires IsIdealRun(Rate(1, 60), run, ideals, idealAnswers, 4)
    ensures idealAnswers[3] == Limited
  {
    var rate := Rate(1, 60);
    assert Ceiling(rate) == 1000;
    assert IdealAt(rate, run, ideals, idealAnswers, 0) && IdealAt(rate, run, ideals, idealAnswers, 1);
    assert IdealAt(rate, run, ideals, idealAnswers, 2) && IdealAt(rate, run, ideals, idealAnswers, 3);
    assert x in ideals[3] && ideals[3][x] == Bucket(0, 10);
    FreshLevel(rate, 0, 10);
  }

  /** On a clock that goes back, an evicted bucket is missed: the limiter allows what the unbounded one does not. */
  lemma EvictionMustNotBeOvertaken(x: Key, y: Key, z: Key)
    returns (run: Run, ideals: seq<Ideal>, idealAnswers: seq<Answer>)
    requires x != y && y != z && z != x
    ensures IsRun(Rate(1, 60), 2, run) && run.requests == Overtaking(x, y, z)
    ensures IsIdealRun(Rate(1, 60), run, ideals, idealAnswers, 4)
    ensures run.answers[3] == Allowed && idealAnswers[3] == Limited
  {
    run := OvertakingRun(x, y, z);
    ideals, idealAnswers := IdealRunExists(Rate(1, 60), run, 4);
    IdealRemembers(run, ideals, idealAnswers, x, y, z);
  }
}
