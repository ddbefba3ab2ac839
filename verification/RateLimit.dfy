/** The token bucket, over reals and a clock in seconds that never goes back. */
module RateLimit {

  const DEFAULT_REQUESTS_PER_MINUTE := 50
  const POLL_INTERVAL := 0.01

  /** The bucket's state; its capacity and rate stay fixed. */
  datatype Bucket = Bucket(tokens: real, maxTokens: real, refillRate: real, lastRefill: real)

  ghost predicate Valid(b: Bucket) {
    0.0 <= b.tokens <= b.maxTokens && 1.0 <= b.maxTokens && 0.0 < b.refillRate
  }

  /** The tokens earned in some seconds. */
  function Earned(seconds: real, rate: real): real {
    seconds * rate
  }

  /** Earning is linear in the time: more time earns no less, and split time adds up. */
  lemma EarnedLinear(a: real, b: real, rate: real)
    requires rate > 0.0
    ensures Earned(a + b, rate) == Earned(a, rate) + Earned(b, rate)
    ensures a >= 0.0 <==> Earned(a, rate) >= 0.0
    ensures a > 0.0 <==> Earned(a, rate) > 0.0
    ensures Earned(0.0, rate) == 0.0
  {
  }

  /** The tokens after refilling at `now`. */
  function Refilled(b: Bucket, now: real): real {
    var t := b.tokens + Earned(now - b.lastRefill, b.refillRate);
    if t > b.maxTokens then b.maxTokens else t
  }

  /** One attempt at `now`: the new bucket and whether a token was taken. */
  function Attempt(b: Bucket, now: real): (Bucket, bool) {
    var t := Refilled(b, now);
    if t < 1.0 then (b.(tokens := t, lastRefill := now), false)
    else (b.(tokens := t - 1.0, lastRefill := now), true)
  }

  class RateLimiter {
    var tokens: real
    var maxTokens: real
    var refillRate: real
    var lastRefill: real

    ghost function State(): Bucket
      reads this
    {
      Bucket(tokens, maxTokens, refillRate, lastRefill)
    }

    /** A nonpositive rate means the default of 50 requests per minute; the bucket starts full. */
    constructor (requestsPerMinute: int, now: real)
      ensures Valid(State()) && tokens == maxTokens && lastRefill == now
      ensures maxTokens == (if requestsPerMinute <= 0 then 50 else requestsPerMinute) as real
      ensures refillRate * 60.0 == maxTokens
    {
      var n := if requestsPerMinute <= 0 then DEFAULT_REQUESTS_PER_MINUTE else requestsPerMinute;
      var max := n as real;
      tokens := max;
      maxTokens := max;
      refillRate := max / 60.0;
      lastRefill := now;
    }

    method TryConsume(now: real) returns (ok: bool)
      requires Valid(State()) && lastRefill <= now
      modifies this
      ensures Valid(State())
      ensures (State(), ok) == Attempt(old(State()), now)
    {
      AttemptKeepsValid(State(), now);
      var elapsed := now - lastRefill;
      lastRefill := now;
      var earned := elapsed * refillRate;
      assert earned == Earned(elapsed, refillRate);
      hide Earned;
      tokens := tokens + earned;
      if tokens > maxTokens {
        tokens := maxTokens;
      }
      if tokens < 1.0 {
        return false;
      }
      tokens := tokens - 1.0;
      return true;
    }

    /**
     The waiting loop of one caller. Its k-th attempt is made at `clock(k)`, at least 10 ms after the one before;
     `doneBefore(k)` and `doneDuring(k)` tell whether the context is found done before the attempt or while sleeping.
     It ends after at most two attempts more than the polls that fit into the time that earns a whole token, and it
     gives up only when the context is done.
     */
    method Wait(clock: nat -> real, doneBefore: nat -> bool, doneDuring: nat -> bool)
      returns (acquired: bool, attempts: nat)
      requires Valid(State()) && lastRefill <= clock(0)
      requires forall k: nat :: clock(k) + POLL_INTERVAL <= clock(k + 1)
      modifies this
      ensures Valid(State()) && maxTokens == old(maxTokens) && refillRate == old(refillRate)
      ensures forall k: nat :: k + 1 < attempts ==> !doneBefore(k) && !doneDuring(k)
      ensures acquired ==> attempts > 0 && !doneBefore(attempts - 1)
      ensures !acquired ==> doneBefore(attempts) || (attempts > 0 && doneDuring(attempts - 1))
      ensures forall k: nat :: k < attempts && !(acquired && k == attempts - 1) ==>
                !Attempt(old(State()), clock(k)).1
      ensures acquired ==> attempts > 0 && (State(), true) == Attempt(old(State()), clock(attempts - 1))
      ensures attempts as real <= 2.0 + 1.0 / Earned(POLL_INTERVAL, refillRate)
    {
      attempts := 0;
      ghost var rate, first := refillRate, State();
      EarnedLinear(POLL_INTERVAL, 0.0, rate);
      ghost var unit := Earned(POLL_INTERVAL, rate);
      ghost var bound := 1.0 / unit;
      hide Earned;
      while true
        invariant Valid(State()) && maxTokens == old(maxTokens) && refillRate == rate
        invariant lastRefill <= clock(attempts)
        invariant forall k: nat :: k < attempts ==> !doneBefore(k) && !doneDuring(k)
        invariant forall k: nat :: k < attempts ==> !Attempt(first, clock(k)).1
        invariant attempts == 0 ==> State() == first
        invariant attempts > 0 ==> (State(), false) == Attempt(first, clock(attempts - 1))
        invariant attempts > 0 ==> first.lastRefill <= clock(attempts - 1)
        invariant attempts > 0 ==> tokens >= Earned((attempts - 1) as real, unit)
        invariant attempts > 0 ==> tokens < 1.0 && lastRefill == clock(attempts - 1)
        invariant attempts as real <= 1.0 + bound
        decreases (1.0 + bound).Floor - attempts
      {
        if doneBefore(attempts) {
          return false, attempts;
        }
        ghost var before := State();
        if attempts > 0 {
          assert clock(attempts - 1) + POLL_INTERVAL <= clock(attempts - 1 + 1);
        }
        PollEarns(before, clock(attempts), attempts, unit);
        if attempts > 0 {
          FailureIsInvisible(first, clock(attempts - 1), clock(attempts));
        }
        var ok := TryConsume(clock(attempts));
        attempts := attempts + 1;
        if ok {
          return true, attempts;
        }
        WithinBound((attempts - 1) as real, unit, bound);
        if doneDuring(attempts - 1) {
          return false, attempts;
        }
        assert clock(attempts - 1) + POLL_INTERVAL <= clock(attempts - 1 + 1);
      }
    }
  }

  /** One more failed poll, at least 10 ms later, has earned at least one poll's worth of tokens. */
  lemma PollEarns(b: Bucket, now: real, attempts: nat, unit: real)
    requires Valid(b) && b.lastRefill <= now && unit == Earned(POLL_INTERVAL, b.refillRate)
    requires attempts > 0 ==> b.tokens >= Earned((attempts - 1) as real, unit) && b.lastRefill + POLL_INTERVAL <= now
    ensures !Attempt(b, now).1 ==> Attempt(b, now).0.tokens >= Earned(attempts as real, unit)
  {
    EarnedLinear(POLL_INTERVAL, 0.0, b.refillRate);
    EarnedLinear((attempts - 1) as real, 1.0, unit);
    assert Earned(1.0, unit) == unit;
    hide Earned;
    EarnedLinear(now - b.lastRefill - POLL_INTERVAL, POLL_INTERVAL, b.refillRate);
    RefillNonnegative(b, now);
    assert (attempts - 1) as real + 1.0 == attempts as real;
    if attempts == 0 {
      EarnedLinear(0.0, 0.0, unit);
    }
  }

  lemma WithinBound(n: real, unit: real, bound: real)
    requires unit > 0.0 && Earned(n, unit) < 1.0 && bound == 1.0 / unit
    ensures n < bound
  {
    assert Earned(bound, unit) == 1.0;
    EarnedLinear(bound - n, n, unit);
  }

  lemma RefillNonnegative(b: Bucket, now: real)
    requires Valid(b) && b.lastRefill <= now
    ensures 0.0 <= Refilled(b, now) <= b.maxTokens
    ensures b.tokens <= Refilled(b, now)
  {
    EarnedLinear(now - b.lastRefill, 0.0, b.refillRate);
  }

  /** 0 <= tokens <= maxTokens is kept by every attempt. */
  lemma AttemptKeepsValid(b: Bucket, now: real)
    requires Valid(b) && b.lastRefill <= now
    ensures Valid(Attempt(b, now).0) && Attempt(b, now).0.lastRefill == now
  {
    hide Earned;
    RefillNonnegative(b, now);
  }

  // ---------------------------------------------------------------------------
  // Runs of attempts
  // ---------------------------------------------------------------------------

  /** Attempt times that never go back, from `t` on. */
  ghost predicate Ordered(t: real, times: seq<real>)
    decreases |times|
  {
    times == [] || (t <= times[0] && Ordered(times[0], times[1..]))
  }

  function After(b: Bucket, times: seq<real>): Bucket
    decreases |times|
  {
    if times == [] then b else After(Attempt(b, times[0]).0, times[1..])
  }

  /** Which attempts succeed. */
  function Outcomes(b: Bucket, times: seq<real>): (oks: seq<bool>)
    ensures |oks| == |times|
    decreases |times|
  {
    if times == [] then [] else [Attempt(b, times[0]).1] + Outcomes(Attempt(b, times[0]).0, times[1..])
  }

  function Successes(oks: seq<bool>): nat {
    if oks == [] then 0 else (if oks[0] then 1 else 0) + Successes(oks[1..])
  }

  lemma {:induction false} RunKeepsValid(b: Bucket, times: seq<real>)
    requires Valid(b) && Ordered(b.lastRefill, times)
    ensures Valid(After(b, times))
    ensures After(b, times).maxTokens == b.maxTokens && After(b, times).refillRate == b.refillRate
    ensures After(b, times).lastRefill == if times == [] then b.lastRefill else times[|times| - 1]
    decreases |times|
  {
    if times != [] {
      AttemptKeepsValid(b, times[0]);
      RunKeepsValid(Attempt(b, times[0]).0, times[1..]);
    }
  }

  /** Successes are paid for by the tokens at the start and the refill since. */
  lemma {:induction false} SuccessesArePaid(b: Bucket, times: seq<real>)
    requires Valid(b) && Ordered(b.lastRefill, times)
    ensures Successes(Outcomes(b, times)) as real + After(b, times).tokens
            <= b.tokens + Earned(After(b, times).lastRefill - b.lastRefill, b.refillRate)
    decreases |times|
  {
    hide Earned;
    EarnedLinear(0.0, 0.0, b.refillRate);
    if times != [] {
      var now := times[0];
      var b' := Attempt(b, now).0;
      AttemptKeepsValid(b, now);
      SuccessesArePaid(b', times[1..]);
      assert Outcomes(b, times)[1..] == Outcomes(b', times[1..]);
      var last := After(b, times).lastRefill;
      EarnedLinear(last - now, now - b.lastRefill, b.refillRate);
    }
  }

  /**
   The rate bound: whatever came before, a contiguous run of attempts from time `times[0]` to its last has at most
   maxTokens + refillRate * (elapsed seconds) successes.
   */
  lemma RateBound(b: Bucket, earlier: seq<real>, times: seq<real>)
    requires Valid(b) && times != [] && Ordered(b.lastRefill, earlier + times)
    ensures Successes(Outcomes(After(b, earlier), times)) as real
            <= b.maxTokens + Earned(times[|times| - 1] - times[0], b.refillRate)
  {
    OrderedSplit(b.lastRefill, earlier, times);
    RunKeepsValid(b, earlier);
    hide *;
    BoundFromFirst(After(b, earlier), times);
  }

  /** The bound for a run from any bucket: the first attempt finds at most the capacity. */
  lemma BoundFromFirst(b: Bucket, times: seq<real>)
    requires Valid(b) && times != [] && Ordered(b.lastRefill, times)
    ensures Successes(Outcomes(b, times)) as real
            <= b.maxTokens + Earned(times[|times| - 1] - times[0], b.refillRate)
  {
    var full := b.(tokens := Refilled(b, times[0]), lastRefill := times[0]);
    RefillNonnegative(b, times[0]);
    SameOutcomes(b, times);
    assert Valid(full) && Ordered(full.lastRefill, times);
    hide *;
    PaidByCapacity(full, times);
  }

  lemma PaidByCapacity(b: Bucket, times: seq<real>)
    requires Valid(b) && times != [] && Ordered(b.lastRefill, times) && b.lastRefill == times[0]
    ensures Successes(Outcomes(b, times)) as real
            <= b.maxTokens + Earned(times[|times| - 1] - times[0], b.refillRate)
  {
    hide Earned, Attempt, Outcomes, Successes, After, Ordered;
    SuccessesArePaid(b, times);
    RunKeepsValid(b, times);
    var end := After(b, times);
    assert b.tokens <= b.maxTokens && end.tokens >= 0.0 && end.lastRefill == times[|times| - 1];
    hide *;
  }

  lemma SameOutcomes(b: Bucket, times: seq<real>)
    requires Valid(b) && times != [] && b.lastRefill <= times[0]
    ensures Outcomes(b.(tokens := Refilled(b, times[0]), lastRefill := times[0]), times) == Outcomes(b, times)
  {
    hide Refilled, Attempt;
    ShiftedAttempt(b, times[0]);
  }

  /** Refilling first and then attempting at the same instant is the attempt itself. */
  lemma ShiftedAttempt(b: Bucket, now: real)
    requires Valid(b) && b.lastRefill <= now
    ensures Attempt(b.(tokens := Refilled(b, now), lastRefill := now), now) == Attempt(b, now)
  {
    hide Earned;
    RefillNonnegative(b, now);
    EarnedLinear(0.0, 0.0, b.refillRate);
  }

  lemma {:induction false} OrderedSplit(t: real, a: seq<real>, b: seq<real>)
    requires Ordered(t, a + b)
    ensures Ordered(t, a) && Ordered(if a == [] then t else a[|a| - 1], b)
    decreases |a|
  {
    if a == [] {
      assert a + b == b;
    } else {
      assert (a + b)[1..] == a[1..] + b;
      OrderedSplit(a[0], a[1..], b);
    }
  }

  // ---------------------------------------------------------------------------
  // Failed attempts
  // ---------------------------------------------------------------------------

  /** When the next token becomes available. */
  function Available(b: Bucket): real
    requires b.refillRate > 0.0
  {
    if b.tokens >= 1.0 then b.lastRefill else b.lastRefill + (1.0 - b.tokens) / b.refillRate
  }

  /** Waiting for `need` tokens takes need / rate seconds. */
  lemma EarnedQuotient(need: real, rate: real)
    requires rate > 0.0
    ensures Earned(need / rate, rate) == need
  {
  }

  /** An attempt succeeds exactly when the next token is available. */
  lemma SucceedsIffAvailable(b: Bucket, now: real)
    requires Valid(b) && b.lastRefill <= now
    ensures Attempt(b, now).1 <==> Available(b) <= now
  {
    hide Earned;
    RefillNonnegative(b, now);
    var wait := (1.0 - b.tokens) / b.refillRate;
    EarnedQuotient(1.0 - b.tokens, b.refillRate);
    EarnedLinear(now - b.lastRefill - wait, wait, b.refillRate);
    assert now - b.lastRefill - wait + wait == now - b.lastRefill;
  }

  /** A failed attempt changes neither when the next token is available nor any later attempt's result. */
  lemma FailureIsInvisible(b: Bucket, failed: real, now: real)
    requires Valid(b) && b.lastRefill <= failed <= now && !Attempt(b, failed).1
    ensures Attempt(Attempt(b, failed).0, now) == Attempt(b, now)
    ensures Available(Attempt(b, failed).0) == Available(b)
  {
    hide Earned;
    RefillNonnegative(b, failed);
    EarnedLinear(now - failed, failed - b.lastRefill, b.refillRate);
    assert now - failed + (failed - b.lastRefill) == now - b.lastRefill;
    AvailableShift(b, failed - b.lastRefill);
  }

  lemma AvailableShift(b: Bucket, gap: real)
    requires b.refillRate > 0.0
    ensures (1.0 - (b.tokens + Earned(gap, b.refillRate))) / b.refillRate == (1.0 - b.tokens) / b.refillRate - gap
  {
    var r := b.refillRate;
    assert ((1.0 - b.tokens) / r - gap) * r == (1.0 - b.tokens) - gap * r;
  }

  /** Any number of failed attempts can be erased. */
  lemma {:induction false} FailuresAreInvisible(b: Bucket, failed: seq<real>, now: real)
    requires Valid(b) && Ordered(b.lastRefill, failed + [now])
    requires Successes(Outcomes(b, failed)) == 0
    ensures Attempt(After(b, failed), now) == Attempt(b, now)
    ensures Available(After(b, failed)) == Available(b)
    decreases |failed|
  {
    if failed != [] {
      var b' := Attempt(b, failed[0]).0;
      AttemptKeepsValid(b, failed[0]);
      assert (failed + [now])[1..] == failed[1..] + [now];
      assert Outcomes(b, failed)[1..] == Outcomes(b', failed[1..]);
      OrderedReach(failed[0], failed[1..], now);
      FailureIsInvisible(b, failed[0], now);
      FailuresAreInvisible(b', failed[1..], now);
    }
  }

  lemma {:induction false} OrderedReach(t: real, times: seq<real>, now: real)
    requires Ordered(t, times + [now])
    ensures t <= now
    decreases |times|
  {
    if times != [] {
      assert (times + [now])[1..] == times[1..] + [now];
      OrderedReach(times[0], times[1..], now);
    }
  }

  // ---------------------------------------------------------------------------
  // Exact accounting
  // ---------------------------------------------------------------------------

  /** While the bucket does not overflow, every token that is there or earned is either taken by a success or left. */
  lemma {:induction false} ConservesExactly(b: Bucket, times: seq<real>)
    requires Valid(b) && Ordered(b.lastRefill, times)
    requires b.tokens + Earned(After(b, times).lastRefill - b.lastRefill, b.refillRate) <= b.maxTokens
    ensures Successes(Outcomes(b, times)) as real + After(b, times).tokens
            == b.tokens + Earned(After(b, times).lastRefill - b.lastRefill, b.refillRate)
    decreases |times|
  {
    hide Earned;
    EarnedLinear(0.0, 0.0, b.refillRate);
    if times != [] {
      var now := times[0];
      var b' := Attempt(b, now).0;
      AttemptKeepsValid(b, now);
      RunKeepsValid(b', times[1..]);
      OrderedEnd(times[0], times[1..]);
      assert Outcomes(b, times)[1..] == Outcomes(b', times[1..]);
      var last := After(b, times).lastRefill;
      EarnedLinear(last - now, now - b.lastRefill, b.refillRate);
      ConservesExactly(b', times[1..]);
    }
  }

  lemma {:induction false} OrderedEnd(t: real, times: seq<real>)
    requires Ordered(t, times)
    ensures times != [] ==> t <= times[|times| - 1]
    decreases |times|
  {
    if |times| > 1 {
      OrderedEnd(times[0], times[1..]);
    }
  }

  /** After long enough an idle time the bucket is full, and the attempt leaves one token less. */
  lemma IdleFills(b: Bucket, now: real)
    requires Valid(b) && b.lastRefill <= now && b.tokens + Earned(now - b.lastRefill, b.refillRate) >= b.maxTokens
    ensures Attempt(b, now) == (b.(tokens := b.maxTokens - 1.0, lastRefill := now), true)
  {
    hide Earned;
  }

  /** Of any number of attempts at one instant exactly as many succeed as there are whole tokens. */
  lemma {:induction false} BurstIsWholeTokens(b: Bucket, n: nat)
    requires Valid(b)
    ensures Successes(Outcomes(b, seq(n, _ => b.lastRefill))) == if n <= b.tokens.Floor then n else b.tokens.Floor
    decreases n
  {
    var times := seq(n, _ => b.lastRefill);
    if n > 0 {
      EarnedLinear(0.0, 0.0, b.refillRate);
      hide Earned;
      var b' := Attempt(b, b.lastRefill).0;
      assert times[1..] == seq(n - 1, _ => b.lastRefill);
      AttemptKeepsValid(b, b.lastRefill);
      assert Outcomes(b, times)[1..] == Outcomes(b', times[1..]);
      BurstIsWholeTokens(b', n - 1);
    }
  }
}
