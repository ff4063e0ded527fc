/** The token bucket that limits new tunnels. Tokens are reals; the specification measures time
    in tokens refilled (seconds times rate), which makes refilling plain subtraction. */
module RateLimit {

  datatype Bucket = Bucket(tokens: real, last: real)

  /** Tokens available at time `now`; an earlier time counts as no time elapsed. */
  function Level(cap: real, b: Bucket, now: real): real {
    var raised := if now > b.last then b.tokens + (now - b.last) else b.tokens;
    if raised < cap then raised else cap
  }

  predicate Grants(cap: real, b: Bucket, now: real) { Level(cap, b, now) >= 1.0 }

  function Call(cap: real, b: Bucket, now: real): Bucket {
    Bucket(if Grants(cap, b, now) then Level(cap, b, now) - 1.0 else Level(cap, b, now), now)
  }

  class RateLimiter {
    var tokens: real
    const capacity: real
    const refillPerSec: real
    var last: real

    ghost predicate Valid() { capacity >= 1.0 && refillPerSec >= 1.0 }
    ghost function State(): Bucket reads this { Bucket(tokens, last * refillPerSec) }

    /** A full bucket of one second's worth of tokens, a rate of zero counting as one. */
    constructor (perSec: nat, now: real)
      ensures Valid() && capacity == refillPerSec == (if perSec == 0 then 1.0 else perSec as real)
      ensures State() == Bucket(capacity, now * refillPerSec)
    {
      var cap := if perSec < 1 then 1.0 else perSec as real;
      tokens, capacity, refillPerSec, last := cap, cap, cap, now;
    }

    /** Spends one token if there is one. */
    method Allow(now: real) returns (granted: bool)
      requires Valid()
      modifies this
      ensures granted == old(Grants(capacity, State(), now * refillPerSec))
      ensures State() == old(Call(capacity, State(), now * refillPerSec))
    {
      var elapsed := if now > last then now - last else 0.0;
      Elapsed(last, now, refillPerSec);
      last := now;
      tokens := tokens + elapsed * refillPerSec;
      if tokens > capacity {
        tokens := capacity;
      }
      granted := tokens >= 1.0;
      if granted {
        tokens := tokens - 1.0;
      }
    }
  }

  lemma {:induction false} Elapsed(last: real, now: real, rate: real)
    requires rate >= 0.0
    ensures now > last ==> (now - last) * rate == now * rate - last * rate && now * rate >= last * rate
    ensures now <= last ==> now * rate <= last * rate
  {
    if now > last {
      Scale(last, now, rate);
    } else {
      Scale(now, last, rate);
    }
  }

  lemma {:induction false} Scale(x: real, y: real, rate: real)
    requires x <= y && rate >= 0.0
    ensures x * rate <= y * rate
  {
    assert (y - x) * rate >= 0.0;
  }

  // ----- runs of calls -----

  /** The bucket after calls at the given times, starting full. */
  function After(cap: real, start: real, ts: seq<real>): Bucket {
    if ts == [] then Bucket(cap, start) else Call(cap, After(cap, start, ts[..|ts| - 1]), ts[|ts| - 1])
  }

  function LevelAt(cap: real, start: real, ts: seq<real>, k: nat): real
    requires k < |ts|
  {
    Level(cap, After(cap, start, ts[..k]), ts[k])
  }

  predicate Granted(cap: real, start: real, ts: seq<real>, k: nat)
    requires k < |ts|
  {
    LevelAt(cap, start, ts, k) >= 1.0
  }

  /** Calls granted among those from the `i`-th on, before the `j`-th. */
  function Count(cap: real, start: real, ts: seq<real>, i: nat, j: nat): (n: nat)
    requires i <= j <= |ts|
    ensures n <= j - i
    decreases j - i
  {
    if i == j then 0 else Count(cap, start, ts, i, j - 1) + (if Granted(cap, start, ts, j - 1) then 1 else 0)
  }

  predicate Ordered(start: real, ts: seq<real>) {
    && (forall i :: 0 <= i < |ts| ==> start <= ts[i])
    && (forall i, j :: 0 <= i <= j < |ts| ==> ts[i] <= ts[j])
  }

  /** What is left at the `k`-th call of the allowance that opened, full, at the `i`-th. */
  function Allowance(cap: real, start: real, ts: seq<real>, i: nat, k: nat): real
    requires i <= k < |ts|
  {
    cap + (ts[k] - ts[i]) - Count(cap, start, ts, i, k) as real
  }

  lemma {:induction false} LastCall(cap: real, start: real, ts: seq<real>)
    ensures ts == [] ==> After(cap, start, ts).last == start
    ensures ts != [] ==> After(cap, start, ts).last == ts[|ts| - 1]
  {
  }

  lemma {:induction false} OneMoreCall(cap: real, start: real, ts: seq<real>, k: nat)
    requires k < |ts|
    ensures After(cap, start, ts[..k + 1]) == Call(cap, After(cap, start, ts[..k]), ts[k])
  {
    assert ts[..k + 1][..k] == ts[..k];
  }

  lemma {:induction false} LevelStep(cap: real, start: real, ts: seq<real>, k: nat)
    requires Ordered(start, ts) && k + 1 < |ts|
    ensures
      var spent := if Granted(cap, start, ts, k) then 1.0 else 0.0;
      var next := LevelAt(cap, start, ts, k) - spent + (ts[k + 1] - ts[k]);
      LevelAt(cap, start, ts, k + 1) == if next < cap then next else cap
  {
    OneMoreCall(cap, start, ts, k);
  }

  lemma {:induction false} LevelWithinAllowance(cap: real, start: real, ts: seq<real>, i: nat, k: nat)
    requires Ordered(start, ts) && i <= k < |ts|
    ensures LevelAt(cap, start, ts, k) <= Allowance(cap, start, ts, i, k)
    decreases k
  {
    if i < k {
      LevelWithinAllowance(cap, start, ts, i, k - 1);
      LevelStep(cap, start, ts, k - 1);
    }
  }

  /** The level is exactly the smallest allowance over all earlier calls: it never exceeds one, and
      it equals the one that opened at the last call to find the bucket full. */
  lemma {:induction false} LevelIsSmallestAllowance(cap: real, start: real, ts: seq<real>, k: nat) returns (full: nat)
    requires Ordered(start, ts) && k < |ts|
    ensures forall i :: 0 <= i <= k ==> LevelAt(cap, start, ts, k) <= Allowance(cap, start, ts, i, k)
    ensures full <= k && LevelAt(cap, start, ts, full) == cap
    ensures forall j :: full < j <= k ==> LevelAt(cap, start, ts, j) < cap
    ensures LevelAt(cap, start, ts, k) == Allowance(cap, start, ts, full, k)
  {
    forall i | 0 <= i <= k ensures LevelAt(cap, start, ts, k) <= Allowance(cap, start, ts, i, k) {
      LevelWithinAllowance(cap, start, ts, i, k);
    }
    full := LastFull(cap, start, ts, k);
  }

  lemma {:induction false} LastFull(cap: real, start: real, ts: seq<real>, k: nat) returns (full: nat)
    requires Ordered(start, ts) && k < |ts|
    ensures full <= k && LevelAt(cap, start, ts, full) == cap
    ensures forall j :: full < j <= k ==> LevelAt(cap, start, ts, j) < cap
    ensures LevelAt(cap, start, ts, k) == Allowance(cap, start, ts, full, k)
  {
    if k == 0 {
      assert ts[..0] == [];
      full := 0;
    } else {
      LevelStep(cap, start, ts, k - 1);
      if LevelAt(cap, start, ts, k) == cap {
        full := k;
      } else {
        full := LastFull(cap, start, ts, k - 1);
      }
    }
  }

  /** A call is granted exactly when, counting it, no window ending at it would exceed the burst
      plus what is refilled over its length: the bucket refuses nothing it could have granted. */
  lemma {:induction false} GrantedExactly(cap: real, start: real, ts: seq<real>, k: nat)
    requires Ordered(start, ts) && k < |ts|
    ensures Granted(cap, start, ts, k) <==>
      forall i :: 0 <= i <= k ==> Count(cap, start, ts, i, k) as real + 1.0 <= cap + (ts[k] - ts[i])
  {
    var full := LevelIsSmallestAllowance(cap, start, ts, k);
    if Granted(cap, start, ts, k) {
      forall i | 0 <= i <= k ensures Count(cap, start, ts, i, k) as real + 1.0 <= cap + (ts[k] - ts[i]) {
        assert LevelAt(cap, start, ts, k) <= Allowance(cap, start, ts, i, k);
      }
    } else {
      assert !(Count(cap, start, ts, full, k) as real + 1.0 <= cap + (ts[k] - ts[full]));
    }
  }

  /** A denial means that since the last call to find the bucket full, more than the burst plus the refill
      less one were granted. */
  lemma {:induction false} DenialIsTight(cap: real, start: real, ts: seq<real>, k: nat) returns (full: nat)
    requires Ordered(start, ts) && k < |ts| && !Granted(cap, start, ts, k)
    ensures full <= k && LevelAt(cap, start, ts, full) == cap
    ensures forall j :: full < j <= k ==> LevelAt(cap, start, ts, j) < cap
    ensures Count(cap, start, ts, full, k) as real > cap + (ts[k] - ts[full]) - 1.0
  {
    full := LevelIsSmallestAllowance(cap, start, ts, k);
  }

  lemma {:induction false} WindowBound(cap: real, start: real, ts: seq<real>, i: nat, j: nat)
    requires cap >= 0.0 && Ordered(start, ts) && i < j <= |ts|
    ensures Count(cap, start, ts, i, j) as real <= cap + (ts[j - 1] - ts[i])
  {
    if Granted(cap, start, ts, j - 1) {
      GrantedExactly(cap, start, ts, j - 1);
    } else if i < j - 1 {
      WindowBound(cap, start, ts, i, j - 1);
    }
  }

  function Tokens(rate: real, seconds: seq<real>): (ts: seq<real>)
    ensures |ts| == |seconds| && forall i :: 0 <= i < |ts| ==> ts[i] == seconds[i] * rate
  {
    seq(|seconds|, i requires 0 <= i < |seconds| => seconds[i] * rate)
  }

  lemma {:induction false} TokensOrdered(rate: real, start: real, seconds: seq<real>)
    requires rate >= 0.0 && Ordered(start, seconds)
    ensures Ordered(start * rate, Tokens(rate, seconds))
  {
    forall i | 0 <= i < |seconds| ensures start * rate <= Tokens(rate, seconds)[i] {
      Scale(start, seconds[i], rate);
    }
    forall i, j | 0 <= i <= j < |seconds| ensures Tokens(rate, seconds)[i] <= Tokens(rate, seconds)[j] {
      var x, y := seconds[i], seconds[j];
      assert Tokens(rate, seconds)[i] == x * rate && Tokens(rate, seconds)[j] == y * rate;
      Scale(x, y, rate);
    }
  }

  lemma {:induction false} TokensBetween(rate: real, seconds: seq<real>, i: nat, j: nat)
    requires i < |seconds| && j < |seconds|
    ensures Tokens(rate, seconds)[j] - Tokens(rate, seconds)[i] == (seconds[j] - seconds[i]) * rate
  {
    Distribute(seconds[j], seconds[i], rate);
  }

  /** In every window of a run, grants are at most the burst plus the rate times its length. */
  lemma {:induction false} RateBound(cap: real, rate: real, start: real, seconds: seq<real>, i: nat, j: nat)
    requires cap >= 0.0 && rate >= 0.0 && Ordered(start, seconds) && i < j <= |seconds|
    ensures Count(cap, start * rate, Tokens(rate, seconds), i, j) as real <= cap + (seconds[j - 1] - seconds[i]) * rate
  {
    TokensOrdered(rate, start, seconds);
    WindowBound(cap, start * rate, Tokens(rate, seconds), i, j);
    TokensBetween(rate, seconds, i, j - 1);
  }

  lemma {:induction false} Distribute(x: real, y: real, rate: real)
    ensures (x - y) * rate == x * rate - y * rate
  {
  }

  /** The tokens always lie between zero and the capacity. */
  lemma {:induction false} TokensInRange(cap: real, start: real, ts: seq<real>)
    requires cap >= 0.0
    ensures 0.0 <= After(cap, start, ts).tokens <= cap
  {
    if ts != [] {
      TokensInRange(cap, start, ts[..|ts| - 1]);
    }
  }

  /** `us` are the calls `ts` without the `k`-th. */
  ghost predicate Omits(ts: seq<real>, k: nat, us: seq<real>) {
    && k < |ts| && |us| == |ts| - 1 && us[..k] == ts[..k]
    && forall j :: k <= j < |us| ==> us[j] == ts[j + 1]
  }

  lemma {:induction false} SameAfterOmission(cap: real, start: real, ts: seq<real>, k: nat, us: seq<real>, m: nat)
    requires cap >= 1.0 && Ordered(start, ts) && Omits(ts, k, us) && !Granted(cap, start, ts, k) && k <= m < |us|
    ensures LevelAt(cap, start, us, m) == LevelAt(cap, start, ts, m + 1)
    ensures After(cap, start, us[..m + 1]) == After(cap, start, ts[..m + 2])
  {
    OneMoreCall(cap, start, us, m);
    OneMoreCall(cap, start, ts, m + 1);
    if m == k {
      OneMoreCall(cap, start, ts, k);
      LastCall(cap, start, ts[..k]);
      DeniedKeepsLevel(cap, After(cap, start, ts[..k]), ts[k], ts[k + 1]);
    } else {
      SameAfterOmission(cap, start, ts, k, us, m - 1);
    }
  }

  /** Leaving out a call that was denied changes no other outcome and no later bucket: refilling
      on demand is refilling continuously. */
  lemma {:induction false} DeniedCallIsInvisible(cap: real, start: real, ts: seq<real>, k: nat, us: seq<real>, m: nat)
    requires cap >= 1.0 && Ordered(start, ts) && Omits(ts, k, us) && !Granted(cap, start, ts, k) && m < |us|
    ensures Granted(cap, start, us, m) <==> Granted(cap, start, ts, if m < k then m else m + 1)
    ensures m >= k ==> After(cap, start, us[..m + 1]) == After(cap, start, ts[..m + 2])
  {
    if m < k {
      assert us[..m] == us[..k][..m] && ts[..m] == ts[..k][..m] && us[m] == us[..k][m] && ts[m] == ts[..k][m];
    } else {
      SameAfterOmission(cap, start, ts, k, us, m);
    }
  }

  lemma {:induction false} DeniedKeepsLevel(cap: real, b: Bucket, now: real, later: real)
    requires cap >= 1.0 && b.last <= now <= later && !Grants(cap, b, now)
    ensures Level(cap, Call(cap, b, now), later) == Level(cap, b, later)
    ensures Call(cap, Call(cap, b, now), later) == Call(cap, b, later)
  {
  }
}
