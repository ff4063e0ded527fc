/** The accept loop of either proxy side: rate limit, then the cap on live tunnels, whose check
    and increment are separate steps that finishing tasks can fall between. */
module AcceptLoop {
  import opened Bytes
  import opened RateLimit

  /** `checked`: the acceptor has seen room for the stream in hand but not counted it yet. `live` is
      the shared atomic; `spawned` and `finished` count tasks. */
  datatype LoopState = LoopState(bucket: Bucket, checked: bool, live: u64, spawned: nat, finished: nat)

  datatype Event =
    | Arrive(now: real)   // next stream: ask the limiter, then load and compare the counter
    | Spawn               // add one to the counter and spawn the task
    | TaskEnds            // some running task subtracts one on its way out

  datatype Config = Config(capacity: real, start: real, maxConns: u64)

  /** One acceptor: it takes the next stream only when done with the last; only running tasks end. */
  predicate Enabled(s: LoopState, e: Event) {
    match e
    case Arrive(_) => !s.checked
    case Spawn => s.checked
    case TaskEnds => s.finished < s.spawned
  }

  /** Atomic addition and subtraction wrap around. */
  function Step(f: Config, s: LoopState, e: Event): LoopState {
    match e
    case Arrive(now) =>
      s.(bucket := Call(f.capacity, s.bucket, now),
         checked := Grants(f.capacity, s.bucket, now) && s.live < f.maxConns)
    case Spawn => s.(checked := false, live := if s.live == U64_MAX then 0 else s.live + 1, spawned := s.spawned + 1)
    case TaskEnds => s.(live := if s.live == 0 then U64_MAX else s.live - 1, finished := s.finished + 1)
  }

  function Initial(f: Config): LoopState { LoopState(Bucket(f.capacity, f.start), false, 0, 0, 0) }

  function Run(f: Config, es: seq<Event>): LoopState {
    if es == [] then Initial(f) else Step(f, Run(f, es[..|es| - 1]), es[|es| - 1])
  }

  ghost predicate Possible(f: Config, es: seq<Event>) {
    forall i :: 0 <= i < |es| ==> Enabled(Run(f, es[..i]), es[i])
  }

  /** Under every schedule the counter is the number of running tasks, never wraps, and never
      exceeds the cap. */
  lemma {:induction false} LiveWithinCap(f: Config, es: seq<Event>)
    requires Possible(f, es)
    ensures var s := Run(f, es);
      && s.finished <= s.spawned && s.live == s.spawned - s.finished <= f.maxConns
      && (s.checked ==> s.live < f.maxConns)
  {
    if es != [] {
      PossiblePrefix(f, es);
      LiveWithinCap(f, es[..|es| - 1]);
    }
  }

  lemma {:induction false} OneMore(f: Config, es: seq<Event>, e: Event)
    ensures Run(f, es + [e]) == Step(f, Run(f, es), e)
  {
    assert (es + [e])[..|es|] == es;
  }

  lemma {:induction false} PossibleOneMore(f: Config, es: seq<Event>, e: Event)
    requires Possible(f, es) && Enabled(Run(f, es), e)
    ensures Possible(f, es + [e])
  {
    var fs := es + [e];
    forall i | 0 <= i < |fs| ensures Enabled(Run(f, fs[..i]), fs[i]) {
      assert fs[..i] == es[..i];
      assert i == |es| ==> es[..i] == es;
    }
  }

  /** The cap can be reached, and any number of live tunnels below it. */
  lemma {:induction false} CapCanBeReached(f: Config, n: nat) returns (es: seq<Event>)
    requires f.capacity >= 1.0 && n <= f.maxConns
    ensures Possible(f, es)
    ensures var s := Run(f, es);
      s.live == s.spawned == n && s.finished == 0 && !s.checked && s.bucket.tokens >= 0.0
  {
    if n == 0 {
      es := [];
    } else {
      es := CapCanBeReached(f, n - 1);
      var s := Run(f, es);
      var arrive := Arrive(s.bucket.last + 1.0);
      PossibleOneMore(f, es, arrive);
      OneMore(f, es, arrive);
      es := es + [arrive];
      PossibleOneMore(f, es, Spawn);
      OneMore(f, es, Spawn);
      es := es + [Spawn];
    }
  }

  /** The times at which streams arrived. */
  function Arrivals(es: seq<Event>): seq<real> {
    if es == [] then []
    else
      var ts, e := Arrivals(es[..|es| - 1]), es[|es| - 1];
      if e.Arrive? then ts + [e.now] else ts
  }

  lemma {:induction false} BucketFollowsArrivals(f: Config, es: seq<Event>)
    ensures Run(f, es).bucket == After(f.capacity, f.start, Arrivals(es))
  {
    if es != [] {
      BucketFollowsArrivals(f, es[..|es| - 1]);
      var ts, us := Arrivals(es[..|es| - 1]), Arrivals(es);
      assert us != ts ==> us[..|ts|] == ts;
    }
  }

  /** Under every schedule, an arriving stream is let in exactly when fewer tunnels than the cap are
      live and no window of arrivals ending with it exceeds the burst plus the refill. */
  lemma {:induction false} LetInExactly(f: Config, es: seq<Event>, now: real)
    requires Possible(f, es) && Ordered(f.start, Arrivals(es) + [now])
    ensures var s, ts, k := Run(f, es), Arrivals(es) + [now], |Arrivals(es)|;
      Run(f, es + [Arrive(now)]).checked <==>
        && s.spawned - s.finished < f.maxConns
        && forall i :: 0 <= i <= k ==> Count(f.capacity, f.start, ts, i, k) as real + 1.0 <= f.capacity + (now - ts[i])
  {
    var s, ts, k := Run(f, es), Arrivals(es) + [now], |Arrivals(es)|;
    OneMore(f, es, Arrive(now));
    LiveWithinCap(f, es);
    BucketFollowsArrivals(f, es);
    assert ts[..k] == Arrivals(es);
    GrantedExactly(f.capacity, f.start, ts, k);
    assert Granted(f.capacity, f.start, ts, k) == Grants(f.capacity, s.bucket, now);
  }

  lemma {:induction false} CountOfPrefix(cap: real, start: real, ts: seq<real>, more: seq<real>, i: nat, j: nat)
    requires i <= j <= |ts|
    ensures Count(cap, start, ts + more, i, j) == Count(cap, start, ts, i, j)
    decreases j
  {
    if i < j {
      CountOfPrefix(cap, start, ts, more, i, j - 1);
      assert (ts + more)[..j - 1] == ts[..j - 1];
    }
  }

  /** Tasks spawned or about to be. */
  function Admitted(s: LoopState): nat { s.spawned + if s.checked then 1 else 0 }

  lemma {:induction false} CountAppend(cap: real, start: real, ts: seq<real>, t: real, i: nat)
    requires i <= |ts|
    ensures Count(cap, start, ts + [t], i, |ts| + 1)
         == Count(cap, start, ts, i, |ts|) + if Grants(cap, After(cap, start, ts), t) then 1 else 0
  {
    CountOfPrefix(cap, start, ts, [t], i, |ts|);
    assert (ts + [t])[..|ts|] == ts;
  }

  lemma {:induction false} AdmittedStep(f: Config, s: LoopState, e: Event, ts: seq<real>, a: nat, before: nat)
    requires Enabled(s, e) && s.bucket == After(f.capacity, f.start, ts) && a <= |ts|
    requires Admitted(s) - before <= Count(f.capacity, f.start, ts, a, |ts|)
    ensures var us := if e.Arrive? then ts + [e.now] else ts;
      Admitted(Step(f, s, e)) - before <= Count(f.capacity, f.start, us, a, |us|)
  {
    if e.Arrive? {
      CountAppend(f.capacity, f.start, ts, e.now, a);
    }
  }

  lemma {:induction false} PossiblePrefix(f: Config, es: seq<Event>)
    requires Possible(f, es) && es != []
    ensures Possible(f, es[..|es| - 1]) && Enabled(Run(f, es[..|es| - 1]), es[|es| - 1])
  {
    var init := es[..|es| - 1];
    assert forall k :: 0 <= k < |init| ==> init[k] == es[k] && init[..k] == es[..k];
  }

  lemma {:induction false} AdmittedWereGranted(f: Config, es: seq<Event>, i: nat)
    requires Possible(f, es) && i <= |es| && |Arrivals(es[..i])| <= |Arrivals(es)|
    ensures Admitted(Run(f, es)) - Admitted(Run(f, es[..i]))
         <= Count(f.capacity, f.start, Arrivals(es), |Arrivals(es[..i])|, |Arrivals(es)|)
    decreases |es|
  {
    if i == |es| {
      assert es[..i] == es;
    } else {
      var init, e := es[..|es| - 1], es[|es| - 1];
      assert init[..i] == es[..i];
      PossiblePrefix(f, es);
      ArrivalsGrow(init, i);
      AdmittedWereGranted(f, init, i);
      BucketFollowsArrivals(f, init);
      AdmittedStep(f, Run(f, init), e, Arrivals(init), |Arrivals(es[..i])|, Admitted(Run(f, es[..i])));
    }
  }

  lemma {:induction false} ArrivalsGrow(es: seq<Event>, i: nat)
    requires i <= |es|
    ensures Arrivals(es[..i]) <= Arrivals(es)
    decreases |es|
  {
    if i < |es| {
      ArrivalsGrow(es[..|es| - 1], i);
      assert es[..|es| - 1][..i] == es[..i];
    } else {
      assert es[..i] == es;
    }
  }

  /** One tunnel whose stream was let in before the moment may still be opened after it. */
  function InHand(s: LoopState): nat { if s.checked then 1 else 0 }

  /** `n` openings fit the arrivals `ts` from the `a`-th on, before the `b`-th: none if there are
      none, else at most the burst plus what is refilled between the first and the last. */
  predicate Within(n: int, cap: real, ts: seq<real>, a: nat, b: nat) {
    a <= b <= |ts| && if a == b then n <= 0 else n as real <= cap + (ts[b - 1] - ts[a])
  }

  /** The same with times in seconds. */
  predicate WithinRate(n: int, cap: real, rate: real, seconds: seq<real>, a: nat, b: nat) {
    a <= b <= |seconds| && if a == b then n <= 0 else n as real <= cap + (seconds[b - 1] - seconds[a]) * rate
  }

  /** Tunnels opened from event `i` on, not counting one already let in. */
  function Openings(f: Config, es: seq<Event>, i: nat): int
    requires i <= |es|
  {
    Run(f, es).spawned - Run(f, es[..i]).spawned - InHand(Run(f, es[..i]))
  }

  /** Under every schedule, the tunnels opened between two moments are at most one already in hand,
      plus the burst, plus what is refilled between the first and the last stream arriving in
      between; with no such stream, only the one in hand. */
  lemma {:induction false} OpeningRateBound(f: Config, es: seq<Event>, i: nat)
    requires f.capacity >= 0.0 && Possible(f, es) && Ordered(f.start, Arrivals(es)) && i <= |es|
    ensures Within(Openings(f, es, i), f.capacity, Arrivals(es), |Arrivals(es[..i])|, |Arrivals(es)|)
  {
    ArrivalsGrow(es, i);
    AdmittedWereGranted(f, es, i);
    if |Arrivals(es[..i])| < |Arrivals(es)| {
      WindowBound(f.capacity, f.start, Arrivals(es), |Arrivals(es[..i])|, |Arrivals(es)|);
    }
  }

  /** The same in seconds and tokens per second, the bucket starting full at `start`. */
  lemma {:induction false} OpeningsPerSecond(f: Config, es: seq<Event>, i: nat, rate: real, start: real,
                                             seconds: seq<real>)
    requires f.capacity >= 0.0 && Possible(f, es) && i <= |es|
    requires rate >= 0.0 && f.start == start * rate && Arrivals(es) == Tokens(rate, seconds) && Ordered(start, seconds)
    ensures WithinRate(Openings(f, es, i), f.capacity, rate, seconds, |Arrivals(es[..i])|, |Arrivals(es)|)
  {
    ScaledOrdered(rate, start, f.start, seconds, Arrivals(es));
    OpeningRateBound(f, es, i);
    InSeconds(Openings(f, es, i), f.capacity, rate, seconds, Arrivals(es), |Arrivals(es[..i])|, |Arrivals(es)|);
  }

  lemma {:induction false} ScaledOrdered(rate: real, start: real, from: real, seconds: seq<real>, ts: seq<real>)
    requires rate >= 0.0 && from == start * rate && ts == Tokens(rate, seconds) && Ordered(start, seconds)
    ensures Ordered(from, ts)
  {
    TokensOrdered(rate, start, seconds);
  }

  lemma {:induction false} InSeconds(n: int, cap: real, rate: real, seconds: seq<real>, ts: seq<real>, a: nat, b: nat)
    requires ts == Tokens(rate, seconds) && Within(n, cap, ts, a, b)
    ensures WithinRate(n, cap, rate, seconds, a, b)
  {
    if a < b {
      TokensBetween(rate, seconds, a, b - 1);
    }
  }
}
