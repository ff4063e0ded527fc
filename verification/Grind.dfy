/** Vanity search: worker threads sharing an abort flag, a counter and a channel, and a reporter,
    under every schedule. */
module Grind {
  import opened Bytes
  import opened Crypto
  import opened Base32
  import opened Names

  const BATCH: nat := 4096

  /** Where a worker is; `local` counts the keys of the current batch. */
  datatype Worker =
    | Top                                   // about to load the flag
    | Searching(local: nat)                 // inside the batch
    | Exhausted                             // batch over, about to add it to the counter
    | Hit(secret: Key32, local: nat)        // found, about to add to the counter
    | Counted(secret: Key32)                // about to set the flag
    | Flagged(secret: Key32)                // about to send
    | Gone

  datatype Reporter = Waiting | TimedOut | Returned(found: Option<Key32>)

  /** The shared state, and for the statements: keys generated in all, keys each worker generated
      and messages it sent since the flag went up, and whether Ctrl-C came. */
  datatype Search = Search(
    abort: bool, attempts: nat, workers: seq<Worker>, channel: seq<Key32>, reporter: Reporter,
    generated: nat, late: seq<nat>, sends: seq<nat>, ctrlC: bool)

  datatype Event =
    | LoadFlag(w: nat) | Generate(w: nat, secret: Key32) | AddBatch(w: nat)
    | AddHit(w: nat) | SetFlag(w: nat) | Send(w: nat)
    | CtrlC | Receive | Timeout | CheckFlag | Disconnected

  predicate Enabled(s: Search, e: Event) {
    match e
    case LoadFlag(w) => w < |s.workers| && s.workers[w].Top?
    case Generate(w, _) => w < |s.workers| && s.workers[w].Searching?
    case AddBatch(w) => w < |s.workers| && s.workers[w].Exhausted?
    case AddHit(w) => w < |s.workers| && s.workers[w].Hit?
    case SetFlag(w) => w < |s.workers| && s.workers[w].Counted?
    case Send(w) => w < |s.workers| && s.workers[w].Flagged?
    case CtrlC => true
    case Receive => s.reporter == Waiting && s.channel != []
    case Timeout => s.reporter == Waiting && s.channel == []
    case CheckFlag => s.reporter == TimedOut
    case Disconnected => s.reporter == Waiting && s.channel == [] && AllGone(s)
  }

  predicate AllGone(s: Search) { forall w | 0 <= w < |s.workers| :: s.workers[w] == Gone }

  /** An event that cannot happen in `s` leaves it unchanged. */
  function Step(hits: Key32 -> bool, s: Search, e: Event): Search {
    if !Enabled(s, e) || !Sized(s) then s else Next(hits, s, e)
  }

  predicate Sized(s: Search) { |s.late| == |s.sends| == |s.workers| }

  function Next(hits: Key32 -> bool, s: Search, e: Event): Search
    requires Enabled(s, e) && Sized(s)
  {
    match e
    case LoadFlag(w) => s.(workers := s.workers[w := if s.abort then Gone else Searching(0)])
    case Generate(w, secret) =>
      var local := s.workers[w].local + 1;
      s.(workers := s.workers[w := if hits(secret) then Hit(secret, local)
                                   else if local >= BATCH then Exhausted else Searching(local)],
         generated := s.generated + 1,
         late := if s.abort then s.late[w := s.late[w] + 1] else s.late)
    case AddBatch(w) => s.(workers := s.workers[w := Top], attempts := s.attempts + BATCH)
    case AddHit(w) =>
      s.(workers := s.workers[w := Counted(s.workers[w].secret)], attempts := s.attempts + s.workers[w].local)
    case SetFlag(w) => s.(workers := s.workers[w := Flagged(s.workers[w].secret)], abort := true)
    case Send(w) =>
      s.(workers := s.workers[w := Gone], channel := s.channel + [s.workers[w].secret],
         sends := s.sends[w := s.sends[w] + 1])
    case CtrlC => s.(abort := true, ctrlC := true)
    case Receive => s.(reporter := Returned(Some(s.channel[0])), channel := s.channel[1..])
    case Timeout => s.(reporter := TimedOut)
    case CheckFlag => s.(reporter := if s.abort then Returned(None) else Waiting)
    case Disconnected => s.(reporter := Returned(None))
  }

  function Start(threads: nat): Search {
    Search(false, 0, seq(threads, _ => Top), [], Waiting, 0, seq(threads, _ => 0), seq(threads, _ => 0), false)
  }

  function Run(hits: Key32 -> bool, threads: nat, es: seq<Event>): Search {
    if es == [] then Start(threads) else Step(hits, Run(hits, threads, es[..|es| - 1]), es[|es| - 1])
  }

  // ----- what every schedule keeps -----

  /** Keys a worker has generated but not yet added to the counter. */
  function Uncounted(w: Worker): nat {
    match w
    case Searching(local) => local
    case Hit(_, local) => local
    case Exhausted => BATCH
    case _ => 0
  }

  function Total(ws: seq<Worker>): nat {
    if ws == [] then 0 else Uncounted(ws[0]) + Total(ws[1..])
  }

  lemma {:induction false} TotalUpdate(ws: seq<Worker>, i: nat, w: Worker)
    requires i < |ws|
    ensures Total(ws[i := w]) == Total(ws) - Uncounted(ws[i]) + Uncounted(w)
  {
    if i > 0 {
      TotalUpdate(ws[1..], i - 1, w);
      assert ws[i := w][1..] == ws[1..][i - 1 := w];
    } else {
      assert ws[i := w][1..] == ws[1..];
    }
  }

  lemma {:induction false} TotalOfIdle(ws: seq<Worker>)
    requires forall i :: 0 <= i < |ws| ==> Uncounted(ws[i]) == 0
    ensures Total(ws) == 0
  {
    if ws != [] {
      TotalOfIdle(ws[1..]);
    }
  }

  /** The flag is up once a worker is past setting it or gone; a worker that has sent is gone;
      a found key is a hit; nobody was late before the flag, and then by a batch at most. */
  ghost predicate WorkerOk(hits: Key32 -> bool, s: Search, i: nat)
    requires Sized(s) && i < |s.workers|
  {
    var w := s.workers[i];
    && (w.Flagged? || w.Gone? ==> s.abort)
    && (w.Hit? || w.Counted? || w.Flagged? ==> hits(w.secret))
    && (w.Searching? ==> w.local < BATCH && s.late[i] <= w.local)
    && (w.Hit? ==> w.local <= BATCH && s.late[i] <= w.local)
    && (!s.abort ==> s.late[i] == 0)
    && s.late[i] <= BATCH && s.sends[i] <= 1 && (s.sends[i] == 1 ==> w.Gone?)
  }

  /** Some worker holds a hit it is about to send, or has sent one. */
  ghost predicate HitFound(s: Search)
    requires Sized(s)
  {
    exists i :: 0 <= i < |s.workers| && (s.workers[i].Flagged? || s.sends[i] == 1)
  }

  /** Some worker has sent its hit. */
  ghost predicate Sent(s: Search) { exists i :: 0 <= i < |s.sends| && s.sends[i] == 1 }

  ghost predicate Ok(hits: Key32 -> bool, s: Search) {
    && Sized(s)
    && (forall i :: 0 <= i < |s.workers| ==> WorkerOk(hits, s, i))
    && (forall k :: 0 <= k < |s.channel| ==> hits(s.channel[k]))
    && s.generated == s.attempts + Total(s.workers)
    && (s.reporter.Returned? && s.reporter.found.Some? ==> hits(s.reporter.found.value))
    && (s.reporter == Returned(None) && s.workers != [] ==> s.abort)
    && (s.abort && !s.ctrlC ==> HitFound(s))
    && (!s.reporter.Returned? ==> (s.channel != [] <==> Sent(s)))
  }

  lemma {:induction false} StepKeepsWorkers(hits: Key32 -> bool, s: Search, e: Event, i: nat)
    requires Ok(hits, s) && Enabled(s, e) && i < |s.workers|
    ensures WorkerOk(hits, Next(hits, s, e), i)
  {
    assert WorkerOk(hits, s, i);
  }

  lemma {:induction false} StepKeepsCount(hits: Key32 -> bool, s: Search, e: Event)
    requires Ok(hits, s) && Enabled(s, e)
    ensures var t := Next(hits, s, e); t.generated == t.attempts + Total(t.workers)
  {
    var t := Next(hits, s, e);
    if !e.CtrlC? && !e.Receive? && !e.Timeout? && !e.CheckFlag? && !e.Disconnected? {
      assert WorkerOk(hits, s, e.w);
      TotalUpdate(s.workers, e.w, t.workers[e.w]);
    }
  }

  lemma {:induction false} StepKeepsHitFound(hits: Key32 -> bool, s: Search, e: Event)
    requires Ok(hits, s) && Enabled(s, e)
    ensures var t := Next(hits, s, e); t.abort && !t.ctrlC ==> HitFound(t)
  {
    var t := Next(hits, s, e);
    if e.SetFlag? {
      assert t.workers[e.w].Flagged?;
    } else if t.abort && !t.ctrlC {
      var i :| 0 <= i < |s.workers| && (s.workers[i].Flagged? || s.sends[i] == 1);
      assert WorkerOk(hits, s, i);
      assert t.workers[i].Flagged? || t.sends[i] == 1;
    }
  }

  lemma {:induction false} StepKeepsReplies(hits: Key32 -> bool, s: Search, e: Event)
    requires Ok(hits, s) && Enabled(s, e)
    ensures var t := Next(hits, s, e);
      && (forall k :: 0 <= k < |t.channel| ==> hits(t.channel[k]))
      && (t.reporter.Returned? && t.reporter.found.Some? ==> hits(t.reporter.found.value))
      && (t.reporter == Returned(None) && t.workers != [] ==> t.abort)
  {
    if e.Send? {
      assert WorkerOk(hits, s, e.w);
    } else if e.Disconnected? && s.workers != [] {
      assert WorkerOk(hits, s, 0);
    }
  }

  /** Until the reporter is done, what was sent is still in the channel. */
  lemma {:induction false} StepKeepsSent(hits: Key32 -> bool, s: Search, e: Event)
    requires Ok(hits, s) && Enabled(s, e)
    ensures var t := Next(hits, s, e); !t.reporter.Returned? ==> (t.channel != [] <==> Sent(t))
  {
    var t := Next(hits, s, e);
    if e.Send? {
      assert WorkerOk(hits, s, e.w);
      assert t.sends[e.w] == 1;
    }
  }

  lemma {:induction false} StepKeepsOk(hits: Key32 -> bool, s: Search, e: Event)
    requires Ok(hits, s)
    ensures Ok(hits, Step(hits, s, e)) && |Step(hits, s, e).workers| == |s.workers|
  {
    if Enabled(s, e) {
      var t := Next(hits, s, e);
      assert Sized(t);
      forall i | 0 <= i < |t.workers| ensures WorkerOk(hits, t, i) {
        StepKeepsWorkers(hits, s, e, i);
      }
      StepKeepsCount(hits, s, e);
      StepKeepsHitFound(hits, s, e);
      StepKeepsReplies(hits, s, e);
      StepKeepsSent(hits, s, e);
    }
  }

  lemma {:induction false} RunKeepsOk(hits: Key32 -> bool, threads: nat, es: seq<Event>)
    ensures Ok(hits, Run(hits, threads, es)) && |Run(hits, threads, es).workers| == threads
  {
    if es == [] {
      TotalOfIdle(Start(threads).workers);
    } else {
      RunKeepsOk(hits, threads, es[..|es| - 1]);
      StepKeepsOk(hits, Run(hits, threads, es[..|es| - 1]), es[|es| - 1]);
    }
  }

  // ----- the search -----

  predicate ValidPrefix(prefix: string, keyidLen: nat) {
    prefix != "" && Base32String(prefix) && ByteLen(prefix) <= keyidLen && ByteLen(prefix) <= MAX_KEYID_LEN
  }

  /** The prefixes that are searched for: base32 text that a keyid of that length can start with. */
  lemma {:induction false} ValidPrefixExact(prefix: string, keyidLen: nat)
    ensures ValidPrefix(prefix, keyidLen) <==>
      1 <= |prefix| <= 52 && |prefix| <= keyidLen && forall i :: 0 <= i < |prefix| ==> Base32Char(prefix[i])
  {
    if Base32String(prefix) {
      Base32IsAscii(prefix);
    }
  }

  /** Does this secret's keyid start with the wanted prefix? */
  function Matches(c: Crypto, prefix: string): Key32 -> bool {
    (secret: Key32) => KeyidFromPubkey(c, c.publicKey(secret), ByteLen(prefix)) == prefix
  }

  /** Whatever the schedule: a returned key has the wanted prefix at every keyid length that can
      show it; no key is returned only once the flag is up; each worker sends at most once and
      overruns the flag by at most one batch; and once all workers are gone every generated key
      is counted. */
  lemma {:induction false} SearchIsSound(c: Crypto, prefix: string, keyidLen: nat, threads: nat, es: seq<Event>)
    requires ValidPrefix(prefix, keyidLen) && threads >= 1
    ensures var s := Run(Matches(c, prefix), threads, es);
      && |s.sends| == |s.late| == |s.workers| == threads
      && (s.reporter.Returned? && s.reporter.found.Some? ==>
            forall len :: len >= |prefix| ==> prefix <= KeyidFromPubkey(c, c.publicKey(s.reporter.found.value), len))
      && (s.reporter == Returned(None) ==> s.abort)
      && (forall i :: 0 <= i < threads ==> s.sends[i] <= 1 && s.late[i] <= 4096)
      && ((forall i :: 0 <= i < threads ==> s.workers[i].Gone?) ==> s.attempts == s.generated)
  {
    var hits := Matches(c, prefix);
    RunKeepsOk(hits, threads, es);
    var s := Run(hits, threads, es);
    Base32IsAscii(prefix);
    if s.reporter.Returned? && s.reporter.found.Some? {
      var pubkey := c.publicKey(s.reporter.found.value);
      forall len: nat | len >= |prefix| ensures prefix <= KeyidFromPubkey(c, pubkey, len) {
        ShorterKeyidIsPrefix(c, pubkey, |prefix|, len);
      }
    }
    forall i | 0 <= i < threads ensures s.sends[i] <= 1 && s.late[i] <= 4096 {
      assert WorkerOk(hits, s, i);
    }
    if forall i :: 0 <= i < threads ==> s.workers[i].Gone? {
      TotalOfIdle(s.workers);
    }
  }

  /** A worker that looks at the flag leaves if it is up, and starts a batch if not. */
  lemma {:induction false} FlagStopsWorkers(hits: Key32 -> bool, threads: nat, es: seq<Event>, w: nat)
    requires w < |Run(hits, threads, es).workers| && Run(hits, threads, es).workers[w] == Top
    ensures var s := Run(hits, threads, es);
      Run(hits, threads, es + [LoadFlag(w)]).workers == s.workers[w := if s.abort then Gone else Searching(0)]
  {
    RunKeepsOk(hits, threads, es);
    RunOneMore(hits, threads, es, LoadFlag(w), Run(hits, threads, es));
  }

  /** The flag once up stays up, and Ctrl-C puts it up. */
  lemma {:induction false} FlagStaysUp(hits: Key32 -> bool, threads: nat, es: seq<Event>, i: nat)
    requires i <= |es|
    ensures Run(hits, threads, es[..i]).abort ==> Run(hits, threads, es).abort
    ensures Run(hits, threads, es).ctrlC ==> Run(hits, threads, es).abort
    decreases |es|
  {
    if i < |es| {
      assert es[..|es| - 1][..i] == es[..i];
      FlagStaysUp(hits, threads, es[..|es| - 1], i);
    } else {
      assert es[..i] == es;
      if es != [] {
        FlagStaysUp(hits, threads, es[..|es| - 1], |es| - 1);
      }
    }
  }

  /** A key sent while the reporter waits is not missed: all the reporter can do next is return the
      first one. */
  lemma {:induction false} SentWhileWaiting(hits: Key32 -> bool, threads: nat, es: seq<Event>, e: Event)
    requires Run(hits, threads, es).reporter == Waiting && Sent(Run(hits, threads, es))
    ensures Run(hits, threads, es + [e]).reporter in {Waiting, Returned(FirstSent(hits, threads, es))}
  {
    RunKeepsOk(hits, threads, es);
    FirstSentIsReturned(hits, threads, es);
    RunOneMore(hits, threads, es, e, Run(hits, threads, es));
  }

  /** The first key sent, once event `e` happens in `s`. */
  function FirstAfter(first: Option<Key32>, s: Search, e: Event): Option<Key32> {
    if first == None && e.Send? && Enabled(s, e) then Some(s.workers[e.w].secret) else first
  }

  /** The first key sent in the run. */
  function FirstSent(hits: Key32 -> bool, threads: nat, es: seq<Event>): Option<Key32> {
    if es == [] then None
    else
      var n := |es| - 1;
      FirstAfter(FirstSent(hits, threads, es[..n]), Run(hits, threads, es[..n]), es[n])
  }

  /** It is at the head of the channel, or has been returned. */
  predicate HeadIs(first: Option<Key32>, s: Search) {
    && (s.reporter.Returned? && s.reporter.found.Some? ==> first == s.reporter.found)
    && (!s.reporter.Returned? ==> first == if s.channel == [] then None else Some(s.channel[0]))
  }

  lemma {:induction false} HeadStays(hits: Key32 -> bool, s: Search, e: Event, first: Option<Key32>)
    requires Sized(s) && HeadIs(first, s)
    ensures HeadIs(FirstAfter(first, s, e), Step(hits, s, e))
  {
  }

  /** Whatever is returned is the first key sent. */
  lemma {:induction false} FirstSentIsReturned(hits: Key32 -> bool, threads: nat, es: seq<Event>)
    ensures HeadIs(FirstSent(hits, threads, es), Run(hits, threads, es))
  {
    if es != [] {
      var n := |es| - 1;
      FirstSentIsReturned(hits, threads, es[..n]);
      RunKeepsOk(hits, threads, es[..n]);
      HeadStays(hits, Run(hits, threads, es[..n]), es[n], FirstSent(hits, threads, es[..n]));
    }
  }

  /** Worker `w` holds this hit, or has sent its hit and is gone. */
  predicate TakenUp(s: Search, w: nat, secret: Key32) {
    && w < |s.workers| && w < |s.sends|
    && match s.workers[w]
       case Hit(x, _) => x == secret
       case Counted(x) => x == secret
       case Flagged(x) => x == secret
       case Gone => s.sends[w] == 1
       case _ => false
  }

  lemma {:induction false} StaysTakenUp(hits: Key32 -> bool, s: Search, e: Event, w: nat, secret: Key32)
    requires Ok(hits, s) && TakenUp(s, w, secret)
    ensures TakenUp(Step(hits, s, e), w, secret)
    ensures e == Send(w) && Enabled(s, e) ==> secret in Step(hits, s, e).channel
  {
    assert WorkerOk(hits, s, w);
  }

  /** In every run, a worker that generates a matching key takes it up: it holds that key from then
      on until it has sent it. */
  lemma {:induction false} EveryHitIsTakenUp(hits: Key32 -> bool, threads: nat, es: seq<Event>, i: nat)
    requires i < |es| && es[i].Generate? && hits(es[i].secret) && Enabled(Run(hits, threads, es[..i]), es[i])
    ensures var s, t, w := Run(hits, threads, es[..i]), Run(hits, threads, es[..i + 1]), es[i].w;
      w < |t.workers| && t.workers[w] == Hit(es[i].secret, s.workers[w].local + 1)
    ensures TakenUp(Run(hits, threads, es), es[i].w, es[i].secret)
    decreases |es|
  {
    var n := |es| - 1;
    RunKeepsOk(hits, threads, es[..n]);
    if i == n {
      assert es[..i + 1] == es;
      HitIsTaken(hits, Run(hits, threads, es[..n]), es[n].w, es[n].secret);
    } else {
      assert es[..n][..i] == es[..i] && es[..n][..i + 1] == es[..i + 1];
      EveryHitIsTakenUp(hits, threads, es[..n], i);
      StaysTakenUp(hits, Run(hits, threads, es[..n]), es[n], es[i].w, es[i].secret);
    }
  }

  lemma {:induction false} HitIsTaken(hits: Key32 -> bool, s: Search, w: nat, secret: Key32)
    requires Ok(hits, s) && Enabled(s, Generate(w, secret)) && hits(secret)
    ensures var t := Step(hits, s, Generate(w, secret));
      w < |t.workers| && t.workers[w] == Hit(secret, s.workers[w].local + 1) && TakenUp(t, w, secret)
  {
  }

  /** The reporter looks at a raised flag after a timeout. */
  predicate LooksTooLate(s: Search, e: Event) { e == CheckFlag && s.reporter == TimedOut && s.abort }

  /** The reporter stops with nothing: it looks at the flag after a timeout and finds it up, or
      the last worker has gone and none of them ever sent. */
  ghost predicate GivesUp(s: Search, e: Event) {
    || LooksTooLate(s, e)
    || (e == Disconnected && s.reporter == Waiting && AllGone(s) && !Sent(s))
  }

  lemma {:induction false} ReporterStep(hits: Key32 -> bool, s: Search, e: Event)
    requires Ok(hits, s)
    ensures Step(hits, s, e).reporter == Returned(None) <==> s.reporter == Returned(None) || GivesUp(s, e)
  {
  }

  ghost predicate GaveUp(hits: Key32 -> bool, threads: nat, es: seq<Event>, i: nat) {
    i < |es| && GivesUp(Run(hits, threads, es[..i]), es[i])
  }

  lemma {:induction false} GaveUpBefore(hits: Key32 -> bool, threads: nat, es: seq<Event>, n: nat, i: nat)
    requires i < n <= |es|
    ensures GaveUp(hits, threads, es[..n], i) <==> GaveUp(hits, threads, es, i)
  {
    assert es[..n][..i] == es[..i];
  }

  lemma {:induction false} GaveUpLast(hits: Key32 -> bool, threads: nat, es: seq<Event>, n: nat)
    requires n + 1 == |es|
    ensures (exists i :: GaveUp(hits, threads, es, i))
       <==> (exists i :: GaveUp(hits, threads, es[..n], i)) || GivesUp(Run(hits, threads, es[..n]), es[n])
  {
    if i: nat :| GaveUp(hits, threads, es, i) && i < n {
      GaveUpBefore(hits, threads, es, n, i);
    }
    if i: nat :| GaveUp(hits, threads, es[..n], i) {
      GaveUpBefore(hits, threads, es, n, i);
    }
    assert GivesUp(Run(hits, threads, es[..n]), es[n]) ==> GaveUp(hits, threads, es, n);
  }

  /** Nothing is returned exactly when the reporter gives up at some step of the schedule. */
  lemma {:induction false} NothingReturnedExactly(hits: Key32 -> bool, threads: nat, es: seq<Event>)
    ensures Run(hits, threads, es).reporter == Returned(None) <==> exists i :: GaveUp(hits, threads, es, i)
  {
    if es != [] {
      var n := |es| - 1;
      NothingReturnedExactly(hits, threads, es[..n]);
      RunKeepsOk(hits, threads, es[..n]);
      ReporterStep(hits, Run(hits, threads, es[..n]), es[n]);
      GaveUpLast(hits, threads, es, n);
    }
  }

  lemma {:induction false} CtrlCStays(hits: Key32 -> bool, threads: nat, es: seq<Event>, i: nat)
    requires i <= |es| && Run(hits, threads, es[..i]).ctrlC
    ensures Run(hits, threads, es).ctrlC
  {
    if i < |es| {
      assert es[..|es| - 1][..i] == es[..i];
      CtrlCStays(hits, threads, es[..|es| - 1], i);
    } else {
      assert es[..i] == es;
    }
  }

  lemma {:induction false} GoneHaveSent(hits: Key32 -> bool, s: Search)
    requires Ok(hits, s) && s.workers != [] && !s.ctrlC && AllGone(s)
    ensures Sent(s)
  {
    assert WorkerOk(hits, s, 0);
    var i :| 0 <= i < |s.workers| && (s.workers[i].Flagged? || s.sends[i] == 1);
    assert s.workers[i] == Gone;
  }

  /** Without Ctrl-C, nothing is returned exactly when the reporter, having timed out, looks at the
      flag once a worker has put it up; a key has then been found, and is lost. Waiting until the
      last worker is gone never loses one. */
  lemma {:induction false} HitLostExactly(hits: Key32 -> bool, threads: nat, es: seq<Event>)
    requires threads >= 1 && !Run(hits, threads, es).ctrlC
    ensures Run(hits, threads, es).reporter == Returned(None)
       <==> exists i :: 0 <= i < |es| && LooksTooLate(Run(hits, threads, es[..i]), es[i])
    ensures forall i :: 0 <= i < |es| && LooksTooLate(Run(hits, threads, es[..i]), es[i]) ==>
      Sized(Run(hits, threads, es[..i])) && HitFound(Run(hits, threads, es[..i]))
  {
    NothingReturnedExactly(hits, threads, es);
    forall i | 0 <= i < |es|
      ensures GaveUp(hits, threads, es, i) <==> LooksTooLate(Run(hits, threads, es[..i]), es[i])
      ensures LooksTooLate(Run(hits, threads, es[..i]), es[i]) ==>
        Sized(Run(hits, threads, es[..i])) && HitFound(Run(hits, threads, es[..i]))
    {
      var s := Run(hits, threads, es[..i]);
      RunKeepsOk(hits, threads, es[..i]);
      if s.ctrlC {
        CtrlCStays(hits, threads, es, i);
      } else if AllGone(s) {
        GoneHaveSent(hits, s);
      }
    }
    if i: nat :| GaveUp(hits, threads, es, i) {
      assert LooksTooLate(Run(hits, threads, es[..i]), es[i]);
    }
    if i :| 0 <= i < |es| && LooksTooLate(Run(hits, threads, es[..i]), es[i]) {
      assert GaveUp(hits, threads, es, i);
    }
  }

  lemma {:induction false} RunOneMore(hits: Key32 -> bool, threads: nat, es: seq<Event>, e: Event, s: Search)
    requires Run(hits, threads, es) == s
    ensures Run(hits, threads, es + [e]) == Step(hits, s, e)
  {
    assert (es + [e])[..|es|] == es;
  }

  lemma {:induction false} FindingOne(hits: Key32 -> bool, secret: Key32) returns (es: seq<Event>)
    requires hits(secret)
    ensures Run(hits, 1, es) == Search(false, 1, [Counted(secret)], [], Waiting, 1, [0], [0], false)
  {
    var s0 := Start(1);
    var s1 := s0.(workers := [Searching(0)]);
    var s2 := s1.(workers := [Hit(secret, 1)], generated := 1);
    RunOneMore(hits, 1, [], LoadFlag(0), s0);
    assert Step(hits, s0, LoadFlag(0)) == s1;
    RunOneMore(hits, 1, [] + [LoadFlag(0)], Generate(0, secret), s1);
    assert Step(hits, s1, Generate(0, secret)) == s2;
    es := [] + [LoadFlag(0)] + [Generate(0, secret)];
    RunOneMore(hits, 1, es, AddHit(0), s2);
    es := es + [AddHit(0)];
  }

  /** And that can happen, for every key that matches: the reporter looks at the flag before the
      worker that put it up has sent. */
  lemma {:induction false} HitCanBeLost(hits: Key32 -> bool, secret: Key32) returns (es: seq<Event>)
    requires hits(secret)
    ensures var s := Run(hits, 1, es);
      s.reporter == Returned(None) && !s.ctrlC && s.workers == [Flagged(secret)]
  {
    es := FindingOne(hits, secret);
    var s := Search(false, 1, [Counted(secret)], [], Waiting, 1, [0], [0], false);
    RunOneMore(hits, 1, es, SetFlag(0), s);
    es, s := es + [SetFlag(0)], s.(workers := [Flagged(secret)], abort := true);
    RunOneMore(hits, 1, es, Timeout, s);
    es, s := es + [Timeout], s.(reporter := TimedOut);
    RunOneMore(hits, 1, es, CheckFlag, s);
    es := es + [CheckFlag];
  }

  /** Or the key has been sent, after the timeout, and is left lying in the channel. */
  lemma {:induction false} SentHitCanBeLost(hits: Key32 -> bool, secret: Key32) returns (es: seq<Event>)
    requires hits(secret)
    ensures var s := Run(hits, 1, es);
      s.reporter == Returned(None) && !s.ctrlC && s.workers == [Gone] && s.channel == [secret]
  {
    es := FindingOne(hits, secret);
    var s := Search(false, 1, [Counted(secret)], [], Waiting, 1, [0], [0], false);
    RunOneMore(hits, 1, es, Timeout, s);
    es, s := es + [Timeout], s.(reporter := TimedOut);
    RunOneMore(hits, 1, es, SetFlag(0), s);
    es, s := es + [SetFlag(0)], s.(workers := [Flagged(secret)], abort := true);
    RunOneMore(hits, 1, es, Send(0), s);
    es, s := es + [Send(0)], s.(workers := [Gone], channel := [secret], sends := [1]);
    RunOneMore(hits, 1, es, CheckFlag, s);
    es := es + [CheckFlag];
  }
}
