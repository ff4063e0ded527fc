/** The local agent: concurrent resolve requests sharing one map from names to tunnels. */
module Agent {
  import opened Bytes
  import opened Crypto
  import opened Names
  import opened Resolution

  type Port = nat
  type TaskId = nat
  type Token = seq<bv8>

  /** What resolving a keyid from lookup results, at a time, and dialing it gives. */
  type Establisher = (string, seq<bytes>, u64) -> Option<Text>

  // ----- the token check -----

  /** The bits in which the two tokens differ, accumulated without an early exit. */
  function Difference(a: Token, b: Token): bv8
    requires |a| == |b|
  {
    if a == [] then 0 else Difference(a[..|a| - 1], b[..|b| - 1]) | (a[|a| - 1] ^ b[|b| - 1])
  }

  predicate TokenOk(expected: Token, given: Token) {
    |expected| == |given| && Difference(expected, given) == 0
  }

  /** The check accepts exactly the token. */
  lemma {:induction false} TokenExact(expected: Token, given: Token)
    ensures TokenOk(expected, given) <==> expected == given
  {
    if |expected| == |given| && expected != [] {
      var n := |expected| - 1;
      TokenExact(expected[..n], given[..n]);
      OrXorZero(Difference(expected[..n], given[..n]), expected[n], given[n]);
      assert expected == expected[..n] + [expected[n]] && given == given[..n] + [given[n]];
    }
  }

  lemma {:induction false} OrXorZero(acc: bv8, x: bv8, y: bv8)
    ensures acc | (x ^ y) == 0 <==> acc == 0 && x == y
  {
  }

  // ----- concurrent resolves -----

  /** A local listener forwarding to a peer. */
  datatype Listener = Listener(port: Port, peer: Text)

  /** A map entry; `listener` says which of all the listeners ever bound it was made for. */
  datatype Tunnel = Tunnel(port: Port, peer: Text, listener: nat)

  /** How far a resolve has come since it missed the fast path. */
  datatype Task =
    | Resolving(spelling: string, name: Name)
    | Binding(spelling: string, name: Name, peer: Text)
    | Inserting(spelling: string, name: Name, tunnel: Tunnel)

  datatype Report = Report(spelling: string, tunnel: Tunnel)

  /** The shared map, the resolves under way, the listener now open on each port, and for the
      statements: every listener ever bound, and every port reported. */
  datatype AgentState = AgentState(
    tunnels: map<string, Tunnel>, tasks: map<TaskId, Task>, open: map<Port, nat>,
    bound: seq<Listener>, reports: seq<Report>)

  datatype Event =
    | Request(id: TaskId, spelling: string, token: Token)       // check the token, parse, look in the map
    | LookedUp(id: TaskId, candidates: seq<bytes>, now: u64)    // the DHT answered: establish, or give up
    | Bound(id: TaskId, port: Port)                             // the system gave a free local port
    | Insert(id: TaskId)                                        // lock the map again, insert, report
    | Exits(port: Port)                                         // accepting failed: the listener is dropped

  /** `establish` is what resolving and dialing a keyid gives; a port is given out again only once
      its listener is gone. An exiting listener leaves its map entry behind. */
  function Step(establish: Establisher, secret: Token, s: AgentState, e: Event): AgentState {
    match e
    case Request(id, spelling, token) =>
      if !TokenOk(secret, token) || id in s.tasks || Parse(spelling).Err? then s
      else
        var name := Parse(spelling).value;
        if Display(name) in s.tunnels
        then s.(reports := s.reports + [Report(spelling, s.tunnels[Display(name)])])
        else s.(tasks := s.tasks[id := Resolving(spelling, name)])
    case LookedUp(id, candidates, now) =>
      if id !in s.tasks || !s.tasks[id].Resolving? then s
      else
        var t := s.tasks[id];
        (match establish(t.name.keyid, candidates, now)
         case Some(peer) => s.(tasks := s.tasks[id := Binding(t.spelling, t.name, peer)])
         case None => s.(tasks := s.tasks - {id}))
    case Bound(id, port) =>
      if id !in s.tasks || !s.tasks[id].Binding? || port in s.open then s
      else
        var t := s.tasks[id];
        s.(tasks := s.tasks[id := Inserting(t.spelling, t.name, Tunnel(port, t.peer, |s.bound|))],
           open := s.open[port := |s.bound|], bound := s.bound + [Listener(port, t.peer)])
    case Insert(id) =>
      if id !in s.tasks || !s.tasks[id].Inserting? then s
      else
        var t := s.tasks[id];
        s.(tunnels := s.tunnels[Display(t.name) := t.tunnel], tasks := s.tasks - {id},
           reports := s.reports + [Report(t.spelling, t.tunnel)])
    case Exits(port) => s.(open := s.open - {port})
  }

  const IDLE: AgentState := AgentState(map[], map[], map[], [], [])

  function Run(establish: Establisher, secret: Token, es: seq<Event>): AgentState {
    if es == [] then IDLE else Step(establish, secret, Run(establish, secret, es[..|es| - 1]), es[|es| - 1])
  }

  // ----- what every interleaving keeps -----

  /** The tunnel's listener was bound on its port, for a peer some key matching the name's keyid
      stands for. */
  ghost predicate MadeFor(c: Crypto, s: AgentState, t: Tunnel, name: Name) {
    && t.listener < |s.bound| && s.bound[t.listener] == Listener(t.port, t.peer)
    && PeerFor(c, name.keyid, t.peer)
  }

  ghost predicate TaskOk(c: Crypto, s: AgentState, t: Task) {
    && ValidName(t.name) && Parse(t.spelling) == Ok(t.name)
    && (t.Binding? ==> PeerFor(c, t.name.keyid, t.peer))
    && (t.Inserting? ==> MadeFor(c, s, t.tunnel, t.name))
  }

  /** A map entry: its key is the canonical spelling of a name its listener was made for. */
  ghost predicate EntryOk(c: Crypto, s: AgentState, key: string, t: Tunnel) {
    Parse(key).Ok? && Display(Parse(key).value) == key && MadeFor(c, s, t, Parse(key).value)
  }

  ghost predicate ReportOk(c: Crypto, s: AgentState, r: Report) {
    Parse(r.spelling).Ok? && MadeFor(c, s, r.tunnel, Parse(r.spelling).value)
  }

  ghost predicate Sound(c: Crypto, s: AgentState) {
    && (forall id :: id in s.tasks ==> TaskOk(c, s, s.tasks[id]))
    && (forall key :: key in s.tunnels ==> EntryOk(c, s, key, s.tunnels[key]))
    && (forall k :: 0 <= k < |s.reports| ==> ReportOk(c, s, s.reports[k]))
  }

  ghost predicate Trustworthy(c: Crypto, establish: Establisher) {
    forall keyid, candidates, now :: establish(keyid, candidates, now).Some? ==>
      PeerFor(c, keyid, establish(keyid, candidates, now).value)
  }

  /** Binding listeners and adding at most one task, one entry and one report that are in order. */
  lemma {:induction false} StaysSound(c: Crypto, s: AgentState, t: AgentState)
    requires Sound(c, s) && s.bound <= t.bound
    requires forall id :: id in t.tasks && (id !in s.tasks || t.tasks[id] != s.tasks[id]) ==>
      TaskOk(c, t, t.tasks[id])
    requires forall key :: key in t.tunnels && (key !in s.tunnels || t.tunnels[key] != s.tunnels[key]) ==>
      EntryOk(c, t, key, t.tunnels[key])
    requires t.reports == s.reports || (exists r :: t.reports == s.reports + [r] && ReportOk(c, t, r))
    ensures Sound(c, t)
  {
    forall id | id in t.tasks ensures TaskOk(c, t, t.tasks[id]) {
      if id in s.tasks && t.tasks[id] == s.tasks[id] { assert TaskOk(c, s, s.tasks[id]); }
    }
    forall key | key in t.tunnels ensures EntryOk(c, t, key, t.tunnels[key]) {
      if key in s.tunnels && t.tunnels[key] == s.tunnels[key] { assert EntryOk(c, s, key, s.tunnels[key]); }
    }
    forall k | 0 <= k < |t.reports| ensures ReportOk(c, t, t.reports[k]) {
      if k < |s.reports| { assert ReportOk(c, s, s.reports[k]); }
    }
  }

  lemma {:induction false} RequestKeepsSound(c: Crypto, s: AgentState, id: TaskId, spelling: string, name: Name)
    requires Sound(c, s) && Parse(spelling) == Ok(name)
    ensures if Display(name) in s.tunnels
      then Sound(c, s.(reports := s.reports + [Report(spelling, s.tunnels[Display(name)])]))
      else id !in s.tasks ==> Sound(c, s.(tasks := s.tasks[id := Resolving(spelling, name)]))
  {
    ParseDisplayParse(spelling);
    if Display(name) in s.tunnels {
      var r := Report(spelling, s.tunnels[Display(name)]);
      var t := s.(reports := s.reports + [r]);
      assert EntryOk(c, s, Display(name), s.tunnels[Display(name)]);
      assert ReportOk(c, t, r);
      StaysSound(c, s, t);
    } else if id !in s.tasks {
      var t := s.(tasks := s.tasks[id := Resolving(spelling, name)]);
      assert TaskOk(c, t, t.tasks[id]);
      StaysSound(c, s, t);
    }
  }

  lemma {:induction false} InsertKeepsSound(c: Crypto, establish: Establisher, secret: Token, s: AgentState, e: Event)
    requires Sound(c, s) && e.Insert?
    ensures Sound(c, Step(establish, secret, s, e))
  {
    var t := Step(establish, secret, s, e);
    if t != s {
      var task := s.tasks[e.id];
      assert TaskOk(c, s, task);
      ParseDisplay(task.name);
      assert EntryOk(c, t, Display(task.name), task.tunnel);
      assert ReportOk(c, t, Report(task.spelling, task.tunnel));
      StaysSound(c, s, t);
    }
  }

  lemma {:induction false} LookupKeepsSound(c: Crypto, s: AgentState, id: TaskId, peer: Option<Text>)
    requires Sound(c, s) && id in s.tasks && s.tasks[id].Resolving?
    requires peer.Some? ==> PeerFor(c, s.tasks[id].name.keyid, peer.value)
    ensures var task := s.tasks[id];
      var tasks := if peer.Some? then s.tasks[id := Binding(task.spelling, task.name, peer.value)] else s.tasks - {id};
      Sound(c, s.(tasks := tasks))
  {
    var task := s.tasks[id];
    assert TaskOk(c, s, task);
    if peer.Some? {
      var t := s.(tasks := s.tasks[id := Binding(task.spelling, task.name, peer.value)]);
      assert TaskOk(c, t, t.tasks[id]);
      StaysSound(c, s, t);
    } else {
      StaysSound(c, s, s.(tasks := s.tasks - {id}));
    }
  }

  lemma {:induction false} BoundKeepsSound(c: Crypto, establish: Establisher, secret: Token, s: AgentState, e: Event)
    requires Sound(c, s) && e.Bound?
    ensures Sound(c, Step(establish, secret, s, e))
  {
    var t := Step(establish, secret, s, e);
    if t != s {
      var task := s.tasks[e.id];
      assert TaskOk(c, s, task);
      assert TaskOk(c, t, Inserting(task.spelling, task.name, Tunnel(e.port, task.peer, |s.bound|)));
      StaysSound(c, s, t);
    }
  }

  lemma {:induction false} StepKeepsSound(c: Crypto, establish: Establisher, secret: Token, s: AgentState, e: Event)
    requires Trustworthy(c, establish) && Sound(c, s)
    ensures Sound(c, Step(establish, secret, s, e))
  {
    match e
    case Request(id, spelling, _) =>
      if Parse(spelling).Ok? {
        RequestKeepsSound(c, s, id, spelling, Parse(spelling).value);
      }
    case LookedUp(id, candidates, now) =>
      if id in s.tasks && s.tasks[id].Resolving? {
        LookupKeepsSound(c, s, id, establish(s.tasks[id].name.keyid, candidates, now));
      }
    case Bound(_, _) => BoundKeepsSound(c, establish, secret, s, e);
    case Insert(_) => InsertKeepsSound(c, establish, secret, s, e);
    case Exits(port) => StaysSound(c, s, s.(open := s.open - {port}));
  }

  lemma {:induction false} RunKeepsSound(c: Crypto, establish: Establisher, secret: Token, es: seq<Event>)
    requires Trustworthy(c, establish)
    ensures Sound(c, Run(establish, secret, es))
  {
    if es != [] {
      RunKeepsSound(c, establish, secret, es[..|es| - 1]);
      StepKeepsSound(c, establish, secret, Run(establish, secret, es[..|es| - 1]), es[|es| - 1]);
    }
  }

  function Establishing(c: Crypto): Establisher {
    (keyid: string, candidates: seq<bytes>, now: u64) => Establish(c, keyid, candidates, now)
  }

  lemma {:induction false} EstablishingIsTrustworthy(c: Crypto)
    ensures Trustworthy(c, Establishing(c))
  {
    forall keyid: string, candidates: seq<bytes>, now: u64 | Establish(c, keyid, candidates, now).Some?
      ensures PeerFor(c, keyid, Establish(c, keyid, candidates, now).value)
    {
      EstablishedPeer(c, keyid, candidates, now);
    }
  }

  /** In every interleaving of resolves: map keys are canonical names, one per name, and every port
      ever reported for a spelling was bound for a peer of a key matching the keyid of the name it
      spells. */
  lemma {:induction false} ReportedPortsAreGenuine(c: Crypto, secret: Token, es: seq<Event>)
    ensures var s := Run(Establishing(c), secret, es);
      && (forall key :: key in s.tunnels ==> EntryOk(c, s, key, s.tunnels[key]))
      && (forall k, l :: k in s.tunnels && l in s.tunnels && Parse(k) == Parse(l) ==> k == l)
      && (forall k :: 0 <= k < |s.reports| ==> ReportOk(c, s, s.reports[k]))
  {
    EstablishingIsTrustworthy(c);
    RunKeepsSound(c, Establishing(c), secret, es);
  }

  // ----- only requests carrying the token matter -----

  predicate Authorized(secret: Token, e: Event) { e.Request? ==> e.token == secret }

  /** The run without the requests that do not carry the token. */
  function OnlyAuthorized(secret: Token, es: seq<Event>): seq<Event> {
    if es == [] then []
    else
      var init, e := OnlyAuthorized(secret, es[..|es| - 1]), es[|es| - 1];
      if Authorized(secret, e) then init + [e] else init
  }

  /** Leaving out every request without the token changes nothing. */
  lemma {:induction false} UnauthorizedChangesNothing(establish: Establisher, secret: Token, es: seq<Event>)
    ensures Run(establish, secret, OnlyAuthorized(secret, es)) == Run(establish, secret, es)
  {
    if es != [] {
      var init, e := es[..|es| - 1], es[|es| - 1];
      UnauthorizedChangesNothing(establish, secret, init);
      if Authorized(secret, e) {
        RunOneMore(establish, secret, OnlyAuthorized(secret, init), e, Run(establish, secret, init));
      } else {
        TokenExact(secret, e.token);
      }
    }
  }

  /** Somebody holding the token asked for this spelling. */
  ghost predicate Asked(secret: Token, es: seq<Event>, spelling: string) {
    exists i :: 0 <= i < |es| && es[i].Request? && es[i].token == secret && es[i].spelling == spelling
  }

  ghost predicate AllAsked(secret: Token, es: seq<Event>, s: AgentState) {
    && (forall id :: id in s.tasks ==> Asked(secret, es, s.tasks[id].spelling))
    && (forall k :: 0 <= k < |s.reports| ==> Asked(secret, es, s.reports[k].spelling))
  }

  lemma {:induction false} AskedStep(establish: Establisher, secret: Token, es: seq<Event>, s: AgentState, e: Event)
    requires AllAsked(secret, es, s)
    ensures AllAsked(secret, es + [e], Step(establish, secret, s, e))
  {
    var fs, t := es + [e], Step(establish, secret, s, e);
    forall spelling | Asked(secret, es, spelling) ensures Asked(secret, fs, spelling) {
      var i :| 0 <= i < |es| && es[i].Request? && es[i].token == secret && es[i].spelling == spelling;
      assert fs[i] == es[i];
    }
    if e.Request? && t != s {
      TokenExact(secret, e.token);
      assert fs[|es|] == e;
      assert Asked(secret, fs, e.spelling);
    }
    forall id | id in t.tasks ensures Asked(secret, fs, t.tasks[id].spelling) {
    }
    forall k | 0 <= k < |t.reports| ensures Asked(secret, fs, t.reports[k].spelling) {
    }
  }

  /** Every spelling ever reported was asked for by somebody holding the token. */
  lemma {:induction false} ReportsWereAskedFor(establish: Establisher, secret: Token, es: seq<Event>)
    ensures AllAsked(secret, es, Run(establish, secret, es))
  {
    if es != [] {
      ReportsWereAskedFor(establish, secret, es[..|es| - 1]);
      AskedStep(establish, secret, es[..|es| - 1], Run(establish, secret, es[..|es| - 1]), es[|es| - 1]);
      assert es[..|es| - 1] + [es[|es| - 1]] == es;
    }
  }

  /** The resolve goes on from `s` to `t` to bind a port for the peer. */
  predicate GoesOnTo(s: AgentState, t: AgentState, id: TaskId, peer: Text)
    requires id in s.tasks && s.tasks[id].Resolving?
  {
    id in t.tasks && t.tasks[id] == Binding(s.tasks[id].spelling, s.tasks[id].name, peer)
  }

  /** A lookup's answer moves its resolve on exactly when some record in it points to a peer, and
      to that peer; else it ends the resolve. Nothing else changes. */
  lemma {:induction false} LookupOutcome(c: Crypto, secret: Token, s: AgentState, id: TaskId, candidates: seq<bytes>,
                                         now: u64, peer: Text)
    requires id in s.tasks && s.tasks[id].Resolving?
    ensures var t := Step(Establishing(c), secret, s, LookedUp(id, candidates, now));
      && t == s.(tasks := t.tasks) && t.tasks - {id} == s.tasks - {id} && (id in t.tasks ==> t.tasks[id].Binding?)
      && (GoesOnTo(s, t, id, peer) <==> exists r :: PointsTo(c, s.tasks[id].name.keyid, now, candidates, r, peer))
  {
    var establish, task := Establishing(c), s.tasks[id];
    LookupEffect(establish, secret, s, id, candidates, now);
    var t := Step(establish, secret, s, LookedUp(id, candidates, now));
    assert t.tasks - {id} == s.tasks - {id};
    EstablishExact(c, task.name.keyid, candidates, now, peer);
    assert establish(task.name.keyid, candidates, now) == Establish(c, task.name.keyid, candidates, now);
  }

  lemma {:induction false} LookupEffect(establish: Establisher, secret: Token, s: AgentState, id: TaskId,
                                        candidates: seq<bytes>, now: u64)
    requires id in s.tasks && s.tasks[id].Resolving?
    ensures var t, task := Step(establish, secret, s, LookedUp(id, candidates, now)), s.tasks[id];
      match establish(task.name.keyid, candidates, now)
      case Some(peer) => t == s.(tasks := s.tasks[id := Binding(task.spelling, task.name, peer)])
      case None => t == s.(tasks := s.tasks - {id})
  {
  }

  // ----- does a reported port still serve its name? -----

  /** The listener with this number is still open. */
  predicate Live(s: AgentState, l: nat) {
    l < |s.bound| && s.bound[l].port in s.open && s.open[s.bound[l].port] == l
  }

  /** What is open on a port now forwards to a peer of a key matching the keyid. */
  ghost predicate Serves(c: Crypto, s: AgentState, port: Port, keyid: string) {
    port in s.open && s.open[port] < |s.bound| && PeerFor(c, keyid, s.bound[s.open[port]].peer)
  }

  /** What is open on a port is the last listener bound there. */
  ghost predicate OpenAreLast(s: AgentState) {
    && (forall port :: port in s.open ==> s.open[port] < |s.bound| && s.bound[s.open[port]].port == port)
    && (forall l :: 0 <= l < |s.bound| && s.bound[l].port in s.open ==> l <= s.open[s.bound[l].port])
  }

  /** From `s` to `t` listeners are only added, and those open close only by an exit. */
  ghost predicate OpenStep(s: AgentState, t: AgentState, e: Event) {
    && OpenAreLast(t) && s.bound <= t.bound
    && forall l :: 0 <= l < |s.bound| ==> (Live(t, l) <==> Live(s, l) && e != Exits(s.bound[l].port))
  }

  lemma {:induction false} BoundKeepsOpen(s: AgentState, t: AgentState, e: Event, port: Port, peer: Text)
    requires OpenAreLast(s) && port !in s.open && !e.Exits?
    requires t.open == s.open[port := |s.bound|] && t.bound == s.bound + [Listener(port, peer)]
    ensures OpenStep(s, t, e)
  {
  }

  lemma {:induction false} ExitKeepsOpen(s: AgentState, t: AgentState, port: Port)
    requires OpenAreLast(s) && t.open == s.open - {port} && t.bound == s.bound
    ensures OpenStep(s, t, Exits(port))
  {
  }

  lemma {:induction false} OthersKeepOpen(s: AgentState, t: AgentState, e: Event)
    requires OpenAreLast(s) && t.open == s.open && t.bound == s.bound && !e.Exits?
    ensures OpenStep(s, t, e)
  {
  }

  lemma {:induction false} StepKeepsOpen(establish: Establisher, secret: Token, s: AgentState, e: Event)
    requires OpenAreLast(s)
    ensures OpenStep(s, Step(establish, secret, s, e), e)
  {
    var t := Step(establish, secret, s, e);
    match e
    case Exits(port) => ExitKeepsOpen(s, t, port);
    case Bound(id, port) =>
      if t == s { OthersKeepOpen(s, t, e); } else { BoundKeepsOpen(s, t, e, port, s.tasks[id].peer); }
    case _ => OthersKeepOpen(s, t, e);
  }

  lemma {:induction false} RunKeepsOpen(establish: Establisher, secret: Token, es: seq<Event>)
    ensures OpenAreLast(Run(establish, secret, es))
  {
    if es != [] {
      RunKeepsOpen(establish, secret, es[..|es| - 1]);
      StepKeepsOpen(establish, secret, Run(establish, secret, es[..|es| - 1]), es[|es| - 1]);
    }
  }

  /** No listener on the port exits from the `i`-th event on. */
  predicate NoExit(es: seq<Event>, i: nat, port: Port) {
    forall j :: i <= j < |es| ==> es[j] != Exits(port)
  }

  lemma {:induction false} NoExitInit(es: seq<Event>, i: nat, port: Port)
    requires i < |es|
    ensures NoExit(es, i, port) <==> NoExit(es[..|es| - 1], i, port) && es[|es| - 1] != Exits(port)
  {
    var init := es[..|es| - 1];
    assert forall j :: 0 <= j < |init| ==> init[j] == es[j];
  }

  lemma {:induction false} RunOneMore(establish: Establisher, secret: Token, es: seq<Event>, e: Event, s: AgentState)
    requires Run(establish, secret, es) == s
    ensures Run(establish, secret, es + [e]) == Step(establish, secret, s, e)
  {
    assert (es + [e])[..|es|] == es;
  }

  lemma {:induction false} RunOpenStep(establish: Establisher, secret: Token, es: seq<Event>, k: nat)
    requires k < |es|
    ensures OpenStep(Run(establish, secret, es[..k]), Run(establish, secret, es[..k + 1]), es[k])
  {
    assert es[..k + 1] == es[..k] + [es[k]];
    RunOneMore(establish, secret, es[..k], es[k], Run(establish, secret, es[..k]));
    RunKeepsOpen(establish, secret, es[..k]);
    StepKeepsOpen(establish, secret, Run(establish, secret, es[..k]), es[k]);
  }

  /** The states `ss` reached before, between and after the events. */
  ghost predicate Trace(ss: seq<AgentState>, es: seq<Event>) {
    |ss| == |es| + 1 && forall k :: 0 <= k < |es| ==> OpenStep(ss[k], ss[k + 1], es[k])
  }

  lemma {:induction false} LiveAlongTrace(ss: seq<AgentState>, es: seq<Event>, i: nat, n: nat, l: nat)
    requires Trace(ss, es) && i <= n <= |es| && Live(ss[i], l)
    ensures ss[i].bound <= ss[n].bound && (Live(ss[n], l) <==> NoExit(es[..n], i, ss[i].bound[l].port))
    decreases n
  {
    if i < n {
      LiveAlongTrace(ss, es, i, n - 1, l);
      assert OpenStep(ss[n - 1], ss[n - 1 + 1], es[n - 1]);
      NoExitInit(es[..n], i, ss[i].bound[l].port);
      assert es[..n][..n - 1] == es[..n - 1];
    }
  }

  /** A listener stays open exactly until the first exit on its port. */
  lemma {:induction false} LiveUntilExit(establish: Establisher, secret: Token, es: seq<Event>, i: nat, l: nat)
    requires i <= |es| && Live(Run(establish, secret, es[..i]), l)
    ensures var s, t := Run(establish, secret, es[..i]), Run(establish, secret, es);
      s.bound <= t.bound && (Live(t, l) <==> NoExit(es, i, s.bound[l].port))
  {
    var ss := seq(|es| + 1, k requires 0 <= k <= |es| => Run(establish, secret, es[..k]));
    forall k | 0 <= k < |es| ensures OpenStep(ss[k], ss[k + 1], es[k]) {
      RunOpenStep(establish, secret, es, k);
    }
    LiveAlongTrace(ss, es, i, |es|, l);
    assert es[..|es|] == es;
  }

  /** What is open on a port now forwards to the given peer. */
  predicate ForwardsTo(s: AgentState, port: Port, peer: Text) {
    port in s.open && s.open[port] < |s.bound| && s.bound[s.open[port]].peer == peer
  }

  /** All keys matching the keyid, if several, stand for one peer. */
  ghost predicate OnePeer(c: Crypto, keyid: string) {
    forall p, q :: PeerFor(c, keyid, p) && PeerFor(c, keyid, q) ==> p == q
  }

  /** In every run, a reported port serves the name it was reported for if what is open there now
      forwards to the peer in the map entry, and, unless two peers suit the keyid, only if. */
  lemma {:induction false} ReportServesExactly(c: Crypto, secret: Token, es: seq<Event>, k: nat)
    requires k < |Run(Establishing(c), secret, es).reports|
    ensures var s := Run(Establishing(c), secret, es);
      var r := s.reports[k];
      && Parse(r.spelling).Ok?
      && var keyid := Parse(r.spelling).value.keyid;
      && (ForwardsTo(s, r.tunnel.port, r.tunnel.peer) ==> Serves(c, s, r.tunnel.port, keyid))
      && (OnePeer(c, keyid) && Serves(c, s, r.tunnel.port, keyid) ==> ForwardsTo(s, r.tunnel.port, r.tunnel.peer))
  {
    ReportedPortsAreGenuine(c, secret, es);
    assert ReportOk(c, Run(Establishing(c), secret, es), Run(Establishing(c), secret, es).reports[k]);
  }

  /** The port was given, after listener `l`, to one forwarding to the same peer. */
  predicate Reopened(s: AgentState, l: nat, t: Tunnel) {
    ForwardsTo(s, t.port, t.peer) && l < s.open[t.port]
  }

  lemma {:induction false} ForwardsExactly(s: AgentState, t: Tunnel)
    requires OpenAreLast(s) && t.listener < |s.bound| && s.bound[t.listener] == Listener(t.port, t.peer)
    ensures ForwardsTo(s, t.port, t.peer) <==> Live(s, t.listener) || Reopened(s, t.listener, t)
  {
  }

  /** In events: from any moment at which a reported listener is open, its port forwards to the
      peer of the map entry, and so serves its name, exactly until a listener exits there, or again
      once a later one is bound there for that peer. */
  lemma {:induction false} ReportForwardsUntilExit(c: Crypto, secret: Token, es: seq<Event>, i: nat, k: nat)
    requires i <= |es| && k < |Run(Establishing(c), secret, es).reports|
    requires Live(Run(Establishing(c), secret, es[..i]), Run(Establishing(c), secret, es).reports[k].tunnel.listener)
    ensures var s := Run(Establishing(c), secret, es);
      var t := s.reports[k].tunnel;
      ForwardsTo(s, t.port, t.peer) <==> NoExit(es, i, t.port) || Reopened(s, t.listener, t)
  {
    var s := Run(Establishing(c), secret, es);
    var before, t := Run(Establishing(c), secret, es[..i]), s.reports[k].tunnel;
    ReportedPortsAreGenuine(c, secret, es);
    assert ReportOk(c, s, s.reports[k]);
    RunKeepsOpen(Establishing(c), secret, es);
    ForwardsExactly(s, t);
    LiveUntilExit(Establishing(c), secret, es, i, t.listener);
    assert before.bound[t.listener] == s.bound[t.listener];
  }

  lemma {:induction false} AllLive(establish: Establisher, secret: Token, es: seq<Event>)
    requires forall j :: 0 <= j < |es| ==> !es[j].Exits?
    ensures forall l :: 0 <= l < |Run(establish, secret, es).bound| ==> Live(Run(establish, secret, es), l)
  {
    if es != [] {
      AllLive(establish, secret, es[..|es| - 1]);
      RunKeepsOpen(establish, secret, es[..|es| - 1]);
      StepKeepsOpen(establish, secret, Run(establish, secret, es[..|es| - 1]), es[|es| - 1]);
    }
  }

  /** In particular, while no listener exits every reported port serves its name. */
  lemma {:induction false} ReportsServeWithoutExits(c: Crypto, secret: Token, es: seq<Event>, k: nat)
    requires k < |Run(Establishing(c), secret, es).reports| && forall j :: 0 <= j < |es| ==> !es[j].Exits?
    ensures var s := Run(Establishing(c), secret, es);
      var r := s.reports[k];
      Parse(r.spelling).Ok? && Serves(c, s, r.tunnel.port, Parse(r.spelling).value.keyid)
  {
    AllLive(Establishing(c), secret, es);
    ReportedPortsAreGenuine(c, secret, es);
    var s := Run(Establishing(c), secret, es);
    assert ReportOk(c, s, s.reports[k]);
    RunKeepsOpen(Establishing(c), secret, es);
    ForwardsExactly(s, s.reports[k].tunnel);
    ReportServesExactly(c, secret, es, k);
  }

  // ----- and it may not -----

  ghost predicate Reachable(establish: Establisher, secret: Token, s: AgentState) {
    exists es :: Run(establish, secret, es) == s
  }

  lemma {:induction false} ReachStep(establish: Establisher, secret: Token, s: AgentState, e: Event, t: AgentState)
    requires Reachable(establish, secret, s) && Step(establish, secret, s, e) == t
    ensures Reachable(establish, secret, t)
  {
    var es :| Run(establish, secret, es) == s;
    RunOneMore(establish, secret, es, e, s);
  }

  /** A name that resolves to a peer, by some spelling and some lookup. */
  datatype Resolvable = Resolvable(spelling: string, name: Name, candidates: seq<bytes>, now: u64, peer: Text)

  predicate Resolves(establish: Establisher, r: Resolvable) {
    Parse(r.spelling) == Ok(r.name) && establish(r.name.keyid, r.candidates, r.now) == Some(r.peer)
  }

  lemma {:induction false} ReachMiss(establish: Establisher, secret: Token, s: AgentState, r: Resolvable)
    requires Reachable(establish, secret, s) && s.tasks == map[]
    requires Resolves(establish, r) && Display(r.name) !in s.tunnels
    ensures Reachable(establish, secret, s.(tasks := map[0 := Resolving(r.spelling, r.name)]))
  {
    TokenExact(secret, secret);
    var t := s.(tasks := map[0 := Resolving(r.spelling, r.name)]);
    ReachStep(establish, secret, s, Request(0, r.spelling, secret), t);
  }

  lemma {:induction false} ReachHit(establish: Establisher, secret: Token, s: AgentState, r: Resolvable, t: Tunnel)
    requires Reachable(establish, secret, s) && s.tasks == map[]
    requires Resolves(establish, r) && Display(r.name) in s.tunnels && s.tunnels[Display(r.name)] == t
    ensures Reachable(establish, secret, s.(reports := s.reports + [Report(r.spelling, t)]))
  {
    TokenExact(secret, secret);
    ReachStep(establish, secret, s, Request(0, r.spelling, secret), s.(reports := s.reports + [Report(r.spelling, t)]));
  }

  lemma {:induction false} ReachPeer(establish: Establisher, secret: Token, s: AgentState, r: Resolvable)
    requires Reachable(establish, secret, s) && s.tasks == map[0 := Resolving(r.spelling, r.name)]
    requires establish(r.name.keyid, r.candidates, r.now) == Some(r.peer)
    ensures Reachable(establish, secret, s.(tasks := map[0 := Binding(r.spelling, r.name, r.peer)]))
  {
    var t := s.(tasks := map[0 := Binding(r.spelling, r.name, r.peer)]);
    ReachStep(establish, secret, s, LookedUp(0, r.candidates, r.now), t);
  }

  lemma {:induction false} ReachBound(establish: Establisher, secret: Token, s: AgentState, r: Resolvable, port: Port,
                                      t: AgentState)
    requires Reachable(establish, secret, s) && s.tasks == map[0 := Binding(r.spelling, r.name, r.peer)]
    requires port !in s.open
    requires t == s.(tasks := map[0 := Inserting(r.spelling, r.name, Tunnel(port, r.peer, |s.bound|))],
                     open := s.open[port := |s.bound|], bound := s.bound + [Listener(port, r.peer)])
    ensures Reachable(establish, secret, t)
  {
    ReachStep(establish, secret, s, Bound(0, port), t);
  }

  lemma {:induction false} ReachInsert(establish: Establisher, secret: Token, s: AgentState, r: Resolvable,
                                       tunnel: Tunnel, t: AgentState)
    requires Reachable(establish, secret, s) && s.tasks == map[0 := Inserting(r.spelling, r.name, tunnel)]
    requires t == s.(tunnels := s.tunnels[Display(r.name) := tunnel], tasks := map[],
                     reports := s.reports + [Report(r.spelling, tunnel)])
    ensures Reachable(establish, secret, t)
  {
    ReachStep(establish, secret, s, Insert(0), t);
  }

  lemma {:induction false} ReachExit(establish: Establisher, secret: Token, s: AgentState, port: Port)
    requires Reachable(establish, secret, s)
    ensures Reachable(establish, secret, s.(open := s.open - {port}))
  {
    ReachStep(establish, secret, s, Exits(port), s.(open := s.open - {port}));
  }

  lemma {:induction false} ReachIdle(establish: Establisher, secret: Token)
    ensures Reachable(establish, secret, IDLE)
  {
    assert Run(establish, secret, []) == IDLE;
  }

  /** One resolve from start to end, with nothing else going on: a free port comes to serve it. */
  lemma {:induction false} ResolveOne(establish: Establisher, secret: Token, s: AgentState, r: Resolvable, port: Port,
                                      t: AgentState)
    requires Reachable(establish, secret, s) && s.tasks == map[] && port !in s.open
    requires Resolves(establish, r) && Display(r.name) !in s.tunnels
    requires var tunnel := Tunnel(port, r.peer, |s.bound|);
      t == AgentState(s.tunnels[Display(r.name) := tunnel], map[], s.open[port := |s.bound|],
                      s.bound + [Listener(port, r.peer)], s.reports + [Report(r.spelling, tunnel)])
    ensures Reachable(establish, secret, t)
  {
    var tunnel := Tunnel(port, r.peer, |s.bound|);
    var s1 := s.(tasks := map[0 := Resolving(r.spelling, r.name)]);
    var s2 := s1.(tasks := map[0 := Binding(r.spelling, r.name, r.peer)]);
    var s3 := s2.(tasks := map[0 := Inserting(r.spelling, r.name, tunnel)], open := s.open[port := |s.bound|],
                  bound := s.bound + [Listener(port, r.peer)]);
    ReachMiss(establish, secret, s, r);
    ReachPeer(establish, secret, s1, r);
    ReachBound(establish, secret, s2, r, port, s3);
    ReachInsert(establish, secret, s3, r, tunnel, t);
  }

  /** A port is resolved for one name, its listener exits, it is resolved for another, and the
      first name is asked for again. */
  lemma {:induction false} PortReused(establish: Establisher, secret: Token, a: Resolvable, b: Resolvable, port: Port)
    returns (s: AgentState)
    requires Resolves(establish, a) && Resolves(establish, b) && Display(a.name) != Display(b.name)
    ensures Reachable(establish, secret, s)
    ensures s.reports != [] && s.reports[|s.reports| - 1] == Report(a.spelling, Tunnel(port, a.peer, 0))
    ensures s.open == map[port := 1] && s.bound == [Listener(port, a.peer), Listener(port, b.peer)]
  {
    var t, u := Tunnel(port, a.peer, 0), Tunnel(port, b.peer, 1);
    var s1 := AgentState(map[Display(a.name) := t], map[], map[port := 0], [Listener(port, a.peer)],
                         [Report(a.spelling, t)]);
    var s2 := s1.(open := s1.open - {port});
    var s3 := AgentState(s1.tunnels[Display(b.name) := u], map[], s2.open[port := 1],
                         s1.bound + [Listener(port, b.peer)], s1.reports + [Report(b.spelling, u)]);
    ReachIdle(establish, secret);
    ResolveOne(establish, secret, IDLE, a, port, s1);
    ReachExit(establish, secret, s1, port);
    ResolveOne(establish, secret, s2, b, port, s3);
    ReachHit(establish, secret, s3, a, t);
    s := s3.(reports := s3.reports + [Report(a.spelling, t)]);
  }

  lemma {:induction false} Misdirected(c: Crypto, s: AgentState, port: Port, first: Text, second: Text, keyid: string,
                                       other: string)
    requires s.open == map[port := 1] && s.bound == [Listener(port, first), Listener(port, second)]
    requires PeerFor(c, other, second) && !PeerFor(c, keyid, second)
    ensures Serves(c, s, port, other) && !Serves(c, s, port, keyid)
  {
  }

  /** So the entry left behind by a listener can send whoever asks for its name to the peer of a
      different one: for any two names that resolve, unless the second's peer suits the first. */
  lemma {:induction false} StaleEntryMisdirects(c: Crypto, secret: Token, a: Resolvable, b: Resolvable, port: Port)
    returns (s: AgentState)
    requires Resolves(Establishing(c), a) && Resolves(Establishing(c), b) && Display(a.name) != Display(b.name)
    requires !PeerFor(c, a.name.keyid, b.peer)
    ensures Reachable(Establishing(c), secret, s)
    ensures s.reports != [] && s.reports[|s.reports| - 1] == Report(a.spelling, Tunnel(port, a.peer, 0))
    ensures Serves(c, s, port, b.name.keyid) && !Serves(c, s, port, a.name.keyid)
  {
    s := PortReused(Establishing(c), secret, a, b, port);
    EstablishedPeer(c, b.name.keyid, b.candidates, b.now);
    Misdirected(c, s, port, a.peer, b.peer, a.name.keyid, b.name.keyid);
  }
}
