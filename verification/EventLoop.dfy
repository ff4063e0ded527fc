/** Query correlation in the network task: commands start queries, query events answer them. */
module EventLoop {
  import opened Bytes
  import opened Records
  import opened Resolution
  import opened Crypto

  type QueryId = nat
  type Channel = nat

  /** What goes through a reply channel; sending consumes the channel. */
  datatype Reply = PutReply(channel: Channel, ok: bool) | GetReply(channel: Channel, values: seq<bytes>)

  /** A get in flight: its reply channel and the values gathered so far. */
  datatype Gathering = Gathering(channel: Channel, values: seq<bytes>)

  /** The two pending tables, and the replies sent so far. */
  datatype LoopState = LoopState(puts: map<QueryId, Channel>, gets: map<QueryId, Gathering>, sent: seq<Reply>)

  datatype Event =
    | PutStarted(channel: Channel, id: QueryId)
    | PutRefused(channel: Channel)
    | GetStarted(channel: Channel, id: QueryId)
    | PutResult(id: QueryId, ok: bool)
    | FoundRecord(id: QueryId, value: bytes)
    | GetFinished(id: QueryId)
    | GetFailed(id: QueryId)
    | Unrelated

  function Finish(s: LoopState, id: QueryId): LoopState {
    if id in s.gets
    then s.(gets := s.gets - {id}, sent := s.sent + [GetReply(s.gets[id].channel, s.gets[id].values)])
    else s
  }

  function Step(s: LoopState, e: Event): LoopState {
    match e
    case PutStarted(channel, id) => s.(puts := s.puts[id := channel])
    case PutRefused(channel) => s.(sent := s.sent + [PutReply(channel, false)])
    case GetStarted(channel, id) => s.(gets := s.gets[id := Gathering(channel, [])])
    case PutResult(id, ok) =>
      if id in s.puts then s.(puts := s.puts - {id}, sent := s.sent + [PutReply(s.puts[id], ok)]) else s
    case FoundRecord(id, value) =>
      if WithinCap(value) && id in s.gets
      then s.(gets := s.gets[id := s.gets[id].(values := s.gets[id].values + [value])])
      else s
    case GetFinished(id) => Finish(s, id)
    case GetFailed(id) => Finish(s, id)
    case Unrelated => s
  }

  const IDLE: LoopState := LoopState(map[], map[], [])

  function Run(es: seq<Event>): LoopState {
    if es == [] then IDLE else Step(Run(es[..|es| - 1]), es[|es| - 1])
  }

  /** The network task: the pending tables are updated in place by its two handlers. */
  class NetworkTask {
    var pendingPut: map<QueryId, Channel>
    var pendingGet: map<QueryId, Gathering>
    var sent: seq<Reply>

    function State(): LoopState reads this { LoopState(pendingPut, pendingGet, sent) }

    constructor ()
      ensures State() == IDLE
    {
      pendingPut, pendingGet, sent := map[], map[], [];
    }

    /** A put command: the DHT either starts a query or refuses at once. */
    method HandlePut(channel: Channel, started: Option<QueryId>)
      modifies this
      ensures State() == Step(old(State()), match started
                                            case Some(id) => PutStarted(channel, id)
                                            case None => PutRefused(channel))
    {
      match started {
        case Some(id) => pendingPut := pendingPut[id := channel];
        case None => sent := sent + [PutReply(channel, false)];
      }
    }

    method HandleGet(channel: Channel, id: QueryId)
      modifies this
      ensures State() == Step(old(State()), GetStarted(channel, id))
    {
      pendingGet := pendingGet[id := Gathering(channel, [])];
    }

    /** `handle_kad_result`. */
    method HandleResult(e: Event)
      requires !e.PutStarted? && !e.PutRefused? && !e.GetStarted?
      modifies this
      ensures State() == Step(old(State()), e)
    {
      match e {
        case PutResult(id, ok) =>
          if id in pendingPut {
            sent := sent + [PutReply(pendingPut[id], ok)];
            pendingPut := pendingPut - {id};
          }
        case FoundRecord(id, value) =>
          if |value| <= MAX_RECORD_BYTES {
            if id in pendingGet {
              var g := pendingGet[id];
              pendingGet := pendingGet[id := Gathering(g.channel, g.values + [value])];
            }
          }
        case GetFinished(id) => Answer(id);
        case GetFailed(id) => Answer(id);
        case _ =>
      }
    }

    method Answer(id: QueryId)
      modifies this
      ensures State() == Finish(old(State()), id)
    {
      if id in pendingGet {
        var g := pendingGet[id];
        sent := sent + [GetReply(g.channel, g.values)];
        pendingGet := pendingGet - {id};
      }
    }
  }

  // ----- exactly one reply per command, with that query's values -----

  predicate Command(e: Event) { e.PutStarted? || e.PutRefused? || e.GetStarted? }
  predicate Starts(e: Event) { e.PutStarted? || e.GetStarted? }
  predicate Mentions(e: Event, id: QueryId) { !e.PutRefused? && !e.Unrelated? && e.id == id }

  /** Every command brings a new channel, and every query it starts has an id not seen before. */
  ghost predicate Fresh(es: seq<Event>) {
    forall i, j :: 0 <= i < j < |es| ==>
      && (Command(es[i]) && Command(es[j]) ==> es[i].channel != es[j].channel)
      && (Starts(es[j]) ==> !Mentions(es[i], es[j].id))
  }

  /** The values found for a query, in order, leaving out those over the size cap. */
  function Found(es: seq<Event>, id: QueryId): seq<bytes> {
    if es == [] then []
    else
      var found, e := Found(es[..|es| - 1], id), es[|es| - 1];
      if e.FoundRecord? && e.id == id && WithinCap(e.value) then found + [e.value] else found
  }

  /** Does event `e`, coming after `es`, settle command `cmd`, and with which reply? */
  function Settles(es: seq<Event>, cmd: Event, e: Event): Option<Reply> {
    match cmd
    case PutStarted(channel, id) =>
      if e.PutResult? && e.id == id then Some(PutReply(channel, e.ok)) else None
    case GetStarted(channel, id) =>
      if (e.GetFinished? || e.GetFailed?) && e.id == id then Some(GetReply(channel, Found(es, id))) else None
    case _ => None
  }

  /** The reply due to command `i`: a refusal at once, otherwise whatever first settles it. */
  function Due(es: seq<Event>, i: nat): Option<Reply>
    requires i < |es|
  {
    var n := |es| - 1;
    if i == n then (if es[i].PutRefused? then Some(PutReply(es[i].channel, false)) else None)
    else
      var d := Due(es[..n], i);
      if d.Some? then d else Settles(es[..n], es[i], es[n])
  }

  /** The replies sent through a channel, in order. */
  function RepliesOn(sent: seq<Reply>, channel: Channel): seq<Reply> {
    if sent == [] then []
    else
      var rs, r := RepliesOn(sent[..|sent| - 1], channel), sent[|sent| - 1];
      if r.channel == channel then rs + [r] else rs
  }

  lemma {:induction false} RepliesOnAppend(sent: seq<Reply>, r: Reply, channel: Channel)
    ensures RepliesOn(sent + [r], channel)
         == if r.channel == channel then RepliesOn(sent, channel) + [r] else RepliesOn(sent, channel)
  {
    assert (sent + [r])[..|sent|] == sent;
  }

  ghost predicate InTable(es: seq<Event>, s: LoopState, cmd: Event) {
    && (cmd.PutStarted? ==> cmd.id in s.puts && s.puts[cmd.id] == cmd.channel)
    && (cmd.GetStarted? ==> cmd.id in s.gets && s.gets[cmd.id] == Gathering(cmd.channel, Found(es, cmd.id)))
  }

  /** A settled command has exactly its due reply sent; any other is waiting in its table, a get
      with exactly the values found so far. */
  ghost predicate Tracked(es: seq<Event>, s: LoopState, i: nat)
    requires i < |es|
  {
    Command(es[i]) ==>
      match Due(es, i)
      case Some(r) => RepliesOn(s.sent, es[i].channel) == [r]
      case None => RepliesOn(s.sent, es[i].channel) == [] && InTable(es, s, es[i])
  }

  ghost predicate WaitingPut(es: seq<Event>, channel: Channel, id: QueryId) {
    exists i :: 0 <= i < |es| && es[i] == PutStarted(channel, id) && Due(es, i) == None
  }

  ghost predicate WaitingGet(es: seq<Event>, channel: Channel, id: QueryId) {
    exists i :: 0 <= i < |es| && es[i] == GetStarted(channel, id) && Due(es, i) == None
  }

  ghost predicate Issued(es: seq<Event>, channel: Channel) {
    exists i :: 0 <= i < |es| && Command(es[i]) && es[i].channel == channel
  }

  /** Nothing waits in a table, and nothing was sent, but for a command. */
  ghost predicate Accounted(es: seq<Event>, s: LoopState) {
    && (forall id :: id in s.puts ==> WaitingPut(es, s.puts[id], id))
    && (forall id :: id in s.gets ==> WaitingGet(es, s.gets[id].channel, id))
    && (forall k :: 0 <= k < |s.sent| ==> Issued(es, s.sent[k].channel))
  }

  ghost predicate Consistent(es: seq<Event>, s: LoopState) {
    Accounted(es, s) && forall i :: 0 <= i < |es| ==> Tracked(es, s, i)
  }

  lemma {:induction false} NotIssuedNoReplies(es: seq<Event>, sent: seq<Reply>, channel: Channel)
    requires !Issued(es, channel) && forall k :: 0 <= k < |sent| ==> Issued(es, sent[k].channel)
    ensures RepliesOn(sent, channel) == []
  {
    if sent != [] {
      NotIssuedNoReplies(es, sent[..|sent| - 1], channel);
    }
  }

  lemma {:induction false} NotMentionedNotFound(es: seq<Event>, id: QueryId)
    requires forall i :: 0 <= i < |es| ==> !Mentions(es[i], id)
    ensures Found(es, id) == []
  {
    if es != [] {
      NotMentionedNotFound(es[..|es| - 1], id);
    }
  }

  /** A reply goes out only to the command it settles. */
  lemma {:induction false} ReplyBelongs(es: seq<Event>, s: LoopState, e: Event, i: nat)
    requires Fresh(es + [e]) && Consistent(es, s) && i < |es| && Command(es[i])
    requires Step(s, e).sent != s.sent
    ensures Step(s, e).sent == s.sent + [Step(s, e).sent[|s.sent|]]
    ensures var r := Step(s, e).sent[|s.sent|];
      if r.channel == es[i].channel then Due(es, i) == None && Settles(es, es[i], e) == Some(r)
      else Due(es, i).Some? || Settles(es, es[i], e) == None
  {
    assert (es + [e])[|es|] == e && (es + [e])[i] == es[i];
    assert Tracked(es, s, i);
    if e.PutResult? {
      var k :| 0 <= k < |es| && es[k] == PutStarted(s.puts[e.id], e.id) && Due(es, k) == None;
      assert (es + [e])[k] == es[k];
      assert es[k].channel == es[i].channel ==> i == k;
    } else if e.GetFinished? || e.GetFailed? {
      var k :| 0 <= k < |es| && es[k] == GetStarted(s.gets[e.id].channel, e.id) && Due(es, k) == None;
      assert (es + [e])[k] == es[k];
      assert es[k].channel == es[i].channel ==> i == k;
      assert Tracked(es, s, k);
    }
  }

  lemma {:induction false} DueStep(es: seq<Event>, e: Event, i: nat)
    requires i < |es|
    ensures Due(es + [e], i) == if Due(es, i).Some? then Due(es, i) else Settles(es, es[i], e)
  {
    assert (es + [e])[..|es|] == es;
  }

  lemma {:induction false} FoundStep(es: seq<Event>, e: Event, id: QueryId)
    ensures Found(es + [e], id)
         == if e.FoundRecord? && e.id == id && WithinCap(e.value) then Found(es, id) + [e.value] else Found(es, id)
  {
    assert (es + [e])[..|es|] == es;
  }

  /** A command that event `e` does not settle keeps waiting. */
  lemma {:induction false} KeepsWaiting(es: seq<Event>, s: LoopState, e: Event, i: nat)
    requires Fresh(es + [e]) && i < |es| && InTable(es, s, es[i]) && Settles(es, es[i], e) == None
    ensures InTable(es + [e], Step(s, e), es[i])
  {
    assert (es + [e])[i] == es[i] && (es + [e])[|es|] == e;
    if es[i].GetStarted? {
      FoundStep(es, e, es[i].id);
    }
  }

  lemma {:induction false} SettlingSends(es: seq<Event>, s: LoopState, cmd: Event, e: Event)
    requires InTable(es, s, cmd) && Settles(es, cmd, e).Some?
    ensures Step(s, e).sent == s.sent + [Settles(es, cmd, e).value]
  {
  }

  /** One more event: an earlier command stays tracked. */
  lemma {:induction false} TrackedStep(es: seq<Event>, s: LoopState, e: Event, i: nat)
    requires Fresh(es + [e]) && Consistent(es, s) && i < |es|
    ensures Tracked(es + [e], Step(s, e), i)
  {
    assert (es + [e])[i] == es[i] && Tracked(es, s, i);
    DueStep(es, e, i);
    if Command(es[i]) {
      var t := Step(s, e);
      if Due(es, i) == None && Settles(es, es[i], e).Some? {
        SettlingSends(es, s, es[i], e);
        RepliesOnAppend(s.sent, Settles(es, es[i], e).value, es[i].channel);
      } else {
        if t.sent != s.sent {
          ReplyBelongs(es, s, e, i);
          RepliesOnAppend(s.sent, t.sent[|s.sent|], es[i].channel);
        }
        if Due(es, i) == None {
          KeepsWaiting(es, s, e, i);
        }
      }
    }
  }

  /** A new command is tracked from the start. */
  lemma {:induction false} TrackedFirst(es: seq<Event>, s: LoopState, e: Event)
    requires Fresh(es + [e]) && Consistent(es, s)
    ensures Tracked(es + [e], Step(s, e), |es|)
  {
    var fs := es + [e];
    assert fs[|es|] == e && forall i :: 0 <= i < |es| ==> fs[i] == es[i];
    if Command(e) {
      assert !Issued(es, e.channel);
      NotIssuedNoReplies(es, s.sent, e.channel);
      if e.PutRefused? {
        RepliesOnAppend(s.sent, PutReply(e.channel, false), e.channel);
      }
      if e.GetStarted? {
        NotMentionedNotFound(es, e.id);
        FoundStep(es, e, e.id);
      }
    }
  }

  lemma {:induction false} IssuedStep(es: seq<Event>, e: Event, channel: Channel)
    requires Issued(es, channel) || (Command(e) && e.channel == channel)
    ensures Issued(es + [e], channel)
  {
    var fs := es + [e];
    if Issued(es, channel) {
      var i :| 0 <= i < |es| && Command(es[i]) && es[i].channel == channel;
      assert fs[i] == es[i];
    } else {
      assert fs[|es|] == e;
    }
  }

  lemma {:induction false} WaitingPutStep(es: seq<Event>, s: LoopState, e: Event, id: QueryId)
    requires Accounted(es, s) && id in Step(s, e).puts
    ensures WaitingPut(es + [e], Step(s, e).puts[id], id)
  {
    var fs, channel := es + [e], Step(s, e).puts[id];
    if e == PutStarted(channel, id) {
      assert fs[|es|] == e;
    } else {
      assert id in s.puts && s.puts[id] == channel && !(e.PutResult? && e.id == id);
      var i :| 0 <= i < |es| && es[i] == PutStarted(channel, id) && Due(es, i) == None;
      assert fs[i] == es[i];
      DueStep(es, e, i);
    }
  }

  lemma {:induction false} WaitingGetStep(es: seq<Event>, s: LoopState, e: Event, id: QueryId)
    requires Accounted(es, s) && id in Step(s, e).gets
    ensures WaitingGet(es + [e], Step(s, e).gets[id].channel, id)
  {
    var fs, channel := es + [e], Step(s, e).gets[id].channel;
    if e == GetStarted(channel, id) {
      assert fs[|es|] == e;
    } else {
      assert id in s.gets && s.gets[id].channel == channel && !((e.GetFinished? || e.GetFailed?) && e.id == id);
      var i :| 0 <= i < |es| && es[i] == GetStarted(channel, id) && Due(es, i) == None;
      assert fs[i] == es[i];
      DueStep(es, e, i);
    }
  }

  lemma {:induction false} SentStep(es: seq<Event>, s: LoopState, e: Event, k: nat)
    requires Consistent(es, s) && k < |Step(s, e).sent|
    ensures Issued(es + [e], Step(s, e).sent[k].channel)
  {
    if k == |s.sent| && e.PutResult? {
      assert WaitingPut(es, s.puts[e.id], e.id);
    } else if k == |s.sent| && !e.PutRefused? {
      assert WaitingGet(es, s.gets[e.id].channel, e.id);
    }
    IssuedStep(es, e, Step(s, e).sent[k].channel);
  }

  lemma {:induction false} RunConsistent(es: seq<Event>)
    requires Fresh(es)
    ensures Consistent(es, Run(es))
  {
    if es != [] {
      var init, e := es[..|es| - 1], es[|es| - 1];
      assert es == init + [e];
      RunConsistent(init);
      var s := Run(init);
      forall i | 0 <= i < |es| ensures Tracked(es, Step(s, e), i) {
        if i < |init| { TrackedStep(init, s, e, i); } else { TrackedFirst(init, s, e); }
      }
      forall id | id in Step(s, e).puts ensures WaitingPut(es, Step(s, e).puts[id], id) {
        WaitingPutStep(init, s, e, id);
      }
      forall id | id in Step(s, e).gets ensures WaitingGet(es, Step(s, e).gets[id].channel, id) {
        WaitingGetStep(init, s, e, id);
      }
      forall k | 0 <= k < |Step(s, e).sent| ensures Issued(es, Step(s, e).sent[k].channel) {
        SentStep(init, s, e, k);
      }
    }
  }

  ghost predicate Waits(s: LoopState, channel: Channel) {
    (exists id :: id in s.puts && s.puts[id] == channel) || (exists id :: id in s.gets && s.gets[id].channel == channel)
  }

  lemma {:induction false} RefusalIsDue(es: seq<Event>, i: nat)
    requires i < |es| && es[i].PutRefused?
    ensures Due(es, i) == Some(PutReply(es[i].channel, false))
  {
    if i < |es| - 1 {
      RefusalIsDue(es[..|es| - 1], i);
    }
  }

  lemma {:induction false} SettledWaitsNowhere(es: seq<Event>, s: LoopState, i: nat)
    requires Fresh(es) && Accounted(es, s) && i < |es| && Command(es[i]) && Waits(s, es[i].channel)
    ensures Due(es, i) == None
  {
    var channel := es[i].channel;
    if id :| id in s.puts && s.puts[id] == channel {
      var k :| 0 <= k < |es| && es[k] == PutStarted(channel, id) && Due(es, k) == None;
      assert k == i;
    } else {
      var id :| id in s.gets && s.gets[id].channel == channel;
      var k :| 0 <= k < |es| && es[k] == GetStarted(channel, id) && Due(es, k) == None;
      assert k == i;
    }
  }

  /** In every interleaving, every command's channel has been sent exactly its due reply and
      waits nowhere, or has been sent nothing and waits, a get with exactly the values found. */
  lemma {:induction false} ExactlyOneReply(es: seq<Event>, i: nat)
    requires Fresh(es) && i < |es| && Command(es[i])
    ensures var s, channel := Run(es), es[i].channel;
      match Due(es, i)
      case Some(r) => RepliesOn(s.sent, channel) == [r] && !Waits(s, channel)
      case None => RepliesOn(s.sent, channel) == [] && Waits(s, channel) && InTable(es, s, es[i])
  {
    RunConsistent(es);
    assert Tracked(es, Run(es), i);
    if Waits(Run(es), es[i].channel) {
      SettledWaitsNowhere(es, Run(es), i);
    }
    if es[i].PutRefused? {
      RefusalIsDue(es, i);
    }
  }

  /** All values found for a query, whatever their size. */
  function AllFound(es: seq<Event>, id: QueryId): seq<bytes> {
    if es == [] then []
    else
      var found, e := AllFound(es[..|es| - 1], id), es[|es| - 1];
      if e.FoundRecord? && e.id == id then found + [e.value] else found
  }

  lemma {:induction false} FoundIsKept(es: seq<Event>, id: QueryId)
    ensures Found(es, id) == Kept(WithinCap, AllFound(es, id))
  {
    if es != [] {
      FoundIsKept(es[..|es| - 1], id);
      var init, all := AllFound(es[..|es| - 1], id), AllFound(es, id);
      assert all != init ==> all[..|init|] == init;
    }
  }

  predicate Ends(e: Event, id: QueryId) { (e.GetFinished? || e.GetFailed?) && e.id == id }

  /** A settled get was settled by the first event ending its query, with what it had found. */
  lemma {:induction false} DueGet(es: seq<Event>, i: nat) returns (end: nat)
    requires i < |es| && es[i].GetStarted? && Due(es, i).Some?
    ensures i < end < |es| && Ends(es[end], es[i].id) && forall j :: i < j < end ==> !Ends(es[j], es[i].id)
    ensures Due(es, i) == Some(GetReply(es[i].channel, Found(es[..end], es[i].id)))
  {
    var init := es[..|es| - 1];
    if Due(init, i).Some? {
      end := DueGet(init, i);
      assert es[..end] == init[..end];
    } else {
      end := |es| - 1;
      NotEnded(init, i);
    }
  }

  lemma {:induction false} NotEnded(es: seq<Event>, i: nat)
    requires i < |es| && es[i].GetStarted? && Due(es, i) == None
    ensures forall j :: i < j < |es| ==> !Ends(es[j], es[i].id)
  {
    if i < |es| - 1 {
      NotEnded(es[..|es| - 1], i);
    }
  }

  /** A settled put was settled by the first result of its query, with its outcome. */
  lemma {:induction false} DuePut(es: seq<Event>, i: nat) returns (end: nat)
    requires i < |es| && es[i].PutStarted? && Due(es, i).Some?
    ensures i < end < |es| && es[end].PutResult? && es[end].id == es[i].id
    ensures forall j :: i < j < end ==> !(es[j].PutResult? && es[j].id == es[i].id)
    ensures Due(es, i) == Some(PutReply(es[i].channel, es[end].ok))
  {
    var init := es[..|es| - 1];
    if Due(init, i).Some? {
      end := DuePut(init, i);
    } else {
      end := |es| - 1;
      NoResultYet(init, i);
    }
  }

  lemma {:induction false} NoResultYet(es: seq<Event>, i: nat)
    requires i < |es| && es[i].PutStarted? && Due(es, i) == None
    ensures forall j :: i < j < |es| ==> !(es[j].PutResult? && es[j].id == es[i].id)
  {
    if i < |es| - 1 {
      NoResultYet(es[..|es| - 1], i);
    }
  }

  ghost predicate Small(values: seq<bytes>) { forall i :: 0 <= i < |values| ==> |values[i]| <= 8192 }

  /** No reply, and nothing gathered for one, ever holds a value of more than 8192 bytes. */
  lemma {:induction false} RepliesAreSmall(es: seq<Event>)
    ensures forall id :: id in Run(es).gets ==> Small(Run(es).gets[id].values)
    ensures forall k :: 0 <= k < |Run(es).sent| && Run(es).sent[k].GetReply? ==> Small(Run(es).sent[k].values)
  {
    if es != [] {
      RepliesAreSmall(es[..|es| - 1]);
    }
  }

  /** Resolving from the reply to a get is resolving from every value its query found. */
  lemma {:induction false} LookupResolves(es: seq<Event>, i: nat, c: Crypto, keyid: string, now: u64, maxSkew: u64)
    returns (end: nat)
    requires Fresh(es) && i < |es| && es[i].GetStarted? && Due(es, i).Some?
    ensures i < end < |es| && Ends(es[end], es[i].id)
    ensures RepliesOn(Run(es).sent, es[i].channel) == [Due(es, i).value] && Due(es, i).value.GetReply?
    ensures SelectVerified(c, Due(es, i).value.values, keyid, now, maxSkew)
         == SelectVerified(c, AllFound(es[..end], es[i].id), keyid, now, maxSkew)
  {
    end := DueGet(es, i);
    ExactlyOneReply(es, i);
    FoundIsKept(es[..end], es[i].id);
    CapIsHarmless(c, AllFound(es[..end], es[i].id), keyid, now, maxSkew);
  }
}
