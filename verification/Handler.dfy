/** The session handler with its own data structures: indexed requests in flight, queues per address, counters,
    sessions. */
module SessionHandlers {
  import opened Wrappers
  import opened HandlerTypes
  import opened HandlerSpec
  import opened ActiveRequestLists
  import opened HandlerBooks
  import opened HandlerCover
  import opened HandlerRuns
  import opened Replays
  import opened Lists

  type Queues = map<NodeAddress, seq<PendingRequest>>

  /** `queues` holds each request of `s` under its address, in order, and has no empty queue. */
  ghost predicate QueuedByAddress(s: seq<PendingRequest>, queues: Queues) {
    forall a :: QueuedAt(s, queues, a)
  }

  ghost predicate QueuedAt(s: seq<PendingRequest>, queues: Queues, a: NodeAddress) {
    && (a in queues <==> |Filter(ForAddress(a), s)| > 0)
    && (a in queues ==> queues[a] == Filter(ForAddress(a), s))
  }

  lemma PushQueued(s: seq<PendingRequest>, queues: Queues, r: PendingRequest)
    requires QueuedByAddress(s, queues)
    ensures var a := r.contact.address;
            QueuedByAddress(s + [r], queues[a := (if a in queues then queues[a] else []) + [r]])
  {
    var a := r.contact.address;
    var queues' := queues[a := (if a in queues then queues[a] else []) + [r]];
    forall b ensures QueuedAt(s + [r], queues', b) {
      assert QueuedAt(s, queues, b);
      FilterAppend(ForAddress(b), s, r);
    }
  }

  lemma {:induction false} DropQueue(s: seq<PendingRequest>, a: NodeAddress, b: NodeAddress)
    ensures Filter(ForAddress(b), Filter(Not(ForAddress(a)), s)) == if a == b then [] else Filter(ForAddress(b), s)
  {
    if s != [] {
      var init, r := s[..|s| - 1], s[|s| - 1];
      DropQueue(init, a, b);
      if r.contact.address != a {
        FilterAppend(ForAddress(b), Filter(Not(ForAddress(a)), init), r);
      } else {
        assert Filter(Not(ForAddress(a)), s) == Filter(Not(ForAddress(a)), init);
      }
    }
  }

  lemma TakeQueue(s: seq<PendingRequest>, queues: Queues, a: NodeAddress)
    requires QueuedByAddress(s, queues)
    ensures QueuedByAddress(Filter(Not(ForAddress(a)), s), queues - {a})
    ensures Filter(ForAddress(a), s) == if a in queues then queues[a] else []
  {
    assert QueuedAt(s, queues, a);
    forall b ensures QueuedAt(Filter(Not(ForAddress(a)), s), queues - {a}, b) {
      assert QueuedAt(s, queues, b);
      DropQueue(s, a, b);
    }
  }

  // ----- The class

  class SessionHandler {
    const cfg: Config
    const active: ActiveRequests
    var pending: Queues
    var expected: map<SocketAddr, nat>
    var challenges: set<NodeAddress>
    var sessions: map<NodeAddress, Session>
    var out: seq<Out>
    var sent: seq<(NodeAddress, Packet)>

    /** All queued requests in order of queueing. */
    ghost var queue: seq<PendingRequest>
    ghost var issued: map<RequestId, Issue>

    ghost predicate Valid()
      reads this, active
    {
      active.Valid() && QueuedByAddress(queue, pending)
    }

    ghost function State(): Handler
      reads this, active
    {
      Handler(active.list, queue, expected, challenges, sessions, out, sent, issued)
    }

    constructor (cfg: Config)
      ensures Valid() && State() == EMPTY_HANDLER && this.cfg == cfg && fresh(active)
    {
      this.cfg := cfg;
      active := new ActiveRequests();
      pending, expected, challenges, sessions, out, sent := map[], map[], {}, map[], [], [];
      queue, issued := [], map[];
    }

    method RemoveExpectedResponse(socket: SocketAddr)
      requires Valid()
      modifies this`expected
      ensures Valid() && State() == RemoveExpected(old(State()), socket)
    {
      if socket in expected {
        var count := if expected[socket] == 0 then 0 else expected[socket] - 1;
        expected := expected[socket := count];
        if count == 0 {
          expected := expected - {socket};
        }
        assert old(expected)[socket := count] - {socket} == old(expected) - {socket};
      }
    }

    method AddExpectedResponse(socket: SocketAddr)
      requires Valid()
      modifies this`expected
      ensures Valid() && State() == AddExpected(old(State()), socket)
    {
      var count := if socket in expected then expected[socket] else 0;
      expected := expected[socket := count + 1];
    }

    method SendPacket(a: NodeAddress, p: Packet)
      requires Valid()
      modifies this`sent
      ensures Valid() && State() == Send(old(State()), a, p)
    {
      sent := sent + [(a, p)];
    }

    method Tell(o: Out)
      requires Valid()
      modifies this`out
      ensures Valid() && State() == Emit(old(State()), o)
    {
      out := out + [o];
    }

    method IsAwaitingSession(a: NodeAddress) returns (awaiting: bool)
      requires Valid()
      ensures awaiting == AwaitingSession(State(), a)
    {
      if a in sessions {
        return false;
      }
      var calls := active.Get(a);
      awaiting := false;
      for i := 0 to |calls|
        invariant awaiting == exists j :: 0 <= j < i && calls[j].initiating
      {
        if calls[i].initiating { awaiting := true; }
      }
      AwaitingByCalls(active.list, a);
    }

    method SendRequest(r: PendingRequest, d: Draw) returns (error: Option<RequestError>)
      requires Valid() && NonceFree(active.list, d.nonce)
      modifies this, active
      ensures Valid()
      ensures (State(), error) == HandlerSpec.SendRequest(cfg, old(State()), r, d)
    {
      var a := r.contact.address;
      if a.socket in cfg.listen {
        return Some(SelfRequest);
      }
      var awaiting := IsAwaitingSession(a);
      if a in challenges || awaiting {
        PushQueued(queue, pending, r);
        pending := pending[a := (if a in pending then pending[a] else []) + [r]];
        queue := queue + [r];
        return None;
      }
      if !d.ok {
        return Some(NotEncrypted);
      }
      var initiating := a !in sessions;
      var packet := Packet(d.nonce, if initiating then RandomPacket else MessagePacket);
      var call := RequestCall(r.contact, packet, r.id, r.body, false, 1, None, initiating);
      AddExpectedResponse(a.socket);
      SendPacket(a, packet);
      active.Insert(a, call);
      return None;
    }

    method SendOrReport(r: PendingRequest, d: Draw)
      requires Valid() && NonceFree(active.list, d.nonce)
      modifies this, active
      ensures Valid() && State() == HandlerSpec.SendOrReport(cfg, old(State()), r, d)
    {
      var error := SendRequest(r, d);
      if error.Some? {
        match r.id {
          case Internal(_) =>
          case External(id) => Tell(RequestFailed(id, error.value));
        }
      }
    }

    method SendAll(rs: seq<PendingRequest>, draws: Draws, k: nat)
      requires Valid() && Ready(active.list, draws, k)
      modifies this, active
      ensures Valid() && State() == SendEach(cfg, old(State()), rs, draws, k)
    {
      for i := 0 to |rs|
        invariant Valid() && State() == SendEach(cfg, old(State()), rs[..i], draws, k)
      {
        SendEachReady(cfg, old(State()), rs[..i], draws, k);
        SendEachNext(cfg, old(State()), rs, draws, k, i);
        SendOrReport(rs[i], draws(k + i));
      }
      assert rs[..|rs|] == rs;
    }

    method TakePending(a: NodeAddress) returns (rs: seq<PendingRequest>)
      requires Valid()
      modifies this`pending, this`queue
      ensures Valid() && rs == Filter(ForAddress(a), old(queue)) && queue == Filter(Not(ForAddress(a)), old(queue))
    {
      TakeQueue(queue, pending, a);
      rs := if a in pending then pending[a] else [];
      pending, queue := pending - {a}, Filter(Not(ForAddress(a)), queue);
    }

    method SendPendingRequests(a: NodeAddress, draws: Draws, k: nat)
      requires Valid() && Ready(active.list, draws, k)
      modifies this, active
      ensures Valid() && State() == HandlerSpec.SendPendingRequests(cfg, old(State()), a, draws, k)
    {
      var rs := TakePending(a);
      SendAll(rs, draws, k);
    }

    method ReportFailure(id: HandlerReqId, error: RequestError)
      requires Valid()
      modifies this`out
      ensures Valid() && State() == Report(old(State()), id, error)
    {
      match id {
        case Internal(_) =>
        case External(x) => Tell(RequestFailed(x, error));
      }
    }

    method ReportAll(rs: seq<PendingRequest>, error: RequestError)
      requires Valid()
      modifies this`out
      ensures Valid() && State() == ReportPending(old(State()), rs, error)
    {
      for i := 0 to |rs|
        invariant Valid() && State() == ReportPending(old(State()), rs[..i], error)
      {
        ReportPendingNext(old(State()), rs, error, i);
        ReportFailure(rs[i].id, error);
      }
      assert rs[..|rs|] == rs;
    }

    method FailAll(calls: seq<RequestCall>, socket: SocketAddr, error: RequestError)
      requires Valid()
      modifies this`out, this`expected
      ensures Valid() && State() == FailCalls(old(State()), calls, socket, error)
    {
      for i := 0 to |calls|
        invariant Valid() && State() == FailCalls(old(State()), calls[..i], socket, error)
      {
        FailCallsNext(old(State()), calls, socket, error, i);
        ReportFailure(calls[i].id, error);
        RemoveExpectedResponse(socket);
      }
      assert calls[..|calls|] == calls;
    }

    method FailSession(a: NodeAddress, error: RequestError, removeSession: bool)
      requires Valid()
      modifies this, active
      ensures Valid() && State() == HandlerSpec.FailSession(old(State()), a, error, removeSession)
    {
      if removeSession {
        sessions := sessions - {a};
      }
      var queued := TakePending(a);
      ReportAll(queued, error);
      var removed := active.RemoveRequests(a);
      var calls := if removed.Some? then removed.value else [];
      FailAll(calls, a.socket, error);
    }

    method FailRequest(call: RequestCall, error: RequestError, removeSession: bool)
      requires Valid()
      modifies this, active
      ensures Valid() && State() == HandlerSpec.FailRequest(old(State()), call, error, removeSession)
    {
      ReportFailure(call.id, error);
      FailSession(call.contact.address, error, removeSession);
    }

    static method NewPackets(calls: seq<RequestCall>, skip: Option<Nonce>, draws: Draws, k: nat)
      returns (packets: seq<Replacement>)
      ensures packets == Replacements(calls, skip, draws, k)
    {
      packets := [];
      for i := 0 to |calls|
        invariant packets == Replacements(calls[..i], skip, draws, k)
      {
        TakeNext(calls, i);
        ReplacementsAppend(calls[..i], calls[i], skip, draws, k);
        if skip != Some(calls[i].packet.nonce) && draws(k + i).ok {
          packets := packets + [(calls[i].packet.nonce, Packet(draws(k + i).nonce, MessagePacket))];
        }
      }
      assert calls[..|calls|] == calls;
    }

    method UpdatePackets(a: NodeAddress, packets: seq<Replacement>)
      requires Valid()
      requires forall i :: 0 <= i < |packets| ==>
               FreeInTurn(active.list, packets, i) && OldInTurn(active.list, packets, i)
      modifies this`sent, active
      ensures Valid() && active.list == ReplaceAll(old(active.list), packets) && sent == old(sent) + Sends(a, packets)
    {
      for i := 0 to |packets|
        invariant Valid() && active.list == ReplaceAll(old(active.list), packets[..i])
        invariant sent == old(sent) + Sends(a, packets[..i])
      {
        assert FreeInTurn(old(active.list), packets, i) && OldInTurn(old(active.list), packets, i);
        ReplaceNext(old(active.list), packets, i);
        SendsNext(old(sent), a, packets, i);
        active.UpdatePacket(packets[i].0, packets[i].1);
        SendPacket(a, packets[i].1);
      }
      assert packets[..|packets|] == packets;
    }

    method ReplayActiveRequests(a: NodeAddress, skip: Option<Nonce>, draws: Draws, k: nat)
      requires Valid() && Ready(active.list, draws, k) && a in sessions
      modifies this, active
      ensures Valid() && State() == ReplayActive(old(State()), a, skip, draws, k)
    {
      if a !in sessions {
        assert false;
      }
      var calls := active.Get(a);
      var packets := NewPackets(calls, skip, draws, k);
      ghost var s := active.list;
      forall i | 0 <= i < |packets| ensures FreeInTurn(s, packets, i) && OldInTurn(s, packets, i) {
        ReplacementsFresh(s, a, skip, draws, k, i);
        ReplacementsPresent(s, a, skip, draws, k, i);
      }
      UpdatePackets(a, packets);
      ReplaceAllReplays(s, a, skip, draws, k);
      SendsReplay(s, a, skip, draws, k);
    }

    method NewSession(a: NodeAddress, session: Session, skip: Option<Nonce>, evicted: set<NodeAddress>, draws: Draws,
                      k: nat)
      requires Valid() && Ready(active.list, draws, k)
      modifies this, active
      ensures Valid() && State() == HandlerSpec.NewSession(cfg, old(State()), a, session, skip, evicted, draws, k)
    {
      if a in sessions {
        sessions := sessions[a := session];
        ReplayActiveRequests(a, skip, draws, k);
      } else {
        sessions := sessions[a := session] - evicted;
        SendPendingRequests(a, draws, k);
      }
    }

    method SendChallenge(a: NodeAddress, nonce: Nonce)
      requires Valid()
      modifies this
      ensures Valid() && State() == HandlerSpec.SendChallenge(old(State()), a, nonce)
    {
      if a in challenges {
        return;
      }
      AddExpectedResponse(a.socket);
      SendPacket(a, Packet(nonce, WhoAreYouPacket));
      challenges := challenges + {a};
    }

    method HandleChallenge(src: SocketAddr, nonce: Nonce, enrRequest: RequestId, evicted: set<NodeAddress>,
                           draws: Draws)
      requires Valid() && Ready(active.list, draws, 0)
      modifies this, active
      ensures Valid() &&
              State() == HandlerSpec.HandleChallenge(cfg, old(State()), src, nonce, enrRequest, evicted, draws)
    {
      ghost var s := active.list;
      ghost var at := Find(WithNonce(nonce), s);
      var r := active.RemoveByNonce(nonce);
      if r.None? {
        return;
      }
      RemoveTidy(s, at);
      RemoveReady(s, at, draws, 0);
      var e := r.value;
      if e.addr.socket != src {
        active.Insert(e.addr, e.call);
        return;
      }
      if e.call.packet.nonce != nonce {
        assert false;
      }
      if e.call.handshakeSent || !draws(0).ok {
        FailRequest(e.call, InvalidRemotePacket, true);
        return;
      }
      assert e == [e][0];
      Handshake(e.call, enrRequest, evicted, draws);
    }

    method Handshake(call: RequestCall, enrRequest: RequestId, evicted: set<NodeAddress>, draws: Draws)
      requires Valid() && Ready(active.list, draws, 0) && WellFiled([Active(call.contact.address, call)])
      modifies this, active
      ensures Valid() && State() == HandlerSpec.Handshake(cfg, old(State()), call, enrRequest, evicted, draws)
    {
      var a, packet := call.contact.address, Packet(draws(0).nonce, HandshakePacket);
      assert [Active(a, call)][0].call == call;
      var call' := call.(packet := packet, handshakeSent := true);
      if call.contact.hasEnr {
        call' := call'.(initiating := false);
        AppendReady(active.list, Active(a, call'), draws, 0);
        active.Insert(a, call');
        SendPacket(a, packet);
        Tell(Established(a, !call.initiating));
        NewSession(a, Session(None), Some(packet.nonce), evicted, draws, 1);
      } else {
        AppendReady(active.list, Active(a, call'), draws, 0);
        active.Insert(a, call');
        SendPacket(a, packet);
        issued := issued[enrRequest := Issue(a, false)];
        SendRequestReady(cfg, State(), PendingRequest(call.contact, Internal(enrRequest), FindNode([0])), draws, 1);
        var error := SendRequest(PendingRequest(call.contact, Internal(enrRequest), FindNode([0])), draws(1));
        NewSession(a, Session(Some(enrRequest)), Some(packet.nonce), evicted, draws, 2);
      }
    }

    method HandleResponse(a: NodeAddress, id: RequestId, body: ResponseBody)
      requires Valid() && Tidy(active.list)
      modifies this, active
      ensures Valid() && State() == HandlerSpec.HandleResponse(old(State()), a, id, body)
    {
      ghost var s := active.list;
      ghost var at := Find(IdAt(a, id), s);
      var r := active.RemoveRequest(a, id);
      if r.None? {
        return;
      }
      RemoveTidy(s, at);
      var call := r.value;
      assert State() == old(State()).(active := RemoveAt(s, at));
      if body.Nodes? && body.total > 1 {
        match call.remaining {
          case Some(remaining) =>
            call := WithRemaining(call, Some(remaining - 1));
            if remaining - 1 != 0 {
              assert NextRemaining(r.value.remaining, body) == (call.remaining, false);
              active.Insert(a, call);
              Tell(Response(a, id, false));
              return;
            }
          case None =>
            call := WithRemaining(call, Some(body.total - 1));
            assert NextRemaining(r.value.remaining, body) == (call.remaining, false);
            active.Insert(a, call);
            Tell(Response(a, id, false));
            return;
        }
      }
      RemoveExpectedResponse(a.socket);
      Tell(Response(a, id, true));
    }

    method HandleMessage(a: NodeAddress, nonce: Nonce, m: Message)
      requires Valid() && Tidy(active.list)
      modifies this, active
      ensures Valid() && State() == HandlerSpec.HandleMessage(old(State()), a, nonce, m)
    {
      if a !in sessions {
        Tell(WhoAreYou(a, nonce));
        return;
      }
      match m {
        case Undecodable =>
        case Undecryptable =>
          FailSession(a, InvalidRemotePacket, true);
          if a !in challenges {
            Tell(WhoAreYou(a, nonce));
          }
        case RequestMessage(_) =>
          Tell(Request(a));
        case ResponseMessage(id, body) =>
          if sessions[a].awaitingEnr == Some(id) {
            sessions := sessions[a := Session(None)];
            if body.Nodes? && body.validEnr {
              Tell(Established(a, false));
              return;
            }
            FailSession(a, InvalidRemoteEnr, true);
            return;
          }
          HandleResponse(a, id, body);
      }
    }

    method HandleAuthMessage(a: NodeAddress, result: Handshaken, nonce: Nonce, m: Message, evicted: set<NodeAddress>,
                             draws: Draws)
      requires Valid() && Ready(active.list, draws, 0)
      modifies this, active
      ensures Valid() && State() == HandleAuth(cfg, old(State()), a, result, nonce, m, evicted, draws)
    {
      if a !in challenges {
        return;
      }
      challenges := challenges - {a};
      match result {
        case BadSignature =>
          challenges := challenges + {a};
          assert challenges == old(challenges);
        case Malformed =>
          FailSession(a, InvalidRemotePacket, true);
        case ValidEnr =>
          RemoveExpectedResponse(a.socket);
          Tell(Established(a, true));
          NewSessionTidy(cfg, State(), a, Session(None), None, evicted, draws, 0);
          NewSession(a, Session(None), None, evicted, draws, 0);
          HandleMessage(a, nonce, m);
        case InvalidEnr =>
          RemoveExpectedResponse(a.socket);
          FailSession(a, InvalidRemoteEnr, true);
          if m.RequestMessage? && m.ping {
            Tell(Request(a));
          }
      }
    }

    method HandleRequestTimeout(nonce: Nonce)
      requires Valid() && Tidy(active.list)
      modifies this, active
      ensures Valid() && State() == HandleTimeout(cfg, old(State()), nonce)
    {
      ghost var s := active.list;
      ghost var at := Find(WithNonce(nonce), s);
      var r := active.RemoveByNonce(nonce);
      if r.None? {
        return;
      }
      RemoveTidy(s, at);
      var e := r.value;
      assert State() == old(State()).(active := RemoveAt(s, at));
      if e.call.retries >= cfg.retries {
        RemoveExpectedResponse(e.addr.socket);
        FailRequest(e.call, Timeout, false);
      } else {
        SendPacket(e.addr, e.call.packet);
        active.Insert(e.addr, Retried(e).call);
      }
    }

    /** One turn of the handler's loop. */
    method Handle(e: Event)
      requires Valid() && HandlerInv(State()) && Admissible(State(), e)
      modifies this, active
      ensures Valid() && HandlerInv(State())
      ensures State() == Step(cfg, old(State()), e)
    {
      StepKeeps(cfg, State(), e);
      match e {
        case Issued(r, draws) =>
          issued := issued[r.id.id := Issue(r.contact.address, true)];
          var error := SendRequest(r, draws(0));
          if error.Some? {
            Tell(RequestFailed(r.id.id, error.value));
          }
        case Challenged(a, nonce) =>
          SendChallenge(a, nonce);
        case GotChallenge(src, nonce, enrRequest, evicted, draws) =>
          HandleChallenge(src, nonce, enrRequest, evicted, draws);
        case GotAuth(a, result, nonce, m, evicted, draws) =>
          HandleAuthMessage(a, result, nonce, m, evicted, draws);
        case GotMessage(a, nonce, m) =>
          HandleMessage(a, nonce, m);
        case TimedOut(nonce) =>
          HandleRequestTimeout(nonce);
        case Expired(a, draws) =>
          challenges := challenges - {a};
          SendPendingRequests(a, draws, 0);
        case Evicted(evicted) =>
          sessions := sessions - evicted;
      }
    }
  }

  lemma TakeNext<T>(s: seq<T>, i: nat)
    requires i < |s|
    ensures s[..i + 1] == s[..i] + [s[i]]
  {
  }

  lemma ReplaceNext(s: seq<Active>, rs: seq<Replacement>, i: nat)
    requires i < |rs|
    ensures ReplaceAll(s, rs[..i + 1]) == Replace(ReplaceAll(s, rs[..i]), rs[i])
  {
    TakeNext(rs, i);
    ReplaceAllPush(s, rs[..i], rs[i]);
  }

  lemma SendsNext(sent: seq<(NodeAddress, Packet)>, a: NodeAddress, rs: seq<Replacement>, i: nat)
    requires i < |rs|
    ensures sent + Sends(a, rs[..i + 1]) == sent + Sends(a, rs[..i]) + [(a, rs[i].1)]
  {
    TakeNext(rs, i);
    SendsAppend(a, rs[..i], rs[i]);
  }

  lemma SendEachNext(cfg: Config, h: Handler, rs: seq<PendingRequest>, draws: Draws, k: nat, i: nat)
    requires i < |rs|
    ensures SendEach(cfg, h, rs[..i + 1], draws, k) ==
            HandlerSpec.SendOrReport(cfg, SendEach(cfg, h, rs[..i], draws, k), rs[i], draws(k + i))
  {
    assert rs[..i + 1][..i] == rs[..i];
  }

  lemma ReportPendingNext(h: Handler, rs: seq<PendingRequest>, error: RequestError, i: nat)
    requires i < |rs|
    ensures ReportPending(h, rs[..i + 1], error) == Report(ReportPending(h, rs[..i], error), rs[i].id, error)
  {
    assert rs[..i + 1][..i] == rs[..i];
  }

  lemma FailCallsNext(h: Handler, calls: seq<RequestCall>, socket: SocketAddr, error: RequestError, i: nat)
    requires i < |calls|
    ensures FailCalls(h, calls[..i + 1], socket, error)
         == RemoveExpected(Report(FailCalls(h, calls[..i], socket, error), calls[i].id, error), socket)
  {
    assert calls[..i + 1][..i] == calls[..i];
  }

  lemma AwaitingByCalls(s: seq<Active>, a: NodeAddress)
    ensures Find(Initiates(a), s) < |s| <==> exists j :: 0 <= j < |CallsAt(s, a)| && CallsAt(s, a)[j].initiating
  {
    var i, calls := Find(Initiates(a), s), CallsAt(s, a);
    if i < |s| {
      var k := FilterHas(At(a), s, i);
      assert calls[k].initiating;
    }
    if j :| 0 <= j < |calls| && calls[j].initiating {
      var i' := CallFrom(s, a, j);
      FindHit(Initiates(a), s, i');
    }
  }
}
