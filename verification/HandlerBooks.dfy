/** Every step of the handler keeps the ledger of requests. */
module HandlerBooks {
  import opened Wrappers
  import opened HandlerTypes
  import opened HandlerSpec
  import opened ActiveRequestLists
  import opened Ledgers
  import opened Lists

  ghost predicate Books(h: Handler, held: seq<Held>) {
    Ledger(h.active, h.pending, h.out, h.issued, held)
  }

  function Hold(r: PendingRequest): Held {
    Held(r.contact.address, r.id)
  }

  lemma SendRequestBooks(cfg: Config, h: Handler, r: PendingRequest, d: Draw, held: seq<Held>)
    requires Books(h, [Hold(r)] + held)
    ensures var (h1, error) := SendRequest(cfg, h, r, d);
            && (error.None? ==> Books(h1, held))
            && (error.Some? ==> h1 == h)
  {
    var (h1, error) := SendRequest(cfg, h, r, d);
    if error.None? {
      if |h1.pending| > |h.pending| {
        Queue(h.active, h.pending, h.out, h.issued, Hold(r), held, r);
      } else {
        Activate(h.active, h.pending, h.out, h.issued, Hold(r), held, h1.active[|h.active|]);
      }
    }
  }

  lemma ReportBooks(h: Handler, e: Held, held: seq<Held>, error: RequestError)
    requires Books(h, [e] + held)
    ensures Books(Report(h, e.id, error), held)
  {
    if e.id.External? {
      Settle(h.active, h.pending, h.out, h.issued, e, held, RequestFailed(e.id.id, error));
    } else {
      Forget(h.active, h.pending, h.out, h.issued, e, held);
    }
  }

  lemma SendOrReportBooks(cfg: Config, h: Handler, r: PendingRequest, d: Draw, held: seq<Held>)
    requires Books(h, [Hold(r)] + held)
    ensures Books(SendOrReport(cfg, h, r, d), held)
  {
    var (h1, error) := SendRequest(cfg, h, r, d);
    SendRequestBooks(cfg, h, r, d, held);
    if error.Some? { ReportBooks(h, Hold(r), held, error.value); }
  }

  lemma {:induction false} SendEachBooks(cfg: Config, h: Handler, rs: seq<PendingRequest>, draws: Draws, k: nat,
                                         held: seq<Held>)
    requires Books(h, HeldPending(rs) + held)
    ensures Books(SendEach(cfg, h, rs, draws, k), held)
    decreases |rs|
  {
    if rs == [] {
      assert HeldPending(rs) + held == held;
    } else {
      var init, r := rs[..|rs| - 1], rs[|rs| - 1];
      assert HeldPending(rs) + held == HeldPending(init) + ([Hold(r)] + held);
      SendEachBooks(cfg, h, init, draws, k, [Hold(r)] + held);
      SendOrReportBooks(cfg, SendEach(cfg, h, init, draws, k), r, draws(k + |rs| - 1), held);
    }
  }

  lemma SendPendingRequestsBooks(cfg: Config, h: Handler, a: NodeAddress, draws: Draws, k: nat)
    requires Books(h, [])
    ensures Books(SendPendingRequests(cfg, h, a, draws, k), [])
  {
    TakeQueued(h.active, h.pending, h.out, h.issued, a);
    var rs := Filter(ForAddress(a), h.pending);
    assert HeldPending(rs) + [] == HeldPending(rs);
    SendEachBooks(cfg, h.(pending := Filter(Not(ForAddress(a)), h.pending)), rs, draws, k, []);
  }

  lemma {:induction false} ReportPendingBooks(h: Handler, rs: seq<PendingRequest>, error: RequestError, held: seq<Held>)
    requires Books(h, HeldPending(rs) + held)
    ensures Books(ReportPending(h, rs, error), held)
    decreases |rs|
  {
    if rs == [] {
      assert HeldPending(rs) + held == held;
    } else {
      var init, r := rs[..|rs| - 1], rs[|rs| - 1];
      assert HeldPending(rs) + held == HeldPending(init) + ([Hold(r)] + held);
      ReportPendingBooks(h, init, error, [Hold(r)] + held);
      ReportBooks(ReportPending(h, init, error), Hold(r), held, error);
    }
  }

  lemma {:induction false} FailCallsBooks(h: Handler, rs: seq<Active>, socket: SocketAddr, error: RequestError,
                                          held: seq<Held>)
    requires Books(h, HeldActive(rs) + held)
    ensures Books(FailCalls(h, Calls(rs), socket, error), held)
    decreases |rs|
  {
    if rs == [] {
      assert HeldActive(rs) + held == held;
    } else {
      var init, e := rs[..|rs| - 1], Held(rs[|rs| - 1].addr, rs[|rs| - 1].call.id);
      assert HeldActive(rs) + held == HeldActive(init) + ([e] + held);
      FailCallsBooks(h, init, socket, error, [e] + held);
      assert Calls(rs)[..|rs| - 1] == Calls(init);
      ReportBooks(FailCalls(h, Calls(init), socket, error), e, held, error);
    }
  }

  /** Reporting queued requests touches the event list only. */
  lemma {:induction false} ReportPendingFrame(h: Handler, rs: seq<PendingRequest>, error: RequestError)
    ensures var h1 := ReportPending(h, rs, error);
            h1 == h.(out := h1.out)
  {
    if rs != [] { ReportPendingFrame(h, rs[..|rs| - 1], error); }
  }

  lemma FailSessionBooks(h: Handler, a: NodeAddress, error: RequestError, removeSession: bool)
    requires Books(h, [])
    ensures Books(FailSession(h, a, error, removeSession), [])
  {
    var h0 := if removeSession then h.(sessions := h.sessions - {a}) else h;
    var queued := Filter(ForAddress(a), h0.pending);
    TakeQueued(h0.active, h0.pending, h0.out, h0.issued, a);
    assert HeldPending(queued) + [] == HeldPending(queued);
    var h1 := ReportPending(h0.(pending := Filter(Not(ForAddress(a)), h0.pending)), queued, error);
    ReportPendingBooks(h0.(pending := Filter(Not(ForAddress(a)), h0.pending)), queued, error, []);
    var failed := Filter(At(a), h1.active);
    TakeAll(h1.active, h1.pending, h1.out, h1.issued, a);
    assert HeldActive(failed) + [] == HeldActive(failed);
    FailCallsBooks(h1.(active := Filter(Not(At(a)), h1.active)), failed, a.socket, error, []);
  }

  lemma FailRequestBooks(h: Handler, call: RequestCall, error: RequestError, removeSession: bool)
    requires Books(h, [Held(call.contact.address, call.id)])
    ensures Books(FailRequest(h, call, error, removeSession), [])
  {
    var e := Held(call.contact.address, call.id);
    assert [e] + [] == [e];
    ReportBooks(h, e, [], error);
    FailSessionBooks(Report(h, call.id, error), call.contact.address, error, removeSession);
  }

  lemma {:induction false} ReplayedAt(s: seq<Active>, a: NodeAddress, skip: Option<Nonce>, draws: Draws, k: nat, i: nat)
    requires i < |s|
    ensures ReplayIn(s, a, skip, draws, k)[i] ==
            if Replays(s[i], a, skip) then Replayed(s[i], draws(k + |Filter(At(a), s[..i])|)) else s[i]
  {
    if i < |s| - 1 {
      ReplayedAt(s[..|s| - 1], a, skip, draws, k, i);
      assert s[..|s| - 1][..i] == s[..i];
    }
  }

  lemma ReplayActiveBooks(h: Handler, a: NodeAddress, skip: Option<Nonce>, draws: Draws, k: nat)
    requires Books(h, [])
    ensures Books(ReplayActive(h, a, skip, draws, k), [])
  {
    var t := ReplayIn(h.active, a, skip, draws, k);
    forall i | 0 <= i < |t| ensures t[i].addr == h.active[i].addr && t[i].call.id == h.active[i].call.id {
      ReplayedAt(h.active, a, skip, draws, k, i);
    }
    Rewrite(h.active, t, h.pending, h.out, h.issued, []);
  }

  lemma NewSessionBooks(cfg: Config, h: Handler, a: NodeAddress, session: Session, skip: Option<Nonce>,
                        evicted: set<NodeAddress>, draws: Draws, k: nat)
    requires Books(h, [])
    ensures Books(NewSession(cfg, h, a, session, skip, evicted, draws, k), [])
  {
    if a in h.sessions {
      ReplayActiveBooks(h.(sessions := h.sessions[a := session]), a, skip, draws, k);
    } else {
      SendPendingRequestsBooks(cfg, h.(sessions := h.sessions[a := session] - evicted), a, draws, k);
    }
  }

  lemma HandshakeBooks(cfg: Config, h: Handler, call: RequestCall, enrRequest: RequestId, evicted: set<NodeAddress>,
                       draws: Draws)
    requires Books(h, [Held(call.contact.address, call.id)]) && enrRequest !in h.issued
    ensures Books(Handshake(cfg, h, call, enrRequest, evicted, draws), [])
  {
    var a, packet := call.contact.address, Packet(draws(0).nonce, HandshakePacket);
    var e := Held(a, call.id);
    assert [e] + [] == [e];
    if call.contact.hasEnr {
      var call' := call.(packet := packet, handshakeSent := true, initiating := false);
      var h1 := Send(h.(active := h.active + [Active(a, call')]), a, packet);
      Activate(h.active, h.pending, h.out, h.issued, e, [], Active(a, call'));
      Announce(h1.active, h1.pending, h1.out, h1.issued, [], Established(a, !call.initiating));
      NewSessionBooks(cfg, Emit(h1, Established(a, !call.initiating)), a, Session(None), Some(packet.nonce), evicted,
                      draws, 1);
    } else {
      var call' := call.(packet := packet, handshakeSent := true);
      var h1 := Send(h.(active := h.active + [Active(a, call')]), a, packet);
      Activate(h.active, h.pending, h.out, h.issued, e, [], Active(a, call'));
      var h2 := h1.(issued := h1.issued[enrRequest := Issue(a, false)]);
      var r := PendingRequest(call.contact, Internal(enrRequest), FindNode([0]));
      Open(h1.active, h1.pending, h1.out, h1.issued, Hold(r));
      assert [Hold(r)] + [] == [Hold(r)];
      SendRequestBooks(cfg, h2, r, draws(1), []);
      var (h3, error) := SendRequest(cfg, h2, r, draws(1));
      if error.Some? { Forget(h3.active, h3.pending, h3.out, h3.issued, Hold(r), []); }
      NewSessionBooks(cfg, h3, a, Session(Some(enrRequest)), Some(packet.nonce), evicted, draws, 2);
    }
  }

  /** Every call is filed under its contact's address, expects at least one more response, and opens a session if its
      packet is random. */
  ghost predicate WellFiled(s: seq<Active>) {
    forall i :: 0 <= i < |s| ==>
      && s[i].addr == s[i].call.contact.address
      && (s[i].call.remaining.Some? ==> s[i].call.remaining.value >= 1)
      && (s[i].call.packet.kind.RandomPacket? ==> s[i].call.initiating)
  }

  lemma HandleChallengeBooks(cfg: Config, h: Handler, src: SocketAddr, nonce: Nonce, enrRequest: RequestId,
                             evicted: set<NodeAddress>, draws: Draws)
    requires Books(h, []) && WellFiled(h.active) && enrRequest !in h.issued
    ensures Books(HandleChallenge(cfg, h, src, nonce, enrRequest, evicted, draws), [])
  {
    var i := Find(WithNonce(nonce), h.active);
    if i < |h.active| {
      var e := h.active[i];
      var held := Held(e.addr, e.call.id);
      var h1 := h.(active := RemoveAt(h.active, i));
      Take(h.active, h.pending, h.out, h.issued, i);
      assert [held] + [] == [held];
      if e.addr.socket != src {
        Activate(h1.active, h1.pending, h1.out, h1.issued, held, [], e);
      } else if e.call.handshakeSent || !draws(0).ok {
        FailRequestBooks(h1, e.call, InvalidRemotePacket, true);
      } else {
        HandshakeBooks(cfg, h1, e.call, enrRequest, evicted, draws);
      }
    }
  }

  lemma HandleResponseBooks(h: Handler, a: NodeAddress, id: RequestId, body: ResponseBody)
    requires Books(h, [])
    ensures Books(HandleResponse(h, a, id, body), [])
  {
    var i := Find(IdAt(a, id), h.active);
    if i < |h.active| {
      var call := h.active[i].call;
      var held := Held(a, call.id);
      var h1 := h.(active := RemoveAt(h.active, i));
      Take(h.active, h.pending, h.out, h.issued, i);
      assert [held] + [] == [held];
      var (remaining, last) := NextRemaining(call.remaining, body);
      if last {
        Settle(h1.active, h1.pending, h1.out, h1.issued, held, [], Response(a, id, true));
      } else {
        Announce(h1.active, h1.pending, h1.out, h1.issued, [held], Response(a, id, false));
        Activate(h1.active, h1.pending, h1.out + [Response(a, id, false)], h1.issued, held, [],
                 Active(a, WithRemaining(call, remaining)));
      }
    }
  }

  lemma AnnounceBooks(h: Handler, o: Out)
    requires Books(h, []) && !o.Response? && !o.RequestFailed?
    ensures Books(Emit(h, o), [])
  {
    Announce(h.active, h.pending, h.out, h.issued, [], o);
  }

  lemma HandleMessageBooks(h: Handler, a: NodeAddress, nonce: Nonce, m: Message)
    requires Books(h, [])
    ensures Books(HandleMessage(h, a, nonce, m), [])
  {
    if a !in h.sessions {
      AnnounceBooks(h, WhoAreYou(a, nonce));
    } else {
      match m
      case Undecodable =>
      case Undecryptable =>
        FailSessionBooks(h, a, InvalidRemotePacket, true);
        AnnounceBooks(FailSession(h, a, InvalidRemotePacket, true), WhoAreYou(a, nonce));
      case RequestMessage(_) =>
        AnnounceBooks(h, Request(a));
      case ResponseMessage(id, body) =>
        var h1 := h.(sessions := h.sessions[a := Session(None)]);
        AnnounceBooks(h1, Established(a, false));
        FailSessionBooks(h1, a, InvalidRemoteEnr, true);
        HandleResponseBooks(h, a, id, body);
    }
  }

  lemma HandleAuthBooks(cfg: Config, h: Handler, a: NodeAddress, result: Handshaken, nonce: Nonce, m: Message,
                        evicted: set<NodeAddress>, draws: Draws)
    requires Books(h, [])
    ensures Books(HandleAuth(cfg, h, a, result, nonce, m, evicted, draws), [])
  {
    var h1 := h.(challenges := h.challenges - {a});
    match result
    case BadSignature =>
    case Malformed =>
      FailSessionBooks(h1, a, InvalidRemotePacket, true);
    case ValidEnr =>
      var h2 := RemoveExpected(h1, a.socket);
      AnnounceBooks(h2, Established(a, true));
      var h3 := Emit(h2, Established(a, true));
      NewSessionBooks(cfg, h3, a, Session(None), None, evicted, draws, 0);
      HandleMessageBooks(NewSession(cfg, h3, a, Session(None), None, evicted, draws, 0), a, nonce, m);
    case InvalidEnr =>
      var h2 := RemoveExpected(h1, a.socket);
      FailSessionBooks(h2, a, InvalidRemoteEnr, true);
      AnnounceBooks(FailSession(h2, a, InvalidRemoteEnr, true), Request(a));
  }

  lemma HandleTimeoutBooks(cfg: Config, h: Handler, nonce: Nonce)
    requires Books(h, []) && WellFiled(h.active)
    ensures Books(HandleTimeout(cfg, h, nonce), [])
  {
    var i := Find(WithNonce(nonce), h.active);
    if i < |h.active| {
      var e := h.active[i];
      var held := Held(e.addr, e.call.id);
      var h1 := h.(active := RemoveAt(h.active, i));
      Take(h.active, h.pending, h.out, h.issued, i);
      assert [held] + [] == [held];
      if e.call.retries >= cfg.retries {
        FailRequestBooks(RemoveExpected(h1, e.addr.socket), e.call, Timeout, false);
      } else {
        Activate(h1.active, h1.pending, h1.out, h1.issued, held, [], Retried(e));
      }
    }
  }

  lemma IssueBooks(cfg: Config, h: Handler, r: PendingRequest, d: Draw)
    requires Books(h, []) && r.id.External? && r.id.id !in h.issued
    ensures Books(SendOrReport(cfg, h.(issued := h.issued[r.id.id := Issue(r.contact.address, true)]), r, d), [])
  {
    Open(h.active, h.pending, h.out, h.issued, Hold(r));
    assert [Hold(r)] + [] == [Hold(r)];
    SendOrReportBooks(cfg, h.(issued := h.issued[r.id.id := Issue(r.contact.address, true)]), r, d, []);
  }
}
