/** Sessions come from handshakes, responses come over sessions, and timeouts run out. */
module HandlerSafety {
  import opened HandlerTypes
  import opened HandlerSpec
  import opened ActiveRequestLists
  import opened HandlerBooks
  import opened HandlerCover
  import opened HandlerRuns
  import opened Lists
  import opened Wrappers

  function IsResponse(): Out -> bool {
    (o: Out) => o.Response?
  }

  /** The responses reported so far. */
  function Heard(out: seq<Out>): seq<Out> {
    Filter(IsResponse(), out)
  }

  lemma HeardEmit(h: Handler, o: Out)
    ensures Heard(Emit(h, o).out) == if o.Response? then Heard(h.out) + [o] else Heard(h.out)
  {
    FilterAppend(IsResponse(), h.out, o);
  }

  lemma HeardReport(h: Handler, id: HandlerReqId, error: RequestError)
    ensures Heard(Report(h, id, error).out) == Heard(h.out)
  {
    HeardEmit(h, RequestFailed(id.id, error));
  }

  /** A step part that leaves sessions alone and reports no response. */
  ghost predicate Inert(h: Handler, h': Handler) {
    h'.sessions == h.sessions && Heard(h'.out) == Heard(h.out)
  }

  lemma {:induction false} SendEachInert(cfg: Config, h: Handler, rs: seq<PendingRequest>, draws: Draws, k: nat)
    ensures Inert(h, SendEach(cfg, h, rs, draws, k))
  {
    if rs != [] {
      var init, r := rs[..|rs| - 1], rs[|rs| - 1];
      SendEachInert(cfg, h, init, draws, k);
      var h1 := SendEach(cfg, h, init, draws, k);
      var (h2, error) := SendRequest(cfg, h1, r, draws(k + |rs| - 1));
      if error.Some? { HeardReport(h2, r.id, error.value); }
    }
  }

  lemma {:induction false} ReportPendingInert(h: Handler, rs: seq<PendingRequest>, error: RequestError)
    ensures Inert(h, ReportPending(h, rs, error))
  {
    if rs != [] {
      ReportPendingInert(h, rs[..|rs| - 1], error);
      HeardReport(ReportPending(h, rs[..|rs| - 1], error), rs[|rs| - 1].id, error);
    }
  }

  lemma {:induction false} FailCallsInert(h: Handler, calls: seq<RequestCall>, socket: SocketAddr, error: RequestError)
    ensures Inert(h, FailCalls(h, calls, socket, error))
  {
    if calls != [] {
      FailCallsInert(h, calls[..|calls| - 1], socket, error);
      HeardReport(FailCalls(h, calls[..|calls| - 1], socket, error), calls[|calls| - 1].id, error);
    }
  }

  lemma FailSessionSessions(h: Handler, a: NodeAddress, error: RequestError, removeSession: bool)
    ensures var h1 := FailSession(h, a, error, removeSession);
            h1.sessions == (if removeSession then h.sessions - {a} else h.sessions) && Heard(h1.out) == Heard(h.out)
  {
    var h0 := if removeSession then h.(sessions := h.sessions - {a}) else h;
    var h1 := h0.(pending := Filter(Not(ForAddress(a)), h0.pending));
    var h2 := ReportPending(h1, Filter(ForAddress(a), h0.pending), error);
    ReportPendingInert(h1, Filter(ForAddress(a), h0.pending), error);
    var h3 := h2.(active := Filter(Not(At(a)), h2.active));
    FailCallsInert(h3, CallsAt(h2.active, a), a.socket, error);
  }

  lemma FailRequestSessions(h: Handler, call: RequestCall, error: RequestError, removeSession: bool)
    ensures var h1 := FailRequest(h, call, error, removeSession);
            h1.sessions.Keys <= h.sessions.Keys && Heard(h1.out) == Heard(h.out)
  {
    var h0 := Report(h, call.id, error);
    HeardReport(h, call.id, error);
    FailSessionSessions(h0, call.contact.address, error, removeSession);
  }

  lemma NewSessionSessions(cfg: Config, h: Handler, a: NodeAddress, session: Session, skip: Option<Nonce>,
                           evicted: set<NodeAddress>, draws: Draws, k: nat)
    ensures var h1 := NewSession(cfg, h, a, session, skip, evicted, draws, k);
            h1.sessions.Keys <= h.sessions.Keys + {a} && Heard(h1.out) == Heard(h.out)
  {
    if a !in h.sessions {
      var h0 := h.(sessions := h.sessions[a := session] - evicted, pending := Filter(Not(ForAddress(a)), h.pending));
      SendEachInert(cfg, h0, Filter(ForAddress(a), h.pending), draws, k);
    }
  }

  // ----- Sessions come from handshakes

  /** This event completes a handshake with `a`: it answers our challenge with a valid record, or challenges a request
      of ours. */
  ghost predicate Completes(h: Handler, e: Event, a: NodeAddress) {
    || (e.GotAuth? && e.addr == a && a in h.challenges && e.result.ValidEnr?)
    || (e.GotChallenge? && Names(h, e.nonce, a) && a.socket == e.src)
  }

  /** The nonce is that of a request in flight to `a` not yet sent inside a handshake. */
  ghost predicate Names(h: Handler, nonce: Nonce, a: NodeAddress) {
    var i := Find(WithNonce(nonce), h.active);
    i < |h.active| && h.active[i].addr == a && !h.active[i].call.handshakeSent
  }

  lemma HandshakeSessions(cfg: Config, h: Handler, call: RequestCall, enrRequest: RequestId, evicted: set<NodeAddress>,
                          draws: Draws)
    ensures var h1 := Handshake(cfg, h, call, enrRequest, evicted, draws);
            h1.sessions.Keys <= h.sessions.Keys + {call.contact.address} && Heard(h1.out) == Heard(h.out)
  {
    var a, packet := call.contact.address, Packet(draws(0).nonce, HandshakePacket);
    if call.contact.hasEnr {
      var call' := call.(packet := packet, handshakeSent := true, initiating := false);
      var h1 := Emit(Send(h.(active := h.active + [Active(a, call')]), a, packet), Established(a, !call.initiating));
      HeardEmit(h, Established(a, !call.initiating));
      NewSessionSessions(cfg, h1, a, Session(None), Some(packet.nonce), evicted, draws, 1);
    } else {
      var call' := call.(packet := packet, handshakeSent := true);
      var h1 := Send(h.(active := h.active + [Active(a, call')]), a, packet);
      var h2 := h1.(issued := h1.issued[enrRequest := Issue(a, false)]);
      var h3 := SendRequest(cfg, h2, PendingRequest(call.contact, Internal(enrRequest), FindNode([0])), draws(1)).0;
      NewSessionSessions(cfg, h3, a, Session(Some(enrRequest)), Some(packet.nonce), evicted, draws, 2);
    }
  }

  lemma HandleChallengeSessions(cfg: Config, h: Handler, src: SocketAddr, nonce: Nonce, enrRequest: RequestId,
                                evicted: set<NodeAddress>, draws: Draws, a: NodeAddress)
    requires WellFiled(h.active)
    ensures var h1 := HandleChallenge(cfg, h, src, nonce, enrRequest, evicted, draws);
            && Heard(h1.out) == Heard(h.out)
            && (a in h1.sessions && a !in h.sessions ==>
                Completes(h, GotChallenge(src, nonce, enrRequest, evicted, draws), a))
  {
    var i := Find(WithNonce(nonce), h.active);
    if i < |h.active| {
      var e := h.active[i];
      var h1 := h.(active := RemoveAt(h.active, i));
      FailRequestSessions(h1, e.call, InvalidRemotePacket, true);
      HandshakeSessions(cfg, h1, e.call, enrRequest, evicted, draws);
    }
  }

  lemma HandleResponseSessions(h: Handler, a: NodeAddress, id: RequestId, body: ResponseBody)
    ensures HandleResponse(h, a, id, body).sessions == h.sessions
  {
  }

  lemma HandleMessageSessions(h: Handler, a: NodeAddress, nonce: Nonce, m: Message)
    ensures HandleMessage(h, a, nonce, m).sessions.Keys <= h.sessions.Keys
  {
    if a in h.sessions {
      match m
      case Undecodable =>
      case Undecryptable => FailSessionSessions(h, a, InvalidRemotePacket, true);
      case RequestMessage(_) =>
      case ResponseMessage(id, body) =>
        FailSessionSessions(h.(sessions := h.sessions[a := Session(None)]), a, InvalidRemoteEnr, true);
        HandleResponseSessions(h, a, id, body);
    }
  }

  lemma HandleAuthSessions(cfg: Config, h: Handler, a: NodeAddress, result: Handshaken, nonce: Nonce, m: Message,
                           evicted: set<NodeAddress>, draws: Draws)
    ensures var h1 := HandleAuth(cfg, h, a, result, nonce, m, evicted, draws);
            h1.sessions.Keys <= if a in h.challenges && result.ValidEnr? then h.sessions.Keys + {a} else h.sessions.Keys
  {
    var h1 := h.(challenges := h.challenges - {a});
    match result
    case BadSignature =>
    case Malformed => FailSessionSessions(h1, a, InvalidRemotePacket, true);
    case InvalidEnr => FailSessionSessions(RemoveExpected(h1, a.socket), a, InvalidRemoteEnr, true);
    case ValidEnr =>
      var h3 := Emit(RemoveExpected(h1, a.socket), Established(a, true));
      NewSessionSessions(cfg, h3, a, Session(None), None, evicted, draws, 0);
      HandleMessageSessions(NewSession(cfg, h3, a, Session(None), None, evicted, draws, 0), a, nonce, m);
  }

  lemma HandleTimeoutSessions(cfg: Config, h: Handler, nonce: Nonce)
    ensures HandleTimeout(cfg, h, nonce).sessions.Keys <= h.sessions.Keys &&
            Heard(HandleTimeout(cfg, h, nonce).out) == Heard(h.out)
  {
    var i := Find(WithNonce(nonce), h.active);
    if i < |h.active| {
      var h1 := RemoveExpected(h.(active := RemoveAt(h.active, i)), h.active[i].addr.socket);
      FailRequestSessions(h1, h.active[i].call, Timeout, false);
    }
  }

  /** A step opens a session with a node only by completing a handshake with it. */
  lemma NewSessionsNeedHandshake(cfg: Config, h: Handler, e: Event, a: NodeAddress)
    requires WellFiled(h.active)
    ensures a in Step(cfg, h, e).sessions && a !in h.sessions ==> Completes(h, e, a)
  {
    match e
    case Issued(_, _) =>
    case Challenged(_, _) =>
    case GotChallenge(src, nonce, enrRequest, evicted, draws) =>
      HandleChallengeSessions(cfg, h, src, nonce, enrRequest, evicted, draws, a);
    case GotAuth(b, result, nonce, m, evicted, draws) =>
      HandleAuthSessions(cfg, h, b, result, nonce, m, evicted, draws);
    case GotMessage(b, nonce, m) => HandleMessageSessions(h, b, nonce, m);
    case TimedOut(nonce) => HandleTimeoutSessions(cfg, h, nonce);
    case Expired(b, draws) =>
      var h1 := h.(challenges := h.challenges - {b}, pending := Filter(Not(ForAddress(b)), h.pending));
      SendEachInert(cfg, h1, Filter(ForAddress(b), h.pending), draws, 0);
    case Evicted(_) =>
  }

  /** In any run, a node we have a session with completed a handshake at some earlier event. */
  lemma {:induction false} SessionsNeedHandshake(cfg: Config, events: seq<Event>, a: NodeAddress) returns (k: nat)
    requires AdmissibleRun(cfg, events) && a in Run(cfg, events).sessions
    ensures k < |events| && Completes(Run(cfg, events[..k]), events[k], a)
  {
    var n := |events| - 1;
    var h := Run(cfg, events[..n]);
    RunKeeps(cfg, events[..n]);
    NewSessionsNeedHandshake(cfg, h, events[n], a);
    if a in h.sessions {
      k := SessionsNeedHandshake(cfg, events[..n], a);
      assert events[..n][..k] == events[..k];
    } else {
      k := n;
    }
  }

  // ----- Responses come over sessions

  /** At most one more response was heard, and that came from `a`. */
  ghost predicate HeardFrom(before: seq<Out>, after: seq<Out>, a: NodeAddress) {
    || after == before
    || (|after| == |before| + 1 && after[..|before|] == before && after[|before|].Response? &&
        after[|before|].addr == a)
  }

  lemma HeardOneMore(before: seq<Out>, o: Out)
    requires o.Response?
    ensures HeardFrom(before, before + [o], o.addr)
  {
  }

  lemma HandleResponseFrom(h: Handler, a: NodeAddress, id: RequestId, body: ResponseBody)
    ensures HeardFrom(Heard(h.out), Heard(HandleResponse(h, a, id, body).out), a)
  {
    HeardEmit(h, Response(a, id, true));
    HeardEmit(h, Response(a, id, false));
    HeardOneMore(Heard(h.out), Response(a, id, true));
    HeardOneMore(Heard(h.out), Response(a, id, false));
    ResponseEvents(h, a, id, body);
  }

  lemma ResponseEvents(h: Handler, a: NodeAddress, id: RequestId, body: ResponseBody)
    ensures HandleResponse(h, a, id, body).out in
            {h.out, h.out + [Response(a, id, true)], h.out + [Response(a, id, false)]}
  {
  }

  lemma HandleMessageFrom(h: Handler, a: NodeAddress, nonce: Nonce, m: Message)
    ensures HeardFrom(Heard(h.out), Heard(HandleMessage(h, a, nonce, m).out), a)
    ensures a !in h.sessions ==> Heard(HandleMessage(h, a, nonce, m).out) == Heard(h.out)
  {
    if a !in h.sessions {
      HeardEmit(h, WhoAreYou(a, nonce));
    } else {
      match m
      case Undecodable =>
      case Undecryptable =>
        FailSessionSessions(h, a, InvalidRemotePacket, true);
        HeardEmit(FailSession(h, a, InvalidRemotePacket, true), WhoAreYou(a, nonce));
      case RequestMessage(_) => HeardEmit(h, Request(a));
      case ResponseMessage(id, body) =>
        var h1 := h.(sessions := h.sessions[a := Session(None)]);
        HeardEmit(h1, Established(a, false));
        FailSessionSessions(h1, a, InvalidRemoteEnr, true);
        HandleResponseFrom(h, a, id, body);
    }
  }

  lemma HandleAuthFrom(cfg: Config, h: Handler, a: NodeAddress, result: Handshaken, nonce: Nonce, m: Message,
                       evicted: set<NodeAddress>, draws: Draws)
    ensures var h1 := HandleAuth(cfg, h, a, result, nonce, m, evicted, draws);
            HeardFrom(Heard(h.out), Heard(h1.out), a) &&
              ((a in h.challenges && result.ValidEnr?) || Heard(h1.out) == Heard(h.out))
  {
    var h1 := h.(challenges := h.challenges - {a});
    match result
    case BadSignature =>
    case Malformed => FailSessionSessions(h1, a, InvalidRemotePacket, true);
    case InvalidEnr =>
      FailSessionSessions(RemoveExpected(h1, a.socket), a, InvalidRemoteEnr, true);
      HeardEmit(FailSession(RemoveExpected(h1, a.socket), a, InvalidRemoteEnr, true), Request(a));
    case ValidEnr =>
      var h3 := Emit(RemoveExpected(h1, a.socket), Established(a, true));
      HeardEmit(RemoveExpected(h1, a.socket), Established(a, true));
      NewSessionSessions(cfg, h3, a, Session(None), None, evicted, draws, 0);
      HandleMessageFrom(NewSession(cfg, h3, a, Session(None), None, evicted, draws, 0), a, nonce, m);
  }

  lemma SendOrReportHeard(cfg: Config, h: Handler, r: PendingRequest, d: Draw)
    ensures Heard(SendOrReport(cfg, h, r, d).out) == Heard(h.out)
  {
    var (h1, error) := SendRequest(cfg, h, r, d);
    if error.Some? { HeardReport(h1, r.id, error.value); }
  }

  /** A step reports a response only when a packet comes from that very node over a session: one that exists already, or
      one that the packet itself establishes by completing a handshake. It reports at most one. */
  lemma ResponsesNeedSession(cfg: Config, h: Handler, e: Event)
    requires WellFiled(h.active)
    ensures var heard := Heard(Step(cfg, h, e).out);
            || heard == Heard(h.out)
            || (e.GotMessage? && e.addr in h.sessions && HeardFrom(Heard(h.out), heard, e.addr))
            || (e.GotAuth? && Completes(h, e, e.addr) && HeardFrom(Heard(h.out), heard, e.addr))
  {
    match e
    case Issued(r, draws) =>
      SendOrReportHeard(cfg, h.(issued := h.issued[r.id.id := Issue(r.contact.address, true)]), r, draws(0));
    case Challenged(_, _) =>
    case GotChallenge(src, nonce, enrRequest, evicted, draws) =>
      HandleChallengeSessions(cfg, h, src, nonce, enrRequest, evicted, draws, NodeAddress(0, 0));
    case GotAuth(a, result, nonce, m, evicted, draws) => HandleAuthFrom(cfg, h, a, result, nonce, m, evicted, draws);
    case GotMessage(a, nonce, m) => HandleMessageFrom(h, a, nonce, m);
    case TimedOut(nonce) => HandleTimeoutSessions(cfg, h, nonce);
    case Expired(b, draws) =>
      var h1 := h.(challenges := h.challenges - {b}, pending := Filter(Not(ForAddress(b)), h.pending));
      SendEachInert(cfg, h1, Filter(ForAddress(b), h.pending), draws, 0);
    case Evicted(_) =>
  }

  // ----- Timeouts run out

  function OnTimeout(cfg: Config, nonce: Nonce): Handler -> Handler {
    (h: Handler) => HandleTimeout(cfg, h, nonce)
  }

  function Iterate<T>(f: T -> T, x: T, n: nat): T {
    if n == 0 then x else f(Iterate(f, x, n - 1))
  }

  lemma {:induction false} IterateAlong<T>(f: T -> T, x: T, n: nat, g: nat -> T)
    requires 1 <= n && f(x) == g(1) && forall k :: 1 <= k < n ==> f(g(k)) == g(k + 1)
    ensures Iterate(f, x, n) == g(n)
  {
    if n == 1 {
      assert Iterate(f, x, 0) == x;
    } else {
      IterateAlong(f, x, n - 1, g);
      assert f(g(n - 1)) == g(n - 1 + 1);
    }
  }

  function Copies<T>(x: T, n: nat): seq<T> {
    seq(n, _ => x)
  }

  function Tried(e: Active, n: nat): Active {
    e.(call := e.call.(retries := e.call.retries + n))
  }

  lemma LastIsFound(s: seq<Active>, e: Active, nonce: Nonce)
    requires NonceFree(s, nonce) && e.call.packet.nonce == nonce
    ensures Find(WithNonce(nonce), s + [e]) == |s| && RemoveAt(s + [e], |s|) == s
  {
    FindUnique(WithNonce(nonce), s + [e], |s|);
  }

  /** The handler after a request, taken off the list, was sent again `n` times. */
  function Resent(h: Handler, rest: seq<Active>, e: Active, n: nat): Handler {
    h.(active := rest + [Tried(e, n)], sent := h.sent + Copies((e.addr, e.call.packet), n))
  }

  lemma ResendOnce(cfg: Config, h: Handler, rest: seq<Active>, e: Active, nonce: Nonce, n: nat)
    requires NonceFree(rest, nonce) && e.call.packet.nonce == nonce && e.call.retries + n < cfg.retries
    ensures HandleTimeout(cfg, Resent(h, rest, e, n), nonce) == Resent(h, rest, e, n + 1)
  {
    LastIsFound(rest, Tried(e, n), nonce);
    var packet := (e.addr, e.call.packet);
    assert Copies(packet, n + 1) == Copies(packet, n) + [packet];
    assert h.sent + Copies(packet, n) + [packet] == h.sent + (Copies(packet, n) + [packet]);
  }

  lemma ResendFirst(cfg: Config, h: Handler, nonce: Nonce)
    requires Find(WithNonce(nonce), h.active) < |h.active| &&
             h.active[Find(WithNonce(nonce), h.active)].call.retries < cfg.retries
    ensures var i := Find(WithNonce(nonce), h.active);
            HandleTimeout(cfg, h, nonce) == Resent(h, RemoveAt(h.active, i), h.active[i], 1)
  {
    var e := h.active[Find(WithNonce(nonce), h.active)];
    assert Copies((e.addr, e.call.packet), 1) == [(e.addr, e.call.packet)];
  }

  /** Until its retries are used up, a request that times out is sent again unchanged, once each time. */
  lemma TimeoutsResend(cfg: Config, h: Handler, nonce: Nonce, n: nat)
    requires Tidy(h.active) && Find(WithNonce(nonce), h.active) < |h.active|
    requires 1 <= n && h.active[Find(WithNonce(nonce), h.active)].call.retries + n <= cfg.retries
    ensures var i := Find(WithNonce(nonce), h.active);
            Iterate(OnTimeout(cfg, nonce), h, n) == Resent(h, RemoveAt(h.active, i), h.active[i], n)
  {
    var i := Find(WithNonce(nonce), h.active);
    ResendFirst(cfg, h, nonce);
    RemoveTidy(h.active, i);
    KeepsResending(cfg, h, RemoveAt(h.active, i), h.active[i], nonce, n);
  }

  lemma KeepsResending(cfg: Config, h: Handler, rest: seq<Active>, e: Active, nonce: Nonce, n: nat)
    requires NonceFree(rest, nonce) && e.call.packet.nonce == nonce && 1 <= n && e.call.retries + n <= cfg.retries
    requires HandleTimeout(cfg, h, nonce) == Resent(h, rest, e, 1)
    ensures Iterate(OnTimeout(cfg, nonce), h, n) == Resent(h, rest, e, n)
  {
    var f, g := OnTimeout(cfg, nonce), Resending(h, rest, e);
    assert f(h) == g(1);
    forall k | 1 <= k < n ensures f(g(k)) == g(k + 1) {
      ResendAgain(cfg, h, rest, e, nonce, k);
    }
    IterateAlong(f, h, n, g);
  }

  function Resending(h: Handler, rest: seq<Active>, e: Active): nat -> Handler {
    (k: nat) => Resent(h, rest, e, k)
  }

  lemma ResendAgain(cfg: Config, h: Handler, rest: seq<Active>, e: Active, nonce: Nonce, k: nat)
    requires NonceFree(rest, nonce) && e.call.packet.nonce == nonce && e.call.retries + k < cfg.retries
    ensures OnTimeout(cfg, nonce)(Resending(h, rest, e)(k)) == Resending(h, rest, e)(k + 1)
  {
    ResendOnce(cfg, h, rest, e, nonce, k);
  }

  /** One timeout later it is given up: nothing is sent, nothing stays in flight to its node, and if the application
      issued it, its failure is the next event. */
  lemma TimeoutsRunOut(cfg: Config, h: Handler, nonce: Nonce)
    requires Tidy(h.active) && Find(WithNonce(nonce), h.active) < |h.active|
    requires h.active[Find(WithNonce(nonce), h.active)].call.retries >= cfg.retries
    ensures var e, h1 := h.active[Find(WithNonce(nonce), h.active)], HandleTimeout(cfg, h, nonce);
            && h1.sent == h.sent
            && (e.call.id.External? ==> |h1.out| > |h.out| && h1.out[|h.out|] == RequestFailed(e.call.id.id, Timeout))
            && forall i :: 0 <= i < |h1.active| ==> h1.active[i].addr != e.addr
  {
    var i := Find(WithNonce(nonce), h.active);
    var e := h.active[i];
    var h1 := Report(RemoveExpected(h.(active := RemoveAt(h.active, i)), e.addr.socket), e.call.id, Timeout);
    FailSessionEffect(h1, e.addr, Timeout, false);
  }

  /** Failing a session sends nothing, leaves nothing in flight to its node, and only adds events. */
  lemma FailSessionEffect(h: Handler, a: NodeAddress, error: RequestError, removeSession: bool)
    ensures var h1 := FailSession(h, a, error, removeSession);
            && h1.sent == h.sent && |h.out| <= |h1.out| && (forall j :: 0 <= j < |h.out| ==> h1.out[j] == h.out[j])
            && forall i :: 0 <= i < |h1.active| ==> h1.active[i].addr != a
  {
    var h0 := if removeSession then h.(sessions := h.sessions - {a}) else h;
    var h1 := h0.(pending := Filter(Not(ForAddress(a)), h0.pending));
    ReportPendingFrame(h1, Filter(ForAddress(a), h0.pending), error);
    ReportPendingAdds(h1, Filter(ForAddress(a), h0.pending), error);
    var h2 := ReportPending(h1, Filter(ForAddress(a), h0.pending), error);
    var h3 := h2.(active := Filter(Not(At(a)), h2.active));
    FailCallsFrame(h3, CallsAt(h2.active, a), a.socket, error, 0);
    FailCallsAdds(h3, CallsAt(h2.active, a), a.socket, error);
    forall j | 0 <= j < |h3.active| ensures h3.active[j].addr != a {
      var k := FilterAt(Not(At(a)), h2.active, j);
    }
  }

  lemma {:induction false} ReportPendingAdds(h: Handler, rs: seq<PendingRequest>, error: RequestError)
    ensures var h1 := ReportPending(h, rs, error);
            |h.out| <= |h1.out| && forall j :: 0 <= j < |h.out| ==> h1.out[j] == h.out[j]
  {
    if rs != [] { ReportPendingAdds(h, rs[..|rs| - 1], error); }
  }

  lemma {:induction false} FailCallsAdds(h: Handler, calls: seq<RequestCall>, socket: SocketAddr, error: RequestError)
    ensures var h1 := FailCalls(h, calls, socket, error);
            |h.out| <= |h1.out| && forall j :: 0 <= j < |h.out| ==> h1.out[j] == h.out[j]
  {
    if calls != [] { FailCallsAdds(h, calls[..|calls| - 1], socket, error); }
  }
}
