/** What each event does to sessions, requests, reports and counters, stated by what can be observed. */
module HandlerLaws {
  import opened Wrappers
  import opened HandlerTypes
  import opened HandlerSpec
  import opened ActiveRequestLists
  import opened HandlerBooks
  import opened HandlerCover
  import opened HandlerRuns
  import opened HandlerSafety
  import opened Lists

  // ----- Expected responses

  function Less(n: nat, k: nat): nat {
    if k <= n then n - k else 0
  }

  /** Every socket with an entry is expected at least once. */
  ghost predicate Positive(expected: map<SocketAddr, nat>) {
    forall s :: s in expected ==> expected[s] >= 1
  }

  /** Counting up and down changes one socket's count by one; at zero its entry goes. */
  lemma ExpectedCounts(h: Handler, socket: SocketAddr, s: SocketAddr)
    requires Positive(h.expected)
    ensures Expect(AddExpected(h, socket).expected, s) == Expect(h.expected, s) + One(s == socket)
    ensures Expect(RemoveExpected(h, socket).expected, s) == Less(Expect(h.expected, s), One(s == socket))
    ensures Positive(AddExpected(h, socket).expected) && Positive(RemoveExpected(h, socket).expected)
    ensures Permitted(h, s) <==> Expect(h.expected, s) > 0
    ensures AddExpected(h, socket) == h.(expected := AddExpected(h, socket).expected)
    ensures RemoveExpected(h, socket) == h.(expected := RemoveExpected(h, socket).expected)
  {
  }

  // ----- Failing everything to a node

  /** The reports of failed requests: those the application issued, in order. */
  function Failures(ids: seq<HandlerReqId>, error: RequestError): seq<Out> {
    if ids == [] then []
    else if ids[|ids| - 1].External? then Failures(ids[..|ids| - 1], error) + [RequestFailed(ids[|ids| - 1].id, error)]
    else Failures(ids[..|ids| - 1], error)
  }

  function QueuedIds(rs: seq<PendingRequest>): (r: seq<HandlerReqId>)
    ensures |r| == |rs| && forall i :: 0 <= i < |rs| ==> r[i] == rs[i].id
  {
    seq(|rs|, i requires 0 <= i < |rs| => rs[i].id)
  }

  function SentIds(calls: seq<RequestCall>): (r: seq<HandlerReqId>)
    ensures |r| == |calls| && forall i :: 0 <= i < |calls| ==> r[i] == calls[i].id
  {
    seq(|calls|, i requires 0 <= i < |calls| => calls[i].id)
  }

  lemma {:induction false} ReportPendingFails(h: Handler, rs: seq<PendingRequest>, error: RequestError)
    ensures ReportPending(h, rs, error) == h.(out := h.out + Failures(QueuedIds(rs), error))
  {
    if rs == [] {
      assert h.out + [] == h.out;
    } else {
      var init := rs[..|rs| - 1];
      ReportPendingFails(h, init, error);
      assert QueuedIds(rs)[..|rs| - 1] == QueuedIds(init);
    }
  }

  lemma {:induction false} FailCallsFails(h: Handler, calls: seq<RequestCall>, socket: SocketAddr, error: RequestError,
                                          s: SocketAddr)
    requires Positive(h.expected)
    ensures var h1 := FailCalls(h, calls, socket, error);
            && h1 == h.(out := h.out + Failures(SentIds(calls), error), expected := h1.expected)
            && Positive(h1.expected)
            && Expect(h1.expected, s) == Less(Expect(h.expected, s), if s == socket then |calls| else 0)
  {
    if calls == [] {
      assert h.out + [] == h.out;
    } else {
      var init, last := calls[..|calls| - 1], calls[|calls| - 1];
      FailCallsFails(h, init, socket, error, s);
      assert SentIds(calls)[..|calls| - 1] == SentIds(init);
      ExpectedCounts(Report(FailCalls(h, init, socket, error), last.id, error), socket, s);
    }
  }

  /** Failing a session fails every queued and sent request of its node, in this order, with the given error, lowers its
      socket's count by one for each that was sent, and touches no other request. */
  lemma FailSessionFails(h: Handler, a: NodeAddress, error: RequestError, removeSession: bool, s: SocketAddr)
    requires Positive(h.expected)
    ensures var h1, sent := FailSession(h, a, error, removeSession), CallsAt(h.active, a);
            && h1.active == Filter(Not(At(a)), h.active) && h1.pending == Filter(Not(ForAddress(a)), h.pending)
            && h1.out == h.out + Failures(QueuedIds(Filter(ForAddress(a), h.pending)), error)
                         + Failures(SentIds(sent), error)
            && h1.sessions == (if removeSession then h.sessions - {a} else h.sessions)
            && h1.challenges == h.challenges && h1.sent == h.sent && h1.issued == h.issued
            && Expect(h1.expected, s) == Less(Expect(h.expected, s), if s == a.socket then |sent| else 0)
            && Positive(h1.expected)
  {
    var h0 := if removeSession then h.(sessions := h.sessions - {a}) else h;
    var h1 := h0.(pending := Filter(Not(ForAddress(a)), h0.pending));
    ReportPendingFails(h1, Filter(ForAddress(a), h0.pending), error);
    var h2 := ReportPending(h1, Filter(ForAddress(a), h0.pending), error);
    FailCallsFails(h2.(active := Filter(Not(At(a)), h2.active)), CallsAt(h2.active, a), a.socket, error, s);
  }

  // ----- Sending

  /** A request that opens a session with `a` is in flight. */
  ghost predicate Opening(h: Handler, a: NodeAddress) {
    exists i :: 0 <= i < |h.active| && h.active[i].addr == a && h.active[i].call.initiating
  }

  /** A request to ourselves is refused. It waits while a challenge to its node is open, or while another request opens
      a session. Otherwise it is sent at once, as a random packet exactly if there is no session, and its socket
      expected. */
  lemma SendDecides(cfg: Config, h: Handler, r: PendingRequest, d: Draw)
    ensures var a := r.contact.address;
            var (h1, error) := SendRequest(cfg, h, r, d);
            var waits := a in h.challenges || (a !in h.sessions && Opening(h, a));
            if a.socket in cfg.listen then error == Some(SelfRequest) && h1 == h
            else if waits then error.None? && h1 == h.(pending := h.pending + [r])
            else if !d.ok then error == Some(NotEncrypted) && h1 == h
            else
              var packet := Packet(d.nonce, if a in h.sessions then MessagePacket else RandomPacket);
              var call := RequestCall(r.contact, packet, r.id, r.body, false, 1, None, a !in h.sessions);
              error.None? && h1 == h.(active := h.active + [Active(a, call)], sent := h.sent + [(a, packet)],
                                      expected := AddExpected(h, a.socket).expected)
  {
    var a := r.contact.address;
    if i :| 0 <= i < |h.active| && h.active[i].addr == a && h.active[i].call.initiating {
      FindHit(Initiates(a), h.active, i);
    }
    if Find(Initiates(a), h.active) < |h.active| {
      assert h.active[Find(Initiates(a), h.active)].call.initiating;
    }
  }

  /** A request the application issues is sent, queued or reported as failed at once with the reason. */
  lemma IssueDecides(cfg: Config, h: Handler, r: PendingRequest, draws: Draws)
    requires r.id.External?
    ensures var known := h.(issued := h.issued[r.id.id := Issue(r.contact.address, true)]);
            var h', (h1, error) := Step(cfg, h, Issued(r, draws)), SendRequest(cfg, known, r, draws(0));
            h' == if error.Some? then h1.(out := h1.out + [RequestFailed(r.id.id, error.value)]) else h1
  {
  }

  /** The call a queued request becomes over a session. */
  function CallFor(r: PendingRequest, d: Draw): Active {
    Active(r.contact.address,
           RequestCall(r.contact, Packet(d.nonce, MessagePacket), r.id, r.body, false, 1, None, false))
  }

  function CallsFor(rs: seq<PendingRequest>, draws: Draws, k: nat): (r: seq<Active>)
    ensures |r| == |rs| && forall i :: 0 <= i < |rs| ==> r[i] == CallFor(rs[i], draws(k + i))
  {
    seq(|rs|, i requires 0 <= i < |rs| => CallFor(rs[i], draws(k + i)))
  }

  function SendsOf(calls: seq<Active>): (r: seq<(NodeAddress, Packet)>)
    ensures |r| == |calls| && forall i :: 0 <= i < |calls| ==> r[i] == (calls[i].addr, calls[i].call.packet)
  {
    seq(|calls|, i requires 0 <= i < |calls| => (calls[i].addr, calls[i].call.packet))
  }

  /** Requests to `a` go out over a session: nothing is in their way. */
  ghost predicate Clear(cfg: Config, h: Handler, a: NodeAddress) {
    a in h.sessions && a !in h.challenges && a.socket !in cfg.listen
  }

  lemma SendsAtOnce(cfg: Config, h: Handler, r: PendingRequest, d: Draw)
    requires Clear(cfg, h, r.contact.address) && d.ok
    ensures var h1, e := SendOrReport(cfg, h, r, d), CallFor(r, d);
            h1 == h.(active := h.active + [e], sent := h.sent + [(e.addr, e.call.packet)], expected := h1.expected)
  {
  }

  /** `h1` is `h` with these calls sent. */
  ghost predicate Sent(h: Handler, h1: Handler, calls: seq<Active>) {
    h1 == h.(active := h.active + calls, sent := h.sent + SendsOf(calls), expected := h1.expected)
  }

  lemma SentMore(h: Handler, h1: Handler, h2: Handler, calls: seq<Active>, e: Active)
    requires Sent(h, h1, calls)
    requires h2 == h1.(active := h1.active + [e], sent := h1.sent + [(e.addr, e.call.packet)], expected := h2.expected)
    ensures Sent(h, h2, calls + [e])
  {
    assert SendsOf(calls + [e]) == SendsOf(calls) + [(e.addr, e.call.packet)];
    assert (h.active + calls) + [e] == h.active + (calls + [e]);
    assert (h.sent + SendsOf(calls)) + [(e.addr, e.call.packet)] == h.sent + SendsOf(calls + [e]);
  }

  lemma CallsForMore(rs: seq<PendingRequest>, draws: Draws, k: nat)
    requires rs != []
    ensures CallsFor(rs, draws, k) == CallsFor(rs[..|rs| - 1], draws, k) + [CallFor(rs[|rs| - 1], draws(k + |rs| - 1))]
  {
  }

  ghost predicate AllOk(draws: Draws, k: nat) {
    forall i :: k <= i ==> draws(i).ok
  }

  ghost predicate AllTo(rs: seq<PendingRequest>, a: NodeAddress) {
    forall i :: 0 <= i < |rs| ==> rs[i].contact.address == a
  }

  lemma {:induction false} SendEachSends(cfg: Config, h: Handler, rs: seq<PendingRequest>, a: NodeAddress, draws: Draws,
                                         k: nat)
    requires Clear(cfg, h, a) && AllTo(rs, a) && AllOk(draws, k)
    ensures Sent(h, SendEach(cfg, h, rs, draws, k), CallsFor(rs, draws, k))
  {
    if rs == [] {
      assert h.active + [] == h.active && h.sent + [] == h.sent;
    } else {
      var init, r, d := rs[..|rs| - 1], rs[|rs| - 1], draws(k + |rs| - 1);
      SendEachSends(cfg, h, init, a, draws, k);
      var h1 := SendEach(cfg, h, init, draws, k);
      SendsAtOnce(cfg, h1, r, d);
      SentMore(h, h1, SendOrReport(cfg, h1, r, d), CallsFor(init, draws, k), CallFor(r, d));
      CallsForMore(rs, draws, k);
    }
  }

  /** Once nothing is in the way, the whole queue of a node is sent, in order, and other queues stay. */
  lemma QueueIsFlushed(cfg: Config, h: Handler, a: NodeAddress, draws: Draws, k: nat)
    requires Clear(cfg, h, a) && AllOk(draws, k)
    ensures var h1 := SendPendingRequests(cfg, h, a, draws, k);
            var calls := CallsFor(Filter(ForAddress(a), h.pending), draws, k);
            && h1.pending == Filter(Not(ForAddress(a)), h.pending)
            && h1.active == h.active + calls && h1.sent == h.sent + SendsOf(calls) && h1.out == h.out
  {
    var queue := Filter(ForAddress(a), h.pending);
    forall i | 0 <= i < |queue| ensures queue[i].contact.address == a {
      var j := FilterAt(ForAddress(a), h.pending, i);
    }
    SendEachSends(cfg, h.(pending := Filter(Not(ForAddress(a)), h.pending)), queue, a, draws, k);
  }

  // ----- Responses

  /** How many responses a request awaits when one comes: those still to come, or as many as the first of several
      says. */
  function Outstanding(remaining: Option<nat>, body: ResponseBody): nat {
    if body.OtherResponse? || body.total <= 1 then 1
    else if remaining.Some? then remaining.value
    else body.total
  }

  /** A response to a request in flight is reported, once. It completes the request exactly if no more than one was
      awaited; otherwise the request stays in flight and awaits one fewer. A response to no request changes nothing. */
  lemma ResponseIsReported(h: Handler, a: NodeAddress, id: RequestId, body: ResponseBody, s: SocketAddr)
    requires Positive(h.expected)
    ensures var h1, i := HandleResponse(h, a, id, body), Find(IdAt(a, id), h.active);
            && (i == |h.active| ==> h1 == h)
            && (i < |h.active| ==>
                  var n := Outstanding(h.active[i].call.remaining, body);
                  && h1.out == h.out + [Response(a, id, n <= 1)]
                  && h1.active == RemoveAt(h.active, i) +
                       (if n <= 1 then [] else [Active(a, h.active[i].call.(remaining := Some(n - 1)))])
                  && Expect(h1.expected, s) == Less(Expect(h.expected, s), One(n <= 1 && s == a.socket))
                  && h1.sessions == h.sessions && h1.pending == h.pending && h1.sent == h.sent)
  {
    var i := Find(IdAt(a, id), h.active);
    if i < |h.active| {
      var h1 := h.(active := RemoveAt(h.active, i));
      ExpectedCounts(h1, a.socket, s);
      assert RemoveAt(h.active, i) + [] == RemoveAt(h.active, i);
    }
  }

  /** What a message from a node does. Over a session a request reaches the application and a response its request; an
      awaited record confirms or fails the session; what cannot be decrypted fails the session,
        and what cannot be decoded
      is ignored. Without a session the application is asked to challenge the sender. */
  lemma MessageDecides(h: Handler, a: NodeAddress, nonce: Nonce, m: Message)
    requires Positive(h.expected)
    ensures var h1 := HandleMessage(h, a, nonce, m);
            if a !in h.sessions then h1 == h.(out := h.out + [WhoAreYou(a, nonce)])
            else
              match m
              case RequestMessage(_) => h1 == h.(out := h.out + [Request(a)])
              case Undecodable => h1 == h
              case Undecryptable =>
                var failed := FailSession(h, a, InvalidRemotePacket, true);
                h1 == if a in h.challenges then failed else failed.(out := failed.out + [WhoAreYou(a, nonce)])
              case ResponseMessage(id, body) =>
                if h.sessions[a].awaitingEnr != Some(id) then h1 == HandleResponse(h, a, id, body)
                else if body.Nodes? && body.validEnr then
                  h1 == h.(sessions := h.sessions[a := Session(None)], out := h.out + [Established(a, false)])
                else h1 == FailSession(h, a, InvalidRemoteEnr, true)
  {
    FailSessionFails(h, a, InvalidRemotePacket, true, 0);
    if a in h.sessions { FailIgnoresSession(h, a, Session(None), InvalidRemoteEnr); }
  }

  /** What the failed session was does not matter. */
  lemma FailIgnoresSession(h: Handler, a: NodeAddress, session: Session, error: RequestError)
    requires a in h.sessions
    ensures FailSession(h.(sessions := h.sessions[a := session]), a, error, true) == FailSession(h, a, error, true)
  {
    assert h.sessions[a := session] - {a} == h.sessions - {a};
  }

  // ----- Sessions

  /** A new session is stored unless the cache drops it at once, and only dropped sessions go. */
  lemma NewSessionStores(cfg: Config, h: Handler, a: NodeAddress, session: Session, skip: Option<Nonce>,
                         evicted: set<NodeAddress>, draws: Draws, k: nat)
    ensures NewSession(cfg, h, a, session, skip, evicted, draws, k).sessions ==
            if a in h.sessions then h.sessions[a := session] else h.sessions[a := session] - evicted
  {
    if a !in h.sessions {
      var h0 := h.(sessions := h.sessions[a := session] - evicted, pending := Filter(Not(ForAddress(a)), h.pending));
      SendEachInert(cfg, h0, Filter(ForAddress(a), h.pending), draws, k);
    }
  }

  /** A session that replaces another replays the requests in flight to its node; a first session sends the whole queue
      of its node, if nothing is in the way. */
  lemma NewSessionSends(cfg: Config, h: Handler, a: NodeAddress, session: Session, skip: Option<Nonce>,
                        evicted: set<NodeAddress>, draws: Draws, k: nat)
    ensures var h1 := NewSession(cfg, h, a, session, skip, evicted, draws, k);
            && (a in h.sessions ==>
                  && h1.active == ReplayIn(h.active, a, skip, draws, k) && h1.pending == h.pending
                  && h1.sent == h.sent + ReplaySends(h.active, a, skip, draws, k) && h1.out == h.out)
            && (a !in h.sessions && a !in evicted && a !in h.challenges && a.socket !in cfg.listen &&
                AllOk(draws, k) ==>
                  var calls := CallsFor(Filter(ForAddress(a), h.pending), draws, k);
                  && h1.pending == Filter(Not(ForAddress(a)), h.pending) && h1.out == h.out
                  && h1.active == h.active + calls && h1.sent == h.sent + SendsOf(calls))
  {
    var h0 := h.(sessions := h.sessions[a := session] - evicted);
    if Clear(cfg, h0, a) && AllOk(draws, k) { QueueIsFlushed(cfg, h0, a, draws, k); }
  }

  /** When a challenge runs out, the queue of its node is sent over the session there is, if nothing is in the way. */
  lemma ExpirySends(cfg: Config, h: Handler, a: NodeAddress, draws: Draws)
    requires a in h.sessions && a.socket !in cfg.listen && AllOk(draws, 0)
    ensures var h1, calls := Step(cfg, h, Expired(a, draws)), CallsFor(Filter(ForAddress(a), h.pending), draws, 0);
            && h1.pending == Filter(Not(ForAddress(a)), h.pending) && h1.out == h.out
            && h1.active == h.active + calls && h1.sent == h.sent + SendsOf(calls)
  {
    QueueIsFlushed(cfg, h.(challenges := h.challenges - {a}), a, draws, 0);
  }

  /** A handshake that answers our challenge and carries a message is that handshake followed by that message. */
  lemma MessageJoinsHandshake(cfg: Config, h: Handler, a: NodeAddress, nonce: Nonce, m: Message,
                              evicted: set<NodeAddress>, draws: Draws)
    requires a in h.challenges && (a in h.sessions || a !in evicted)
    ensures var alone := Step(cfg, h, GotAuth(a, ValidEnr, nonce, Undecodable, evicted, draws));
            && a in alone.sessions && alone.sessions[a] == Session(None)
            && Step(cfg, h, GotAuth(a, ValidEnr, nonce, m, evicted, draws)) == Step(cfg, alone, GotMessage(a, nonce, m))
  {
    var h2 := Emit(RemoveExpected(h.(challenges := h.challenges - {a}), a.socket), Established(a, true));
    NewSessionStores(cfg, h2, a, Session(None), None, evicted, draws, 0);
  }

  lemma MessageSessions(h: Handler, a: NodeAddress, nonce: Nonce, m: Message)
    requires a in h.sessions && h.sessions[a] == Session(None)
    ensures HandleMessage(h, a, nonce, m).sessions == if m.Undecryptable? then h.sessions - {a} else h.sessions
  {
    match m
    case Undecryptable => FailSessionSessions(h, a, InvalidRemotePacket, true);
    case Undecodable =>
    case RequestMessage(_) =>
    case ResponseMessage(id, body) => HandleResponseSessions(h, a, id, body);
  }

  lemma AuthOpens(cfg: Config, h: Handler, e: Event, b: NodeAddress)
    requires e.GotAuth? && e.result.ValidEnr? && e.addr in h.challenges && e.addr !in e.evicted
    ensures var s := Step(cfg, h, e).sessions;
            && (e.addr in s <==> !e.message.Undecryptable?)
            && (e.addr in s ==> s[e.addr] == Session(None))
            && (b != e.addr && b in h.sessions && b !in e.evicted ==> b in s && s[b] == h.sessions[b])
  {
    var a := e.addr;
    var h2 := Emit(RemoveExpected(h.(challenges := h.challenges - {a}), a.socket), Established(a, true));
    var h3 := NewSession(cfg, h2, a, Session(None), None, e.evicted, e.draws, 0);
    NewSessionStores(cfg, h2, a, Session(None), None, e.evicted, e.draws, 0);
    MessageSessions(h3, a, e.nonce, e.message);
  }

  lemma MessageContinues(h: Handler, a: NodeAddress, nonce: Nonce, m: Message)
    ensures Continues(h.out, HandleMessage(h, a, nonce, m).out)
  {
    match m
    case Undecryptable => FailSessionEffect(h, a, InvalidRemotePacket, true);
    case Undecodable =>
    case RequestMessage(_) =>
    case ResponseMessage(id, body) =>
      FailSessionEffect(h.(sessions := h.sessions[a := Session(None)]), a, InvalidRemoteEnr, true);
  }

  lemma NewSessionReports(cfg: Config, h: Handler, a: NodeAddress, session: Session, skip: Option<Nonce>,
                          evicted: set<NodeAddress>, draws: Draws, k: nat)
    ensures Continues(h.out, NewSession(cfg, h, a, session, skip, evicted, draws, k).out)
  {
    if a !in h.sessions {
      var h0 := h.(sessions := h.sessions[a := session] - evicted, pending := Filter(Not(ForAddress(a)), h.pending));
      SendEachContinues(cfg, h0, Filter(ForAddress(a), h.pending), draws, k);
    }
  }

  /** A handshake with a valid record is announced to the application before anything else. */
  lemma AuthIsAnnounced(cfg: Config, h: Handler, e: Event)
    requires e.GotAuth? && e.result.ValidEnr? && e.addr in h.challenges
    ensures var out := Step(cfg, h, e).out;
            |h.out| < |out| && out[..|h.out|] == h.out && out[|h.out|] == Established(e.addr, true)
  {
    var a := e.addr;
    var h2 := Emit(RemoveExpected(h.(challenges := h.challenges - {a}), a.socket), Established(a, true));
    var h3 := NewSession(cfg, h2, a, Session(None), None, e.evicted, e.draws, 0);
    NewSessionReports(cfg, h2, a, Session(None), None, e.evicted, e.draws, 0);
    MessageContinues(h3, a, e.nonce, e.message);
    assert h2.out[|h.out|] == Established(a, true) && forall i :: 0 <= i < |h.out| ==> h2.out[i] == h.out[i];
  }

  /** A handshake that answers no challenge, or with a bad signature, changes nothing. A malformed one fails the
      session. One with an invalid record is no longer expected and fails the session; a PING it carries still reaches
      the application. */
  lemma AuthIsRefused(cfg: Config, h: Handler, e: Event)
    requires e.GotAuth? && (e.addr !in h.challenges || !e.result.ValidEnr?)
    ensures var h', a := Step(cfg, h, e), e.addr;
            var closed := h.(challenges := h.challenges - {a});
            if a !in h.challenges || e.result.BadSignature? then h' == h
            else if e.result.Malformed? then h' == FailSession(closed, a, InvalidRemotePacket, true)
            else
              var failed :=
                FailSession(closed.(expected := RemoveExpected(h, a.socket).expected), a, InvalidRemoteEnr, true);
              h' == if e.message == RequestMessage(true) then failed.(out := failed.out + [Request(a)]) else failed
  {
  }

  lemma HandshakeOpens(cfg: Config, h: Handler, call: RequestCall, enrRequest: RequestId, evicted: set<NodeAddress>,
                       draws: Draws)
    ensures var a := call.contact.address;
            var session := Session(if call.contact.hasEnr then None else Some(enrRequest));
            Handshake(cfg, h, call, enrRequest, evicted, draws).sessions ==
            if a in h.sessions then h.sessions[a := session] else h.sessions[a := session] - evicted
  {
    var a, packet := call.contact.address, Packet(draws(0).nonce, HandshakePacket);
    if call.contact.hasEnr {
      var call' := call.(packet := packet, handshakeSent := true, initiating := false);
      var h1 := Emit(Send(h.(active := h.active + [Active(a, call')]), a, packet), Established(a, !call.initiating));
      NewSessionStores(cfg, h1, a, Session(None), Some(packet.nonce), evicted, draws, 1);
    } else {
      var call' := call.(packet := packet, handshakeSent := true);
      var h1 := Send(h.(active := h.active + [Active(a, call')]), a, packet);
      var h2 := h1.(issued := h1.issued[enrRequest := Issue(a, false)]);
      var h3 := SendRequest(cfg, h2, PendingRequest(call.contact, Internal(enrRequest), FindNode([0])), draws(1)).0;
      NewSessionStores(cfg, h3, a, Session(Some(enrRequest)), Some(packet.nonce), evicted, draws, 2);
    }
  }

  lemma ChallengeOpens(cfg: Config, h: Handler, e: Event, a: NodeAddress, b: NodeAddress)
    requires WellFiled(h.active) && e.GotChallenge? && Names(h, e.nonce, a) && a.socket == e.src && e.draws(0).ok
    requires a !in e.evicted
    ensures var s, call := Step(cfg, h, e).sessions, h.active[Find(WithNonce(e.nonce), h.active)].call;
            && a in s && s[a] == Session(if call.contact.hasEnr then None else Some(e.enrRequest))
            && (b != a && b in h.sessions && b !in e.evicted ==> b in s && s[b] == h.sessions[b])
  {
    var i := Find(WithNonce(e.nonce), h.active);
    HandshakeOpens(cfg, h.(active := RemoveAt(h.active, i)), h.active[i].call, e.enrRequest, e.evicted, e.draws);
  }

  /** Completing a handshake opens a session, unless the message that came with it cannot be decrypted and fails it
      again; sessions of other nodes stay unless the cache drops them. */
  lemma HandshakeOpensSession(cfg: Config, h: Handler, e: Event, a: NodeAddress, b: NodeAddress)
    requires WellFiled(h.active) && Completes(h, e, a) && a !in e.evicted && (e.GotChallenge? ==> e.draws(0).ok)
    ensures var s := Step(cfg, h, e).sessions;
            && (a in s <==> !(e.GotAuth? && e.message.Undecryptable?))
            && (b != a && b in h.sessions && b !in e.evicted ==> b in s && s[b] == h.sessions[b])
  {
    if e.GotAuth? {
      AuthOpens(cfg, h, e, b);
    } else {
      ChallengeOpens(cfg, h, e, a, b);
    }
  }

  /** The node whose session an event may change. */
  function Concerned(h: Handler, e: Event): Option<NodeAddress> {
    match e
    case GotAuth(a, _, _, _, _, _) => Some(a)
    case GotMessage(a, _, _) => Some(a)
    case GotChallenge(_, nonce, _, _, _) =>
      var i := Find(WithNonce(nonce), h.active);
      if i < |h.active| then Some(h.active[i].addr) else None
    case _ => None
  }

  /** The sessions the cache drops during an event. */
  function Dropped(e: Event): set<NodeAddress> {
    match e
    case GotAuth(_, _, _, _, evicted, _) => evicted
    case GotChallenge(_, _, _, evicted, _) => evicted
    case Evicted(evicted) => evicted
    case _ => {}
  }

  /** No event touches the session of a node it does not concern, unless the cache drops it. */
  lemma OtherSessionsStay(cfg: Config, h: Handler, e: Event, b: NodeAddress)
    requires WellFiled(h.active) && b in h.sessions && b !in Dropped(e) && Concerned(h, e) != Some(b)
    ensures b in Step(cfg, h, e).sessions && Step(cfg, h, e).sessions[b] == h.sessions[b]
  {
    match e
    case Issued(_, _) =>
    case Challenged(_, _) =>
    case GotChallenge(src, nonce, enrRequest, evicted, draws) => OtherStaysOnChallenge(cfg, h, e, b);
    case GotAuth(a, result, nonce, m, evicted, draws) => OtherStaysOnAuth(cfg, h, e, b);
    case GotMessage(a, nonce, m) => OtherStaysOnMessage(h, a, nonce, m, b);
    case TimedOut(nonce) => OtherStaysOnTimeout(cfg, h, nonce, b);
    case Expired(a, draws) =>
      var h1 := h.(challenges := h.challenges - {a}, pending := Filter(Not(ForAddress(a)), h.pending));
      SendEachInert(cfg, h1, Filter(ForAddress(a), h.pending), draws, 0);
    case Evicted(_) =>
  }

  lemma OtherStaysOnMessage(h: Handler, a: NodeAddress, nonce: Nonce, m: Message, b: NodeAddress)
    requires b in h.sessions && b != a
    ensures b in HandleMessage(h, a, nonce, m).sessions && HandleMessage(h, a, nonce, m).sessions[b] == h.sessions[b]
  {
    match m
    case Undecryptable => FailSessionSessions(h, a, InvalidRemotePacket, true);
    case Undecodable =>
    case RequestMessage(_) =>
    case ResponseMessage(id, body) =>
      HandleResponseSessions(h, a, id, body);
      FailSessionSessions(h.(sessions := h.sessions[a := Session(None)]), a, InvalidRemoteEnr, true);
  }

  lemma OtherStaysOnAuth(cfg: Config, h: Handler, e: Event, b: NodeAddress)
    requires e.GotAuth? && b in h.sessions && b != e.addr && b !in e.evicted
    ensures b in Step(cfg, h, e).sessions && Step(cfg, h, e).sessions[b] == h.sessions[b]
  {
    var a := e.addr;
    var h1 := h.(challenges := h.challenges - {a});
    match e.result
    case BadSignature =>
    case Malformed => FailSessionSessions(h1, a, InvalidRemotePacket, true);
    case InvalidEnr => FailSessionSessions(RemoveExpected(h1, a.socket), a, InvalidRemoteEnr, true);
    case ValidEnr =>
      var h2 := Emit(RemoveExpected(h1, a.socket), Established(a, true));
      NewSessionStores(cfg, h2, a, Session(None), None, e.evicted, e.draws, 0);
      var h3 := NewSession(cfg, h2, a, Session(None), None, e.evicted, e.draws, 0);
      OtherStaysOnMessage(h3, a, e.nonce, e.message, b);
  }

  lemma OtherStaysOnChallenge(cfg: Config, h: Handler, e: Event, b: NodeAddress)
    requires WellFiled(h.active) && e.GotChallenge? && b in h.sessions && b !in e.evicted && Concerned(h, e) != Some(b)
    ensures b in Step(cfg, h, e).sessions && Step(cfg, h, e).sessions[b] == h.sessions[b]
  {
    var i := Find(WithNonce(e.nonce), h.active);
    if i < |h.active| {
      var h1, call := h.(active := RemoveAt(h.active, i)), h.active[i].call;
      FailSessionSessions(Report(h1, call.id, InvalidRemotePacket), call.contact.address, InvalidRemotePacket, true);
      HandshakeOpens(cfg, h1, call, e.enrRequest, e.evicted, e.draws);
    }
  }

  lemma OtherStaysOnTimeout(cfg: Config, h: Handler, nonce: Nonce, b: NodeAddress)
    requires b in h.sessions
    ensures b in HandleTimeout(cfg, h, nonce).sessions && HandleTimeout(cfg, h, nonce).sessions[b] == h.sessions[b]
  {
    var i := Find(WithNonce(nonce), h.active);
    if i < |h.active| {
      var e := h.active[i];
      var h1 := Report(RemoveExpected(h.(active := RemoveAt(h.active, i)), e.addr.socket), e.call.id, Timeout);
      FailSessionSessions(h1, e.call.contact.address, Timeout, false);
    }
  }

  // ----- Challenges

  /** A challenge is sent, expected and recorded unless one to that node is open. */
  lemma ChallengeIsSent(h: Handler, a: NodeAddress, nonce: Nonce, s: SocketAddr)
    requires Positive(h.expected)
    ensures var h1 := SendChallenge(h, a, nonce);
            && a in h1.challenges && (a in h.challenges ==> h1 == h)
            && (a !in h.challenges ==>
                  && h1 == h.(challenges := h.challenges + {a}, sent := h.sent + [(a, Packet(nonce, WhoAreYouPacket))],
                              expected := h1.expected)
                  && Expect(h1.expected, s) == Expect(h.expected, s) + One(s == a.socket))
  {
    ExpectedCounts(h, a.socket, s);
  }

  /** `t` continues `s`. */
  ghost predicate Continues<T>(s: seq<T>, t: seq<T>) {
    |s| <= |t| && forall i :: 0 <= i < |s| ==> t[i] == s[i]
  }

  lemma SendRequestContinues(cfg: Config, h: Handler, r: PendingRequest, d: Draw)
    ensures var h1 := SendRequest(cfg, h, r, d).0;
            Continues(h.active, h1.active) && Continues(h.sent, h1.sent) && h1.out == h.out && h1.issued == h.issued
  {
  }

  lemma {:induction false} SendEachContinues(cfg: Config, h: Handler, rs: seq<PendingRequest>, draws: Draws, k: nat)
    ensures var h1 := SendEach(cfg, h, rs, draws, k);
            Continues(h.active, h1.active) && Continues(h.sent, h1.sent) && Continues(h.out, h1.out)
  {
    if rs != [] { SendEachContinues(cfg, h, rs[..|rs| - 1], draws, k); }
  }

  /** Opening a session sends and reports more, and leaves the request that opened it as it is. */
  lemma NewSessionContinues(cfg: Config, h: Handler, a: NodeAddress, session: Session, nonce: Nonce,
                            evicted: set<NodeAddress>, draws: Draws, k: nat, i: nat)
    requires i < |h.active| && h.active[i].call.packet.nonce == nonce
    ensures var h1 := NewSession(cfg, h, a, session, Some(nonce), evicted, draws, k);
            && Continues(h.sent, h1.sent) && Continues(h.out, h1.out)
            && i < |h1.active| && h1.active[i] == h.active[i]
  {
    if a in h.sessions {
      ReplayedAt(h.active, a, Some(nonce), draws, k, i);
    } else {
      var h0 := h.(sessions := h.sessions[a := session] - evicted, pending := Filter(Not(ForAddress(a)), h.pending));
      SendEachContinues(cfg, h0, Filter(ForAddress(a), h.pending), draws, k);
    }
  }

  lemma AnsweredWithRecord(cfg: Config, h: Handler, call: RequestCall, enrRequest: RequestId, evicted: set<NodeAddress>,
                           draws: Draws)
    requires call.contact.hasEnr
    ensures var h1, a := Handshake(cfg, h, call, enrRequest, evicted, draws), call.contact.address;
            var packet, n := Packet(draws(0).nonce, HandshakePacket), |h.active|;
            && |h.sent| < |h1.sent| && h1.sent[|h.sent|] == (a, packet) && n < |h1.active|
            && h1.active[n] == Active(a, call.(packet := packet, handshakeSent := true, initiating := false))
            && |h.out| < |h1.out| && h1.out[|h.out|] == Established(a, !call.initiating)
  {
    var a, packet, n := call.contact.address, Packet(draws(0).nonce, HandshakePacket), |h.active|;
    var call' := call.(packet := packet, handshakeSent := true, initiating := false);
    var h1 := Emit(Send(h.(active := h.active + [Active(a, call')]), a, packet), Established(a, !call.initiating));
    NewSessionContinues(cfg, h1, a, Session(None), packet.nonce, evicted, draws, 1, n);
  }

  lemma AnsweredWithoutRecord(cfg: Config, h: Handler, call: RequestCall, enrRequest: RequestId,
                              evicted: set<NodeAddress>, draws: Draws)
    requires !call.contact.hasEnr
    ensures var h1, a := Handshake(cfg, h, call, enrRequest, evicted, draws), call.contact.address;
            var packet, n := Packet(draws(0).nonce, HandshakePacket), |h.active|;
            && |h.sent| < |h1.sent| && h1.sent[|h.sent|] == (a, packet) && n < |h1.active|
            && h1.active[n] == Active(a, call.(packet := packet, handshakeSent := true))
            && h1.issued == h.issued[enrRequest := Issue(a, false)]
  {
    var a, packet, n := call.contact.address, Packet(draws(0).nonce, HandshakePacket), |h.active|;
    var call' := call.(packet := packet, handshakeSent := true);
    var h1 := Send(h.(active := h.active + [Active(a, call')]), a, packet);
    var h2 := h1.(issued := h1.issued[enrRequest := Issue(a, false)]);
    var r := PendingRequest(call.contact, Internal(enrRequest), FindNode([0]));
    var h3 := SendRequest(cfg, h2, r, draws(1)).0;
    SendRequestContinues(cfg, h2, r, draws(1));
    NewSessionContinues(cfg, h3, a, Session(Some(enrRequest)), packet.nonce, evicted, draws, 2, n);
    NewSessionIssued(cfg, h3, a, Session(Some(enrRequest)), Some(packet.nonce), evicted, draws, 2);
  }

  /** A challenge to a request of ours is answered at once by a handshake that carries the request. The request stays in
      flight, marked; with a known record the application learns of the session, without one the record is asked for. */
  lemma ChallengeIsAnswered(cfg: Config, h: Handler, call: RequestCall, enrRequest: RequestId,
                            evicted: set<NodeAddress>, draws: Draws)
    ensures var h1, a := Handshake(cfg, h, call, enrRequest, evicted, draws), call.contact.address;
            var packet, n := Packet(draws(0).nonce, HandshakePacket), |h.active|;
            && |h.sent| < |h1.sent| && h1.sent[|h.sent|] == (a, packet)
            && n < |h1.active| && h1.active[n].addr == a
            && h1.active[n].call == call.(packet := packet, handshakeSent := true,
                                          initiating := call.initiating && !call.contact.hasEnr)
            && (call.contact.hasEnr ==> |h.out| < |h1.out| && h1.out[|h.out|] == Established(a, !call.initiating))
            && (!call.contact.hasEnr ==> h1.issued == h.issued[enrRequest := Issue(a, false)])
  {
    if call.contact.hasEnr {
      AnsweredWithRecord(cfg, h, call, enrRequest, evicted, draws);
    } else {
      AnsweredWithoutRecord(cfg, h, call, enrRequest, evicted, draws);
    }
  }

  lemma NewSessionIssued(cfg: Config, h: Handler, a: NodeAddress, session: Session, skip: Option<Nonce>,
                         evicted: set<NodeAddress>, draws: Draws, k: nat)
    ensures NewSession(cfg, h, a, session, skip, evicted, draws, k).issued == h.issued
  {
    if a !in h.sessions {
      var h0 := h.(sessions := h.sessions[a := session] - evicted, pending := Filter(Not(ForAddress(a)), h.pending));
      SendEachIssued(cfg, h0, Filter(ForAddress(a), h.pending), draws, k);
    }
  }

  lemma {:induction false} SendEachIssued(cfg: Config, h: Handler, rs: seq<PendingRequest>, draws: Draws, k: nat)
    ensures SendEach(cfg, h, rs, draws, k).issued == h.issued
  {
    if rs != [] { SendEachIssued(cfg, h, rs[..|rs| - 1], draws, k); }
  }

  /** The request for a node's own record is in flight. */
  ghost predicate AsksRecord(s: seq<Active>, a: NodeAddress, id: RequestId) {
    exists j :: 0 <= j < |s| && s[j].addr == a && s[j].call.id == Internal(id) && s[j].call.body == FindNode([0])
  }

  lemma AskedInFlight(cfg: Config, h: Handler, a: NodeAddress, session: Session, skip: Option<Nonce>,
                      evicted: set<NodeAddress>, draws: Draws, k: nat, id: RequestId)
    requires AsksRecord(h.active, a, id)
    ensures AsksRecord(NewSession(cfg, h, a, session, skip, evicted, draws, k).active, a, id)
  {
    var h1 := NewSession(cfg, h, a, session, skip, evicted, draws, k);
    var j :| 0 <= j < |h.active| && h.active[j].addr == a && h.active[j].call.id == Internal(id) &&
             h.active[j].call.body == FindNode([0]);
    if a in h.sessions {
      ReplayedAt(h.active, a, skip, draws, k, j);
    } else {
      var h0 := h.(sessions := h.sessions[a := session] - evicted, pending := Filter(Not(ForAddress(a)), h.pending));
      SendEachContinues(cfg, h0, Filter(ForAddress(a), h.pending), draws, k);
    }
    assert h1.active[j].call.id == Internal(id);
  }

  lemma FlushedIsSent(cfg: Config, h: Handler, a: NodeAddress, draws: Draws, k: nat, r: PendingRequest) returns (j: nat)
    requires Clear(cfg, h, a) && AllOk(draws, k) && r.contact.address == a && r in h.pending
    ensures var s := SendPendingRequests(cfg, h, a, draws, k).active;
            j < |s| && s[j].addr == a && s[j].call.id == r.id && s[j].call.body == r.body
  {
    QueueIsFlushed(cfg, h, a, draws, k);
    var i :| 0 <= i < |h.pending| && h.pending[i] == r;
    var m := FilterHas(ForAddress(a), h.pending, i);
    j := |h.active| + m;
  }

  lemma AskedWhileQueued(cfg: Config, h: Handler, a: NodeAddress, session: Session, skip: Option<Nonce>,
                         evicted: set<NodeAddress>, draws: Draws, k: nat, r: PendingRequest, id: RequestId)
    requires a !in h.sessions && a !in evicted && a !in h.challenges && a.socket !in cfg.listen && AllOk(draws, k)
    requires r.contact.address == a && r.id == Internal(id) && r.body == FindNode([0]) && r in h.pending
    ensures AsksRecord(NewSession(cfg, h, a, session, skip, evicted, draws, k).active, a, id)
  {
    var j := FlushedIsSent(cfg, h.(sessions := h.sessions[a := session] - evicted), a, draws, k, r);
  }

  /** If nothing is in its way, a handshake with a node whose record is not known leaves the request for that record in
      flight. */
  lemma RecordIsAskedFor(cfg: Config, h: Handler, call: RequestCall, enrRequest: RequestId, evicted: set<NodeAddress>,
                         draws: Draws)
    requires var a := call.contact.address;
             !call.contact.hasEnr && a !in evicted && a !in h.challenges && a.socket !in cfg.listen && AllOk(draws, 0)
    ensures AsksRecord(Handshake(cfg, h, call, enrRequest, evicted, draws).active, call.contact.address, enrRequest)
  {
    var a, packet := call.contact.address, Packet(draws(0).nonce, HandshakePacket);
    var call' := call.(packet := packet, handshakeSent := true);
    var h1 := Send(h.(active := h.active + [Active(a, call')]), a, packet);
    var h2 := h1.(issued := h1.issued[enrRequest := Issue(a, false)]);
    var r := PendingRequest(call.contact, Internal(enrRequest), FindNode([0]));
    var h3, session := SendRequest(cfg, h2, r, draws(1)).0, Session(Some(enrRequest));
    SendDecides(cfg, h2, r, draws(1));
    if a !in h2.sessions && Opening(h2, a) {
      assert h3.pending[|h2.pending|] == r;
      AskedWhileQueued(cfg, h3, a, session, Some(packet.nonce), evicted, draws, 2, r, enrRequest);
    } else {
      assert h3.active[|h2.active|].call.id == Internal(enrRequest);
      AskedInFlight(cfg, h3, a, session, Some(packet.nonce), evicted, draws, 2, enrRequest);
    }
  }

  /** A challenge that names no request changes nothing. One from another socket than the request went to leaves all
      requests in flight. A second one for the same request, or one that cannot be answered, fails the request and then
        its
      node's session. */
  lemma ChallengeIsRefused(cfg: Config, h: Handler, src: SocketAddr, nonce: Nonce, enrRequest: RequestId,
                           evicted: set<NodeAddress>, draws: Draws)
    ensures var h1, i := HandleChallenge(cfg, h, src, nonce, enrRequest, evicted, draws),
            Find(WithNonce(nonce), h.active);
            && (i == |h.active| ==> h1 == h)
            && (i < |h.active| && h.active[i].addr.socket != src ==>
                  h1 == h.(active := h1.active) && multiset(h1.active) == multiset(h.active))
            && (i < |h.active| && h.active[i].addr.socket == src && (h.active[i].call.handshakeSent || !draws(0).ok) ==>
                  h1 == FailRequest(h.(active := RemoveAt(h.active, i)), h.active[i].call, InvalidRemotePacket, true))
  {
    var i := Find(WithNonce(nonce), h.active);
    if i < |h.active| { PutBack(h.active, i); }
  }

  lemma PutBack<T>(s: seq<T>, i: nat)
    requires i < |s|
    ensures multiset(RemoveAt(s, i) + [s[i]]) == multiset(s)
  {
    assert s == s[..i] + [s[i]] + s[i + 1..];
  }

  // ----- Replays

  /** The request at `i` is encrypted again by a replay. */
  ghost predicate Reencrypted(s: seq<Active>, a: NodeAddress, skip: Option<Nonce>, draws: Draws, k: nat, i: nat)
    requires i < |s|
  {
    Replays(s[i], a, skip) && draws(k + |Filter(At(a), s[..i])|).ok
  }

  /** A request encrypted again is a message under the next nonce; nothing else about it or about the others changes. */
  lemma ReplayReplaces(s: seq<Active>, a: NodeAddress, skip: Option<Nonce>, draws: Draws, k: nat, i: nat)
    requires i < |s|
    ensures ReplayIn(s, a, skip, draws, k)[i] ==
            if Reencrypted(s, a, skip, draws, k, i) then
              var packet := Packet(draws(k + |Filter(At(a), s[..i])|).nonce, MessagePacket);
              Active(s[i].addr, s[i].call.(packet := packet))
            else s[i]
  {
    ReplayedAt(s, a, skip, draws, k, i);
  }

  /** A replay sends the new packet of each request encrypted again, in order, and nothing else. */
  lemma {:induction false} ReplaysAreSent(s: seq<Active>, a: NodeAddress, skip: Option<Nonce>, draws: Draws, k: nat)
    returns (at: seq<nat>)
    ensures var t, sends := ReplayIn(s, a, skip, draws, k), ReplaySends(s, a, skip, draws, k);
            && |at| == |sends|
            && (forall j :: 0 <= j < |at| ==> at[j] < |s| && sends[j] == (a, t[at[j]].call.packet))
            && (forall i, j :: 0 <= i < j < |at| ==> at[i] < at[j])
            && (forall i :: 0 <= i < |s| ==> (i in at <==> Reencrypted(s, a, skip, draws, k, i)))
    decreases |s|
  {
    at := [];
    if s != [] {
      var n := |s| - 1;
      at := ReplaysAreSent(s[..n], a, skip, draws, k);
      forall i | 0 <= i < n
        ensures Reencrypted(s, a, skip, draws, k, i) <==> Reencrypted(s[..n], a, skip, draws, k, i)
      {
        assert s[..n][..i] == s[..i];
      }
      if Reencrypted(s, a, skip, draws, k, n) {
        at := at + [n];
      }
    }
  }

  // ----- Counters in every run

  lemma {:induction false} SendEachPositive(cfg: Config, h: Handler, rs: seq<PendingRequest>, draws: Draws, k: nat)
    requires Positive(h.expected)
    ensures Positive(SendEach(cfg, h, rs, draws, k).expected)
  {
    if rs != [] { SendEachPositive(cfg, h, rs[..|rs| - 1], draws, k); }
  }

  lemma NewSessionPositive(cfg: Config, h: Handler, a: NodeAddress, session: Session, skip: Option<Nonce>,
                           evicted: set<NodeAddress>, draws: Draws, k: nat)
    requires Positive(h.expected)
    ensures Positive(NewSession(cfg, h, a, session, skip, evicted, draws, k).expected)
  {
    if a !in h.sessions {
      var h0 := h.(sessions := h.sessions[a := session] - evicted, pending := Filter(Not(ForAddress(a)), h.pending));
      SendEachPositive(cfg, h0, Filter(ForAddress(a), h.pending), draws, k);
    }
  }

  lemma HandshakePositive(cfg: Config, h: Handler, call: RequestCall, enrRequest: RequestId, evicted: set<NodeAddress>,
                          draws: Draws)
    requires Positive(h.expected)
    ensures Positive(Handshake(cfg, h, call, enrRequest, evicted, draws).expected)
  {
    var a, packet := call.contact.address, Packet(draws(0).nonce, HandshakePacket);
    if call.contact.hasEnr {
      var call' := call.(packet := packet, handshakeSent := true, initiating := false);
      var h1 := Emit(Send(h.(active := h.active + [Active(a, call')]), a, packet), Established(a, !call.initiating));
      NewSessionPositive(cfg, h1, a, Session(None), Some(packet.nonce), evicted, draws, 1);
    } else {
      var call' := call.(packet := packet, handshakeSent := true);
      var h1 := Send(h.(active := h.active + [Active(a, call')]), a, packet);
      var h2 := h1.(issued := h1.issued[enrRequest := Issue(a, false)]);
      var h3 := SendRequest(cfg, h2, PendingRequest(call.contact, Internal(enrRequest), FindNode([0])), draws(1)).0;
      NewSessionPositive(cfg, h3, a, Session(Some(enrRequest)), Some(packet.nonce), evicted, draws, 2);
    }
  }

  lemma HandleChallengePositive(cfg: Config, h: Handler, src: SocketAddr, nonce: Nonce, enrRequest: RequestId,
                                evicted: set<NodeAddress>, draws: Draws)
    requires Positive(h.expected)
    ensures Positive(HandleChallenge(cfg, h, src, nonce, enrRequest, evicted, draws).expected)
  {
    var i := Find(WithNonce(nonce), h.active);
    if i < |h.active| {
      var h1, call := h.(active := RemoveAt(h.active, i)), h.active[i].call;
      FailSessionFails(Report(h1, call.id, InvalidRemotePacket), call.contact.address, InvalidRemotePacket, true, 0);
      HandshakePositive(cfg, h1, call, enrRequest, evicted, draws);
    }
  }

  lemma HandleMessagePositive(h: Handler, a: NodeAddress, nonce: Nonce, m: Message)
    requires Positive(h.expected)
    ensures Positive(HandleMessage(h, a, nonce, m).expected)
  {
    MessageDecides(h, a, nonce, m);
    FailSessionFails(h, a, InvalidRemotePacket, true, 0);
    FailSessionFails(h, a, InvalidRemoteEnr, true, 0);
  }

  lemma HandleAuthPositive(cfg: Config, h: Handler, a: NodeAddress, result: Handshaken, nonce: Nonce, m: Message,
                           evicted: set<NodeAddress>, draws: Draws)
    requires Positive(h.expected)
    ensures Positive(HandleAuth(cfg, h, a, result, nonce, m, evicted, draws).expected)
  {
    var h1 := h.(challenges := h.challenges - {a});
    match result
    case BadSignature =>
    case Malformed => FailSessionFails(h1, a, InvalidRemotePacket, true, 0);
    case InvalidEnr => FailSessionFails(RemoveExpected(h1, a.socket), a, InvalidRemoteEnr, true, 0);
    case ValidEnr =>
      var h2 := Emit(RemoveExpected(h1, a.socket), Established(a, true));
      NewSessionPositive(cfg, h2, a, Session(None), None, evicted, draws, 0);
      HandleMessagePositive(NewSession(cfg, h2, a, Session(None), None, evicted, draws, 0), a, nonce, m);
  }

  lemma HandleTimeoutPositive(cfg: Config, h: Handler, nonce: Nonce)
    requires Positive(h.expected)
    ensures Positive(HandleTimeout(cfg, h, nonce).expected)
  {
    var i := Find(WithNonce(nonce), h.active);
    if i < |h.active| {
      var e := h.active[i];
      var h1 := Report(RemoveExpected(h.(active := RemoveAt(h.active, i)), e.addr.socket), e.call.id, Timeout);
      FailSessionFails(h1, e.call.contact.address, Timeout, false, 0);
    }
  }

  lemma StepPositive(cfg: Config, h: Handler, e: Event)
    requires Positive(h.expected)
    ensures Positive(Step(cfg, h, e).expected)
  {
    match e
    case Issued(_, _) =>
    case Challenged(_, _) =>
    case GotChallenge(src, nonce, enrRequest, evicted, draws) =>
      HandleChallengePositive(cfg, h, src, nonce, enrRequest, evicted, draws);
    case GotAuth(a, result, nonce, m, evicted, draws) =>
      HandleAuthPositive(cfg, h, a, result, nonce, m, evicted, draws);
    case GotMessage(a, nonce, m) => HandleMessagePositive(h, a, nonce, m);
    case TimedOut(nonce) => HandleTimeoutPositive(cfg, h, nonce);
    case Expired(a, draws) =>
      var h1 := h.(challenges := h.challenges - {a}, pending := Filter(Not(ForAddress(a)), h.pending));
      SendEachPositive(cfg, h1, Filter(ForAddress(a), h.pending), draws, 0);
    case Evicted(_) =>
  }

  /** In every run a socket has an entry exactly while it is expected. */
  lemma {:induction false} RunPositive(cfg: Config, events: seq<Event>)
    ensures Positive(Run(cfg, events).expected)
  {
    if events != [] {
      RunPositive(cfg, events[..|events| - 1]);
      StepPositive(cfg, Run(cfg, events[..|events| - 1]), events[|events| - 1]);
    }
  }

  // ----- Open challenges

  lemma {:induction false} SendEachChallenges(cfg: Config, h: Handler, rs: seq<PendingRequest>, draws: Draws, k: nat)
    ensures SendEach(cfg, h, rs, draws, k).challenges == h.challenges
  {
    if rs != [] { SendEachChallenges(cfg, h, rs[..|rs| - 1], draws, k); }
  }

  lemma SendPendingChallenges(cfg: Config, h: Handler, a: NodeAddress, draws: Draws, k: nat)
    ensures SendPendingRequests(cfg, h, a, draws, k).challenges == h.challenges
  {
    SendEachChallenges(cfg, h.(pending := Filter(Not(ForAddress(a)), h.pending)), Filter(ForAddress(a), h.pending),
                       draws, k);
  }

  lemma NewSessionChallenges(cfg: Config, h: Handler, a: NodeAddress, session: Session, skip: Option<Nonce>,
                             evicted: set<NodeAddress>, draws: Draws, k: nat)
    ensures NewSession(cfg, h, a, session, skip, evicted, draws, k).challenges == h.challenges
  {
    SendPendingChallenges(cfg, h.(sessions := h.sessions[a := session] - evicted), a, draws, k);
  }

  lemma HandshakeChallenges(cfg: Config, h: Handler, call: RequestCall, enrRequest: RequestId,
                            evicted: set<NodeAddress>, draws: Draws)
    ensures Handshake(cfg, h, call, enrRequest, evicted, draws).challenges == h.challenges
  {
    var a, packet := call.contact.address, Packet(draws(0).nonce, HandshakePacket);
    if call.contact.hasEnr {
      var call' := call.(packet := packet, handshakeSent := true, initiating := false);
      var h1 := Emit(Send(h.(active := h.active + [Active(a, call')]), a, packet), Established(a, !call.initiating));
      NewSessionChallenges(cfg, h1, a, Session(None), Some(packet.nonce), evicted, draws, 1);
    } else {
      var call' := call.(packet := packet, handshakeSent := true);
      var h1 := Send(h.(active := h.active + [Active(a, call')]), a, packet);
      var h2 := h1.(issued := h1.issued[enrRequest := Issue(a, false)]);
      var h3 := SendRequest(cfg, h2, PendingRequest(call.contact, Internal(enrRequest), FindNode([0])), draws(1)).0;
      NewSessionChallenges(cfg, h3, a, Session(Some(enrRequest)), Some(packet.nonce), evicted, draws, 2);
    }
  }

  lemma HandleChallengeChallenges(cfg: Config, h: Handler, src: SocketAddr, nonce: Nonce, enrRequest: RequestId,
                                  evicted: set<NodeAddress>, draws: Draws)
    ensures HandleChallenge(cfg, h, src, nonce, enrRequest, evicted, draws).challenges == h.challenges
  {
    var i := Find(WithNonce(nonce), h.active);
    if i < |h.active| {
      var h1, call := h.(active := RemoveAt(h.active, i)), h.active[i].call;
      FailSessionFrame(Report(h1, call.id, InvalidRemotePacket), call.contact.address, InvalidRemotePacket, true, 0);
      HandshakeChallenges(cfg, h1, call, enrRequest, evicted, draws);
    }
  }

  lemma HandleMessageChallenges(h: Handler, a: NodeAddress, nonce: Nonce, m: Message)
    ensures HandleMessage(h, a, nonce, m).challenges == h.challenges
  {
    match m
    case Undecryptable => FailSessionFrame(h, a, InvalidRemotePacket, true, 0);
    case Undecodable =>
    case RequestMessage(_) =>
    case ResponseMessage(id, body) =>
      FailSessionFrame(h.(sessions := h.sessions[a := Session(None)]), a, InvalidRemoteEnr, true, 0);
  }

  lemma HandleAuthChallenges(cfg: Config, h: Handler, a: NodeAddress, result: Handshaken, nonce: Nonce, m: Message,
                             evicted: set<NodeAddress>, draws: Draws)
    ensures HandleAuth(cfg, h, a, result, nonce, m, evicted, draws).challenges ==
            if result.BadSignature? then h.challenges else h.challenges - {a}
  {
    var h1 := h.(challenges := h.challenges - {a});
    match result
    case BadSignature =>
    case Malformed => FailSessionFrame(h1, a, InvalidRemotePacket, true, 0);
    case InvalidEnr => FailSessionFrame(RemoveExpected(h1, a.socket), a, InvalidRemoteEnr, true, 0);
    case ValidEnr =>
      var h2 := Emit(RemoveExpected(h1, a.socket), Established(a, true));
      NewSessionChallenges(cfg, h2, a, Session(None), None, evicted, draws, 0);
      HandleMessageChallenges(NewSession(cfg, h2, a, Session(None), None, evicted, draws, 0), a, nonce, m);
  }

  lemma HandleTimeoutChallenges(cfg: Config, h: Handler, nonce: Nonce)
    ensures HandleTimeout(cfg, h, nonce).challenges == h.challenges
  {
    var i := Find(WithNonce(nonce), h.active);
    if i < |h.active| {
      var e := h.active[i];
      var h1 := Report(RemoveExpected(h.(active := RemoveAt(h.active, i)), e.addr.socket), e.call.id, Timeout);
      FailSessionFrame(h1, e.call.contact.address, Timeout, false, 0);
    }
  }

  /** A challenge is opened when the application asks for it, and closed by a handshake with a good signature or by its
      timer; nothing else opens or closes one. */
  lemma ChallengesOpenAndClose(cfg: Config, h: Handler, e: Event)
    ensures Step(cfg, h, e).challenges ==
            match e
            case Challenged(a, _) => h.challenges + {a}
            case GotAuth(a, result, _, _, _, _) => if result.BadSignature? then h.challenges else h.challenges - {a}
            case Expired(a, _) => h.challenges - {a}
            case _ => h.challenges
  {
    match e
    case Issued(_, _) =>
    case Challenged(_, _) =>
    case GotChallenge(src, nonce, enrRequest, evicted, draws) =>
      HandleChallengeChallenges(cfg, h, src, nonce, enrRequest, evicted, draws);
    case GotAuth(a, result, nonce, m, evicted, draws) =>
      HandleAuthChallenges(cfg, h, a, result, nonce, m, evicted, draws);
    case GotMessage(a, nonce, m) => HandleMessageChallenges(h, a, nonce, m);
    case TimedOut(nonce) => HandleTimeoutChallenges(cfg, h, nonce);
    case Expired(a, draws) => SendPendingChallenges(cfg, h.(challenges := h.challenges - {a}), a, draws, 0);
    case Evicted(_) =>
  }
}
