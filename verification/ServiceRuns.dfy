/** Handler and service together: requests go down one channel and what the handler reports comes up another. */
module ServiceRuns {
  import opened Wrappers
  import opened HandlerTypes
  import opened ActiveRequestLists
  import opened HandlerSpec
  import opened HandlerRuns
  import opened Lists

  /** `requests` are those the service awaits, with the address each was sent to; `given` are all it ever sent.
      `inbox` has not reached the handler yet, and the first `heard` reports have reached the service. */
  datatype Joint = Joint(
    handler: Handler,
    inbox: seq<PendingRequest>,
    requests: map<RequestId, NodeAddress>,
    given: map<RequestId, NodeAddress>,
    heard: nat)

  /** `Hears` takes the next report; `done` says whether a matching response completes its request for the service. */
  datatype Turn = Sends(request: PendingRequest) | Handles(event: Event) | Hears(done: bool)

  /** The requests awaited after a report. A response from another address than expected drops its request. */
  function After(requests: map<RequestId, NodeAddress>, o: Out, done: bool): map<RequestId, NodeAddress> {
    match o
    case Response(a, id, _) => if id in requests && requests[id] == a && !done then requests else requests - {id}
    case RequestFailed(id, _) => requests - {id}
    case _ => requests
  }

  function TakeTurn(cfg: Config, j: Joint, turn: Turn): Joint {
    match turn
    case Sends(r) =>
      j.(inbox := j.inbox + [r],
         requests := j.requests[r.id.id := r.contact.address],
         given := j.given[r.id.id := r.contact.address])
    case Handles(e) =>
      j.(handler := Step(cfg, j.handler, e), inbox := if e.Issued? && j.inbox != [] then j.inbox[1..] else j.inbox)
    case Hears(done) =>
      if j.heard >= |j.handler.out| then j
      else j.(heard := j.heard + 1, requests := After(j.requests, j.handler.out[j.heard], done))
  }

  function JointRun(cfg: Config, turns: seq<Turn>): Joint {
    if turns == [] then Joint(EMPTY_HANDLER, [], map[], map[], 0)
    else TakeTurn(cfg, JointRun(cfg, turns[..|turns| - 1]), turns[|turns| - 1])
  }

  /** Ids are new to both sides, and requests reach the handler in the order they were sent. */
  ghost predicate Proper(j: Joint, turn: Turn) {
    match turn
    case Sends(r) => r.id.External? && r.id.id !in j.given && r.id.id !in j.handler.issued
    case Handles(e) =>
      && Admissible(j.handler, e)
      && (e.Issued? ==> j.inbox != [] && e.request == j.inbox[0])
      && (e.GotChallenge? ==> e.enrRequest !in j.given)
    case Hears(_) => true
  }

  ghost predicate ProperRun(cfg: Config, turns: seq<Turn>) {
    turns == [] ||
      (ProperRun(cfg, turns[..|turns| - 1]) && Proper(JointRun(cfg, turns[..|turns| - 1]), turns[|turns| - 1]))
  }

  // ----- The handler's part of a run

  function Events(turns: seq<Turn>): seq<Event> {
    if turns == [] then []
    else
      var before := Events(turns[..|turns| - 1]);
      if turns[|turns| - 1].Handles? then before + [turns[|turns| - 1].event] else before
  }

  lemma {:induction false} HandlerPart(cfg: Config, turns: seq<Turn>)
    requires ProperRun(cfg, turns)
    ensures AdmissibleRun(cfg, Events(turns)) && JointRun(cfg, turns).handler == Run(cfg, Events(turns))
  {
    if turns != [] {
      var init, turn := turns[..|turns| - 1], turns[|turns| - 1];
      HandlerPart(cfg, init);
      if turn.Handles? {
        assert Events(turns)[..|Events(turns)| - 1] == Events(init);
      }
    }
  }

  // ----- Which ids a step issues

  lemma {:induction false} SendEachIssues(cfg: Config, h: Handler, rs: seq<PendingRequest>, draws: Draws, k: nat)
    ensures SendEach(cfg, h, rs, draws, k).issued == h.issued
  {
    if rs != [] { SendEachIssues(cfg, h, rs[..|rs| - 1], draws, k); }
  }

  lemma {:induction false} ReportPendingIssues(h: Handler, rs: seq<PendingRequest>, error: RequestError)
    ensures ReportPending(h, rs, error).issued == h.issued
  {
    if rs != [] { ReportPendingIssues(h, rs[..|rs| - 1], error); }
  }

  lemma {:induction false} FailCallsIssues(h: Handler, calls: seq<RequestCall>, socket: SocketAddr, error: RequestError)
    ensures FailCalls(h, calls, socket, error).issued == h.issued
  {
    if calls != [] { FailCallsIssues(h, calls[..|calls| - 1], socket, error); }
  }

  lemma FailSessionIssues(h: Handler, a: NodeAddress, error: RequestError, removeSession: bool)
    ensures FailSession(h, a, error, removeSession).issued == h.issued
  {
    var h0 := if removeSession then h.(sessions := h.sessions - {a}) else h;
    var h1 := h0.(pending := Filter(Not(ForAddress(a)), h0.pending));
    var h2 := ReportPending(h1, Filter(ForAddress(a), h0.pending), error);
    ReportPendingIssues(h1, Filter(ForAddress(a), h0.pending), error);
    FailCallsIssues(h2.(active := Filter(Not(At(a)), h2.active)), CallsAt(h2.active, a), a.socket, error);
  }

  lemma SendPendingIssues(cfg: Config, h: Handler, a: NodeAddress, draws: Draws, k: nat)
    ensures SendPendingRequests(cfg, h, a, draws, k).issued == h.issued
  {
    SendEachIssues(cfg, h.(pending := Filter(Not(ForAddress(a)), h.pending)), Filter(ForAddress(a), h.pending), draws,
                   k);
  }

  lemma NewSessionIssues(cfg: Config, h: Handler, a: NodeAddress, session: Session, skip: Option<Nonce>,
                         evicted: set<NodeAddress>, draws: Draws, k: nat)
    ensures NewSession(cfg, h, a, session, skip, evicted, draws, k).issued == h.issued
  {
    SendPendingIssues(cfg, h.(sessions := h.sessions[a := session] - evicted), a, draws, k);
  }

  /** `after` has the ids of `before`, and possibly a new one of the handler's own. */
  ghost predicate IssuesOnly(before: map<RequestId, Issue>, after: map<RequestId, Issue>, x: RequestId) {
    forall y :: y in after && y != x ==> y in before && before[y] == after[y]
  }

  lemma HandshakeIssues(cfg: Config, h: Handler, call: RequestCall, enrRequest: RequestId, evicted: set<NodeAddress>,
                        draws: Draws)
    ensures IssuesOnly(h.issued, Handshake(cfg, h, call, enrRequest, evicted, draws).issued, enrRequest)
  {
    var a, packet := call.contact.address, Packet(draws(0).nonce, HandshakePacket);
    if call.contact.hasEnr {
      var call' := call.(packet := packet, handshakeSent := true, initiating := false);
      var h1 := Send(h.(active := h.active + [Active(a, call')]), a, packet);
      var h2 := Emit(h1, Established(a, !call.initiating));
      NewSessionIssues(cfg, h2, a, Session(None), Some(packet.nonce), evicted, draws, 1);
    } else {
      var call' := call.(packet := packet, handshakeSent := true);
      var h1 := Send(h.(active := h.active + [Active(a, call')]), a, packet);
      var h2 := h1.(issued := h1.issued[enrRequest := Issue(a, false)]);
      var h3 := SendRequest(cfg, h2, PendingRequest(call.contact, Internal(enrRequest), FindNode([0])), draws(1)).0;
      NewSessionIssues(cfg, h3, a, Session(Some(enrRequest)), Some(packet.nonce), evicted, draws, 2);
    }
  }

  lemma HandleChallengeIssues(cfg: Config, h: Handler, src: SocketAddr, nonce: Nonce, enrRequest: RequestId,
                              evicted: set<NodeAddress>, draws: Draws)
    ensures IssuesOnly(h.issued, HandleChallenge(cfg, h, src, nonce, enrRequest, evicted, draws).issued, enrRequest)
  {
    var i := Find(WithNonce(nonce), h.active);
    if i < |h.active| {
      var e := h.active[i];
      var h1 := h.(active := RemoveAt(h.active, i));
      FailSessionIssues(Report(h1, e.call.id, InvalidRemotePacket), e.call.contact.address, InvalidRemotePacket, true);
      HandshakeIssues(cfg, h1, e.call, enrRequest, evicted, draws);
    }
  }

  lemma HandleMessageIssues(h: Handler, a: NodeAddress, nonce: Nonce, m: Message)
    ensures HandleMessage(h, a, nonce, m).issued == h.issued
  {
    FailSessionIssues(h, a, InvalidRemotePacket, true);
    FailSessionIssues(h.(sessions := h.sessions[a := Session(None)]), a, InvalidRemoteEnr, true);
  }

  lemma HandleAuthIssues(cfg: Config, h: Handler, a: NodeAddress, result: Handshaken, nonce: Nonce, m: Message,
                         evicted: set<NodeAddress>, draws: Draws)
    ensures HandleAuth(cfg, h, a, result, nonce, m, evicted, draws).issued == h.issued
  {
    var h1 := h.(challenges := h.challenges - {a});
    var h2 := Emit(RemoveExpected(h1, a.socket), Established(a, true));
    FailSessionIssues(h1, a, InvalidRemotePacket, true);
    FailSessionIssues(RemoveExpected(h1, a.socket), a, InvalidRemoteEnr, true);
    NewSessionIssues(cfg, h2, a, Session(None), None, evicted, draws, 0);
    HandleMessageIssues(NewSession(cfg, h2, a, Session(None), None, evicted, draws, 0), a, nonce, m);
  }

  lemma HandleTimeoutIssues(cfg: Config, h: Handler, nonce: Nonce)
    ensures HandleTimeout(cfg, h, nonce).issued == h.issued
  {
    var i := Find(WithNonce(nonce), h.active);
    if i < |h.active| {
      var e := h.active[i];
      var h1 := RemoveExpected(h.(active := RemoveAt(h.active, i)), e.addr.socket);
      FailSessionIssues(Report(h1, e.call.id, Timeout), e.call.contact.address, Timeout, false);
    }
  }

  /** The id an event may issue. */
  function NewId(e: Event): Option<RequestId> {
    match e
    case Issued(r, _) => Some(r.id.id)
    case GotChallenge(_, _, enrRequest, _, _) => Some(enrRequest)
    case _ => None
  }

  lemma StepIssues(cfg: Config, h: Handler, e: Event)
    ensures var issued := Step(cfg, h, e).issued;
            && (NewId(e).None? ==> issued == h.issued)
            && (NewId(e).Some? ==> IssuesOnly(h.issued, issued, NewId(e).value))
            && (e.Issued? ==> issued == h.issued[e.request.id.id := Issue(e.request.contact.address, true)])
  {
    match e
    case Issued(r, draws) =>
    case Challenged(a, nonce) =>
    case GotChallenge(src, nonce, enrRequest, evicted, draws) =>
      HandleChallengeIssues(cfg, h, src, nonce, enrRequest, evicted, draws);
    case GotAuth(a, result, nonce, m, evicted, draws) => HandleAuthIssues(cfg, h, a, result, nonce, m, evicted, draws);
    case GotMessage(a, nonce, m) => HandleMessageIssues(h, a, nonce, m);
    case TimedOut(nonce) => HandleTimeoutIssues(cfg, h, nonce);
    case Expired(a, draws) => SendPendingIssues(cfg, h.(challenges := h.challenges - {a}), a, draws, 0);
    case Evicted(evicted) =>
  }

  // ----- Both sides agree on addresses

  ghost predicate Agree(j: Joint) {
    && (forall x :: x in j.requests ==> x in j.given && j.requests[x] == j.given[x])
    && (forall i :: 0 <= i < |j.inbox| ==>
          j.inbox[i].id.id in j.given && j.inbox[i].contact.address == j.given[j.inbox[i].id.id])
    && (forall x :: x in j.handler.issued && x in j.given ==> j.handler.issued[x].addr == j.given[x])
  }

  lemma HandlesAgrees(cfg: Config, j: Joint, e: Event)
    requires Agree(j) && Proper(j, Handles(e))
    ensures Agree(TakeTurn(cfg, j, Handles(e)))
  {
    StepIssues(cfg, j.handler, e);
  }

  lemma {:induction false} RunAgrees(cfg: Config, turns: seq<Turn>)
    requires ProperRun(cfg, turns)
    ensures Agree(JointRun(cfg, turns))
  {
    if turns != [] {
      var init, turn := turns[..|turns| - 1], turns[|turns| - 1];
      RunAgrees(cfg, init);
      if turn.Handles? { HandlesAgrees(cfg, JointRun(cfg, init), turn.event); }
    }
  }

  /** Whenever a response the service awaits is next, it comes from the address the request was sent to. */
  lemma ResponsesMatch(cfg: Config, turns: seq<Turn>)
    requires ProperRun(cfg, turns) && JointRun(cfg, turns).heard < |JointRun(cfg, turns).handler.out|
    ensures var j := JointRun(cfg, turns);
            var o := j.handler.out[j.heard];
            o.Response? && o.id in j.requests ==> j.requests[o.id] == o.addr
  {
    HandlerPart(cfg, turns);
    RunAgrees(cfg, turns);
    ReportsMatchRequests(cfg, Events(turns), JointRun(cfg, turns).heard);
  }
}
