/** The session handler as a step machine over one list of requests in flight and one list of queued requests. */
module HandlerSpec {
  import opened Wrappers
  import opened HandlerTypes
  import opened ActiveRequestLists
  import opened Lists

  /** What the handler tells the application. `last` marks the response that completes its request. */
  datatype Out =
    | Established(addr: NodeAddress, incoming: bool)
    | Request(addr: NodeAddress)
    | Response(addr: NodeAddress, id: RequestId, last: bool)
    | WhoAreYou(addr: NodeAddress, nonce: Nonce)
    | RequestFailed(id: RequestId, error: RequestError)

  datatype Session = Session(awaitingEnr: Option<RequestId>)

  /** Every id ever issued: where its request goes and whether the application issued it. */
  datatype Issue = Issue(addr: NodeAddress, external: bool)

  datatype Handler = Handler(
    active: seq<Active>,
    pending: seq<PendingRequest>,
    expected: map<SocketAddr, nat>,
    challenges: set<NodeAddress>,
    sessions: map<NodeAddress, Session>,
    out: seq<Out>,
    sent: seq<(NodeAddress, Packet)>,
    issued: map<RequestId, Issue>)

  datatype Config = Config(listen: set<SocketAddr>, retries: nat)

  /** The nonce of the next packet, and whether building that packet succeeds. */
  datatype Draw = Draw(nonce: Nonce, ok: bool)
  type Draws = nat -> Draw

  // ----- Expected responses

  function AddExpected(h: Handler, socket: SocketAddr): Handler {
    h.(expected := h.expected[socket := (if socket in h.expected then h.expected[socket] else 0) + 1])
  }

  function RemoveExpected(h: Handler, socket: SocketAddr): Handler {
    if socket !in h.expected then h
    else
      var count := if h.expected[socket] == 0 then 0 else h.expected[socket] - 1;
      if count == 0 then h.(expected := h.expected - {socket}) else h.(expected := h.expected[socket := count])
  }

  /** Whether a packet from this socket passes the filter as expected. */
  predicate Permitted(h: Handler, socket: SocketAddr) {
    socket in h.expected
  }

  // ----- Sending

  function Initiates(a: NodeAddress): Active -> bool {
    (e: Active) => e.addr == a && e.call.initiating
  }

  predicate AwaitingSession(h: Handler, a: NodeAddress) {
    a !in h.sessions && Find(Initiates(a), h.active) < |h.active|
  }

  function Send(h: Handler, a: NodeAddress, p: Packet): Handler {
    h.(sent := h.sent + [(a, p)])
  }

  function Emit(h: Handler, o: Out): Handler {
    h.(out := h.out + [o])
  }

  function SendRequest(cfg: Config, h: Handler, r: PendingRequest, d: Draw): (Handler, Option<RequestError>) {
    var a := r.contact.address;
    if a.socket in cfg.listen then (h, Some(SelfRequest))
    else if a in h.challenges || AwaitingSession(h, a) then (h.(pending := h.pending + [r]), None)
    else if !d.ok then (h, Some(NotEncrypted))
    else
      var initiating := a !in h.sessions;
      var packet := Packet(d.nonce, if initiating then RandomPacket else MessagePacket);
      var call := RequestCall(r.contact, packet, r.id, r.body, false, 1, None, initiating);
      var h1 := Send(AddExpected(h, a.socket), a, packet);
      (h1.(active := h1.active + [Active(a, call)]), None)
  }

  /** Failures are reported for requests of the application only. */
  function Report(h: Handler, id: HandlerReqId, error: RequestError): Handler {
    if id.External? then Emit(h, RequestFailed(id.id, error)) else h
  }

  function SendOrReport(cfg: Config, h: Handler, r: PendingRequest, d: Draw): Handler {
    var (h1, error) := SendRequest(cfg, h, r, d);
    if error.Some? then Report(h1, r.id, error.value) else h1
  }

  function SendEach(cfg: Config, h: Handler, rs: seq<PendingRequest>, draws: Draws, k: nat): Handler {
    if rs == [] then h
    else SendOrReport(cfg, SendEach(cfg, h, rs[..|rs| - 1], draws, k), rs[|rs| - 1], draws(k + |rs| - 1))
  }

  function SendPendingRequests(cfg: Config, h: Handler, a: NodeAddress, draws: Draws, k: nat): Handler {
    SendEach(cfg, h.(pending := Filter(Not(ForAddress(a)), h.pending)), Filter(ForAddress(a), h.pending), draws, k)
  }

  // ----- Failing

  function ReportPending(h: Handler, rs: seq<PendingRequest>, error: RequestError): Handler {
    if rs == [] then h else Report(ReportPending(h, rs[..|rs| - 1], error), rs[|rs| - 1].id, error)
  }

  function FailCalls(h: Handler, calls: seq<RequestCall>, socket: SocketAddr, error: RequestError): Handler {
    if calls == [] then h
    else RemoveExpected(Report(FailCalls(h, calls[..|calls| - 1], socket, error), calls[|calls| - 1].id, error), socket)
  }

  function FailSession(h: Handler, a: NodeAddress, error: RequestError, removeSession: bool): Handler {
    var h0 := if removeSession then h.(sessions := h.sessions - {a}) else h;
    var h1 := ReportPending(h0.(pending := Filter(Not(ForAddress(a)), h0.pending)), Filter(ForAddress(a), h0.pending),
                            error);
    FailCalls(h1.(active := Filter(Not(At(a)), h1.active)), CallsAt(h1.active, a), a.socket, error)
  }

  function FailRequest(h: Handler, call: RequestCall, error: RequestError, removeSession: bool): Handler {
    FailSession(Report(h, call.id, error), call.contact.address, error, removeSession)
  }

  // ----- Sessions

  predicate Replays(e: Active, a: NodeAddress, skip: Option<Nonce>) {
    e.addr == a && skip != Some(e.call.packet.nonce)
  }

  function Replayed(e: Active, d: Draw): Active {
    if d.ok then Updated(e, Packet(d.nonce, MessagePacket)) else e
  }

  /** The requests to `a`, except the one that established the session, encrypted anew. */
  function ReplayIn(s: seq<Active>, a: NodeAddress, skip: Option<Nonce>, draws: Draws, k: nat): (r: seq<Active>)
    ensures |r| == |s|
  {
    if s == [] then []
    else
      var init, e := s[..|s| - 1], s[|s| - 1];
      ReplayIn(init, a, skip, draws, k) +
        [if Replays(e, a, skip) then Replayed(e, draws(k + |Filter(At(a), init)|)) else e]
  }

  function ReplaySends(s: seq<Active>, a: NodeAddress, skip: Option<Nonce>, draws: Draws, k: nat)
    : seq<(NodeAddress, Packet)>
  {
    if s == [] then []
    else
      var init, e := s[..|s| - 1], s[|s| - 1];
      var d := draws(k + |Filter(At(a), init)|);
      ReplaySends(init, a, skip, draws, k) +
        if Replays(e, a, skip) && d.ok then [(a, Packet(d.nonce, MessagePacket))] else []
  }

  function ReplayActive(h: Handler, a: NodeAddress, skip: Option<Nonce>, draws: Draws, k: nat): Handler {
    h.(active := ReplayIn(h.active, a, skip, draws, k), sent := h.sent + ReplaySends(h.active, a, skip, draws, k))
  }

  /** `evicted` are the sessions the cache drops to stay within its capacity. */
  function NewSession(cfg: Config, h: Handler, a: NodeAddress, session: Session, skip: Option<Nonce>,
                      evicted: set<NodeAddress>, draws: Draws, k: nat): Handler
  {
    if a in h.sessions then ReplayActive(h.(sessions := h.sessions[a := session]), a, skip, draws, k)
    else SendPendingRequests(cfg, h.(sessions := h.sessions[a := session] - evicted), a, draws, k)
  }

  function SendChallenge(h: Handler, a: NodeAddress, nonce: Nonce): Handler {
    if a in h.challenges then h
    else
      var h1 := Send(AddExpected(h, a.socket), a, Packet(nonce, WhoAreYouPacket));
      h1.(challenges := h1.challenges + {a})
  }

  // ----- Incoming packets

  /** A WHOAREYOU packet: the request it names is sent again inside a handshake. `draws(0)` is the handshake packet. */
  function HandleChallenge(cfg: Config, h: Handler, src: SocketAddr, nonce: Nonce, enrRequest: RequestId,
                           evicted: set<NodeAddress>, draws: Draws): Handler
  {
    var i := Find(WithNonce(nonce), h.active);
    if i == |h.active| then h
    else
      var e := h.active[i];
      var h1 := h.(active := RemoveAt(h.active, i));
      if e.addr.socket != src then h1.(active := h1.active + [e])
      else if e.call.handshakeSent || !draws(0).ok then FailRequest(h1, e.call, InvalidRemotePacket, true)
      else Handshake(cfg, h1, e.call, enrRequest, evicted, draws)
  }

  function Handshake(cfg: Config, h: Handler, call: RequestCall, enrRequest: RequestId, evicted: set<NodeAddress>,
                     draws: Draws): Handler
  {
    var a, packet := call.contact.address, Packet(draws(0).nonce, HandshakePacket);
    if call.contact.hasEnr then
      var call' := call.(packet := packet, handshakeSent := true, initiating := false);
      var h1 := Send(h.(active := h.active + [Active(a, call')]), a, packet);
      NewSession(cfg, Emit(h1, Established(a, !call.initiating)), a, Session(None), Some(packet.nonce), evicted, draws,
                 1)
    else
      var call' := call.(packet := packet, handshakeSent := true);
      var h1 := Send(h.(active := h.active + [Active(a, call')]), a, packet);
      var h2 := h1.(issued := h1.issued[enrRequest := Issue(a, false)]);
      var h3 := SendRequest(cfg, h2, PendingRequest(call.contact, Internal(enrRequest), FindNode([0])), draws(1)).0;
      NewSession(cfg, h3, a, Session(Some(enrRequest)), Some(packet.nonce), evicted, draws, 2)
  }

  /** The rest of a response once its request is found. */
  datatype ResponseBody = Nodes(total: nat, validEnr: bool) | OtherResponse

  /** The contents of a packet under the session keys. */
  datatype Message =
    | Undecryptable
    | Undecodable
    | RequestMessage(ping: bool)
    | ResponseMessage(id: RequestId, body: ResponseBody)

  /** How many responses are still to come, and whether this one was the last. */
  function NextRemaining(remaining: Option<nat>, body: ResponseBody): (Option<nat>, bool) {
    if body.Nodes? && body.total > 1 then
      if remaining.Some? then
        if remaining.value <= 1 then (remaining, true) else (Some(remaining.value - 1), false)
      else (Some(body.total - 1), false)
    else (remaining, true)
  }

  function WithRemaining(call: RequestCall, remaining: Option<nat>): RequestCall {
    call.(remaining := remaining)
  }

  function HandleResponse(h: Handler, a: NodeAddress, id: RequestId, body: ResponseBody): Handler {
    var i := Find(IdAt(a, id), h.active);
    if i == |h.active| then h
    else
      var call := h.active[i].call;
      var h1 := h.(active := RemoveAt(h.active, i));
      var (remaining, last) := NextRemaining(call.remaining, body);
      if last then Emit(RemoveExpected(h1, a.socket), Response(a, id, true))
      else Emit(h1.(active := h1.active + [Active(a, WithRemaining(call, remaining))]), Response(a, id, false))
  }

  function HandleMessage(h: Handler, a: NodeAddress, nonce: Nonce, m: Message): Handler {
    if a !in h.sessions then Emit(h, WhoAreYou(a, nonce))
    else
      match m
      case Undecodable => h
      case Undecryptable =>
        var h1 := FailSession(h, a, InvalidRemotePacket, true);
        if a in h1.challenges then h1 else Emit(h1, WhoAreYou(a, nonce))
      case RequestMessage(_) => Emit(h, Request(a))
      case ResponseMessage(id, body) =>
        if h.sessions[a].awaitingEnr == Some(id) then
          var h1 := h.(sessions := h.sessions[a := Session(None)]);
          if body.Nodes? && body.validEnr then Emit(h1, Established(a, false))
          else FailSession(h1, a, InvalidRemoteEnr, true)
        else HandleResponse(h, a, id, body)
  }

  datatype Handshaken = ValidEnr | InvalidEnr | BadSignature | Malformed

  /** A handshake packet answering our challenge. */
  function HandleAuth(cfg: Config, h: Handler, a: NodeAddress, result: Handshaken, nonce: Nonce, m: Message,
                      evicted: set<NodeAddress>, draws: Draws): Handler
  {
    if a !in h.challenges then h
    else
      var h1 := h.(challenges := h.challenges - {a});
      match result
      case BadSignature => h
      case Malformed => FailSession(h1, a, InvalidRemotePacket, true)
      case ValidEnr =>
        var h2 := Emit(RemoveExpected(h1, a.socket), Established(a, true));
        HandleMessage(NewSession(cfg, h2, a, Session(None), None, evicted, draws, 0), a, nonce, m)
      case InvalidEnr =>
        var h2 := FailSession(RemoveExpected(h1, a.socket), a, InvalidRemoteEnr, true);
        if m.RequestMessage? && m.ping then Emit(h2, Request(a)) else h2
  }

  // ----- Timers

  function Retried(e: Active): Active {
    e.(call := e.call.(retries := e.call.retries + 1))
  }

  function HandleTimeout(cfg: Config, h: Handler, nonce: Nonce): Handler {
    var i := Find(WithNonce(nonce), h.active);
    if i == |h.active| then h
    else
      var e := h.active[i];
      var h1 := h.(active := RemoveAt(h.active, i));
      if e.call.retries >= cfg.retries then FailRequest(RemoveExpected(h1, e.addr.socket), e.call, Timeout, false)
      else
        var h2 := Send(h1, e.addr, e.call.packet);
        h2.(active := h2.active + [Retried(e)])
  }

  function ChallengeExpired(cfg: Config, h: Handler, a: NodeAddress, draws: Draws): Handler {
    SendPendingRequests(cfg, h.(challenges := h.challenges - {a}), a, draws, 0)
  }

  function EvictSessions(h: Handler, evicted: set<NodeAddress>): Handler {
    h.(sessions := h.sessions - evicted)
  }

  // ----- Runs

  datatype Event =
    | Issued(request: PendingRequest, draws: Draws)
    | Challenged(addr: NodeAddress, nonce: Nonce)
    | GotChallenge(src: SocketAddr, nonce: Nonce, enrRequest: RequestId, evicted: set<NodeAddress>, draws: Draws)
    | GotAuth(addr: NodeAddress, result: Handshaken, nonce: Nonce, message: Message, evicted: set<NodeAddress>,
              draws: Draws)
    | GotMessage(addr: NodeAddress, nonce: Nonce, message: Message)
    | TimedOut(nonce: Nonce)
    | Expired(addr: NodeAddress, draws: Draws)
    | Evicted(evicted: set<NodeAddress>)

  function Step(cfg: Config, h: Handler, e: Event): Handler {
    match e
    case Issued(r, draws) =>
      SendOrReport(cfg, h.(issued := h.issued[r.id.id := Issue(r.contact.address, true)]), r, draws(0))
    case Challenged(a, nonce) => SendChallenge(h, a, nonce)
    case GotChallenge(src, nonce, enrRequest, evicted, draws) =>
      HandleChallenge(cfg, h, src, nonce, enrRequest, evicted, draws)
    case GotAuth(a, result, nonce, m, evicted, draws) => HandleAuth(cfg, h, a, result, nonce, m, evicted, draws)
    case GotMessage(a, nonce, m) => HandleMessage(h, a, nonce, m)
    case TimedOut(nonce) => HandleTimeout(cfg, h, nonce)
    case Expired(a, draws) => ChallengeExpired(cfg, h, a, draws)
    case Evicted(evicted) => EvictSessions(h, evicted)
  }

  const EMPTY_HANDLER := Handler([], [], map[], {}, map[], [], [], map[])
}
