/** Awaited packets are expected, nonces in flight are distinct, and at most one request per address opens a session. */
module HandlerCover {
  import opened Wrappers
  import opened HandlerTypes
  import opened HandlerSpec
  import opened ActiveRequestLists
  import opened HandlerBooks
  import opened Ledgers
  import opened Lists

  function AtSocket(s: SocketAddr): Active -> bool {
    (e: Active) => e.addr.socket == s
  }

  function ChallengesAt(challenges: set<NodeAddress>, s: SocketAddr): set<NodeAddress> {
    set a | a in challenges && a.socket == s
  }

  function Expect(expected: map<SocketAddr, nat>, s: SocketAddr): nat {
    if s in expected then expected[s] else 0
  }

  /** Socket `s` is expected for each of its requests in flight and live challenges, and `owed` times more. */
  ghost predicate Covered(h: Handler, s: SocketAddr, owed: nat) {
    Expect(h.expected, s) >= CountIf(AtSocket(s), h.active) + |ChallengesAt(h.challenges, s)| + owed
  }

  ghost predicate OneOpener(h: Handler, b: NodeAddress) {
    CountIf(Initiates(b), h.active) <= 1
  }

  /** The counts at one socket and one address. */
  ghost predicate Counted(h: Handler, s: SocketAddr, owed: nat, b: NodeAddress) {
    Covered(h, s, owed) && OneOpener(h, b)
  }

  function One(c: bool): nat {
    if c then 1 else 0
  }

  // ----- Primitive changes

  lemma AddExpects(h: Handler, socket: SocketAddr, s: SocketAddr)
    ensures Expect(AddExpected(h, socket).expected, s) == Expect(h.expected, s) + One(s == socket)
  {
  }

  lemma RemoveExpects(h: Handler, socket: SocketAddr, s: SocketAddr)
    ensures Expect(RemoveExpected(h, socket).expected, s) >= Expect(h.expected, s) - One(s == socket)
  {
  }

  lemma DropChallenge(challenges: set<NodeAddress>, a: NodeAddress, s: SocketAddr)
    ensures |ChallengesAt(challenges - {a}, s)| == |ChallengesAt(challenges, s)| - One(a in challenges && a.socket == s)
  {
    var all := ChallengesAt(challenges, s);
    if a in challenges && a.socket == s {
      assert ChallengesAt(challenges - {a}, s) == all - {a};
    } else {
      assert ChallengesAt(challenges - {a}, s) == all;
    }
  }

  lemma AddChallenge(challenges: set<NodeAddress>, a: NodeAddress, s: SocketAddr)
    requires a !in challenges
    ensures |ChallengesAt(challenges + {a}, s)| == |ChallengesAt(challenges, s)| + One(a.socket == s)
  {
    DropChallenge(challenges + {a}, a, s);
    assert challenges + {a} - {a} == challenges;
  }

  /** One request in flight is taken off the list. */
  lemma RemoveCounts(h: Handler, i: nat, s: SocketAddr, b: NodeAddress)
    requires Counted(h, s, 0, b) && i < |h.active|
    ensures Counted(h.(active := RemoveAt(h.active, i)), s, One(h.active[i].addr.socket == s), b)
    ensures Initiates(b)(h.active[i]) ==> CountIf(Initiates(b), RemoveAt(h.active, i)) == 0
  {
    CountRemoveAt(AtSocket(s), h.active, i);
    CountRemoveAt(Initiates(b), h.active, i);
  }

  lemma AppendCounts(h: Handler, e: Active, s: SocketAddr, b: NodeAddress)
    requires Counted(h, s, One(e.addr.socket == s), b) && (Initiates(b)(e) ==> CountIf(Initiates(b), h.active) == 0)
    ensures Counted(h.(active := h.active + [e]), s, 0, b)
  {
    CountAppend(AtSocket(s), h.active, e);
    CountAppend(Initiates(b), h.active, e);
  }

  // ----- Sending

  lemma SendRequestCounts(cfg: Config, h: Handler, r: PendingRequest, d: Draw, s: SocketAddr, b: NodeAddress)
    requires Counted(h, s, 0, b)
    ensures Counted(SendRequest(cfg, h, r, d).0, s, 0, b)
  {
    var a := r.contact.address;
    var (h1, error) := SendRequest(cfg, h, r, d);
    if |h1.active| > |h.active| {
      AddExpects(h, a.socket, s);
      CountPositive(Initiates(a), h.active);
      CountAppend(AtSocket(s), h.active, h1.active[|h.active|]);
      CountAppend(Initiates(b), h.active, h1.active[|h.active|]);
    }
  }

  lemma {:induction false} SendEachCounts(cfg: Config, h: Handler, rs: seq<PendingRequest>, draws: Draws, k: nat,
                                          s: SocketAddr, b: NodeAddress)
    requires Counted(h, s, 0, b)
    ensures Counted(SendEach(cfg, h, rs, draws, k), s, 0, b)
  {
    if rs != [] {
      var init, r := rs[..|rs| - 1], rs[|rs| - 1];
      SendEachCounts(cfg, h, init, draws, k, s, b);
      SendRequestCounts(cfg, SendEach(cfg, h, init, draws, k), r, draws(k + |rs| - 1), s, b);
    }
  }

  lemma SendPendingRequestsCounts(cfg: Config, h: Handler, a: NodeAddress, draws: Draws, k: nat, s: SocketAddr,
                                  b: NodeAddress)
    requires Counted(h, s, 0, b)
    ensures Counted(SendPendingRequests(cfg, h, a, draws, k), s, 0, b)
  {
    SendEachCounts(cfg, h.(pending := Filter(Not(ForAddress(a)), h.pending)), Filter(ForAddress(a), h.pending), draws,
                   k, s, b);
  }

  // ----- Failing

  /** Failing calls touches events and counters only, and lowers the counter of their socket by at most their number. */
  lemma {:induction false} FailCallsFrame(h: Handler, calls: seq<RequestCall>, socket: SocketAddr, error: RequestError,
                                          s: SocketAddr)
    ensures var h1 := FailCalls(h, calls, socket, error);
            && h1 == h.(out := h1.out, expected := h1.expected)
            && Expect(h1.expected, s) >= Expect(h.expected, s) - if s == socket then |calls| else 0
  {
    if calls != [] {
      var init := calls[..|calls| - 1];
      FailCallsFrame(h, init, socket, error, s);
      RemoveExpects(Report(FailCalls(h, init, socket, error), calls[|calls| - 1].id, error), socket, s);
    }
  }

  lemma FailSessionFrame(h: Handler, a: NodeAddress, error: RequestError, removeSession: bool, s: SocketAddr)
    ensures var h1 := FailSession(h, a, error, removeSession);
            && h1.active == Filter(Not(At(a)), h.active)
            && h1.challenges == h.challenges && h1.issued == h.issued
            && Expect(h1.expected, s) >= Expect(h.expected, s) - if s == a.socket then CountIf(At(a), h.active) else 0
  {
    var h0 := if removeSession then h.(sessions := h.sessions - {a}) else h;
    var h1 := h0.(pending := Filter(Not(ForAddress(a)), h0.pending));
    ReportPendingFrame(h1, Filter(ForAddress(a), h0.pending), error);
    var h2 := ReportPending(h1, Filter(ForAddress(a), h0.pending), error);
    FailCallsFrame(h2.(active := Filter(Not(At(a)), h2.active)), CallsAt(h2.active, a), a.socket, error, s);
    FilterCount(At(a), h.active);
  }

  lemma FailSessionCounts(h: Handler, a: NodeAddress, error: RequestError, removeSession: bool, s: SocketAddr,
                          b: NodeAddress)
    requires Counted(h, s, 0, b)
    ensures Counted(FailSession(h, a, error, removeSession), s, 0, b)
  {
    FailSessionFrame(h, a, error, removeSession, s);
    CountSplit(Initiates(b), At(a), h.active);
    CountSplit(AtSocket(s), At(a), h.active);
    var at := Filter(At(a), h.active);
    FilterCount(At(a), h.active);
    if s == a.socket {
      forall i | 0 <= i < |at| ensures AtSocket(s)(at[i]) {
        var j := FilterAt(At(a), h.active, i);
      }
      CountAll(AtSocket(s), at);
    }
  }

  /** The failed request's own claim on the counter is not returned on every path. */
  lemma FailRequestCounts(h: Handler, call: RequestCall, error: RequestError, removeSession: bool, s: SocketAddr,
                          owed: nat, b: NodeAddress)
    requires Counted(h, s, owed, b)
    ensures Counted(FailRequest(h, call, error, removeSession), s, 0, b)
  {
    var h1 := Report(h, call.id, error);
    assert Counted(h1, s, 0, b);
    FailSessionCounts(h1, call.contact.address, error, removeSession, s, b);
  }

  // ----- Sessions

  lemma ReplayActiveCounts(h: Handler, a: NodeAddress, skip: Option<Nonce>, draws: Draws, k: nat, s: SocketAddr,
                           b: NodeAddress)
    requires Counted(h, s, 0, b)
    ensures Counted(ReplayActive(h, a, skip, draws, k), s, 0, b)
  {
    var t := ReplayIn(h.active, a, skip, draws, k);
    forall i | 0 <= i < |t|
      ensures t[i].addr == h.active[i].addr && t[i].call.initiating == h.active[i].call.initiating
    {
      ReplayedAt(h.active, a, skip, draws, k, i);
    }
    CountPointwise(AtSocket(s), h.active, t);
    CountPointwise(Initiates(b), h.active, t);
  }

  lemma NewSessionCounts(cfg: Config, h: Handler, a: NodeAddress, session: Session, skip: Option<Nonce>,
                         evicted: set<NodeAddress>, draws: Draws, k: nat, s: SocketAddr, b: NodeAddress)
    requires Counted(h, s, 0, b)
    ensures Counted(NewSession(cfg, h, a, session, skip, evicted, draws, k), s, 0, b)
  {
    if a in h.sessions {
      ReplayActiveCounts(h.(sessions := h.sessions[a := session]), a, skip, draws, k, s, b);
    } else {
      SendPendingRequestsCounts(cfg, h.(sessions := h.sessions[a := session] - evicted), a, draws, k, s, b);
    }
  }

  lemma SendChallengeCounts(h: Handler, a: NodeAddress, nonce: Nonce, s: SocketAddr, b: NodeAddress)
    requires Counted(h, s, 0, b)
    ensures Counted(SendChallenge(h, a, nonce), s, 0, b)
  {
    if a !in h.challenges {
      AddExpects(h, a.socket, s);
      AddChallenge(h.challenges, a, s);
    }
  }

  // ----- Packets and timers

  lemma HandshakeCounts(cfg: Config, h: Handler, call: RequestCall, enrRequest: RequestId, evicted: set<NodeAddress>,
                        draws: Draws, s: SocketAddr, b: NodeAddress)
    requires Counted(h, s, One(call.contact.address.socket == s), b)
    requires call.initiating && call.contact.address == b ==> CountIf(Initiates(b), h.active) == 0
    ensures Counted(Handshake(cfg, h, call, enrRequest, evicted, draws), s, 0, b)
  {
    var a, packet := call.contact.address, Packet(draws(0).nonce, HandshakePacket);
    if call.contact.hasEnr {
      var call' := call.(packet := packet, handshakeSent := true, initiating := false);
      AppendCounts(h, Active(a, call'), s, b);
      var h1 := Send(h.(active := h.active + [Active(a, call')]), a, packet);
      NewSessionCounts(cfg, Emit(h1, Established(a, !call.initiating)), a, Session(None), Some(packet.nonce), evicted,
                       draws, 1, s, b);
    } else {
      var call' := call.(packet := packet, handshakeSent := true);
      AppendCounts(h, Active(a, call'), s, b);
      var h1 := Send(h.(active := h.active + [Active(a, call')]), a, packet);
      var h2 := h1.(issued := h1.issued[enrRequest := Issue(a, false)]);
      var r := PendingRequest(call.contact, Internal(enrRequest), FindNode([0]));
      SendRequestCounts(cfg, h2, r, draws(1), s, b);
      NewSessionCounts(cfg, SendRequest(cfg, h2, r, draws(1)).0, a, Session(Some(enrRequest)), Some(packet.nonce),
                       evicted, draws, 2, s, b);
    }
  }

  lemma HandleChallengeCounts(cfg: Config, h: Handler, src: SocketAddr, nonce: Nonce, enrRequest: RequestId,
                              evicted: set<NodeAddress>, draws: Draws, s: SocketAddr, b: NodeAddress)
    requires Counted(h, s, 0, b) && WellFiled(h.active)
    ensures Counted(HandleChallenge(cfg, h, src, nonce, enrRequest, evicted, draws), s, 0, b)
  {
    var i := Find(WithNonce(nonce), h.active);
    if i < |h.active| {
      var e := h.active[i];
      var h1 := h.(active := RemoveAt(h.active, i));
      RemoveCounts(h, i, s, b);
      if e.addr.socket != src {
        AppendCounts(h1, e, s, b);
      } else if e.call.handshakeSent || !draws(0).ok {
        FailRequestCounts(h1, e.call, InvalidRemotePacket, true, s, One(e.addr.socket == s), b);
      } else {
        HandshakeCounts(cfg, h1, e.call, enrRequest, evicted, draws, s, b);
      }
    }
  }

  lemma HandleResponseCounts(h: Handler, a: NodeAddress, id: RequestId, body: ResponseBody, s: SocketAddr,
                             b: NodeAddress)
    requires Counted(h, s, 0, b)
    ensures Counted(HandleResponse(h, a, id, body), s, 0, b)
  {
    var i := Find(IdAt(a, id), h.active);
    if i < |h.active| {
      var call := h.active[i].call;
      var h1 := h.(active := RemoveAt(h.active, i));
      RemoveCounts(h, i, s, b);
      RemoveExpects(h1, a.socket, s);
      var (remaining, last) := NextRemaining(call.remaining, body);
      if !last {
        AppendCounts(h1, Active(a, WithRemaining(call, remaining)), s, b);
      }
    }
  }

  lemma HandleMessageCounts(h: Handler, a: NodeAddress, nonce: Nonce, m: Message, s: SocketAddr, b: NodeAddress)
    requires Counted(h, s, 0, b)
    ensures Counted(HandleMessage(h, a, nonce, m), s, 0, b)
  {
    FailSessionCounts(h, a, InvalidRemotePacket, true, s, b);
    FailSessionCounts(h.(sessions := h.sessions[a := Session(None)]), a, InvalidRemoteEnr, true, s, b);
    if m.ResponseMessage? { HandleResponseCounts(h, a, m.id, m.body, s, b); }
  }

  lemma HandleAuthCounts(cfg: Config, h: Handler, a: NodeAddress, result: Handshaken, nonce: Nonce, m: Message,
                         evicted: set<NodeAddress>, draws: Draws, s: SocketAddr, b: NodeAddress)
    requires Counted(h, s, 0, b)
    ensures Counted(HandleAuth(cfg, h, a, result, nonce, m, evicted, draws), s, 0, b)
  {
    if a in h.challenges {
      var h1 := h.(challenges := h.challenges - {a});
      DropChallenge(h.challenges, a, s);
      RemoveExpects(h1, a.socket, s);
      match result
      case BadSignature =>
      case Malformed =>
        FailSessionCounts(h1, a, InvalidRemotePacket, true, s, b);
      case ValidEnr =>
        var h3 := Emit(RemoveExpected(h1, a.socket), Established(a, true));
        NewSessionCounts(cfg, h3, a, Session(None), None, evicted, draws, 0, s, b);
        HandleMessageCounts(NewSession(cfg, h3, a, Session(None), None, evicted, draws, 0), a, nonce, m, s, b);
      case InvalidEnr =>
        FailSessionCounts(RemoveExpected(h1, a.socket), a, InvalidRemoteEnr, true, s, b);
    }
  }

  lemma HandleTimeoutCounts(cfg: Config, h: Handler, nonce: Nonce, s: SocketAddr, b: NodeAddress)
    requires Counted(h, s, 0, b)
    ensures Counted(HandleTimeout(cfg, h, nonce), s, 0, b)
  {
    var i := Find(WithNonce(nonce), h.active);
    if i < |h.active| {
      var e := h.active[i];
      var h1 := h.(active := RemoveAt(h.active, i));
      RemoveCounts(h, i, s, b);
      if e.call.retries >= cfg.retries {
        RemoveExpects(h1, e.addr.socket, s);
        FailRequestCounts(RemoveExpected(h1, e.addr.socket), e.call, Timeout, false, s, 0, b);
      } else {
        AppendCounts(Send(h1, e.addr, e.call.packet), Retried(e), s, b);
      }
    }
  }

  lemma ChallengeExpiredCounts(cfg: Config, h: Handler, a: NodeAddress, draws: Draws, s: SocketAddr, b: NodeAddress)
    requires Counted(h, s, 0, b)
    ensures Counted(ChallengeExpired(cfg, h, a, draws), s, 0, b)
  {
    DropChallenge(h.challenges, a, s);
    SendPendingRequestsCounts(cfg, h.(challenges := h.challenges - {a}), a, draws, 0, s, b);
  }
}
