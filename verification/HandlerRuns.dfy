/** What holds in every state the handler can reach. */
module HandlerRuns {
  import opened Wrappers
  import opened HandlerTypes
  import opened HandlerSpec
  import opened ActiveRequestLists
  import opened Ledgers
  import opened HandlerBooks
  import opened HandlerCover
  import opened Lists

  // ----- Nonces in flight

  ghost predicate Tidy(s: seq<Active>) {
    WellFiled(s) && DistinctNonces(s)
  }

  /** From position `k` on, the draws repeat neither each other nor a nonce in flight. */
  ghost predicate Fresh(s: seq<Active>, draws: Draws, k: nat) {
    && (forall i, j :: k <= i < j ==> draws(i).nonce != draws(j).nonce)
    && (forall i :: k <= i ==> NonceFree(s, draws(i).nonce))
  }

  /** `s` is in order and stays so when packets are sent under the next draws. */
  ghost predicate Ready(s: seq<Active>, draws: Draws, k: nat) {
    Tidy(s) && Fresh(s, draws, k)
  }

  lemma AppendTidy(s: seq<Active>, e: Active)
    requires Tidy(s) && NonceFree(s, e.call.packet.nonce) && WellFiled([e])
    ensures Tidy(s + [e])
  {
    assert e == [e][0];
  }

  lemma AppendReady(s: seq<Active>, e: Active, draws: Draws, k: nat)
    requires Ready(s, draws, k) && e.call.packet.nonce == draws(k).nonce && WellFiled([e])
    ensures Ready(s + [e], draws, k + 1)
  {
    AppendTidy(s, e);
  }

  lemma RemoveTidy(s: seq<Active>, i: nat)
    requires Tidy(s) && i < |s|
    ensures Tidy(RemoveAt(s, i)) && NonceFree(RemoveAt(s, i), s[i].call.packet.nonce)
  {
    RemoveKeepsDistinct(s, i);
    var t := RemoveAt(s, i);
    forall p | 0 <= p < |t| ensures t[p] == s[if p < i then p else p + 1] {}
  }

  lemma RemoveReady(s: seq<Active>, i: nat, draws: Draws, k: nat)
    requires Ready(s, draws, k) && i < |s|
    ensures Ready(RemoveAt(s, i), draws, k)
  {
    RemoveTidy(s, i);
    var t := RemoveAt(s, i);
    forall p | 0 <= p < |t| ensures t[p] == s[if p < i then p else p + 1] {}
  }

  lemma FilterTidy(f: Active -> bool, s: seq<Active>)
    requires Tidy(s)
    ensures Tidy(Filter(f, s))
  {
    FilterDistinct(f, s);
    var t := Filter(f, s);
    forall j | 0 <= j < |t| ensures WellFiled([t[j]]) {
      var i := FilterAt(f, s, j);
    }
    forall j | 0 <= j < |t|
      ensures t[j].addr == t[j].call.contact.address && (t[j].call.remaining.Some? ==> t[j].call.remaining.value >= 1)
    {
      assert t[j] == [t[j]][0];
    }
  }

  lemma SendRequestReady(cfg: Config, h: Handler, r: PendingRequest, draws: Draws, k: nat)
    requires Ready(h.active, draws, k)
    ensures Ready(SendRequest(cfg, h, r, draws(k)).0.active, draws, k + 1)
  {
    var h1 := SendRequest(cfg, h, r, draws(k)).0;
    if |h1.active| > |h.active| {
      AppendReady(h.active, h1.active[|h.active|], draws, k);
    }
  }

  lemma SendOrReportReady(cfg: Config, h: Handler, r: PendingRequest, draws: Draws, k: nat)
    requires Ready(h.active, draws, k)
    ensures Ready(SendOrReport(cfg, h, r, draws(k)).active, draws, k + 1)
  {
    SendRequestReady(cfg, h, r, draws, k);
  }

  lemma {:induction false} SendEachReady(cfg: Config, h: Handler, rs: seq<PendingRequest>, draws: Draws, k: nat)
    requires Ready(h.active, draws, k)
    ensures Ready(SendEach(cfg, h, rs, draws, k).active, draws, k + |rs|)
  {
    if rs != [] {
      var init, r := rs[..|rs| - 1], rs[|rs| - 1];
      var h1, n := SendEach(cfg, h, init, draws, k), k + |init|;
      SendEachReady(cfg, h, init, draws, k);
      SendOrReportReady(cfg, h1, r, draws, n);
      assert SendEach(cfg, h, rs, draws, k) == SendOrReport(cfg, h1, r, draws(n));
    }
  }

  lemma FilterGrows(a: NodeAddress, s: seq<Active>, i: nat, j: nat)
    requires i < j < |s| && s[i].addr == a
    ensures |Filter(At(a), s[..i])| < |Filter(At(a), s[..j])|
  {
    assert s[..j] == (s[..i] + [s[i]]) + s[i + 1..j];
    FilterConcat(At(a), s[..i] + [s[i]], s[i + 1..j]);
    FilterAppend(At(a), s[..i], s[i]);
  }

  lemma ReplayTidy(s: seq<Active>, a: NodeAddress, skip: Option<Nonce>, draws: Draws, k: nat)
    requires Ready(s, draws, k)
    ensures Tidy(ReplayIn(s, a, skip, draws, k))
  {
    var t := ReplayIn(s, a, skip, draws, k);
    forall i | 0 <= i < |t|
      ensures t[i] == if Replays(s[i], a, skip) then Replayed(s[i], draws(k + |Filter(At(a), s[..i])|)) else s[i]
    {
      ReplayedAt(s, a, skip, draws, k, i);
    }
    forall i, j | 0 <= i < j < |t| ensures t[i].call.packet.nonce != t[j].call.packet.nonce {
      if s[i].addr == a { FilterGrows(a, s, i, j); }
    }
  }

  lemma NewSessionTidy(cfg: Config, h: Handler, a: NodeAddress, session: Session, skip: Option<Nonce>,
                       evicted: set<NodeAddress>, draws: Draws, k: nat)
    requires Ready(h.active, draws, k)
    ensures Tidy(NewSession(cfg, h, a, session, skip, evicted, draws, k).active)
  {
    if a in h.sessions {
      ReplayTidy(h.active, a, skip, draws, k);
    } else {
      var h1 := h.(sessions := h.sessions[a := session] - evicted, pending := Filter(Not(ForAddress(a)), h.pending));
      SendEachReady(cfg, h1, Filter(ForAddress(a), h.pending), draws, k);
    }
  }

  lemma FailSessionTidy(h: Handler, a: NodeAddress, error: RequestError, removeSession: bool)
    requires Tidy(h.active)
    ensures Tidy(FailSession(h, a, error, removeSession).active)
  {
    FailSessionFrame(h, a, error, removeSession, 0);
    FilterTidy(Not(At(a)), h.active);
  }

  lemma HandshakeTidy(cfg: Config, h: Handler, call: RequestCall, enrRequest: RequestId, evicted: set<NodeAddress>,
                      draws: Draws)
    requires Ready(h.active, draws, 0) && WellFiled([Active(call.contact.address, call)])
    ensures Tidy(Handshake(cfg, h, call, enrRequest, evicted, draws).active)
  {
    var a, packet := call.contact.address, Packet(draws(0).nonce, HandshakePacket);
    assert [Active(a, call)][0].call == call;
    if call.contact.hasEnr {
      var call' := call.(packet := packet, handshakeSent := true, initiating := false);
      AppendReady(h.active, Active(a, call'), draws, 0);
      var h1 := Emit(Send(h.(active := h.active + [Active(a, call')]), a, packet), Established(a, !call.initiating));
      NewSessionTidy(cfg, h1, a, Session(None), Some(packet.nonce), evicted, draws, 1);
    } else {
      var call' := call.(packet := packet, handshakeSent := true);
      AppendReady(h.active, Active(a, call'), draws, 0);
      var h1 := Send(h.(active := h.active + [Active(a, call')]), a, packet);
      var h2 := h1.(issued := h1.issued[enrRequest := Issue(a, false)]);
      var r := PendingRequest(call.contact, Internal(enrRequest), FindNode([0]));
      SendRequestReady(cfg, h2, r, draws, 1);
      NewSessionTidy(cfg, SendRequest(cfg, h2, r, draws(1)).0, a, Session(Some(enrRequest)), Some(packet.nonce),
                     evicted, draws, 2);
    }
  }

  lemma HandleChallengeTidy(cfg: Config, h: Handler, src: SocketAddr, nonce: Nonce, enrRequest: RequestId,
                            evicted: set<NodeAddress>, draws: Draws)
    requires Ready(h.active, draws, 0)
    ensures Tidy(HandleChallenge(cfg, h, src, nonce, enrRequest, evicted, draws).active)
  {
    var i := Find(WithNonce(nonce), h.active);
    if i < |h.active| {
      var e := h.active[i];
      var h1 := h.(active := RemoveAt(h.active, i));
      RemoveTidy(h.active, i);
      RemoveReady(h.active, i, draws, 0);
      AppendTidy(h1.active, e);
      FailSessionTidy(Report(h1, e.call.id, InvalidRemotePacket), e.call.contact.address, InvalidRemotePacket, true);
      HandshakeTidy(cfg, h1, e.call, enrRequest, evicted, draws);
    }
  }

  lemma HandleResponseTidy(h: Handler, a: NodeAddress, id: RequestId, body: ResponseBody)
    requires Tidy(h.active)
    ensures Tidy(HandleResponse(h, a, id, body).active)
  {
    var i := Find(IdAt(a, id), h.active);
    if i < |h.active| {
      var call := h.active[i].call;
      RemoveTidy(h.active, i);
      var (remaining, last) := NextRemaining(call.remaining, body);
      if !last { AppendTidy(RemoveAt(h.active, i), Active(a, WithRemaining(call, remaining))); }
    }
  }

  lemma HandleMessageTidy(h: Handler, a: NodeAddress, nonce: Nonce, m: Message)
    requires Tidy(h.active)
    ensures Tidy(HandleMessage(h, a, nonce, m).active)
  {
    FailSessionTidy(h, a, InvalidRemotePacket, true);
    FailSessionTidy(h.(sessions := h.sessions[a := Session(None)]), a, InvalidRemoteEnr, true);
    if m.ResponseMessage? { HandleResponseTidy(h, a, m.id, m.body); }
  }

  lemma HandleAuthTidy(cfg: Config, h: Handler, a: NodeAddress, result: Handshaken, nonce: Nonce, m: Message,
                       evicted: set<NodeAddress>, draws: Draws)
    requires Ready(h.active, draws, 0)
    ensures Tidy(HandleAuth(cfg, h, a, result, nonce, m, evicted, draws).active)
  {
    var h1 := h.(challenges := h.challenges - {a});
    FailSessionTidy(h1, a, InvalidRemotePacket, true);
    FailSessionTidy(RemoveExpected(h1, a.socket), a, InvalidRemoteEnr, true);
    var h3 := Emit(RemoveExpected(h1, a.socket), Established(a, true));
    NewSessionTidy(cfg, h3, a, Session(None), None, evicted, draws, 0);
    HandleMessageTidy(NewSession(cfg, h3, a, Session(None), None, evicted, draws, 0), a, nonce, m);
  }

  lemma HandleTimeoutTidy(cfg: Config, h: Handler, nonce: Nonce)
    requires Tidy(h.active)
    ensures Tidy(HandleTimeout(cfg, h, nonce).active)
  {
    var i := Find(WithNonce(nonce), h.active);
    if i < |h.active| {
      var e := h.active[i];
      var h1 := h.(active := RemoveAt(h.active, i));
      RemoveTidy(h.active, i);
      FailSessionTidy(Report(RemoveExpected(h1, e.addr.socket), e.call.id, Timeout), e.call.contact.address, Timeout,
                      false);
      AppendTidy(h1.active, Retried(e));
    }
  }

  // ----- Steps and runs

  ghost predicate HandlerInv(h: Handler) {
    && Tidy(h.active)
    && Books(h, [])
    && (forall s :: Covered(h, s, 0))
    && (forall b :: OneOpener(h, b))
  }

  /** Ids are new and drawn nonces fresh; nothing is asked of what other nodes send. */
  ghost predicate Admissible(h: Handler, e: Event) {
    match e
    case Issued(r, draws) => r.id.External? && r.id.id !in h.issued && Fresh(h.active, draws, 0)
    case GotChallenge(_, _, enrRequest, _, draws) => enrRequest !in h.issued && Fresh(h.active, draws, 0)
    case GotAuth(_, _, _, _, _, draws) => Fresh(h.active, draws, 0)
    case Expired(_, draws) => Fresh(h.active, draws, 0)
    case _ => true
  }

  lemma StepTidy(cfg: Config, h: Handler, e: Event)
    requires Tidy(h.active) && Admissible(h, e)
    ensures Tidy(Step(cfg, h, e).active)
  {
    match e
    case Issued(r, draws) =>
      SendRequestReady(cfg, h.(issued := h.issued[r.id.id := Issue(r.contact.address, true)]), r, draws, 0);
    case Challenged(a, nonce) =>
    case GotChallenge(src, nonce, enrRequest, evicted, draws) =>
      HandleChallengeTidy(cfg, h, src, nonce, enrRequest, evicted, draws);
    case GotAuth(a, result, nonce, m, evicted, draws) =>
      HandleAuthTidy(cfg, h, a, result, nonce, m, evicted, draws);
    case GotMessage(a, nonce, m) =>
      HandleMessageTidy(h, a, nonce, m);
    case TimedOut(nonce) =>
      HandleTimeoutTidy(cfg, h, nonce);
    case Expired(a, draws) =>
      var h1 := h.(challenges := h.challenges - {a}, pending := Filter(Not(ForAddress(a)), h.pending));
      SendEachReady(cfg, h1, Filter(ForAddress(a), h.pending), draws, 0);
    case Evicted(evicted) =>
  }

  lemma StepBooks(cfg: Config, h: Handler, e: Event)
    requires Books(h, []) && WellFiled(h.active) && Admissible(h, e)
    ensures Books(Step(cfg, h, e), [])
  {
    match e
    case Issued(r, draws) => IssueBooks(cfg, h, r, draws(0));
    case Challenged(a, nonce) =>
    case GotChallenge(src, nonce, enrRequest, evicted, draws) =>
      HandleChallengeBooks(cfg, h, src, nonce, enrRequest, evicted, draws);
    case GotAuth(a, result, nonce, m, evicted, draws) =>
      HandleAuthBooks(cfg, h, a, result, nonce, m, evicted, draws);
    case GotMessage(a, nonce, m) => HandleMessageBooks(h, a, nonce, m);
    case TimedOut(nonce) => HandleTimeoutBooks(cfg, h, nonce);
    case Expired(a, draws) => SendPendingRequestsBooks(cfg, h.(challenges := h.challenges - {a}), a, draws, 0);
    case Evicted(evicted) =>
  }

  lemma StepCounts(cfg: Config, h: Handler, e: Event, s: SocketAddr, b: NodeAddress)
    requires Counted(h, s, 0, b) && WellFiled(h.active)
    ensures Counted(Step(cfg, h, e), s, 0, b)
  {
    match e
    case Issued(r, draws) =>
      SendRequestCounts(cfg, h.(issued := h.issued[r.id.id := Issue(r.contact.address, true)]), r, draws(0), s, b);
    case Challenged(a, nonce) => SendChallengeCounts(h, a, nonce, s, b);
    case GotChallenge(src, nonce, enrRequest, evicted, draws) =>
      HandleChallengeCounts(cfg, h, src, nonce, enrRequest, evicted, draws, s, b);
    case GotAuth(a, result, nonce, m, evicted, draws) =>
      HandleAuthCounts(cfg, h, a, result, nonce, m, evicted, draws, s, b);
    case GotMessage(a, nonce, m) => HandleMessageCounts(h, a, nonce, m, s, b);
    case TimedOut(nonce) => HandleTimeoutCounts(cfg, h, nonce, s, b);
    case Expired(a, draws) => ChallengeExpiredCounts(cfg, h, a, draws, s, b);
    case Evicted(evicted) =>
  }

  lemma StepKeeps(cfg: Config, h: Handler, e: Event)
    requires HandlerInv(h) && Admissible(h, e)
    ensures HandlerInv(Step(cfg, h, e))
  {
    StepTidy(cfg, h, e);
    StepBooks(cfg, h, e);
    forall s, b ensures Counted(Step(cfg, h, e), s, 0, b) { StepCounts(cfg, h, e, s, b); }
    forall s ensures Covered(Step(cfg, h, e), s, 0) { assert Counted(Step(cfg, h, e), s, 0, NodeAddress(0, 0)); }
    forall b ensures OneOpener(Step(cfg, h, e), b) { assert Counted(Step(cfg, h, e), 0, 0, b); }
  }

  function Run(cfg: Config, events: seq<Event>): Handler {
    if events == [] then EMPTY_HANDLER else Step(cfg, Run(cfg, events[..|events| - 1]), events[|events| - 1])
  }

  ghost predicate AdmissibleRun(cfg: Config, events: seq<Event>) {
    events == [] ||
      (AdmissibleRun(cfg, events[..|events| - 1]) && Admissible(Run(cfg, events[..|events| - 1]), events[|events| - 1]))
  }

  lemma {:induction false} RunKeeps(cfg: Config, events: seq<Event>)
    requires AdmissibleRun(cfg, events)
    ensures HandlerInv(Run(cfg, events))
  {
    if events == [] {
      assert forall x :: Conserved([], [], [], map[], [], x);
    } else {
      RunKeeps(cfg, events[..|events| - 1]);
      StepKeeps(cfg, Run(cfg, events[..|events| - 1]), events[|events| - 1]);
    }
  }

  // ----- What the invariant means

  ghost predicate InFlight(h: Handler, x: RequestId) {
    exists i :: 0 <= i < |h.active| && h.active[i].call.id.id == x
  }

  ghost predicate Queued(h: Handler, x: RequestId) {
    exists i :: 0 <= i < |h.pending| && h.pending[i].id.id == x
  }

  ghost predicate Settled(h: Handler, x: RequestId) {
    exists i :: 0 <= i < |h.out| && Settles(x)(h.out[i])
  }

  lemma CountWitness<T>(f: T -> bool, s: seq<T>)
    ensures CountIf(f, s) > 0 <==> exists i :: 0 <= i < |s| && f(s[i])
  {
    CountPositive(f, s);
  }

  lemma {:induction false} CountTwo<T>(f: T -> bool, s: seq<T>, i: nat, j: nat)
    requires i < j < |s| && f(s[i]) && f(s[j])
    ensures CountIf(f, s) >= 2
  {
    CountRemoveAt(f, s, j);
    assert RemoveAt(s, j)[i] == s[i];
    CountRemoveAt(f, RemoveAt(s, j), i);
  }

  /** In any run, a request the application issued is in flight, queued or settled, and only one of these; it is settled
      once. */
  lemma RequestsAreConserved(cfg: Config, events: seq<Event>, x: RequestId)
    requires AdmissibleRun(cfg, events)
    ensures var h := Run(cfg, events);
            && (x in h.issued && h.issued[x].external ==>
                  && (InFlight(h, x) || Queued(h, x) || Settled(h, x))
                  && CountIf(WithId(x), h.active) + CountIf(PendingWithId(x), h.pending) + CountIf(Settles(x), h.out)
                     == 1)
            && !(InFlight(h, x) && Queued(h, x))
            && !(InFlight(h, x) && Settled(h, x))
            && !(Queued(h, x) && Settled(h, x))
  {
    RunKeeps(cfg, events);
    var h := Run(cfg, events);
    assert Conserved(h.active, h.pending, h.out, h.issued, [], x);
    CountWitness(WithId(x), h.active);
    CountWitness(PendingWithId(x), h.pending);
    CountWitness(Settles(x), h.out);
    if InFlight(h, x) { assert exists i :: 0 <= i < |h.active| && WithId(x)(h.active[i]); }
    if Queued(h, x) { assert exists i :: 0 <= i < |h.pending| && PendingWithId(x)(h.pending[i]); }
  }

  lemma {:induction false} OrderlyAt(out: seq<Out>, issued: Issues, j: nat)
    requires Orderly(out, issued) && j < |out|
    ensures Follows(out[..j], out[j], issued)
  {
    if j < |out| - 1 {
      OrderlyAt(out[..|out| - 1], issued, j);
      assert out[..|out| - 1][..j] == out[..j];
    }
  }

  /** A response is reported only for an issued request, from the address it was sent to, and nothing follows what
      settles a request. */
  lemma ReportsMatchRequests(cfg: Config, events: seq<Event>, j: nat)
    requires AdmissibleRun(cfg, events) && j < |Run(cfg, events).out|
    ensures var h := Run(cfg, events);
            var o := h.out[j];
            && (o.Response? ==> o.id in h.issued && h.issued[o.id].addr == o.addr)
            && (o.RequestFailed? ==> o.id in h.issued && h.issued[o.id].external)
            && (o.Response? || o.RequestFailed? ==> forall i :: 0 <= i < j ==> !Settles(o.id)(h.out[i]))
  {
    RunKeeps(cfg, events);
    var h := Run(cfg, events);
    var o := h.out[j];
    OrderlyAt(h.out, h.issued, j);
    if o.Response? || o.RequestFailed? {
      CountWitness(Settles(o.id), h.out[..j]);
      forall i | 0 <= i < j ensures !Settles(o.id)(h.out[i]) {
        assert h.out[i] == h.out[..j][i];
      }
    }
  }

  /** A socket from which a response or a handshake is awaited is let through the packet filter. */
  lemma AwaitedPacketsPass(cfg: Config, events: seq<Event>)
    requires AdmissibleRun(cfg, events)
    ensures var h := Run(cfg, events);
            && (forall i :: 0 <= i < |h.active| ==> Permitted(h, h.active[i].addr.socket))
            && (forall a :: a in h.challenges ==> Permitted(h, a.socket))
            && (forall s :: Expect(h.expected, s) >= CountIf(AtSocket(s), h.active) + |ChallengesAt(h.challenges, s)|)
  {
    RunKeeps(cfg, events);
    var h := Run(cfg, events);
    forall s ensures Expect(h.expected, s) >= CountIf(AtSocket(s), h.active) + |ChallengesAt(h.challenges, s)| {
      assert Covered(h, s, 0);
    }
    forall i | 0 <= i < |h.active| ensures Permitted(h, h.active[i].addr.socket) {
      CountWitness(AtSocket(h.active[i].addr.socket), h.active);
    }
    forall a | a in h.challenges ensures Permitted(h, a.socket) {
      assert a in ChallengesAt(h.challenges, a.socket);
    }
  }

  /** Two requests that open a session with the same node, or two random packets to it, are never outstanding
      together. */
  lemma OneOpenerPerNode(cfg: Config, events: seq<Event>, i: nat, j: nat)
    requires AdmissibleRun(cfg, events)
    requires i < j < |Run(cfg, events).active|
    requires Run(cfg, events).active[i].addr == Run(cfg, events).active[j].addr
    ensures var x, y := Run(cfg, events).active[i].call, Run(cfg, events).active[j].call;
            !(x.initiating && y.initiating) && !(x.packet.kind.RandomPacket? && y.packet.kind.RandomPacket?)
  {
    RunKeeps(cfg, events);
    var h := Run(cfg, events);
    assert OneOpener(h, h.active[i].addr);
    if h.active[i].call.initiating && h.active[j].call.initiating {
      CountTwo(Initiates(h.active[i].addr), h.active, i, j);
    }
  }
}
