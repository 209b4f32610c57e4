/** What the service collects of NODES responses, whoever sends them and whatever they hold. */
module NodesRuns {
  import opened Wrappers
  import opened Keys
  import opened Lists
  import opened Filters
  import opened NodesResponses
  import HandlerTypes

  type RequestId = HandlerTypes.RequestId
  type NodeAddress = HandlerTypes.NodeAddress

  /** A FINDNODE request of ours: whom it went to, under which key, for which distances, and whether the caller takes
      the answer itself. */
  datatype FindRequest = FindRequest(contact: NodeAddress, peer: Key, distances: seq<nat>, callback: bool)

  datatype Discovery = Discovery(id: RequestId, enrs: seq<Enr>)

  datatype Service = Service(
    requests: map<RequestId, FindRequest>,
    partials: map<RequestId, Partial>,
    discovered: seq<Discovery>,
    answered: seq<Discovery>,
    banned: set<NodeAddress>)

  const NO_REQUESTS := Service(map[], map[], [], [], {})

  /** The response of request `r`, already filtered, is stored or passed on. */
  function CollectIn(s: Service, max: nat, id: RequestId, r: FindRequest, total: nat, kept: seq<Enr>): Service {
    if total > 1 then
      var p := if id in s.partials then s.partials[id] else Partial(1, []);
      if |p.received| < max && p.count < total && p.count < MAX_NODES_RESPONSES then
        s.(partials := s.partials[id := Partial(p.count + 1, p.received + kept)], requests := s.requests[id := r])
      else
        s.(partials := s.partials - {id}, discovered := s.discovered + [Discovery(id, p.received + kept)])
    else s.(partials := s.partials - {id}, discovered := s.discovered + [Discovery(id, kept)])
  }

  function HandleNodesIn(s: Service, max: nat, addr: NodeAddress, id: RequestId, total: nat, enrs: seq<Enr>): Service {
    if id !in s.requests then s
    else
      var r := s.requests[id];
      var closed := s.(requests := s.requests - {id});
      if r.contact != addr then closed
      else if r.callback then closed.(answered := s.answered + [Discovery(id, enrs)])
      else
        var (kept, ban) := Accept(r.distances, r.peer, enrs);
        CollectIn(closed.(banned := if ban then s.banned + {addr} else s.banned), max, id, r, total, kept)
  }

  // ----- Runs

  datatype Call =
    | Ask(id: RequestId, request: FindRequest)
    | Answer(addr: NodeAddress, id: RequestId, total: nat, enrs: seq<Enr>)

  function ServiceStep(s: Service, max: nat, c: Call): Service {
    match c
    case Ask(id, request) => s.(requests := s.requests[id := request])
    case Answer(addr, id, total, enrs) => HandleNodesIn(s, max, addr, id, total, enrs)
  }

  function ServiceRun(max: nat, calls: seq<Call>): Service {
    if calls == [] then NO_REQUESTS else ServiceStep(ServiceRun(max, calls[..|calls| - 1]), max, calls[|calls| - 1])
  }

  /** No id is asked twice. */
  ghost predicate FreshIds(calls: seq<Call>) {
    forall i, j :: 0 <= i < j < |calls| && calls[i].Ask? && calls[j].Ask? ==> calls[i].id != calls[j].id
  }

  /** Request `id` was asked as `r`. */
  ghost predicate Asked(calls: seq<Call>, id: RequestId, r: FindRequest) {
    exists i :: 0 <= i < |calls| && calls[i] == Ask(id, r)
  }

  /** Record `e` came in some response to request `id` from the node asked. It is at a requested distance or, if that
      node's own record was requested, it is that record or came alone. */
  ghost predicate Vouched(calls: seq<Call>, id: RequestId, r: FindRequest, e: Enr) {
    exists i :: 0 <= i < |calls| && VouchedBy(calls[i], id, r, e)
  }

  ghost predicate VouchedBy(c: Call, id: RequestId, r: FindRequest, e: Enr) {
    && c.Answer? && c.id == id && c.addr == r.contact && e in c.enrs
    && (r.distances != [0] ==> KeyRequested(r.distances, r.peer, e.nodeId))
    && (r.distances == [0] ==> e.nodeId == r.peer || c.enrs == [e])
  }

  ghost predicate AllVouched(calls: seq<Call>, id: RequestId, enrs: seq<Enr>) {
    exists r :: Asked(calls, id, r) && !r.callback && forall j :: 0 <= j < |enrs| ==> Vouched(calls, id, r, enrs[j])
  }

  /** Bans are for records that were dropped. */
  ghost predicate Earned(calls: seq<Call>, a: NodeAddress) {
    exists i, id, r :: 0 <= i < |calls| && Asked(calls, id, r) && Offends(calls[i], id, r, a)
  }

  ghost predicate Offends(c: Call, id: RequestId, r: FindRequest, a: NodeAddress) {
    && c.Answer? && c.id == id && c.addr == a == r.contact
    && (if r.distances == [0] then |c.enrs| > 1
        else exists j :: 0 <= j < |c.enrs| && !KeyRequested(r.distances, r.peer, c.enrs[j].nodeId))
  }

  ghost predicate Clean(s: Service, calls: seq<Call>) {
    && (forall id :: id in s.requests ==> Asked(calls, id, s.requests[id]))
    && (forall id :: id in s.partials ==> AllVouched(calls, id, s.partials[id].received))
    && (forall k :: 0 <= k < |s.discovered| ==> AllVouched(calls, s.discovered[k].id, s.discovered[k].enrs))
    && (forall a :: a in s.banned ==> Earned(calls, a))
  }

  lemma AskedStays(calls: seq<Call>, c: Call, id: RequestId, r: FindRequest)
    requires Asked(calls, id, r)
    ensures Asked(calls + [c], id, r)
  {
    var i :| 0 <= i < |calls| && calls[i] == Ask(id, r);
    assert (calls + [c])[i] == Ask(id, r);
  }

  lemma VouchedStays(calls: seq<Call>, c: Call, id: RequestId, r: FindRequest, e: Enr)
    requires Vouched(calls, id, r, e)
    ensures Vouched(calls + [c], id, r, e)
  {
    var i :| 0 <= i < |calls| && VouchedBy(calls[i], id, r, e);
    assert VouchedBy((calls + [c])[i], id, r, e);
  }

  lemma AllVouchedStays(calls: seq<Call>, c: Call, id: RequestId, enrs: seq<Enr>)
    requires AllVouched(calls, id, enrs)
    ensures AllVouched(calls + [c], id, enrs)
  {
    var r :| Asked(calls, id, r) && !r.callback && forall j :: 0 <= j < |enrs| ==> Vouched(calls, id, r, enrs[j]);
    AskedStays(calls, c, id, r);
    forall j | 0 <= j < |enrs| ensures Vouched(calls + [c], id, r, enrs[j]) {
      VouchedStays(calls, c, id, r, enrs[j]);
    }
  }

  lemma EarnedStays(calls: seq<Call>, c: Call, a: NodeAddress)
    requires Earned(calls, a)
    ensures Earned(calls + [c], a)
  {
    var i, id, r :| 0 <= i < |calls| && Asked(calls, id, r) && Offends(calls[i], id, r, a);
    AskedStays(calls, c, id, r);
    assert Offends((calls + [c])[i], id, r, a);
  }

  lemma CleanStays(s: Service, calls: seq<Call>, c: Call)
    requires Clean(s, calls)
    ensures Clean(s, calls + [c])
  {
    forall id | id in s.requests ensures Asked(calls + [c], id, s.requests[id]) {
      AskedStays(calls, c, id, s.requests[id]);
    }
    forall id | id in s.partials ensures AllVouched(calls + [c], id, s.partials[id].received) {
      AllVouchedStays(calls, c, id, s.partials[id].received);
    }
    forall k | 0 <= k < |s.discovered|
      ensures AllVouched(calls + [c], s.discovered[k].id, s.discovered[k].enrs)
    {
      AllVouchedStays(calls, c, s.discovered[k].id, s.discovered[k].enrs);
    }
    forall a | a in s.banned ensures Earned(calls + [c], a) {
      EarnedStays(calls, c, a);
    }
  }

  lemma AskedOnce(calls: seq<Call>, id: RequestId, r: FindRequest, r': FindRequest)
    requires FreshIds(calls) && Asked(calls, id, r) && Asked(calls, id, r')
    ensures r == r'
  {
    var i :| 0 <= i < |calls| && calls[i] == Ask(id, r);
    var j :| 0 <= j < |calls| && calls[j] == Ask(id, r');
    assert i == j;
  }

  /** What the filter keeps of an answer is vouched for by that answer. */
  lemma KeptIsVouched(calls: seq<Call>, c: Call, r: FindRequest)
    requires c.Answer? && c in calls && c.addr == r.contact && Asked(calls, c.id, r) && !r.callback
    ensures AllVouched(calls, c.id, Accept(r.distances, r.peer, c.enrs).0)
  {
    var kept := Accept(r.distances, r.peer, c.enrs).0;
    var at := AcceptKeeps(r.distances, r.peer, c.enrs);
    var i :| 0 <= i < |calls| && calls[i] == c;
    forall j | 0 <= j < |kept| ensures Vouched(calls, c.id, r, kept[j]) {
      assert at[j] in at && kept[j] == c.enrs[at[j]];
      if r.distances == [0] && |c.enrs| == 1 { assert c.enrs == [c.enrs[0]]; }
      assert VouchedBy(calls[i], c.id, r, kept[j]);
    }
  }

  lemma JoinVouched(calls: seq<Call>, id: RequestId, a: seq<Enr>, b: seq<Enr>)
    requires FreshIds(calls) && AllVouched(calls, id, a) && AllVouched(calls, id, b)
    ensures AllVouched(calls, id, a + b)
  {
    var r :| Asked(calls, id, r) && !r.callback && forall j :: 0 <= j < |a| ==> Vouched(calls, id, r, a[j]);
    var r' :| Asked(calls, id, r') && !r'.callback && forall j :: 0 <= j < |b| ==> Vouched(calls, id, r', b[j]);
    AskedOnce(calls, id, r, r');
    forall j | 0 <= j < |a + b| ensures Vouched(calls, id, r, (a + b)[j]) {
      if j >= |a| { assert (a + b)[j] == b[j - |a|]; }
    }
  }

  lemma CollectClean(s: Service, calls: seq<Call>, max: nat, id: RequestId, r: FindRequest, total: nat, kept: seq<Enr>)
    requires FreshIds(calls) && Clean(s, calls) && Asked(calls, id, r) && AllVouched(calls, id, kept)
    ensures Clean(CollectIn(s, max, id, r, total, kept), calls)
  {
    if total > 1 {
      var p := if id in s.partials then s.partials[id] else Partial(1, []);
      if id in s.partials {
        JoinVouched(calls, id, p.received, kept);
      } else {
        assert [] + kept == kept;
      }
    }
  }

  lemma BanIsEarned(calls: seq<Call>, c: Call, r: FindRequest)
    requires c.Answer? && c in calls && c.addr == r.contact && Asked(calls, c.id, r)
    requires Accept(r.distances, r.peer, c.enrs).1
    ensures Earned(calls, c.addr)
  {
    var at := AcceptKeeps(r.distances, r.peer, c.enrs);
    var i :| 0 <= i < |calls| && calls[i] == c;
    assert Offends(calls[i], c.id, r, c.addr);
  }

  lemma AnswerClean(s: Service, calls: seq<Call>, max: nat, c: Call)
    requires FreshIds(calls) && Clean(s, calls) && c.Answer? && c in calls
    ensures Clean(HandleNodesIn(s, max, c.addr, c.id, c.total, c.enrs), calls)
  {
    if c.id in s.requests {
      var r := s.requests[c.id];
      if r.contact == c.addr && !r.callback {
        var (kept, ban) := Accept(r.distances, r.peer, c.enrs);
        var s1 := s.(requests := s.requests - {c.id}, banned := if ban then s.banned + {c.addr} else s.banned);
        if ban { BanIsEarned(calls, c, r); }
        KeptIsVouched(calls, c, r);
        CollectClean(s1, calls, max, c.id, r, c.total, kept);
      }
    }
  }

  lemma {:induction false} RunIsClean(max: nat, calls: seq<Call>)
    requires FreshIds(calls)
    ensures Clean(ServiceRun(max, calls), calls)
  {
    if calls != [] {
      var init, c := calls[..|calls| - 1], calls[|calls| - 1];
      var s := ServiceRun(max, init);
      RunIsClean(max, init);
      assert calls == init + [c];
      CleanStays(s, init, c);
      if c.Answer? {
        AnswerClean(s, calls, max, c);
      } else {
        assert calls[|calls| - 1] == Ask(c.id, c.request);
        assert Asked(calls, c.id, c.request);
      }
    }
  }

  /** In every run each record passed on came in a response from the node asked and is at a requested distance from that
      node, or is its own record or came alone if that was requested; and each banned node sent a record it was not
      asked for. */
  lemma DiscoveredIsRequested(max: nat, calls: seq<Call>, k: nat, j: nat)
    requires FreshIds(calls) && k < |ServiceRun(max, calls).discovered| &&
             j < |ServiceRun(max, calls).discovered[k].enrs|
    ensures var d := ServiceRun(max, calls).discovered[k];
            exists r :: Asked(calls, d.id, r) && !r.callback && Vouched(calls, d.id, r, d.enrs[j])
    ensures forall a :: a in ServiceRun(max, calls).banned ==> Earned(calls, a)
  {
    RunIsClean(max, calls);
    var d := ServiceRun(max, calls).discovered[k];
    assert AllVouched(calls, d.id, d.enrs);
  }

  /** The other direction for one response to an open request: each record the node was asked for is stored or passed
      on, in order, and an unasked one gets the node banned. */
  lemma RequestedIsCollected(s: Service, max: nat, addr: NodeAddress, id: RequestId, total: nat, enrs: seq<Enr>)
    returns (kept: seq<Enr>, at: seq<nat>)
    requires id in s.requests && s.requests[id].contact == addr && !s.requests[id].callback &&
             s.requests[id].distances != [0]
    ensures var s', r := HandleNodesIn(s, max, addr, id, total, enrs), s.requests[id];
            && Picks(enrs, kept, at)
            && (forall i :: 0 <= i < |enrs| ==> (i in at <==> KeyRequested(r.distances, r.peer, enrs[i].nodeId)))
            && (id in s'.requests ==> id in s'.partials && EndsWith(s'.partials[id].received, kept))
            && (id !in s'.requests ==>
                  |s'.discovered| > 0 && s'.discovered[|s'.discovered| - 1].id == id
                  && EndsWith(s'.discovered[|s'.discovered| - 1].enrs, kept))
            && ((exists i :: 0 <= i < |enrs| && !KeyRequested(r.distances, r.peer, enrs[i].nodeId)) ==>
                addr in s'.banned)
  {
    var r := s.requests[id];
    kept := Accept(r.distances, r.peer, enrs).0;
    at := AcceptKeeps(r.distances, r.peer, enrs);
    var before := if total > 1 && id in s.partials then s.partials[id].received else [];
    assert EndsWith(before + kept, kept) && [] + kept == kept;
  }

  ghost predicate EndsWith<T>(s: seq<T>, t: seq<T>) {
    |t| <= |s| && s[|s| - |t|..] == t
  }
}
