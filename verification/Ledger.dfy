/** Every request is accounted for: in flight, queued, or settled. */
module Ledgers {
  import opened HandlerTypes
  import opened HandlerSpec
  import opened ActiveRequestLists
  import opened Lists

  type Issues = map<RequestId, Issue>

  /** A request taken off the lists by the running step and not yet put back or settled. */
  datatype Held = Held(addr: NodeAddress, id: HandlerReqId)

  function HeldWithId(x: RequestId): Held -> bool {
    (e: Held) => e.id.id == x
  }

  function PendingWithId(x: RequestId): PendingRequest -> bool {
    (p: PendingRequest) => p.id.id == x
  }

  /** The events that settle request `x`. */
  function Settles(x: RequestId): Out -> bool {
    (o: Out) => (o.RequestFailed? && o.id == x) || (o.Response? && o.id == x && o.last)
  }

  function Mentions(x: RequestId): Out -> bool {
    (o: Out) => (o.RequestFailed? || o.Response?) && o.id == x
  }

  function Live(active: seq<Active>, pending: seq<PendingRequest>, held: seq<Held>, x: RequestId): nat {
    CountIf(WithId(x), active) + CountIf(PendingWithId(x), pending) + CountIf(HeldWithId(x), held)
  }

  /** Request `x` is in exactly one place if the application issued it, in at most one if the handler did, and nowhere
      before. */
  ghost predicate Conserved(active: seq<Active>, pending: seq<PendingRequest>, out: seq<Out>, issued: Issues,
                            held: seq<Held>, x: RequestId)
  {
    var places := Live(active, pending, held, x) + CountIf(Settles(x), out);
    if x !in issued then places + CountIf(Mentions(x), out) == 0
    else if issued[x].external then places == 1
    else places <= 1
  }

  ghost predicate Known(issued: Issues, addr: NodeAddress, id: HandlerReqId) {
    id.id in issued && issued[id.id] == Issue(addr, id.External?)
  }

  ghost predicate AllKnown(active: seq<Active>, pending: seq<PendingRequest>, issued: Issues, held: seq<Held>) {
    && (forall i :: 0 <= i < |active| ==> Known(issued, active[i].addr, active[i].call.id))
    && (forall i :: 0 <= i < |pending| ==> Known(issued, pending[i].contact.address, pending[i].id))
    && (forall i :: 0 <= i < |held| ==> Known(issued, held[i].addr, held[i].id))
  }

  /** An event may follow `before`: its request is still open, and a response comes from where the request went. */
  ghost predicate Follows(before: seq<Out>, o: Out, issued: Issues) {
    match o
    case Response(a, x, _) => x in issued && issued[x].addr == a && CountIf(Settles(x), before) == 0
    case RequestFailed(x, _) => x in issued && issued[x].external && CountIf(Settles(x), before) == 0
    case _ => true
  }

  ghost predicate Orderly(out: seq<Out>, issued: Issues) {
    out == [] || (Orderly(out[..|out| - 1], issued) && Follows(out[..|out| - 1], out[|out| - 1], issued))
  }

  ghost predicate Ledger(active: seq<Active>, pending: seq<PendingRequest>, out: seq<Out>, issued: Issues,
                         held: seq<Held>)
  {
    && AllKnown(active, pending, issued, held)
    && Orderly(out, issued)
    && forall x :: Conserved(active, pending, out, issued, held, x)
  }

  // ----- Moves

  lemma CountFirst<T>(f: T -> bool, x: T, s: seq<T>)
    ensures CountIf(f, [x] + s) == CountIf(f, s) + if f(x) then 1 else 0
  {
    CountConcat(f, [x], s);
    assert [x][..0] == [];
  }

  lemma OrderlyAppend(out: seq<Out>, o: Out, issued: Issues)
    requires Orderly(out, issued) && Follows(out, o, issued)
    ensures Orderly(out + [o], issued)
  {
    assert (out + [o])[..|out|] == out;
  }

  /** A held request is put in the queue. */
  lemma Queue(active: seq<Active>, pending: seq<PendingRequest>, out: seq<Out>, issued: Issues, e: Held,
              held: seq<Held>, r: PendingRequest)
    requires Ledger(active, pending, out, issued, [e] + held) && e == Held(r.contact.address, r.id)
    ensures Ledger(active, pending + [r], out, issued, held)
  {
    assert e == ([e] + held)[0];
    assert forall i :: 0 <= i < |held| ==> held[i] == ([e] + held)[i + 1];
    forall x ensures Conserved(active, pending + [r], out, issued, held, x) {
      assert Conserved(active, pending, out, issued, [e] + held, x);
      CountFirst(HeldWithId(x), e, held);
      CountAppend(PendingWithId(x), pending, r);
    }
  }

  /** A held request is sent. */
  lemma Activate(active: seq<Active>, pending: seq<PendingRequest>, out: seq<Out>, issued: Issues, e: Held,
                 held: seq<Held>, r: Active)
    requires Ledger(active, pending, out, issued, [e] + held) && e == Held(r.addr, r.call.id)
    ensures Ledger(active + [r], pending, out, issued, held)
  {
    assert e == ([e] + held)[0];
    assert forall i :: 0 <= i < |held| ==> held[i] == ([e] + held)[i + 1];
    forall x ensures Conserved(active + [r], pending, out, issued, held, x) {
      assert Conserved(active, pending, out, issued, [e] + held, x);
      CountFirst(HeldWithId(x), e, held);
      CountAppend(WithId(x), active, r);
    }
  }

  /** A held request of the handler itself is dropped. */
  lemma Forget(active: seq<Active>, pending: seq<PendingRequest>, out: seq<Out>, issued: Issues, e: Held,
               held: seq<Held>)
    requires Ledger(active, pending, out, issued, [e] + held) && e.id.Internal?
    ensures Ledger(active, pending, out, issued, held)
  {
    assert e == ([e] + held)[0];
    assert forall i :: 0 <= i < |held| ==> held[i] == ([e] + held)[i + 1];
    forall x ensures Conserved(active, pending, out, issued, held, x) {
      assert Conserved(active, pending, out, issued, [e] + held, x);
      CountFirst(HeldWithId(x), e, held);
    }
  }

  /** A held request is open, so an event about it may follow. */
  lemma HeldIsOpen(active: seq<Active>, pending: seq<PendingRequest>, out: seq<Out>, issued: Issues, e: Held,
                   held: seq<Held>)
    requires Ledger(active, pending, out, issued, [e] + held)
    ensures Known(issued, e.addr, e.id) && CountIf(Settles(e.id.id), out) == 0
  {
    assert e == ([e] + held)[0];
    assert Conserved(active, pending, out, issued, [e] + held, e.id.id);
    CountFirst(HeldWithId(e.id.id), e, held);
  }

  /** A held request is settled by an event. */
  lemma Settle(active: seq<Active>, pending: seq<PendingRequest>, out: seq<Out>, issued: Issues, e: Held,
               held: seq<Held>, o: Out)
    requires Ledger(active, pending, out, issued, [e] + held) && Settles(e.id.id)(o)
    requires o.RequestFailed? ==> e.id.External?
    requires o.Response? ==> o.addr == e.addr
    ensures Ledger(active, pending, out + [o], issued, held)
  {
    HeldIsOpen(active, pending, out, issued, e, held);
    OrderlyAppend(out, o, issued);
    assert forall i :: 0 <= i < |held| ==> held[i] == ([e] + held)[i + 1];
    forall x ensures Conserved(active, pending, out + [o], issued, held, x) {
      assert Conserved(active, pending, out, issued, [e] + held, x);
      CountFirst(HeldWithId(x), e, held);
      CountAppend(Settles(x), out, o);
      CountAppend(Mentions(x), out, o);
    }
  }

  /** An event that settles nothing. */
  lemma Announce(active: seq<Active>, pending: seq<PendingRequest>, out: seq<Out>, issued: Issues, held: seq<Held>,
                 o: Out)
    requires Ledger(active, pending, out, issued, held) && !o.RequestFailed? && !(o.Response? && o.last)
    requires o.Response? ==> |held| > 0 && o.id == held[0].id.id && o.addr == held[0].addr
    ensures Ledger(active, pending, out + [o], issued, held)
  {
    if o.Response? {
      assert held == [held[0]] + held[1..];
      HeldIsOpen(active, pending, out, issued, held[0], held[1..]);
    }
    OrderlyAppend(out, o, issued);
    forall x ensures Conserved(active, pending, out + [o], issued, held, x) {
      assert Conserved(active, pending, out, issued, held, x);
      CountAppend(Settles(x), out, o);
      CountAppend(Mentions(x), out, o);
    }
  }

  /** A request in flight is taken off the list. */
  lemma Take(active: seq<Active>, pending: seq<PendingRequest>, out: seq<Out>, issued: Issues, i: nat)
    requires Ledger(active, pending, out, issued, []) && i < |active|
    ensures Ledger(RemoveAt(active, i), pending, out, issued, [Held(active[i].addr, active[i].call.id)])
  {
    var t, e := RemoveAt(active, i), Held(active[i].addr, active[i].call.id);
    assert forall p :: 0 <= p < |t| ==> t[p] == active[if p < i then p else p + 1];
    forall x ensures Conserved(t, pending, out, issued, [e], x) {
      assert Conserved(active, pending, out, issued, [], x);
      CountRemoveAt(WithId(x), active, i);
      CountFirst(HeldWithId(x), e, []);
      assert [e] + [] == [e];
    }
  }

  /** A new request. */
  lemma Open(active: seq<Active>, pending: seq<PendingRequest>, out: seq<Out>, issued: Issues, e: Held)
    requires Ledger(active, pending, out, issued, []) && e.id.id !in issued
    ensures Ledger(active, pending, out, issued[e.id.id := Issue(e.addr, e.id.External?)], [e])
  {
    var issued' := issued[e.id.id := Issue(e.addr, e.id.External?)];
    OrderlyWiden(out, issued, e.id.id, issued'[e.id.id]);
    forall x ensures Conserved(active, pending, out, issued', [e], x) {
      assert Conserved(active, pending, out, issued, [], x);
      CountFirst(HeldWithId(x), e, []);
      assert [e] + [] == [e];
    }
  }

  lemma {:induction false} OrderlyWiden(out: seq<Out>, issued: Issues, x: RequestId, entry: Issue)
    requires Orderly(out, issued) && x !in issued
    ensures Orderly(out, issued[x := entry])
  {
    if out != [] {
      OrderlyWiden(out[..|out| - 1], issued, x, entry);
    }
  }

  function HeldPending(rs: seq<PendingRequest>): (r: seq<Held>)
    ensures |r| == |rs| && forall i :: 0 <= i < |rs| ==> r[i] == Held(rs[i].contact.address, rs[i].id)
  {
    seq(|rs|, i requires 0 <= i < |rs| => Held(rs[i].contact.address, rs[i].id))
  }

  function HeldActive(rs: seq<Active>): (r: seq<Held>)
    ensures |r| == |rs| && forall i :: 0 <= i < |rs| ==> r[i] == Held(rs[i].addr, rs[i].call.id)
  {
    seq(|rs|, i requires 0 <= i < |rs| => Held(rs[i].addr, rs[i].call.id))
  }

  lemma {:induction false} CountHeldPending(x: RequestId, rs: seq<PendingRequest>)
    ensures CountIf(HeldWithId(x), HeldPending(rs)) == CountIf(PendingWithId(x), rs)
  {
    if rs != [] {
      CountHeldPending(x, rs[..|rs| - 1]);
      assert HeldPending(rs)[..|rs| - 1] == HeldPending(rs[..|rs| - 1]);
    }
  }

  lemma {:induction false} CountHeldActive(x: RequestId, rs: seq<Active>)
    ensures CountIf(HeldWithId(x), HeldActive(rs)) == CountIf(WithId(x), rs)
  {
    if rs != [] {
      CountHeldActive(x, rs[..|rs| - 1]);
      assert HeldActive(rs)[..|rs| - 1] == HeldActive(rs[..|rs| - 1]);
    }
  }

  lemma FilterElements<T>(f: T -> bool, s: seq<T>, p: T -> bool)
    requires forall i :: 0 <= i < |s| ==> p(s[i])
    ensures forall j :: 0 <= j < |Filter(f, s)| ==> p(Filter(f, s)[j]) && f(Filter(f, s)[j])
  {
    forall j | 0 <= j < |Filter(f, s)| ensures p(Filter(f, s)[j]) && f(Filter(f, s)[j]) {
      var i := FilterAt(f, s, j);
    }
  }

  /** All queued requests to an address are taken out of the queue. */
  lemma TakeQueued(active: seq<Active>, pending: seq<PendingRequest>, out: seq<Out>, issued: Issues, a: NodeAddress)
    requires Ledger(active, pending, out, issued, [])
    ensures Ledger(active, Filter(Not(ForAddress(a)), pending), out, issued,
                   HeldPending(Filter(ForAddress(a), pending)))
  {
    var rest, taken := Filter(Not(ForAddress(a)), pending), Filter(ForAddress(a), pending);
    var known := (p: PendingRequest) =>
      p.id.id in issued && issued[p.id.id] == Issue(p.contact.address, p.id.External?);
    FilterElements(Not(ForAddress(a)), pending, known);
    FilterElements(ForAddress(a), pending, known);
    forall x ensures Conserved(active, rest, out, issued, HeldPending(taken), x) {
      assert Conserved(active, pending, out, issued, [], x);
      CountSplit(PendingWithId(x), ForAddress(a), pending);
      CountHeldPending(x, taken);
    }
  }

  /** All requests in flight to an address are taken off the list. */
  lemma TakeAll(active: seq<Active>, pending: seq<PendingRequest>, out: seq<Out>, issued: Issues, a: NodeAddress)
    requires Ledger(active, pending, out, issued, [])
    ensures Ledger(Filter(Not(At(a)), active), pending, out, issued, HeldActive(Filter(At(a), active)))
  {
    var rest, taken := Filter(Not(At(a)), active), Filter(At(a), active);
    var known := (e: Active) => e.call.id.id in issued && issued[e.call.id.id] == Issue(e.addr, e.call.id.External?);
    FilterElements(Not(At(a)), active, known);
    FilterElements(At(a), active, known);
    forall x ensures Conserved(rest, pending, out, issued, HeldActive(taken), x) {
      assert Conserved(active, pending, out, issued, [], x);
      CountSplit(WithId(x), At(a), active);
      CountHeldActive(x, taken);
    }
  }

  /** A change to the requests in flight that leaves each where it was. */
  lemma Rewrite(active: seq<Active>, active': seq<Active>, pending: seq<PendingRequest>, out: seq<Out>, issued: Issues,
                held: seq<Held>)
    requires Ledger(active, pending, out, issued, held) && |active'| == |active|
    requires forall i :: 0 <= i < |active| ==>
             active'[i].addr == active[i].addr && active'[i].call.id == active[i].call.id
    ensures Ledger(active', pending, out, issued, held)
  {
    forall i | 0 <= i < |active'| ensures Known(issued, active'[i].addr, active'[i].call.id) {
      assert Known(issued, active[i].addr, active[i].call.id);
    }
    forall x ensures Conserved(active', pending, out, issued, held, x) {
      assert Conserved(active, pending, out, issued, held, x);
      CountPointwise(WithId(x), active, active');
    }
  }

  lemma {:induction false} CountPointwise<T>(f: T -> bool, s: seq<T>, t: seq<T>)
    requires |s| == |t| && forall i :: 0 <= i < |s| ==> f(s[i]) == f(t[i])
    ensures CountIf(f, s) == CountIf(f, t)
  {
    if s != [] {
      CountPointwise(f, s[..|s| - 1], t[..|t| - 1]);
    }
  }
}
