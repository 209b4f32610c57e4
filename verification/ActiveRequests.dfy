/** The requests in flight, kept under two indexes: by address in order of sending, and by message nonce. */
module ActiveRequestLists {
  import opened Wrappers
  import opened HandlerTypes
  import opened Lists

  /** No two requests in flight share a nonce. */
  ghost predicate DistinctNonces(s: seq<Active>) {
    forall i, j :: 0 <= i < j < |s| ==> s[i].call.packet.nonce != s[j].call.packet.nonce
  }

  ghost predicate NonceFree(s: seq<Active>, n: Nonce) {
    forall i :: 0 <= i < |s| ==> s[i].call.packet.nonce != n
  }

  function Calls(s: seq<Active>): (r: seq<RequestCall>)
    ensures |r| == |s| && forall i :: 0 <= i < |s| ==> r[i] == s[i].call
  {
    seq(|s|, i requires 0 <= i < |s| => s[i].call)
  }

  /** The calls filed under an address. */
  function CallsAt(s: seq<Active>, a: NodeAddress): seq<RequestCall> {
    Calls(Filter(At(a), s))
  }

  function Updated(e: Active, p: Packet): Active {
    e.(call := e.call.(packet := p))
  }

  /** `mapping` files each call of `s` under its address, in order, and has no empty list. */
  ghost predicate ByAddress(s: seq<Active>, mapping: map<NodeAddress, seq<RequestCall>>) {
    forall a :: Filed(s, mapping, a)
  }

  ghost predicate Filed(s: seq<Active>, mapping: map<NodeAddress, seq<RequestCall>>, a: NodeAddress) {
    && (a in mapping <==> |CallsAt(s, a)| > 0)
    && (a in mapping ==> mapping[a] == CallsAt(s, a))
  }

  /** `nonces` sends the nonce of each call of `s` to its address, and nothing else. */
  ghost predicate ByNonce(s: seq<Active>, nonces: map<Nonce, NodeAddress>) {
    && (forall i :: 0 <= i < |s| ==> s[i].call.packet.nonce in nonces && nonces[s[i].call.packet.nonce] == s[i].addr)
    && (forall n :: n in nonces ==> Find(WithNonce(n), s) < |s|)
  }

  ghost predicate Indexed(s: seq<Active>, mapping: map<NodeAddress, seq<RequestCall>>, nonces: map<Nonce, NodeAddress>)
  {
    DistinctNonces(s) && ByAddress(s, mapping) && ByNonce(s, nonces)
  }

  // ----- Facts about one address list

  lemma CallsAtAppend(s: seq<Active>, e: Active, a: NodeAddress)
    ensures CallsAt(s + [e], a) == if e.addr == a then CallsAt(s, a) + [e.call] else CallsAt(s, a)
  {
    FilterAppend(At(a), s, e);
  }

  lemma CallsAtRemove(s: seq<Active>, i: nat, a: NodeAddress)
    requires i < |s|
    ensures var k := |CallsAt(s[..i], a)|;
            && (s[i].addr == a ==> k < |CallsAt(s, a)| && CallsAt(s, a)[k] == s[i].call
                                   && CallsAt(RemoveAt(s, i), a) == RemoveAt(CallsAt(s, a), k))
            && (s[i].addr != a ==> CallsAt(RemoveAt(s, i), a) == CallsAt(s, a))
  {
    assert s == (s[..i] + [s[i]]) + s[i + 1..];
    FilterConcat(At(a), s[..i] + [s[i]], s[i + 1..]);
    FilterAppend(At(a), s[..i], s[i]);
    FilterConcat(At(a), s[..i], s[i + 1..]);
  }

  lemma CallsAtUpdate(s: seq<Active>, i: nat, e: Active, a: NodeAddress)
    requires i < |s| && e.addr == s[i].addr
    ensures var k := |CallsAt(s[..i], a)|;
            && (s[i].addr == a ==> k < |CallsAt(s, a)| && CallsAt(s, a)[k] == s[i].call
                                   && CallsAt(s[i := e], a) == CallsAt(s, a)[k := e.call])
            && (s[i].addr != a ==> CallsAt(s[i := e], a) == CallsAt(s, a))
  {
    assert s == (s[..i] + [s[i]]) + s[i + 1..];
    assert s[i := e] == (s[..i] + [e]) + s[i + 1..];
    FilterConcat(At(a), s[..i] + [s[i]], s[i + 1..]);
    FilterConcat(At(a), s[..i] + [e], s[i + 1..]);
    FilterAppend(At(a), s[..i], s[i]);
    FilterAppend(At(a), s[..i], e);
  }

  /** Where a call of an address list sits in the whole list. */
  lemma CallFrom(s: seq<Active>, a: NodeAddress, k: nat) returns (i: nat)
    requires k < |CallsAt(s, a)|
    ensures i < |s| && s[i].addr == a && s[i].call == CallsAt(s, a)[k] && |CallsAt(s[..i], a)| == k
  {
    i := FilterAt(At(a), s, k);
  }

  function CallNonce(n: Nonce): RequestCall -> bool {
    (c: RequestCall) => c.packet.nonce == n
  }

  function CallId(x: RequestId): RequestCall -> bool {
    (c: RequestCall) => c.id.id == x
  }

  /** Searching an address list for a nonce finds the request the nonce belongs to. */
  lemma NonceFound(s: seq<Active>, n: Nonce)
    requires DistinctNonces(s) && Find(WithNonce(n), s) < |s|
    ensures var i := Find(WithNonce(n), s);
            var k := |CallsAt(s[..i], s[i].addr)|;
            Find(CallNonce(n), CallsAt(s, s[i].addr)) == k < |CallsAt(s, s[i].addr)|
  {
    var i := Find(WithNonce(n), s);
    var a := s[i].addr;
    var calls, k := CallsAt(s, a), |CallsAt(s[..i], a)|;
    CallsAtRemove(s, i, a);
    forall j | 0 <= j < k ensures calls[j].packet.nonce != n {
      var i' := CallFrom(s, a, j);
      assert i' != i;
    }
    FindUnique(CallNonce(n), calls, k);
  }

  /** Searching an address list for an id finds the first request of that id filed there. */
  lemma IdFound(s: seq<Active>, a: NodeAddress, x: RequestId)
    ensures var i, k := Find(IdAt(a, x), s), Find(CallId(x), CallsAt(s, a));
            && (i < |s| <==> k < |CallsAt(s, a)|)
            && (i < |s| ==> k == |CallsAt(s[..i], a)|)
  {
    var i, k := Find(IdAt(a, x), s), Find(CallId(x), CallsAt(s, a));
    if k < |CallsAt(s, a)| {
      var i' := CallFrom(s, a, k);
      assert IdAt(a, x)(s[i']);
    }
    if i < |s| {
      CallsAtRemove(s, i, a);
      var k' := |CallsAt(s[..i], a)|;
      assert CallId(x)(CallsAt(s, a)[k']);
      forall j | 0 <= j < k' ensures !CallId(x)(CallsAt(s, a)[j]) {
        var i' := CallFrom(s, a, j);
        if i' > i { CallsAtPrefix(s, i, i', a); }
        assert i' < i;
      }
      FindUnique(CallId(x), CallsAt(s, a), k');
    }
  }

  lemma CallsAtPrefix(s: seq<Active>, i: nat, j: nat, a: NodeAddress)
    requires i <= j <= |s|
    ensures |CallsAt(s[..i], a)| <= |CallsAt(s[..j], a)|
  {
    assert s[..j] == s[..i] + s[i..j];
    FilterConcat(At(a), s[..i], s[i..j]);
  }

  // ----- Keeping the indexes

  lemma AppendKeepsFiled(s: seq<Active>, mapping: map<NodeAddress, seq<RequestCall>>, e: Active)
    requires ByAddress(s, mapping)
    ensures ByAddress(s + [e], mapping[e.addr := (if e.addr in mapping then mapping[e.addr] else []) + [e.call]])
  {
    var mapping' := mapping[e.addr := (if e.addr in mapping then mapping[e.addr] else []) + [e.call]];
    forall a ensures Filed(s + [e], mapping', a) {
      assert Filed(s, mapping, a);
      CallsAtAppend(s, e, a);
    }
  }

  lemma AppendKeepsNonces(s: seq<Active>, nonces: map<Nonce, NodeAddress>, e: Active)
    requires DistinctNonces(s) && ByNonce(s, nonces) && e.call.packet.nonce !in nonces
    ensures DistinctNonces(s + [e]) && ByNonce(s + [e], nonces[e.call.packet.nonce := e.addr])
  {
    forall n | n in nonces[e.call.packet.nonce := e.addr] ensures Find(WithNonce(n), s + [e]) < |s + [e]| {
      FindHit(WithNonce(n), s + [e], if n == e.call.packet.nonce then |s| else Find(WithNonce(n), s));
    }
  }

  lemma AppendIndexed(s: seq<Active>, mapping: map<NodeAddress, seq<RequestCall>>, nonces: map<Nonce, NodeAddress>,
                      e: Active)
    requires Indexed(s, mapping, nonces) && e.call.packet.nonce !in nonces
    ensures Indexed(s + [e],
                    mapping[e.addr := (if e.addr in mapping then mapping[e.addr] else []) + [e.call]],
                    nonces[e.call.packet.nonce := e.addr])
  {
    AppendKeepsFiled(s, mapping, e);
    AppendKeepsNonces(s, nonces, e);
  }

  lemma RemoveKeepsDistinct(s: seq<Active>, i: nat)
    requires DistinctNonces(s) && i < |s|
    ensures DistinctNonces(RemoveAt(s, i)) && NonceFree(RemoveAt(s, i), s[i].call.packet.nonce)
  {
    var t := RemoveAt(s, i);
    forall p | 0 <= p < |t| ensures t[p] == s[if p < i then p else p + 1] {}
  }

  lemma RemoveKeepsNonces(s: seq<Active>, i: nat, nonces: map<Nonce, NodeAddress>)
    requires DistinctNonces(s) && ByNonce(s, nonces) && i < |s|
    ensures ByNonce(RemoveAt(s, i), nonces - {s[i].call.packet.nonce})
  {
    var t, n0 := RemoveAt(s, i), s[i].call.packet.nonce;
    RemoveKeepsDistinct(s, i);
    forall p | 0 <= p < |t|
      ensures t[p].call.packet.nonce in nonces - {n0} && (nonces - {n0})[t[p].call.packet.nonce] == t[p].addr
    {
      assert t[p] == s[if p < i then p else p + 1];
    }
    forall n | n in nonces - {n0} ensures Find(WithNonce(n), t) < |t| {
      StillFound(s, i, n);
    }
  }

  lemma StillFound(s: seq<Active>, i: nat, n: Nonce)
    requires i < |s| && n != s[i].call.packet.nonce && Find(WithNonce(n), s) < |s|
    ensures Find(WithNonce(n), RemoveAt(s, i)) < |RemoveAt(s, i)|
  {
    var j := Find(WithNonce(n), s);
    FindHit(WithNonce(n), RemoveAt(s, i), if j < i then j else j - 1);
  }

  function WithoutAt(mapping: map<NodeAddress, seq<RequestCall>>, a: NodeAddress, k: nat)
    : map<NodeAddress, seq<RequestCall>>
    requires a in mapping && k < |mapping[a]|
  {
    var rest := RemoveAt(mapping[a], k);
    if rest == [] then mapping - {a} else mapping[a := rest]
  }

  lemma RemoveIndexed(s: seq<Active>, mapping: map<NodeAddress, seq<RequestCall>>, nonces: map<Nonce, NodeAddress>,
                      i: nat, k: nat)
    requires Indexed(s, mapping, nonces) && i < |s| && k == |CallsAt(s[..i], s[i].addr)|
    ensures s[i].addr in mapping && k < |mapping[s[i].addr]| && mapping[s[i].addr][k] == s[i].call
    ensures Indexed(RemoveAt(s, i), WithoutAt(mapping, s[i].addr, k), nonces - {s[i].call.packet.nonce})
  {
    assert Filed(s, mapping, s[i].addr);
    CallsAtRemove(s, i, s[i].addr);
    RemoveKeepsNonces(s, i, nonces);
    RemoveKeepsDistinct(s, i);
    RemoveKeepsFiled(s, mapping, i, k);
  }

  lemma RemoveKeepsFiled(s: seq<Active>, mapping: map<NodeAddress, seq<RequestCall>>, i: nat, k: nat)
    requires ByAddress(s, mapping) && i < |s| && k == |CallsAt(s[..i], s[i].addr)|
    requires s[i].addr in mapping && k < |mapping[s[i].addr]|
    ensures ByAddress(RemoveAt(s, i), WithoutAt(mapping, s[i].addr, k))
  {
    forall a ensures Filed(RemoveAt(s, i), WithoutAt(mapping, s[i].addr, k), a) {
      assert Filed(s, mapping, a);
      CallsAtRemove(s, i, a);
    }
  }

  lemma UpdateIndexed(s: seq<Active>, mapping: map<NodeAddress, seq<RequestCall>>, nonces: map<Nonce, NodeAddress>,
                      i: nat, k: nat, p: Packet)
    requires Indexed(s, mapping, nonces) && i < |s| && k == |CallsAt(s[..i], s[i].addr)| && p.nonce !in nonces
    ensures s[i].addr in mapping && k < |mapping[s[i].addr]| && mapping[s[i].addr][k] == s[i].call
    ensures var e := Updated(s[i], p);
            Indexed(s[i := e], mapping[e.addr := mapping[e.addr][k := e.call]],
                    (nonces - {s[i].call.packet.nonce})[p.nonce := e.addr])
  {
    var e := Updated(s[i], p);
    assert Filed(s, mapping, s[i].addr);
    CallsAtUpdate(s, i, e, s[i].addr);
    UpdateKeepsNonces(s, nonces, i, p);
    var mapping' := mapping[e.addr := mapping[e.addr][k := e.call]];
    var t := s[i := e];
    forall a ensures Filed(t, mapping', a) {
      assert Filed(s, mapping, a);
      CallsAtUpdate(s, i, e, a);
    }
  }

  lemma UpdateKeepsNonces(s: seq<Active>, nonces: map<Nonce, NodeAddress>, i: nat, p: Packet)
    requires DistinctNonces(s) && ByNonce(s, nonces) && i < |s| && p.nonce !in nonces
    ensures DistinctNonces(s[i := Updated(s[i], p)])
    ensures ByNonce(s[i := Updated(s[i], p)], (nonces - {s[i].call.packet.nonce})[p.nonce := s[i].addr])
  {
    var t := s[i := Updated(s[i], p)];
    var nonces' := (nonces - {s[i].call.packet.nonce})[p.nonce := s[i].addr];
    forall j | 0 <= j < |t| ensures t[j].call.packet.nonce in nonces' && nonces'[t[j].call.packet.nonce] == t[j].addr {
      assert j != i ==> t[j] == s[j] && s[j].call.packet.nonce in nonces;
    }
    forall n | n in nonces' ensures Find(WithNonce(n), t) < |t| {
      FindHit(WithNonce(n), t, if n == p.nonce then i else Find(WithNonce(n), s));
    }
  }

  lemma {:induction false} DropFiltered(s: seq<Active>, a: NodeAddress, b: NodeAddress)
    ensures Filter(At(b), Filter(Not(At(a)), s)) == if a == b then [] else Filter(At(b), s)
  {
    if s != [] {
      var init, e := s[..|s| - 1], s[|s| - 1];
      DropFiltered(init, a, b);
      if e.addr != a {
        FilterAppend(At(b), Filter(Not(At(a)), init), e);
      } else {
        assert Filter(Not(At(a)), s) == Filter(Not(At(a)), init);
      }
    }
  }

  lemma FilterDistinct(f: Active -> bool, s: seq<Active>)
    requires DistinctNonces(s)
    ensures DistinctNonces(Filter(f, s))
  {
    var t := Filter(f, s);
    forall p, q | 0 <= p < q < |t| ensures t[p].call.packet.nonce != t[q].call.packet.nonce {
      var i := FilterAt(f, s, p);
      var j := FilterAt(f, s, q);
      assert i != j;
    }
  }

  function NoncesOf(calls: seq<RequestCall>): set<Nonce> {
    set i | 0 <= i < |calls| :: calls[i].packet.nonce
  }

  lemma NonceListed(s: seq<Active>, a: NodeAddress, i: nat)
    requires i < |s|
    ensures s[i].addr == a ==> s[i].call.packet.nonce in NoncesOf(CallsAt(s, a))
  {
    if s[i].addr == a {
      var k := FilterHas(At(a), s, i);
      assert CallsAt(s, a)[k].packet.nonce == s[i].call.packet.nonce;
    }
  }

  lemma DropKeepsNonces(s: seq<Active>, nonces: map<Nonce, NodeAddress>, a: NodeAddress)
    requires DistinctNonces(s) && ByNonce(s, nonces)
    ensures ByNonce(Filter(Not(At(a)), s), nonces - NoncesOf(CallsAt(s, a)))
  {
    var t, calls := Filter(Not(At(a)), s), CallsAt(s, a);
    var nonces' := nonces - NoncesOf(calls);
    forall j | 0 <= j < |t| ensures t[j].call.packet.nonce in nonces' && nonces'[t[j].call.packet.nonce] == t[j].addr {
      var i := FilterAt(Not(At(a)), s, j);
      forall k | 0 <= k < |calls| ensures calls[k].packet.nonce != s[i].call.packet.nonce {
        var i' := CallFrom(s, a, k);
      }
    }
    forall n | n in nonces' ensures Find(WithNonce(n), t) < |t| {
      var i := Find(WithNonce(n), s);
      NonceListed(s, a, i);
      var j := FilterHas(Not(At(a)), s, i);
      FindHit(WithNonce(n), t, j);
    }
  }

  lemma DropIndexed(s: seq<Active>, mapping: map<NodeAddress, seq<RequestCall>>, nonces: map<Nonce, NodeAddress>,
                    a: NodeAddress)
    requires Indexed(s, mapping, nonces)
    ensures Indexed(Filter(Not(At(a)), s), mapping - {a}, nonces - NoncesOf(CallsAt(s, a)))
  {
    var t := Filter(Not(At(a)), s);
    FilterDistinct(Not(At(a)), s);
    DropKeepsNonces(s, nonces, a);
    forall b ensures Filed(t, mapping - {a}, b) {
      assert Filed(s, mapping, b);
      DropFiltered(s, a, b);
    }
  }

  /** The calls under an address have distinct nonces, all of them in the index. */
  lemma CallsIndexed(s: seq<Active>, nonces: map<Nonce, NodeAddress>, a: NodeAddress)
    requires DistinctNonces(s) && ByNonce(s, nonces)
    ensures forall k :: 0 <= k < |CallsAt(s, a)| ==> CallsAt(s, a)[k].packet.nonce in nonces
    ensures forall k, l :: 0 <= k < l < |CallsAt(s, a)| ==>
            CallsAt(s, a)[k].packet.nonce != CallsAt(s, a)[l].packet.nonce
  {
    FilterDistinct(At(a), s);
    forall k | 0 <= k < |CallsAt(s, a)| ensures CallsAt(s, a)[k].packet.nonce in nonces {
      var i := CallFrom(s, a, k);
    }
  }

  // ----- What a search of the two indexes finds

  lemma Absent(s: seq<Active>, nonces: map<Nonce, NodeAddress>, n: Nonce)
    requires ByNonce(s, nonces)
    ensures n in nonces <==> Find(WithNonce(n), s) < |s|
  {
    var i := Find(WithNonce(n), s);
    if i < |s| { assert s[i].call.packet.nonce in nonces; }
  }

  /** A nonce of the index leads to the address list holding its request. */
  lemma Present(s: seq<Active>, mapping: map<NodeAddress, seq<RequestCall>>, nonces: map<Nonce, NodeAddress>, n: Nonce)
    requires Indexed(s, mapping, nonces) && n in nonces
    ensures nonces[n] in mapping
    ensures var i, k := Find(WithNonce(n), s), Find(CallNonce(n), mapping[nonces[n]]);
            && i < |s| && k < |mapping[nonces[n]]| && s[i] == Active(nonces[n], mapping[nonces[n]][k])
            && k == |CallsAt(s[..i], s[i].addr)|
  {
    var i := Find(WithNonce(n), s);
    assert nonces[s[i].call.packet.nonce] == s[i].addr;
    assert Filed(s, mapping, s[i].addr);
    NonceFound(s, n);
    CallsAtRemove(s, i, s[i].addr);
  }

  lemma RemoveByNonceIndexed(s: seq<Active>, mapping: map<NodeAddress, seq<RequestCall>>,
                             nonces: map<Nonce, NodeAddress>, n: Nonce)
    requires Indexed(s, mapping, nonces) && n in nonces
    ensures var a, i := nonces[n], Find(WithNonce(n), s);
            && a in mapping && i < |s|
            && var k := Find(CallNonce(n), mapping[a]);
            && k < |mapping[a]| && s[i] == Active(a, mapping[a][k])
            && Indexed(RemoveAt(s, i), WithoutAt(mapping, a, k), nonces - {n})
  {
    Present(s, mapping, nonces, n);
    RemoveIndexed(s, mapping, nonces, Find(WithNonce(n), s), Find(CallNonce(n), mapping[nonces[n]]));
  }

  lemma UpdatePacketIndexed(s: seq<Active>, mapping: map<NodeAddress, seq<RequestCall>>,
                            nonces: map<Nonce, NodeAddress>, n: Nonce, p: Packet)
    requires Indexed(s, mapping, nonces) && n in nonces && NonceFree(s, p.nonce)
    ensures var a, i := nonces[n], Find(WithNonce(n), s);
            && a in mapping && i < |s|
            && var k := Find(CallNonce(n), mapping[a]);
            && k < |mapping[a]|
            && Indexed(s[i := Updated(s[i], p)], mapping[a := mapping[a][k := mapping[a][k].(packet := p)]],
                       (nonces - {n})[p.nonce := a])
  {
    Present(s, mapping, nonces, n);
    Absent(s, nonces, p.nonce);
    UpdateIndexed(s, mapping, nonces, Find(WithNonce(n), s), Find(CallNonce(n), mapping[nonces[n]]), p);
  }

  lemma RemoveRequestIndexed(s: seq<Active>, mapping: map<NodeAddress, seq<RequestCall>>,
                             nonces: map<Nonce, NodeAddress>, a: NodeAddress, x: RequestId)
    requires Indexed(s, mapping, nonces)
    ensures var i := Find(IdAt(a, x), s);
            && (a !in mapping ==> i == |s|)
            && (a in mapping ==>
                  var k := Find(CallId(x), mapping[a]);
                  && (k == |mapping[a]| ==> i == |s|)
                  && (k < |mapping[a]| ==>
                        && i < |s| && s[i] == Active(a, mapping[a][k])
                        && Indexed(RemoveAt(s, i), WithoutAt(mapping, a, k), nonces - {mapping[a][k].packet.nonce})))
  {
    assert Filed(s, mapping, a);
    IdFound(s, a, x);
    var i := Find(IdAt(a, x), s);
    if i < |s| {
      RemoveIndexed(s, mapping, nonces, i, Find(CallId(x), mapping[a]));
    }
  }

  // ----- The class

  class ActiveRequests {
    var mapping: map<NodeAddress, seq<RequestCall>>
    var nonces: map<Nonce, NodeAddress>

    /** All requests in flight, in order of (re)insertion. */
    ghost var list: seq<Active>

    ghost predicate Valid()
      reads this
    {
      Indexed(list, mapping, nonces)
    }

    constructor ()
      ensures Valid() && list == []
    {
      mapping, nonces, list := map[], map[], [];
    }

    method Insert(addr: NodeAddress, call: RequestCall)
      requires Valid() && NonceFree(list, call.packet.nonce)
      modifies this
      ensures Valid() && list == old(list) + [Active(addr, call)]
    {
      Absent(list, nonces, call.packet.nonce);
      AppendIndexed(list, mapping, nonces, Active(addr, call));
      var calls := if addr in mapping then mapping[addr] else [];
      mapping := mapping[addr := calls + [call]];
      nonces := nonces[call.packet.nonce := addr];
      list := list + [Active(addr, call)];
    }

    method UpdatePacket(oldNonce: Nonce, packet: Packet)
      requires Valid() && NonceFree(list, packet.nonce) && Find(WithNonce(oldNonce), list) < |list|
      modifies this
      ensures Valid()
      ensures var i := Find(WithNonce(oldNonce), old(list));
              list == old(list)[i := Updated(old(list)[i], packet)]
    {
      Absent(list, nonces, oldNonce);
      if oldNonce !in nonces {
        assert false;
      }
      UpdatePacketIndexed(list, mapping, nonces, oldNonce, packet);
      var addr := nonces[oldNonce];
      nonces := (nonces - {oldNonce})[packet.nonce := addr];
      if addr !in mapping {
        assert false;
      }
      var k := Find(CallNonce(oldNonce), mapping[addr]);
      if k == |mapping[addr]| {
        assert false;
      }
      mapping := mapping[addr := mapping[addr][k := mapping[addr][k].(packet := packet)]];
      ghost var i := Find(WithNonce(oldNonce), list);
      list := list[i := Updated(list[i], packet)];
    }

    method Get(addr: NodeAddress) returns (calls: seq<RequestCall>)
      requires Valid()
      ensures calls == CallsAt(list, addr)
    {
      assert Filed(list, mapping, addr);
      calls := if addr in mapping then mapping[addr] else [];
    }

    method RemoveByNonce(nonce: Nonce) returns (r: Option<Active>)
      requires Valid()
      modifies this
      ensures Valid()
      ensures var i := Find(WithNonce(nonce), old(list));
              if i < |old(list)| then r == Some(old(list)[i]) && list == RemoveAt(old(list), i)
              else r == None && list == old(list)
    {
      Absent(list, nonces, nonce);
      if nonce !in nonces {
        return None;
      }
      RemoveByNonceIndexed(list, mapping, nonces, nonce);
      var addr := nonces[nonce];
      nonces := nonces - {nonce};
      if addr !in mapping {
        assert false;
      }
      var k := Find(CallNonce(nonce), mapping[addr]);
      r := Some(Active(addr, mapping[addr][k]));
      mapping := WithoutAt(mapping, addr, k);
      list := RemoveAt(list, Find(WithNonce(nonce), list));
    }

    /** The timer of a request has fired; only nonces in the index have a timer. */
    method Expire(nonce: Nonce) returns (e: Active)
      requires Valid() && nonce in nonces
      modifies this
      ensures Valid()
      ensures var i := Find(WithNonce(nonce), old(list));
              i < |old(list)| && e == old(list)[i] && list == RemoveAt(old(list), i)
    {
      Absent(list, nonces, nonce);
      var r := RemoveByNonce(nonce);
      e := r.value;
    }

    method RemoveRequest(addr: NodeAddress, id: RequestId) returns (r: Option<RequestCall>)
      requires Valid()
      modifies this
      ensures Valid()
      ensures var i := Find(IdAt(addr, id), old(list));
              if i < |old(list)| then r == Some(old(list)[i].call) && list == RemoveAt(old(list), i)
              else r == None && list == old(list)
    {
      RemoveRequestIndexed(list, mapping, nonces, addr, id);
      if addr !in mapping {
        return None;
      }
      var k := Find(CallId(id), mapping[addr]);
      if k == |mapping[addr]| {
        return None;
      }
      var call := mapping[addr][k];
      mapping := WithoutAt(mapping, addr, k);
      nonces := nonces - {call.packet.nonce};
      list := RemoveAt(list, Find(IdAt(addr, id), list));
      return Some(call);
    }

    method RemoveRequests(addr: NodeAddress) returns (r: Option<seq<RequestCall>>)
      requires Valid()
      modifies this
      ensures Valid()
      ensures list == Filter(Not(At(addr)), old(list))
      ensures r == if CallsAt(old(list), addr) == [] then None else Some(CallsAt(old(list), addr))
    {
      assert Filed(list, mapping, addr);
      DropIndexed(list, mapping, nonces, addr);
      CallsIndexed(list, nonces, addr);
      ghost var calls := CallsAt(list, addr);
      if addr !in mapping {
        NothingToDrop(list, addr);
        return None;
      }
      var requests := mapping[addr];
      mapping := mapping - {addr};
      if requests == [] {
        assert false;
      }
      nonces := RemoveNonces(nonces, requests);
      list := Filter(Not(At(addr)), list);
      return Some(requests);
    }

    static method RemoveNonces(nonces: map<Nonce, NodeAddress>, requests: seq<RequestCall>)
      returns (r: map<Nonce, NodeAddress>)
      requires forall k :: 0 <= k < |requests| ==> requests[k].packet.nonce in nonces
      requires forall k, l :: 0 <= k < l < |requests| ==> requests[k].packet.nonce != requests[l].packet.nonce
      ensures r == nonces - NoncesOf(requests)
    {
      r := nonces;
      for k := 0 to |requests|
        invariant r == nonces - NoncesOf(requests[..k])
      {
        var n := requests[k].packet.nonce;
        assert n !in NoncesOf(requests[..k]);
        if n !in r {
          assert false;
        }
        r := r - {n};
        assert NoncesOf(requests[..k + 1]) == NoncesOf(requests[..k]) + {n};
      }
      assert requests[..|requests|] == requests;
    }
  }

  lemma {:induction false} NothingToDrop(s: seq<Active>, a: NodeAddress)
    requires CallsAt(s, a) == []
    ensures Filter(Not(At(a)), s) == s
  {
    if s != [] {
      assert s[|s| - 1].addr != a;
      NothingToDrop(s[..|s| - 1], a);
      assert s == s[..|s| - 1] + [s[|s| - 1]];
    }
  }
}
