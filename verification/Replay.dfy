/** Replaying requests one packet at a time, each found by its old nonce, against replaying the whole list. */
module Replays {
  import opened Wrappers
  import opened HandlerTypes
  import opened HandlerSpec
  import opened ActiveRequestLists
  import opened HandlerBooks
  import opened HandlerRuns
  import opened Lists

  type Replacement = (Nonce, Packet)

  /** The packets that replace those of `calls`, except the one under `skip`. */
  function Replacements(calls: seq<RequestCall>, skip: Option<Nonce>, draws: Draws, k: nat): seq<Replacement> {
    if calls == [] then []
    else
      var n, c := |calls| - 1, calls[|calls| - 1];
      Replacements(calls[..n], skip, draws, k)
        + if skip != Some(c.packet.nonce) && draws(k + n).ok then
          [(c.packet.nonce, Packet(draws(k + n).nonce, MessagePacket))] else []
  }

  function Replace(s: seq<Active>, r: Replacement): seq<Active> {
    var i := Find(WithNonce(r.0), s);
    if i < |s| then s[i := Updated(s[i], r.1)] else s
  }

  function ReplaceAll(s: seq<Active>, rs: seq<Replacement>): seq<Active> {
    if rs == [] then s else Replace(ReplaceAll(s, rs[..|rs| - 1]), rs[|rs| - 1])
  }

  lemma FindAppend<T>(f: T -> bool, s: seq<T>, x: T)
    requires !f(x)
    ensures var i := Find(f, s); Find(f, s + [x]) == if i < |s| then i else |s| + 1
  {
    var i := Find(f, s);
    assert forall j :: 0 <= j < |s| ==> (s + [x])[j] == s[j];
    if i < |s| {
      FindUnique(f, s + [x], i);
    }
  }

  lemma {:induction false} ReplaceAllAppend(s: seq<Active>, e: Active, rs: seq<Replacement>)
    requires forall i :: 0 <= i < |rs| ==> rs[i].0 != e.call.packet.nonce
    ensures ReplaceAll(s + [e], rs) == ReplaceAll(s, rs) + [e]
  {
    if rs != [] {
      var init, r := rs[..|rs| - 1], rs[|rs| - 1];
      ReplaceAllAppend(s, e, init);
      FindAppend(WithNonce(r.0), ReplaceAll(s, init), e);
    }
  }

  lemma {:induction false} ReplaceAllFree(s: seq<Active>, rs: seq<Replacement>, n: Nonce)
    requires NonceFree(s, n) && forall i :: 0 <= i < |rs| ==> rs[i].1.nonce != n
    ensures NonceFree(ReplaceAll(s, rs), n)
  {
    if rs != [] {
      ReplaceAllFree(s, rs[..|rs| - 1], n);
    }
  }

  lemma {:induction false} ReplacementAt(calls: seq<RequestCall>, skip: Option<Nonce>, draws: Draws, k: nat, i: nat)
    returns (m: nat)
    requires i < |Replacements(calls, skip, draws, k)|
    ensures var r := Replacements(calls, skip, draws, k)[i];
            m < |calls| && r.0 == calls[m].packet.nonce && r.1 == Packet(draws(k + m).nonce, MessagePacket)
            && i == |Replacements(calls[..m], skip, draws, k)|
    decreases |calls|
  {
    var init := calls[..|calls| - 1];
    if i < |Replacements(init, skip, draws, k)| {
      m := ReplacementAt(init, skip, draws, k, i);
      assert init[..m] == calls[..m];
    } else {
      m := |calls| - 1;
    }
  }

  ghost predicate Replaced(c: RequestCall, skip: Option<Nonce>, d: Draw) {
    skip != Some(c.packet.nonce) && d.ok
  }

  lemma ReplacementsAppend(calls: seq<RequestCall>, c: RequestCall, skip: Option<Nonce>, draws: Draws, k: nat)
    ensures var d, rs := draws(k + |calls|), Replacements(calls, skip, draws, k);
            && (Replaced(c, skip, d) ==>
                Replacements(calls + [c], skip, draws, k) == rs + [(c.packet.nonce, Packet(d.nonce, MessagePacket))])
            && (!Replaced(c, skip, d) ==> Replacements(calls + [c], skip, draws, k) == rs)
  {
    assert (calls + [c])[..|calls|] == calls;
  }

  /** The replacements when one more request is filed. */
  lemma ReplacementsStep(s: seq<Active>, e: Active, a: NodeAddress, skip: Option<Nonce>, draws: Draws, k: nat)
    ensures var d := draws(k + |Filter(At(a), s)|);
            var rs, rs' := Replacements(CallsAt(s, a), skip, draws, k),
              Replacements(CallsAt(s + [e], a), skip, draws, k);
            if Replays(e, a, skip) && d.ok then rs' == rs + [(e.call.packet.nonce, Packet(d.nonce, MessagePacket))]
            else rs' == rs
  {
    CallsAtAppend(s, e, a);
    if e.addr == a { ReplacementsAppend(CallsAt(s, a), e.call, skip, draws, k); }
  }

  lemma ReplayStep(s: seq<Active>, e: Active, a: NodeAddress, skip: Option<Nonce>, draws: Draws, k: nat)
    ensures var d := draws(k + |Filter(At(a), s)|);
            && ReplayIn(s + [e], a, skip, draws, k) ==
               ReplayIn(s, a, skip, draws, k) +
                 [if Replays(e, a, skip) && d.ok then Updated(e, Packet(d.nonce, MessagePacket)) else e]
            && (Replays(e, a, skip) && d.ok ==>
                  ReplaySends(s + [e], a, skip, draws, k) ==
                    ReplaySends(s, a, skip, draws, k) + [(a, Packet(d.nonce, MessagePacket))])
            && (!(Replays(e, a, skip) && d.ok) ==>
                ReplaySends(s + [e], a, skip, draws, k) == ReplaySends(s, a, skip, draws, k))
  {
    assert (s + [e])[..|s|] == s;
  }

  /** No replacement concerns a nonce that is not among the calls' own. */
  lemma ReplacesCalls(s: seq<Active>, a: NodeAddress, skip: Option<Nonce>, draws: Draws, k: nat, n: Nonce)
    requires NonceFree(s, n)
    ensures var rs := Replacements(CallsAt(s, a), skip, draws, k); forall i :: 0 <= i < |rs| ==> rs[i].0 != n
  {
    var rs := Replacements(CallsAt(s, a), skip, draws, k);
    forall i | 0 <= i < |rs| ensures rs[i].0 != n {
      var m := ReplacementAt(CallsAt(s, a), skip, draws, k, i);
      var j := CallFrom(s, a, m);
    }
  }

  lemma ReplayFree(s: seq<Active>, a: NodeAddress, skip: Option<Nonce>, draws: Draws, k: nat, n: Nonce)
    requires NonceFree(s, n) && forall j :: k <= j ==> draws(j).nonce != n
    ensures NonceFree(ReplayIn(s, a, skip, draws, k), n)
  {
    forall i | 0 <= i < |s| ensures ReplayIn(s, a, skip, draws, k)[i].call.packet.nonce != n {
      ReplayedAt(s, a, skip, draws, k, i);
    }
  }

  /** Replacing packets one by one, each found by its old nonce, replays the whole list. */
  lemma {:induction false} ReplaceAllReplays(s: seq<Active>, a: NodeAddress, skip: Option<Nonce>, draws: Draws, k: nat)
    requires Ready(s, draws, k)
    ensures ReplaceAll(s, Replacements(CallsAt(s, a), skip, draws, k)) == ReplayIn(s, a, skip, draws, k)
    decreases |s|
  {
    if s != [] {
      var init, e := s[..|s| - 1], s[|s| - 1];
      assert s == init + [e];
      ReplaceAllReplays(init, a, skip, draws, k);
      ReplayFree(init, a, skip, draws, k, e.call.packet.nonce);
      ReplaceAllStep(init, e, a, skip, draws, k);
    }
  }

  lemma ReplaceAllPush(s: seq<Active>, rs: seq<Replacement>, r: Replacement)
    ensures ReplaceAll(s, rs + [r]) == Replace(ReplaceAll(s, rs), r)
  {
    assert (rs + [r])[..|rs|] == rs;
  }

  lemma ReplaceLast(t: seq<Active>, e: Active, p: Packet)
    requires NonceFree(t, e.call.packet.nonce)
    ensures Replace(t + [e], (e.call.packet.nonce, p)) == t + [Updated(e, p)]
  {
    FindUnique(WithNonce(e.call.packet.nonce), t + [e], |t|);
  }

  lemma ReplaceOneMore(s: seq<Active>, e: Active, rs: seq<Replacement>, rs': seq<Replacement>, t: seq<Active>,
                       t': seq<Active>, p: Packet, replaced: bool)
    requires ReplaceAll(s, rs) == t && NonceFree(t, e.call.packet.nonce)
    requires forall i :: 0 <= i < |rs| ==> rs[i].0 != e.call.packet.nonce
    requires if replaced then rs' == rs + [(e.call.packet.nonce, p)] else rs' == rs
    requires t' == t + [if replaced then Updated(e, p) else e]
    ensures ReplaceAll(s + [e], rs') == t'
  {
    ReplaceAllAppend(s, e, rs);
    ReplaceAllPush(s + [e], rs, (e.call.packet.nonce, p));
    ReplaceLast(t, e, p);
  }

  lemma ReplaceAllStep(s: seq<Active>, e: Active, a: NodeAddress, skip: Option<Nonce>, draws: Draws, k: nat)
    requires NonceFree(s, e.call.packet.nonce) && NonceFree(ReplayIn(s, a, skip, draws, k), e.call.packet.nonce)
    requires ReplaceAll(s, Replacements(CallsAt(s, a), skip, draws, k)) == ReplayIn(s, a, skip, draws, k)
    ensures ReplaceAll(s + [e], Replacements(CallsAt(s + [e], a), skip, draws, k)) ==
            ReplayIn(s + [e], a, skip, draws, k)
  {
    var d := draws(k + |Filter(At(a), s)|);
    var rs, rs' := Replacements(CallsAt(s, a), skip, draws, k), Replacements(CallsAt(s + [e], a), skip, draws, k);
    var t, t' := ReplayIn(s, a, skip, draws, k), ReplayIn(s + [e], a, skip, draws, k);
    ReplacesCalls(s, a, skip, draws, k, e.call.packet.nonce);
    ReplacementsStep(s, e, a, skip, draws, k);
    ReplayStep(s, e, a, skip, draws, k);
    ReplaceOneMore(s, e, rs, rs', t, t', Packet(d.nonce, MessagePacket), Replays(e, a, skip) && d.ok);
  }

  function Sends(a: NodeAddress, rs: seq<Replacement>): seq<(NodeAddress, Packet)> {
    seq(|rs|, i requires 0 <= i < |rs| => (a, rs[i].1))
  }

  lemma SendsAppend(a: NodeAddress, rs: seq<Replacement>, r: Replacement)
    ensures Sends(a, rs + [r]) == Sends(a, rs) + [(a, r.1)]
  {
  }

  lemma {:induction false} SendsReplay(s: seq<Active>, a: NodeAddress, skip: Option<Nonce>, draws: Draws, k: nat)
    ensures Sends(a, Replacements(CallsAt(s, a), skip, draws, k)) == ReplaySends(s, a, skip, draws, k)
  {
    if s != [] {
      var init, e := s[..|s| - 1], s[|s| - 1];
      assert s == init + [e];
      SendsReplay(init, a, skip, draws, k);
      ReplacementsStep(init, e, a, skip, draws, k);
      ReplayStep(init, e, a, skip, draws, k);
      var d := draws(k + |Filter(At(a), init)|);
      SendsAppend(a, Replacements(CallsAt(init, a), skip, draws, k),
                  (e.call.packet.nonce, Packet(d.nonce, MessagePacket)));
    }
  }

  /** When its turn comes, the new nonce of packet `i` is free. */
  ghost predicate FreeInTurn(s: seq<Active>, rs: seq<Replacement>, i: nat)
    requires i < |rs|
  {
    NonceFree(ReplaceAll(s, rs[..i]), rs[i].1.nonce)
  }

  /** When its turn comes, the request packet `i` replaces is still found by its old nonce. */
  ghost predicate OldInTurn(s: seq<Active>, rs: seq<Replacement>, i: nat)
    requires i < |rs|
  {
    var t := ReplaceAll(s, rs[..i]);
    Find(WithNonce(rs[i].0), t) < |t|
  }

  lemma ReplaceKeepsOther(s: seq<Active>, r: Replacement, n: Nonce)
    requires Find(WithNonce(n), s) < |s| && r.0 != n
    ensures Find(WithNonce(n), Replace(s, r)) < |Replace(s, r)|
  {
    FindHit(WithNonce(n), Replace(s, r), Find(WithNonce(n), s));
  }

  lemma {:induction false} ReplaceAllKeepsOther(s: seq<Active>, rs: seq<Replacement>, n: Nonce)
    requires Find(WithNonce(n), s) < |s| && forall i :: 0 <= i < |rs| ==> rs[i].0 != n
    ensures Find(WithNonce(n), ReplaceAll(s, rs)) < |ReplaceAll(s, rs)|
  {
    if rs != [] {
      ReplaceAllKeepsOther(s, rs[..|rs| - 1], n);
      ReplaceKeepsOther(ReplaceAll(s, rs[..|rs| - 1]), rs[|rs| - 1], n);
    }
  }

  /** The old nonces are those of distinct requests in the list, so none is lost to an earlier replacement. */
  lemma ReplacementsPresent(s: seq<Active>, a: NodeAddress, skip: Option<Nonce>, draws: Draws, k: nat, i: nat)
    requires DistinctNonces(s)
    requires i < |Replacements(CallsAt(s, a), skip, draws, k)|
    ensures OldInTurn(s, Replacements(CallsAt(s, a), skip, draws, k), i)
  {
    var rs := Replacements(CallsAt(s, a), skip, draws, k);
    var m := ReplacementAt(CallsAt(s, a), skip, draws, k, i);
    var p := CallFrom(s, a, m);
    FindHit(WithNonce(rs[i].0), s, p);
    forall j | 0 <= j < i ensures rs[..i][j].0 != rs[i].0 {
      var l := ReplacementAt(CallsAt(s, a), skip, draws, k, j);
      var q := CallFrom(s, a, l);
      assert p != q;
    }
    ReplaceAllKeepsOther(s, rs[..i], rs[i].0);
  }

  /** The new nonces are free in the list and differ from one another. */
  lemma ReplacementsFresh(s: seq<Active>, a: NodeAddress, skip: Option<Nonce>, draws: Draws, k: nat, i: nat)
    requires Fresh(s, draws, k)
    requires i < |Replacements(CallsAt(s, a), skip, draws, k)|
    ensures FreeInTurn(s, Replacements(CallsAt(s, a), skip, draws, k), i)
  {
    var rs := Replacements(CallsAt(s, a), skip, draws, k);
    var m := ReplacementAt(CallsAt(s, a), skip, draws, k, i);
    forall j | 0 <= j < i ensures rs[..i][j].1.nonce != rs[i].1.nonce {
      var l := ReplacementAt(CallsAt(s, a), skip, draws, k, j);
      assert l != m;
    }
    ReplaceAllFree(s, rs[..i], rs[i].1.nonce);
  }
}
