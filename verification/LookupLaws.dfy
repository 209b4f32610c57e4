/** A lookup's peers as a map from ids: what each callback makes of it, and which ids it holds. */
module LookupLaws {
  import opened Wrappers
  import opened Keys
  import opened Lists
  import opened Lookups
  import opened LookupRuns

  function WithKey(k: Key): Peer -> bool {
    (p: Peer) => p.key == k
  }

  /** What a lookup knows of `k`. */
  function Look(peers: seq<Peer>, k: Key): Option<Peer> {
    var i := Find(WithKey(k), peers);
    if i < |peers| then Some(peers[i]) else None
  }

  lemma LookAt(cfg: Config, peers: seq<Peer>, i: nat)
    requires Ordered(cfg, peers) && i < |peers|
    ensures Look(peers, peers[i].key) == Some(peers[i])
  {
    FindUnique(WithKey(peers[i].key), peers, i);
  }

  lemma LookHas(peers: seq<Peer>, k: Key)
    ensures Look(peers, k).Some? <==> Has(peers, k)
    ensures Look(peers, k).Some? ==> Look(peers, k).value.key == k && Look(peers, k).value in peers
  {
    if i :| 0 <= i < |peers| && peers[i].key == k { FindHit(WithKey(k), peers, i); }
  }

  // ----- Peers that join

  function Named(k: Key): Candidate -> bool {
    (c: Candidate) => c.key == k
  }

  /** A peer that nothing is known of but that it was named, by the first of `cs` that names it. */
  function FirstNamed(variant: Variant, cs: seq<Candidate>, k: Key): Option<Peer> {
    var i := Find(Named(k), cs);
    if i < |cs| then Some(Peer(k, variant.FindNode? || cs[i].matches, 0, NotContacted)) else None
  }

  lemma LookInserted(cfg: Config, peers: seq<Peer>, p: Peer, k: Key)
    requires Injective(cfg.dist) && Ordered(cfg, peers) && !Has(peers, p.key)
    ensures var t := InsertAt(peers, Place(cfg, peers, cfg.dist(p.key)), p);
            Ordered(cfg, t) && Look(t, k) == if k == p.key then Some(p) else Look(peers, k)
  {
    var n := Place(cfg, peers, cfg.dist(p.key));
    OccupiedIsKnown(cfg, peers, p.key);
    InsertOrdered(cfg, peers, p);
    LookAmong(cfg, peers, InsertAt(peers, n, p), n, p, k);
  }

  lemma LookAmong(cfg: Config, peers: seq<Peer>, t: seq<Peer>, n: nat, p: Peer, k: Key)
    requires Ordered(cfg, peers) && n <= |peers| && t == InsertAt(peers, n, p) && Ordered(cfg, t)
    ensures Look(t, k) == if k == p.key then Some(p) else Look(peers, k)
  {
    assert t[n] == p;
    var i := Find(WithKey(k), peers);
    if k == p.key {
      LookAt(cfg, t, n);
    } else if i < |peers| {
      var j := if i < n then i else i + 1;
      assert t[j] == peers[i];
      LookAt(cfg, t, j);
    } else {
      forall j | 0 <= j < |t| ensures t[j].key != k {
        assert t[j] == if j < n then peers[j] else if j == n then p else peers[j - 1];
      }
    }
  }

  lemma JoinLook(cfg: Config, peers: seq<Peer>, c: Candidate, k: Key)
    requires Injective(cfg.dist) && Ordered(cfg, peers)
    ensures Ordered(cfg, Join(cfg, peers, c))
    ensures Look(Join(cfg, peers, c), k) ==
            if Look(peers, k).None? && c.key == k then FirstNamed(cfg.variant, [c], k) else Look(peers, k)
  {
    OccupiedIsKnown(cfg, peers, c.key);
    LookHas(peers, k);
    if !Has(peers, c.key) { LookInserted(cfg, peers, Fresh(cfg, c), k); }
  }

  lemma FirstNamedAppend(variant: Variant, cs: seq<Candidate>, k: Key)
    requires cs != []
    ensures var init, c := cs[..|cs| - 1], cs[|cs| - 1];
            FirstNamed(variant, cs, k) == if FirstNamed(variant, init, k).Some? then FirstNamed(variant, init, k)
                                          else FirstNamed(variant, [c], k)
  {
    var init, c := cs[..|cs| - 1], cs[|cs| - 1];
    var i := Find(Named(k), init);
    if i < |init| {
      FindUnique(Named(k), cs, i);
    } else if c.key == k {
      FindUnique(Named(k), cs, |cs| - 1);
    } else {
      assert forall j :: 0 <= j < |cs| ==> !Named(k)(cs[j]);
    }
  }

  /** Joining adds exactly the named peers that are not known yet, and leaves the others as they are. */
  lemma {:induction false} JoinAllLook(cfg: Config, peers: seq<Peer>, cs: seq<Candidate>, k: Key)
    requires Injective(cfg.dist) && Ordered(cfg, peers)
    ensures Ordered(cfg, JoinAll(cfg, peers, cs))
    ensures Look(JoinAll(cfg, peers, cs), k) ==
            if Look(peers, k).Some? then Look(peers, k) else FirstNamed(cfg.variant, cs, k)
  {
    if cs != [] {
      var init := cs[..|cs| - 1];
      JoinAllLook(cfg, peers, init, k);
      JoinLook(cfg, JoinAll(cfg, peers, init), cs[|cs| - 1], k);
      FirstNamedAppend(cfg.variant, cs, k);
    }
  }

  /** Replacing a peer by one of the same key changes what is known of that key only. */
  lemma LookReplaced(cfg: Config, peers: seq<Peer>, i: nat, p: Peer, k: Key)
    requires Ordered(cfg, peers) && i < |peers| && p.key == peers[i].key
    ensures Ordered(cfg, peers[i := p]) && Look(peers[i := p], k) == if k == p.key then Some(p) else Look(peers, k)
  {
    var t := peers[i := p];
    assert t[i] == p;
    LookAt(cfg, t, i);
    LookHas(peers, k);
    LookHas(t, k);
    if k != p.key {
      if j :| 0 <= j < |peers| && peers[j].key == k {
        assert t[j] == peers[j];
        LookAt(cfg, t, j);
        LookAt(cfg, peers, j);
      } else {
        assert forall j :: 0 <= j < |t| ==> t[j] == if j == i then p else peers[j];
      }
    }
  }

  /** A peer named when the lookup starts, by the last of `cs` that names it. */
  function LastNamed(variant: Variant, cs: seq<Candidate>, k: Key): Option<Peer> {
    if cs == [] then None
    else if cs[|cs| - 1].key == k then FirstNamed(variant, [cs[|cs| - 1]], k)
    else LastNamed(variant, cs[..|cs| - 1], k)
  }

  lemma {:induction false} BeginAllLook(cfg: Config, cs: seq<Candidate>, k: Key)
    requires Injective(cfg.dist)
    ensures Ordered(cfg, BeginAll(cfg, cs)) && Look(BeginAll(cfg, cs), k) == LastNamed(cfg.variant, cs, k)
  {
    if cs != [] {
      var peers, c := BeginAll(cfg, cs[..|cs| - 1]), cs[|cs| - 1];
      BeginAllLook(cfg, cs[..|cs| - 1], k);
      OccupiedIsKnown(cfg, peers, c.key);
      LookHas(peers, k);
      if Has(peers, c.key) {
        LookReplaced(cfg, peers, Place(cfg, peers, cfg.dist(c.key)), Fresh(cfg, c), k);
      } else {
        LookInserted(cfg, peers, Fresh(cfg, c), k);
      }
    }
  }

  // ----- Callbacks

  /** The lookup takes an answer from `key`: it is unfinished and waits, or waited in vain, for that peer. */
  predicate Takes(l: Lookup, key: Key) {
    && !l.progress.Finished? && Look(l.peers, key).Some?
    && (Look(l.peers, key).value.state.Waiting? || Look(l.peers, key).value.state.Unresponsive?)
  }

  lemma Located(cfg: Config, l: Lookup, key: Key)
    requires Injective(cfg.dist) && Ordered(cfg, l.peers)
    ensures Occupied(cfg, l.peers, cfg.dist(key)) <==> Look(l.peers, key).Some?
    ensures Look(l.peers, key).Some? ==> Look(l.peers, key).value == l.peers[Place(cfg, l.peers, cfg.dist(key))]
    ensures Look(l.peers, key).Some? ==> Look(l.peers, key).value.key == key
  {
    OccupiedIsKnown(cfg, l.peers, key);
    LookHas(l.peers, key);
    if Has(l.peers, key) { LookAt(cfg, l.peers, Place(cfg, l.peers, cfg.dist(key))); }
  }

  /** After an answer the lookup takes, the peer that answered has succeeded, every other known peer is as before, and
      exactly the peers named in the answer are new, not contacted yet. Other answers change nothing. */
  lemma SuccessJoins(cfg: Config, l: Lookup, key: Key, cs: seq<Candidate>, k: Key)
    requires Injective(cfg.dist) && Ordered(cfg, l.peers)
    ensures !Takes(l, key) ==> OnSuccess(cfg, l, key, cs) == l
    ensures Takes(l, key) ==>
              var p := Look(l.peers, key).value;
              Look(OnSuccess(cfg, l, key, cs).peers, k) ==
                if k == key then Some(Peer(key, p.matches, p.returned + |cs|, Succeeded))
                else if Look(l.peers, k).Some? then Look(l.peers, k)
                else FirstNamed(cfg.variant, cs, k)
  {
    Located(cfg, l, key);
    if Takes(l, key) {
      var i := Place(cfg, l.peers, cfg.dist(key));
      var p := Answered(l.peers[i], |cs|);
      LookReplaced(cfg, l.peers, i, p, k);
      JoinAllLook(cfg, l.peers[i := p], cs, k);
    }
  }

  /** After a failure the lookup takes note of, that peer has failed and every other is as before. */
  lemma FailureMarks(cfg: Config, l: Lookup, key: Key, k: Key)
    requires Injective(cfg.dist) && Ordered(cfg, l.peers)
    ensures var noted := Takes(l, key) && (cfg.variant.FindNode? || Look(l.peers, key).value.state.Waiting?);
            && (!noted ==> OnFailure(cfg, l, key) == l)
            && (noted ==>
                  var l', p := OnFailure(cfg, l, key), Look(l.peers, key).value;
                  && Look(l'.peers, k) ==
                       (if k == key then Some(Peer(key, p.matches, p.returned, Failed)) else Look(l.peers, k))
                  && l'.progress == l.progress && l'.handed == l.handed)
  {
    Located(cfg, l, key);
    if Takes(l, key) {
      var i := Place(cfg, l.peers, cfg.dist(key));
      LookReplaced(cfg, l.peers, i, Restated(l.peers[i], Failed), k);
    }
  }

  // ----- Polling

  ghost predicate Expired(p: Peer, now: int) {
    p.state.Waiting? && p.state.timeout <= now
  }

  /** What a poll may do to one peer: give up waiting, or contact it. */
  ghost predicate Polled(cfg: Config, p: Peer, p': Peer, now: int, v: Verdict) {
    || p' == p
    || (Expired(p, now) && p' == Peer(p.key, p.matches, p.returned, Unresponsive))
    || (v == Contact(p.key) && p.state.NotContacted? &&
        p' == Peer(p.key, p.matches, p.returned, Waiting(now + cfg.peerTimeout)))
  }

  /** A pass from `i` on went over the peers up to `j` without leaving one to contact or give up. */
  ghost predicate Swept(peers: seq<Peer>, peers': seq<Peer>, now: int, i: nat, j: nat) {
    forall m :: i <= m < j <= |peers| == |peers'| ==> !peers[m].state.NotContacted? && !Expired(peers'[m], now)
  }

  ghost predicate PassedOver(cfg: Config, l: Lookup, l': Lookup, v: Verdict, now: int, full: bool, i: nat) {
    && |l'.peers| == |l.peers|
    && (forall m :: 0 <= m < |l.peers| ==> Polled(cfg, l.peers[m], l'.peers[m], now, v))
    && (forall m :: 0 <= m < i && m < |l.peers| ==> l'.peers[m] == l.peers[m])
    && (v.Contact? ==>
          !full && exists j :: i <= j < |l.peers| && l.peers[j].key == v.key && l.peers[j].state.NotContacted?
                               && l'.peers[j].state == Waiting(now + cfg.peerTimeout)
                               && Swept(l.peers, l'.peers, now, i, j))
    && (v.Wait? ==> l'.waiting > 0 && Swept(l.peers, l'.peers, now, i, |l.peers|))
    && (v.AtCapacity? ==> full && exists j :: i <= j < |l.peers| && Open(l.peers[j], now))
  }

  /** A peer to contact, or one that may still answer. */
  ghost predicate Open(p: Peer, now: int) {
    p.state.NotContacted? || (p.state.Waiting? && !Expired(p, now))
  }

  lemma PassOver(cfg: Config, l: Lookup, l1: Lookup, l': Lookup, v: Verdict, now: int, full: bool, i: nat)
    requires i < |l.peers| && !l.peers[i].state.NotContacted? && PassedOver(cfg, l1, l', v, now, full, i + 1)
    requires |l1.peers| == |l.peers| && forall m :: 0 <= m < |l.peers| && m != i ==> l1.peers[m] == l.peers[m]
    requires if Expired(l.peers[i], now) then l1.peers[i] == Restated(l.peers[i], Unresponsive)
             else l1.peers[i] == l.peers[i]
    ensures PassedOver(cfg, l, l', v, now, full, i)
  {
    if v.Contact? {
      var j :| i + 1 <= j < |l1.peers| && l1.peers[j].key == v.key && l1.peers[j].state.NotContacted?
               && l'.peers[j].state == Waiting(now + cfg.peerTimeout) && Swept(l1.peers, l'.peers, now, i + 1, j);
      assert Swept(l.peers, l'.peers, now, i, j);
    }
    if v.AtCapacity? {
      var j :| i + 1 <= j < |l1.peers| && Open(l1.peers[j], now);
      assert Open(l.peers[j], now);
    }
  }

  lemma {:induction false} ScanPassesOver(cfg: Config, l: Lookup, now: int, full: bool, i: nat, counter: Option<nat>)
    requires i <= |l.peers|
    ensures var r := Scan(cfg, l, now, full, i, counter);
            PassedOver(cfg, l, r.0, r.1, now, full, i)
    decreases |l.peers| - i
  {
    if i < |l.peers| {
      var p := l.peers[i];
      if p.state.NotContacted? {
        assert Open(l.peers[i], now);
        if !full { assert Swept(l.peers, HandOut(cfg, l, i, now).peers, now, i, i); }
      } else if p.state.Waiting? && now >= p.state.timeout {
        var l1 := TimeOut(l, i);
        ScanPassesOver(cfg, l1, now, full, i + 1, counter);
        var r := Scan(cfg, l1, now, full, i + 1, counter);
        PassOver(cfg, l, l1, r.0, r.1, now, full, i);
      } else {
        ScanOn(cfg, l, now, full, i, counter);
      }
    }
  }

  lemma {:induction false} ScanOn(cfg: Config, l: Lookup, now: int, full: bool, i: nat, counter: Option<nat>)
    requires i < |l.peers| && !l.peers[i].state.NotContacted? && !Expired(l.peers[i], now)
    ensures var r := Scan(cfg, l, now, full, i, counter);
            PassedOver(cfg, l, r.0, r.1, now, full, i)
    decreases |l.peers| - i, 0
  {
    var p, r := l.peers[i], Scan(cfg, l, now, full, i, counter);
    var counter' := if p.state.Waiting? && p.matches then None
                    else if p.state.Succeeded? && p.matches && counter.Some? then Some(counter.value + 1)
                    else counter;
    ScanPassesOver(cfg, l, now, full, i + 1, counter');
    if p.state.Waiting? { assert Open(l.peers[i], now); }
    if r == Scan(cfg, l, now, full, i + 1, counter') {
      PassOver(cfg, l, l, r.0, r.1, now, full, i);
    }
  }

  /** A poll contacts the closest peer not contacted yet, provided fewer than the stage of the lookup allows are waited
      for; while such a peer is left it never just waits. On the way it gives up on peers that are overdue, and it does
      nothing else to any peer. */
  lemma NextContactsClosest(cfg: Config, l: Lookup, now: int)
    requires Ordered(cfg, l.peers)
    ensures var (l', v) := Next(cfg, l, now);
            && |l'.peers| == |l.peers|
            && (forall m :: 0 <= m < |l.peers| ==> Polled(cfg, l.peers[m], l'.peers[m], now, v))
            && (v.Contact? ==>
                  && l.waiting < Capacity(cfg, l.progress)
                  && Look(l.peers, v.key).Some? && Look(l.peers, v.key).value.state.NotContacted?
                  && Look(l'.peers, v.key).Some? && Look(l'.peers, v.key).value.state == Waiting(now + cfg.peerTimeout)
                  && forall m :: 0 <= m < |l.peers| && cfg.dist(l.peers[m].key) < cfg.dist(v.key) ==>
                       !l.peers[m].state.NotContacted? && !Expired(l'.peers[m], now))
            && (v.Wait? ==>
                  l'.waiting > 0 &&
                  forall m :: 0 <= m < |l.peers| ==> !l.peers[m].state.NotContacted? && !Expired(l'.peers[m], now))
            && (v.AtCapacity? ==>
                  l.waiting >= Capacity(cfg, l.progress) && exists m :: 0 <= m < |l.peers| && Open(l.peers[m], now))
            && (l.progress.Finished? ==> v.Done? && l' == l)
  {
    var (l', v) := Next(cfg, l, now);
    if !l.progress.Finished? {
      ScanPassesOver(cfg, l, now, Full(cfg, l), 0, Some(0));
      assert PassedOver(cfg, l, l', v, now, Full(cfg, l), 0);
      if v.Contact? { ContactIsClosest(cfg, l, l', v, now); }
    }
  }

  lemma ContactIsClosest(cfg: Config, l: Lookup, l': Lookup, v: Verdict, now: int)
    requires Ordered(cfg, l.peers) && v.Contact? && PassedOver(cfg, l, l', v, now, Full(cfg, l), 0)
    ensures Look(l.peers, v.key).Some? && Look(l.peers, v.key).value.state.NotContacted?
    ensures Look(l'.peers, v.key).Some? && Look(l'.peers, v.key).value.state == Waiting(now + cfg.peerTimeout)
    ensures forall m :: 0 <= m < |l.peers| && cfg.dist(l.peers[m].key) < cfg.dist(v.key) ==>
              !l.peers[m].state.NotContacted? && !Expired(l'.peers[m], now)
  {
    var j :| 0 <= j < |l.peers| && l.peers[j].key == v.key && l.peers[j].state.NotContacted?
             && l'.peers[j].state == Waiting(now + cfg.peerTimeout) && Swept(l.peers, l'.peers, now, 0, j);
    PolledOrdered(cfg, l.peers, l'.peers, now, v);
    LookAt(cfg, l.peers, j);
    LookAt(cfg, l'.peers, j);
  }

  lemma PolledOrdered(cfg: Config, peers: seq<Peer>, peers': seq<Peer>, now: int, v: Verdict)
    requires Ordered(cfg, peers) && |peers'| == |peers|
    requires forall m :: 0 <= m < |peers| ==> Polled(cfg, peers[m], peers'[m], now, v)
    ensures Ordered(cfg, peers') && forall m :: 0 <= m < |peers| ==> peers'[m].key == peers[m].key
  {
  }

  /** A lookup with nothing left to contact or wait for finishes. */
  lemma NothingLeftIsDone(cfg: Config, l: Lookup, now: int)
    requires LookupInv(cfg, l) && forall m :: 0 <= m < |l.peers| ==> !Open(l.peers[m], now)
    ensures Next(cfg, l, now).1.Done?
  {
    var (l', v) := Next(cfg, l, now);
    NextContactsClosest(cfg, l, now);
    NextKeeps(cfg, l, now);
    if v.Contact? {
      LookHas(l.peers, v.key);
      assert false;
    } else if v.Wait? {
      CountPositive(Waits(), l'.peers);
      var m := Find(Waits(), l'.peers);
      assert false;
    }
  }

  lemma {:induction false} ScanFinishes(cfg: Config, l: Lookup, now: int, full: bool, i: nat, c: nat, n: nat)
    requires i <= n <= |l.peers| && forall m :: i <= m < n ==> !Open(l.peers[m], now)
    requires c < Max(1, cfg.numResults) <= c + CountIf(Counts(), l.peers[i..n])
    ensures Scan(cfg, l, now, full, i, Some(c)).1.Done?
    decreases n - i
  {
    assert l.peers[n..n] == [];
    var p := l.peers[i];
    assert l.peers[i..n] == [p] + l.peers[i + 1..n];
    CountConcat(Counts(), [p], l.peers[i + 1..n]);
    assert [p][..0] == [];
    if Expired(p, now) {
      var l1 := TimeOut(l, i);
      assert l1.peers[i + 1..n] == l.peers[i + 1..n];
      ScanFinishes(cfg, l1, now, full, i + 1, c, n);
    } else if !Counts()(p) {
      ScanFinishes(cfg, l, now, full, i + 1, c, n);
    } else if c + 1 < cfg.numResults {
      ScanFinishes(cfg, l, now, full, i + 1, c + 1, n);
    }
  }

  /** A lookup whose closest peers, none of which may still answer, include enough results finishes. */
  lemma EnoughIsDone(cfg: Config, l: Lookup, now: int, n: nat)
    requires n <= |l.peers| && forall m :: 0 <= m < n ==> !Open(l.peers[m], now)
    requires CountIf(Counts(), l.peers[..n]) >= Max(1, cfg.numResults)
    ensures Next(cfg, l, now).1.Done?
  {
    if !l.progress.Finished? {
      assert l.peers[0..n] == l.peers[..n];
      ScanFinishes(cfg, l, now, Full(cfg, l), 0, 0, n);
    }
  }

  // ----- The ids a lookup holds

  /** The lookup was given `k` at the start, or in an answer it took. */
  ghost predicate HeardOf(cfg: Config, known: seq<Candidate>, events: seq<Event>, k: Key) {
    || (exists i :: 0 <= i < |known| && i < cfg.numResults && known[i].key == k)
    || (exists i :: 0 <= i < |events| && TakenIn(Run(cfg, known, events[..i]), events[i], k))
  }

  ghost predicate TakenIn(l: Lookup, e: Event, k: Key) {
    e.Success? && Takes(l, e.key) && exists j :: 0 <= j < |e.candidates| && e.candidates[j].key == k
  }

  lemma {:induction false} LastNamedMeans(variant: Variant, cs: seq<Candidate>, k: Key)
    ensures LastNamed(variant, cs, k).Some? <==> exists i :: 0 <= i < |cs| && cs[i].key == k
  {
    if cs != [] {
      var n := |cs| - 1;
      LastNamedMeans(variant, cs[..n], k);
      if i :| 0 <= i < n && cs[..n][i].key == k { assert cs[i].key == k; }
      if i :| 0 <= i < |cs| && cs[i].key == k && i < n { assert cs[..n][i].key == k; }
    }
  }

  lemma FirstNamedMeans(variant: Variant, cs: seq<Candidate>, k: Key)
    ensures FirstNamed(variant, cs, k).Some? <==> exists i :: 0 <= i < |cs| && cs[i].key == k
  {
    if i :| 0 <= i < |cs| && cs[i].key == k { FindHit(Named(k), cs, i); }
  }

  lemma StepHas(cfg: Config, l: Lookup, e: Event, k: Key)
    requires Injective(cfg.dist) && Ordered(cfg, l.peers)
    ensures Has(Step(cfg, l, e).peers, k) <==> Has(l.peers, k) || TakenIn(l, e, k)
  {
    LookHas(l.peers, k);
    LookHas(Step(cfg, l, e).peers, k);
    match e
    case Success(key, cs) =>
      SuccessJoins(cfg, l, key, cs, k);
      FirstNamedMeans(cfg.variant, cs, k);
    case Failure(key) => FailureMarks(cfg, l, key, k);
    case Poll(now) =>
      NextContactsClosest(cfg, l, now);
      SameKeys(cfg, l, Next(cfg, l, now).0, now, Next(cfg, l, now).1, k);
  }

  lemma SameKeys(cfg: Config, l: Lookup, l': Lookup, now: int, v: Verdict, k: Key)
    requires |l'.peers| == |l.peers|
    requires forall m :: 0 <= m < |l.peers| ==> Polled(cfg, l.peers[m], l'.peers[m], now, v)
    ensures Has(l'.peers, k) <==> Has(l.peers, k)
  {
    if i :| 0 <= i < |l.peers| && l.peers[i].key == k { assert l'.peers[i].key == k; }
    if i :| 0 <= i < |l'.peers| && l'.peers[i].key == k { assert l.peers[i].key == k; }
  }

  lemma HeardAppend(cfg: Config, known: seq<Candidate>, events: seq<Event>, k: Key)
    requires events != []
    ensures var init := events[..|events| - 1];
            HeardOf(cfg, known, events, k) <==>
            HeardOf(cfg, known, init, k) || TakenIn(Run(cfg, known, init), events[|events| - 1], k)
  {
    var n := |events| - 1;
    var init := events[..n];
    forall i | 0 <= i < n ensures init[..i] == events[..i] && init[i] == events[i] {}
    if i :| 0 <= i < |events| && TakenIn(Run(cfg, known, events[..i]), events[i], k) {
      if i < n { assert TakenIn(Run(cfg, known, init[..i]), init[i], k); }
    }
    if i :| 0 <= i < n && TakenIn(Run(cfg, known, init[..i]), init[i], k) {
      assert TakenIn(Run(cfg, known, events[..i]), events[i], k);
    }
  }

  /** In every run a lookup holds exactly the ids it heard of. */
  lemma {:induction false} HeardIsHeld(cfg: Config, known: seq<Candidate>, events: seq<Event>, k: Key)
    requires Injective(cfg.dist)
    ensures Has(Run(cfg, known, events).peers, k) <==> HeardOf(cfg, known, events, k)
  {
    if events == [] {
      var taken := if |known| <= cfg.numResults then known else known[..cfg.numResults];
      BeginAllLook(cfg, taken, k);
      LookHas(BeginAll(cfg, taken), k);
      LastNamedMeans(cfg.variant, taken, k);
      if i :| 0 <= i < |known| && i < cfg.numResults && known[i].key == k { assert taken[i].key == k; }
    } else {
      var init := events[..|events| - 1];
      HeardIsHeld(cfg, known, init, k);
      RunKeeps(cfg, known, init);
      StepHas(cfg, Run(cfg, known, init), events[|events| - 1], k);
      HeardAppend(cfg, known, events, k);
    }
  }

  /** What a finished lookup says of an id: it comes after the last result, or it is a result, does not match, failed or
      did not respond. With too few results there is nothing left to contact or wait for. */
  ghost predicate Accounted(target: Key, numResults: nat, variant: Variant, res: seq<Peer>, p: Peer) {
    if |res| < numResults then !p.state.NotContacted? && !p.state.Waiting?
    else
      || (numResults >= 1 && Dist(target, p.key) >= Dist(target, res[numResults - 1].key))
      || numResults == 0
      || (!p.state.NotContacted? &&
          ((!p.matches && variant.Predicate?) || p in res || p.state.Failed? || p.state.Unresponsive?))
  }

  /** Every id a lookup ever heard of is accounted for when it finishes. */
  lemma HeardIsAccounted(target: Key, parallelism: nat, numResults: nat, peerTimeout: nat, variant: Variant,
                         known: seq<Candidate>, events: seq<Event>, k: Key)
    requires HeardOf(ConfigFor(target, parallelism, numResults, peerTimeout, variant), known, events, k)
    ensures var cfg := ConfigFor(target, parallelism, numResults, peerTimeout, variant);
            var l := Run(cfg, known, events);
            && Look(l.peers, k).Some? && Look(l.peers, k).value.key == k
            && |Results(cfg, l.peers)| <= numResults
            && (l.progress.Finished? ==>
                Accounted(target, numResults, variant, Results(cfg, l.peers), Look(l.peers, k).value))
  {
    var cfg := ConfigFor(target, parallelism, numResults, peerTimeout, variant);
    var l := Run(cfg, known, events);
    DistanceIsInjective(target);
    HeardIsHeld(cfg, known, events, k);
    LookHas(l.peers, k);
    FinishedLookup(target, parallelism, numResults, peerTimeout, variant, known, events);
  }

  // ----- Results

  /** The results are succeeded, matching peers, and those left out are farther than a full list of results. */
  lemma ResultsAreClosest(cfg: Config, peers: seq<Peer>, p: Peer)
    requires Ordered(cfg, peers)
    ensures var res := Results(cfg, peers);
            && |res| <= cfg.numResults
            && (p in res ==> p in peers && p.state.Succeeded? && p.matches)
            && (p in peers && p.state.Succeeded? && p.matches && p !in res ==>
                  |res| == cfg.numResults && forall j :: 0 <= j < |res| ==> cfg.dist(res[j].key) < cfg.dist(p.key))
  {
    var res := Results(cfg, peers);
    if p in res {
      var j :| 0 <= j < |res| && res[j] == p;
      var i := ResultAt(cfg, peers, j);
    } else if p in peers && Counts()(p) {
      var i :| 0 <= i < |peers| && peers[i] == p;
      var m := FilterHas(Counts(), peers, i);
      FilterCount(Counts(), peers);
      forall j | 0 <= j < |res| ensures cfg.dist(res[j].key) < cfg.dist(p.key) {
        LeftOutIsFarther(cfg, peers, i, j);
      }
    }
  }

  lemma LeftOutIsFarther(cfg: Config, peers: seq<Peer>, i: nat, j: nat)
    requires Ordered(cfg, peers) && i < |peers| && Counts()(peers[i]) && peers[i] !in Results(cfg, peers)
    requires j < |Results(cfg, peers)|
    ensures cfg.dist(Results(cfg, peers)[j].key) < cfg.dist(peers[i].key)
  {
    var b := ResultAt(cfg, peers, j);
    if CountIf(Counts(), peers[..i]) < |Results(cfg, peers)| {
      CountedIsResult(cfg, peers, i);
      assert false;
    }
    if i <= b { CountPrefix(Counts(), peers, i, b); }
  }

  lemma CountedIsResult(cfg: Config, peers: seq<Peer>, i: nat)
    requires i < |peers| && Counts()(peers[i]) && CountIf(Counts(), peers[..i]) < |Results(cfg, peers)|
    ensures peers[i] in Results(cfg, peers)
  {
    FilterSplits(Counts(), peers, i);
    assert Results(cfg, peers)[CountIf(Counts(), peers[..i])] == peers[i];
  }

  // ----- Progress

  /** How many answers the lookup has taken since one of them last moved it forward. */
  function Streak(cfg: Config, known: seq<Candidate>, events: seq<Event>): nat {
    if events == [] then 0
    else
      var l, e := Run(cfg, known, events[..|events| - 1]), events[|events| - 1];
      var before := Streak(cfg, known, events[..|events| - 1]);
      if !e.Success? || !Takes(l, e.key) then before
      else if Advances(cfg, Marked(l.peers, e.key, |e.candidates|), e.candidates) then 0
      else before + 1
  }

  /** The peers once `key` has answered. */
  function Marked(peers: seq<Peer>, key: Key, returned: nat): seq<Peer> {
    var i := Find(WithKey(key), peers);
    if i < |peers| then peers[i := Answered(peers[i], returned)] else peers
  }

  lemma SuccessProgress(cfg: Config, l: Lookup, key: Key, cs: seq<Candidate>)
    requires Injective(cfg.dist) && Ordered(cfg, l.peers) && Takes(l, key)
    ensures OnSuccess(cfg, l, key, cs).progress ==
            NextProgress(cfg, l.progress, Advances(cfg, Marked(l.peers, key, |cs|), cs))
  {
    Located(cfg, l, key);
    var i := Place(cfg, l.peers, cfg.dist(key));
    FindUnique(WithKey(key), l.peers, i);
  }

  /** In every run an iterating lookup counts the answers since it last moved forward, and stalls once there are as many
      as it contacts in parallel. */
  lemma {:induction false} ProgressCountsAnswers(cfg: Config, known: seq<Candidate>, events: seq<Event>)
    requires Injective(cfg.dist)
    ensures var progress, streak := Run(cfg, known, events).progress, Streak(cfg, known, events);
            && (progress.Iterating? ==> progress.noProgress == streak && (streak < cfg.parallelism || streak == 0))
            && (progress.Stalled? ==> streak >= cfg.parallelism)
  {
    if events != [] {
      var init, e := events[..|events| - 1], events[|events| - 1];
      var l := Run(cfg, known, init);
      ProgressCountsAnswers(cfg, known, init);
      RunKeeps(cfg, known, init);
      match e
      case Success(key, cs) =>
        SuccessJoins(cfg, l, key, cs, key);
        if Takes(l, key) { SuccessProgress(cfg, l, key, cs); }
      case Failure(key) => FailureMarks(cfg, l, key, key);
      case Poll(now) => PollProgress(cfg, l, now);
    }
  }

  lemma PollProgress(cfg: Config, l: Lookup, now: int)
    ensures Next(cfg, l, now).0.progress in {l.progress, Finished}
  {
    if !l.progress.Finished? { ScanProgress(cfg, l, now, Full(cfg, l), 0, Some(0)); }
  }

  lemma {:induction false} ScanProgress(cfg: Config, l: Lookup, now: int, full: bool, i: nat, counter: Option<nat>)
    requires i <= |l.peers|
    ensures Scan(cfg, l, now, full, i, counter).0.progress in {l.progress, Finished}
    decreases |l.peers| - i
  {
    if i < |l.peers| && !l.peers[i].state.NotContacted? {
      var p := l.peers[i];
      if Expired(p, now) {
        ScanProgress(cfg, TimeOut(l, i), now, full, i + 1, counter);
      } else {
        var counter' := if p.state.Waiting? && p.matches then None
                        else if p.state.Succeeded? && p.matches && counter.Some? then Some(counter.value + 1)
                        else counter;
        ScanProgress(cfg, l, now, full, i + 1, counter');
      }
    }
  }
}
