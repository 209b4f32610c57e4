/** What holds in every state a lookup can reach. */
module LookupRuns {
  import opened Wrappers
  import opened Keys
  import opened Lists
  import opened Lookups

  ghost predicate Injective(dist: Key -> nat) {
    forall a: Key, b: Key :: dist(a) == dist(b) ==> a == b
  }

  ghost predicate Ordered(cfg: Config, peers: seq<Peer>) {
    forall i, j :: 0 <= i < j < |peers| ==> cfg.dist(peers[i].key) < cfg.dist(peers[j].key)
  }

  function Waits(): Peer -> bool {
    (p: Peer) => p.state.Waiting?
  }

  function Contacted(): Peer -> bool {
    (p: Peer) => !p.state.NotContacted?
  }

  ghost predicate Has(peers: seq<Peer>, k: Key) {
    exists i :: 0 <= i < |peers| && peers[i].key == k
  }

  /** No peer was handed out twice, and those handed out are the contacted ones. */
  ghost predicate HandedOnce(peers: seq<Peer>, handed: seq<Key>) {
    && (forall i :: 0 <= i < |peers| && peers[i].state.NotContacted? ==> peers[i].key !in handed)
    && (forall i, j :: 0 <= i < j < |handed| ==> handed[i] != handed[j])
    && (forall i :: 0 <= i < |handed| ==> Has(peers, handed[i]))
    && |handed| == CountIf(Contacted(), peers)
  }

  ghost predicate AllMatch(cfg: Config, peers: seq<Peer>) {
    cfg.variant.FindNode? ==> forall i :: 0 <= i < |peers| ==> peers[i].matches
  }

  ghost predicate Core(cfg: Config, peers: seq<Peer>, waiting: int, handed: seq<Key>) {
    Ordered(cfg, peers) && AllMatch(cfg, peers) && waiting == CountIf(Waits(), peers) && HandedOnce(peers, handed)
  }

  // ----- Finding and placing peers

  lemma PlaceOf(cfg: Config, peers: seq<Peer>, i: nat)
    requires Ordered(cfg, peers) && i < |peers|
    ensures Place(cfg, peers, cfg.dist(peers[i].key)) == i && Occupied(cfg, peers, cfg.dist(peers[i].key))
  {
    FindUnique(NotCloser(cfg, cfg.dist(peers[i].key)), peers, i);
  }

  /** Looking a peer up by distance finds that very peer. */
  lemma OccupiedIsKnown(cfg: Config, peers: seq<Peer>, k: Key)
    requires Injective(cfg.dist) && Ordered(cfg, peers)
    ensures Occupied(cfg, peers, cfg.dist(k)) <==> Has(peers, k)
    ensures Has(peers, k) ==> peers[Place(cfg, peers, cfg.dist(k))].key == k
  {
    if i :| 0 <= i < |peers| && peers[i].key == k {
      PlaceOf(cfg, peers, i);
    }
  }

  lemma CountInsertAt<T>(f: T -> bool, s: seq<T>, i: nat, x: T)
    requires i <= |s|
    ensures CountIf(f, InsertAt(s, i, x)) == CountIf(f, s) + if f(x) then 1 else 0
  {
    assert s == s[..i] + s[i..];
    CountConcat(f, s[..i], s[i..]);
    CountAppend(f, s[..i], x);
    CountConcat(f, s[..i] + [x], s[i..]);
  }

  lemma InsertOrdered(cfg: Config, peers: seq<Peer>, p: Peer)
    requires Ordered(cfg, peers) && !Occupied(cfg, peers, cfg.dist(p.key))
    ensures Ordered(cfg, InsertAt(peers, Place(cfg, peers, cfg.dist(p.key)), p))
  {
    var k := Place(cfg, peers, cfg.dist(p.key));
    var t := InsertAt(peers, k, p);
    assert forall i :: 0 <= i < |t| ==> t[i] == if i < k then peers[i] else if i == k then p else peers[i - 1];
    forall i | 0 <= i < |peers| ensures i < k ==> cfg.dist(peers[i].key) < cfg.dist(p.key)
                                ensures i >= k ==> cfg.dist(peers[i].key) > cfg.dist(p.key)
    {
      if i < k { assert !NotCloser(cfg, cfg.dist(p.key))(peers[i]); }
    }
  }

  lemma InsertHas(peers: seq<Peer>, i: nat, p: Peer, k: Key)
    requires i <= |peers| && Has(peers, k)
    ensures Has(InsertAt(peers, i, p), k)
  {
    var j :| 0 <= j < |peers| && peers[j].key == k;
    assert InsertAt(peers, i, p)[if j < i then j else j + 1] == peers[j];
  }

  lemma InsertHanded(peers: seq<Peer>, i: nat, p: Peer, handed: seq<Key>)
    requires HandedOnce(peers, handed) && i <= |peers| && p.state.NotContacted? && !Has(peers, p.key)
    ensures HandedOnce(InsertAt(peers, i, p), handed)
  {
    var t := InsertAt(peers, i, p);
    CountInsertAt(Contacted(), peers, i, p);
    forall j | 0 <= j < |handed| ensures Has(t, handed[j]) && handed[j] != p.key {
      InsertHas(peers, i, p, handed[j]);
    }
    forall j | 0 <= j < |t| && t[j].state.NotContacted? ensures t[j].key !in handed {
      assert t[j] == if j < i then peers[j] else if j == i then p else peers[j - 1];
    }
  }

  lemma JoinKeeps(cfg: Config, peers: seq<Peer>, waiting: int, handed: seq<Key>, c: Candidate)
    requires Injective(cfg.dist) && Core(cfg, peers, waiting, handed)
    ensures Core(cfg, Join(cfg, peers, c), waiting, handed)
  {
    var d, p := cfg.dist(c.key), Fresh(cfg, c);
    if !Occupied(cfg, peers, d) {
      var i := Place(cfg, peers, d);
      OccupiedIsKnown(cfg, peers, c.key);
      InsertOrdered(cfg, peers, p);
      InsertHanded(peers, i, p, handed);
      CountInsertAt(Waits(), peers, i, p);
    }
  }

  lemma {:induction false} JoinAllKeeps(cfg: Config, peers: seq<Peer>, waiting: int, handed: seq<Key>,
                                        cs: seq<Candidate>)
    requires Injective(cfg.dist) && Core(cfg, peers, waiting, handed)
    ensures Core(cfg, JoinAll(cfg, peers, cs), waiting, handed)
  {
    if cs != [] {
      JoinAllKeeps(cfg, peers, waiting, handed, cs[..|cs| - 1]);
      JoinKeeps(cfg, JoinAll(cfg, peers, cs[..|cs| - 1]), waiting, handed, cs[|cs| - 1]);
    }
  }

  lemma BeginKeeps(cfg: Config, peers: seq<Peer>, c: Candidate)
    requires Injective(cfg.dist) && Core(cfg, peers, 0, [])
    ensures Core(cfg, Begin(cfg, peers, c), 0, [])
  {
    var d, p := cfg.dist(c.key), Fresh(cfg, c);
    if Occupied(cfg, peers, d) {
      OverwriteKeeps(cfg, peers, Place(cfg, peers, d), p);
    } else {
      JoinKeeps(cfg, peers, 0, [], c);
    }
  }

  lemma OverwriteKeeps(cfg: Config, peers: seq<Peer>, i: nat, p: Peer)
    requires Core(cfg, peers, 0, []) && i < |peers| && cfg.dist(p.key) == cfg.dist(peers[i].key) &&
             p.state.NotContacted?
    requires cfg.variant.FindNode? ==> p.matches
    ensures Core(cfg, peers[i := p], 0, [])
  {
    CountUpdate(Waits(), peers, i, p);
    CountUpdate(Contacted(), peers, i, p);
    CountRemoveAt(Waits(), peers, i);
    CountRemoveAt(Contacted(), peers, i);
  }

  lemma {:induction false} BeginAllKeeps(cfg: Config, cs: seq<Candidate>)
    requires Injective(cfg.dist)
    ensures Core(cfg, BeginAll(cfg, cs), 0, [])
  {
    if cs != [] {
      BeginAllKeeps(cfg, cs[..|cs| - 1]);
      BeginKeeps(cfg, BeginAll(cfg, cs[..|cs| - 1]), cs[|cs| - 1]);
    }
  }

  // ----- Changing the state of one peer

  function Bit(b: bool): nat {
    if b then 1 else 0
  }

  lemma RestateHanded(peers: seq<Peer>, handed: seq<Key>, i: nat, p: Peer)
    requires HandedOnce(peers, handed) && i < |peers| && p.key == peers[i].key && !p.state.NotContacted?
    requires forall j :: 0 <= j < |peers| && j != i ==> peers[j].key != p.key
    ensures HandedOnce(peers[i := p], if peers[i].state.NotContacted? then handed + [p.key] else handed)
  {
    var t, handed' := peers[i := p], if peers[i].state.NotContacted? then handed + [p.key] else handed;
    CountUpdate(Contacted(), peers, i, p);
    forall j | 0 <= j < |handed'| ensures Has(t, handed'[j]) {
      if j == |handed| {
        assert t[i].key == p.key;
      } else {
        var m :| 0 <= m < |peers| && peers[m].key == handed[j];
        assert t[m].key == handed[j];
      }
    }
  }

  lemma RestateKeeps(cfg: Config, peers: seq<Peer>, waiting: int, handed: seq<Key>, i: nat, p: Peer, waiting': int,
                     handed': seq<Key>)
    requires Core(cfg, peers, waiting, handed) && i < |peers|
    requires p.key == peers[i].key && p.matches == peers[i].matches && !p.state.NotContacted?
    requires waiting' == waiting - Bit(peers[i].state.Waiting?) + Bit(p.state.Waiting?)
    requires handed' == if peers[i].state.NotContacted? then handed + [p.key] else handed
    ensures Core(cfg, peers[i := p], waiting', handed')
  {
    CountUpdate(Waits(), peers, i, p);
    forall j | 0 <= j < |peers| && j != i ensures peers[j].key != p.key {
      if j < i { assert cfg.dist(peers[j].key) < cfg.dist(peers[i].key); }
      else { assert cfg.dist(peers[i].key) < cfg.dist(peers[j].key); }
    }
    RestateHanded(peers, handed, i, p);
  }

  // ----- When a lookup may finish

  /** A peer that gives no more results: it was contacted and, if it matters, does not keep the lookup waiting. */
  predicate Closed(p: Peer) {
    !p.state.NotContacted? && (p.state.Waiting? ==> !p.matches)
  }

  /** The first `n` peers hold exactly the wanted number of results and none of them can give another. */
  ghost predicate CutAt(cfg: Config, peers: seq<Peer>, n: nat) {
    n <= |peers| && CountIf(Counts(), peers[..n]) == cfg.numResults && forall j :: 0 <= j < n ==> Closed(peers[j])
  }

  ghost predicate Complete(cfg: Config, peers: seq<Peer>) {
    || (exists n :: CutAt(cfg, peers, n))
    || (CountIf(Counts(), peers) < cfg.numResults && forall j :: 0 <= j < |peers| ==>
        !peers[j].state.NotContacted? && !peers[j].state.Waiting?)
  }

  /** What a pass has established about the first `i` peers. */
  ghost predicate Passed(cfg: Config, peers: seq<Peer>, i: nat, counter: Option<nat>) {
    && i <= |peers|
    && (forall j :: 0 <= j < i ==> !peers[j].state.NotContacted?)
    && (counter.Some? ==>
          && counter.value == CountIf(Counts(), peers[..i])
          && (counter.value < cfg.numResults || cfg.numResults == 0)
          && forall j :: 0 <= j < i ==> Closed(peers[j]))
    && (counter.None? ==> CountIf(Waits(), peers[..i]) > 0)
  }

  lemma PassOne(cfg: Config, peers: seq<Peer>, i: nat, counter: Option<nat>)
    requires Passed(cfg, peers, i, counter) && i < |peers| && !peers[i].state.NotContacted?
    ensures var p := peers[i];
            && (p.state.Waiting? && p.matches ==> Passed(cfg, peers, i + 1, None))
            && (Closed(p) && !Counts()(p) ==> Passed(cfg, peers, i + 1, counter))
            && (Counts()(p) && counter.Some? && counter.value + 1 < cfg.numResults ==>
                Passed(cfg, peers, i + 1, Some(counter.value + 1)))
            && (Counts()(p) && counter.Some? && counter.value + 1 >= cfg.numResults ==> Complete(cfg, peers))
            && (counter.None? ==> Passed(cfg, peers, i + 1, None))
  {
    assert peers[..i + 1] == peers[..i] + [peers[i]];
    CountAppend(Counts(), peers[..i], peers[i]);
    CountAppend(Waits(), peers[..i], peers[i]);
    if Counts()(peers[i]) && counter.Some? && counter.value + 1 >= cfg.numResults {
      if cfg.numResults == 0 {
        assert peers[..0] == [];
        assert CutAt(cfg, peers, 0);
      } else {
        assert CutAt(cfg, peers, i + 1);
      }
    }
  }

  lemma PassAll(cfg: Config, peers: seq<Peer>, counter: Option<nat>)
    requires Passed(cfg, peers, |peers|, counter) && CountIf(Waits(), peers) == 0
    ensures Complete(cfg, peers)
  {
    assert peers[..|peers|] == peers;
    forall j | 0 <= j < |peers| ensures !peers[j].state.Waiting? {
      if peers[j].state.Waiting? { CountRemoveAt(Waits(), peers, j); }
    }
    if cfg.numResults == 0 {
      assert peers[..0] == [];
      assert CutAt(cfg, peers, 0);
    }
  }

  lemma PassedSame(cfg: Config, peers: seq<Peer>, peers': seq<Peer>, i: nat, counter: Option<nat>)
    requires Passed(cfg, peers, i, counter) && i <= |peers'| && peers[..i] == peers'[..i]
    ensures Passed(cfg, peers', i, counter)
  {
    forall j | 0 <= j < i ensures peers[j] == peers'[j] { assert peers[..i][j] == peers'[..i][j]; }
  }

  /** The state and verdict after a pass. */
  ghost predicate PassedWell(cfg: Config, l: Lookup, l': Lookup, v: Verdict, cap: int) {
    && Core(cfg, l'.peers, l'.waiting, l'.handed)
    && (if v.Done? then l'.progress.Finished? && Complete(cfg, l'.peers) else l'.progress == l.progress)
    && (if v.Contact? then l'.waiting <= cap && v.key !in l.handed && l'.handed == l.handed + [v.key]
        else l'.waiting <= l.waiting && l'.handed == l.handed)
  }

  lemma StaysWell(cfg: Config, l: Lookup, v: Verdict, cap: int)
    requires Core(cfg, l.peers, l.waiting, l.handed) && (v.AtCapacity? || v.Wait?)
    ensures PassedWell(cfg, l, l, v, cap)
  {
  }

  lemma FinishesWell(cfg: Config, l: Lookup, cap: int)
    requires Core(cfg, l.peers, l.waiting, l.handed) && Complete(cfg, l.peers)
    ensures PassedWell(cfg, l, l.(progress := Finished), Done, cap)
  {
  }

  lemma HandsOutWell(cfg: Config, l: Lookup, i: nat, now: int, cap: int)
    requires Core(cfg, l.peers, l.waiting, l.handed) && l.waiting < cap && i < |l.peers| &&
             l.peers[i].state.NotContacted?
    ensures PassedWell(cfg, l, HandOut(cfg, l, i, now), Contact(l.peers[i].key), cap)
  {
    var p := Restated(l.peers[i], Waiting(now + cfg.peerTimeout));
    RestateKeeps(cfg, l.peers, l.waiting, l.handed, i, p, l.waiting + 1, l.handed + [l.peers[i].key]);
  }

  lemma ContinuesWell(cfg: Config, l: Lookup, l1: Lookup, l': Lookup, v: Verdict, cap: int)
    requires PassedWell(cfg, l1, l', v, cap) && l1.progress == l.progress && l1.handed == l.handed &&
             l1.waiting <= l.waiting
    ensures PassedWell(cfg, l, l', v, cap)
  {
  }

  lemma {:induction false} ScanKeeps(cfg: Config, l: Lookup, now: int, full: bool, i: nat, counter: Option<nat>,
                                     cap: int)
    requires Core(cfg, l.peers, l.waiting, l.handed) && Passed(cfg, l.peers, i, counter)
    requires !full ==> l.waiting < cap
    ensures var r := Scan(cfg, l, now, full, i, counter);
            PassedWell(cfg, l, r.0, r.1, cap)
    decreases |l.peers| - i
  {
    if i == |l.peers| {
      if l.waiting > 0 { StaysWell(cfg, l, Wait, cap); }
      else { PassAll(cfg, l.peers, counter); FinishesWell(cfg, l, cap); }
    } else if l.peers[i].state.NotContacted? {
      if full { StaysWell(cfg, l, AtCapacity, cap); } else { HandsOutWell(cfg, l, i, now, cap); }
    } else {
      ScanContacted(cfg, l, now, full, i, counter, cap);
    }
  }

  lemma {:induction false} ScanTimedOut(cfg: Config, l: Lookup, now: int, full: bool, i: nat, counter: Option<nat>,
                                        cap: int)
    requires Core(cfg, l.peers, l.waiting, l.handed) && Passed(cfg, l.peers, i, counter)
    requires (!full ==> l.waiting < cap) && i < |l.peers|
    requires l.peers[i].state.Waiting? && now >= l.peers[i].state.timeout
    ensures var r := Scan(cfg, l, now, full, i, counter);
            PassedWell(cfg, l, r.0, r.1, cap)
    decreases |l.peers| - i, 0
  {
    var l1 := TimeOut(l, i);
    PassOne(cfg, l.peers, i, counter);
    TimeOutKeeps(cfg, l, i, counter);
    ScanKeeps(cfg, l1, now, full, i + 1, counter, cap);
    var r := Scan(cfg, l1, now, full, i + 1, counter);
    ContinuesWell(cfg, l, l1, r.0, r.1, cap);
  }

  lemma {:induction false} ScanContacted(cfg: Config, l: Lookup, now: int, full: bool, i: nat, counter: Option<nat>,
                                         cap: int)
    requires Core(cfg, l.peers, l.waiting, l.handed) && Passed(cfg, l.peers, i, counter)
    requires (!full ==> l.waiting < cap) && i < |l.peers| && !l.peers[i].state.NotContacted?
    ensures var r := Scan(cfg, l, now, full, i, counter);
            PassedWell(cfg, l, r.0, r.1, cap)
    decreases |l.peers| - i, 1
  {
    var p := l.peers[i];
    PassOne(cfg, l.peers, i, counter);
    if p.state.Waiting? && now >= p.state.timeout {
      ScanTimedOut(cfg, l, now, full, i, counter, cap);
    } else if p.state.Waiting? && full {
      StaysWell(cfg, l, AtCapacity, cap);
    } else if Counts()(p) && counter.Some? && counter.value + 1 >= cfg.numResults {
      FinishesWell(cfg, l, cap);
    } else {
      var counter' := if p.state.Waiting? && p.matches then None
                      else if Counts()(p) && counter.Some? then Some(counter.value + 1)
                      else counter;
      ScanKeeps(cfg, l, now, full, i + 1, counter', cap);
    }
  }

  lemma TimeOutKeeps(cfg: Config, l: Lookup, i: nat, counter: Option<nat>)
    requires Core(cfg, l.peers, l.waiting, l.handed) && Passed(cfg, l.peers, i, counter) && i < |l.peers| &&
             l.peers[i].state.Waiting?
    ensures var l1 := TimeOut(l, i);
            Core(cfg, l1.peers, l1.waiting, l1.handed) && Passed(cfg, l1.peers, i + 1, counter)
  {
    var p := Restated(l.peers[i], Unresponsive);
    var t := l.peers[i := p];
    RestateKeeps(cfg, l.peers, l.waiting, l.handed, i, p, l.waiting - 1, l.handed);
    PassedSame(cfg, l.peers, t, i, counter);
    PassOne(cfg, t, i, counter);
  }

  // ----- Steps and runs

  function Max(a: nat, b: nat): nat {
    if a >= b then a else b
  }

  ghost predicate LookupInv(cfg: Config, l: Lookup) {
    && Core(cfg, l.peers, l.waiting, l.handed)
    && l.waiting <= Max(cfg.parallelism, cfg.numResults)
    && (l.progress.Finished? ==> Complete(cfg, l.peers))
  }

  lemma StartKeeps(cfg: Config, known: seq<Candidate>)
    requires Injective(cfg.dist)
    ensures LookupInv(cfg, Start(cfg, known))
  {
    BeginAllKeeps(cfg, if |known| <= cfg.numResults then known else known[..cfg.numResults]);
  }

  lemma AnswerKeeps(cfg: Config, l: Lookup, i: nat, cs: seq<Candidate>)
    requires Injective(cfg.dist) && Core(cfg, l.peers, l.waiting, l.handed) && i < |l.peers|
    requires l.peers[i].state.Waiting? || l.peers[i].state.Unresponsive?
    ensures var l1 := Answer(l, i, |cs|);
            Core(cfg, JoinAll(cfg, l1.peers, cs), l1.waiting, l1.handed) && l1.waiting <= l.waiting
  {
    var l1 := Answer(l, i, |cs|);
    RestateKeeps(cfg, l.peers, l.waiting, l.handed, i, Answered(l.peers[i], |cs|), l1.waiting, l1.handed);
    JoinAllKeeps(cfg, l1.peers, l1.waiting, l1.handed, cs);
  }

  lemma OnSuccessKeeps(cfg: Config, l: Lookup, key: Key, cs: seq<Candidate>)
    requires Injective(cfg.dist) && LookupInv(cfg, l)
    ensures LookupInv(cfg, OnSuccess(cfg, l, key, cs))
  {
    var d := cfg.dist(key);
    if !l.progress.Finished? && Occupied(cfg, l.peers, d) {
      var i := Place(cfg, l.peers, d);
      if l.peers[i].state.Waiting? || l.peers[i].state.Unresponsive? {
        AnswerKeeps(cfg, l, i, cs);
      }
    }
  }

  lemma OnFailureKeeps(cfg: Config, l: Lookup, key: Key)
    requires Injective(cfg.dist) && LookupInv(cfg, l)
    ensures LookupInv(cfg, OnFailure(cfg, l, key))
  {
    var d := cfg.dist(key);
    if !l.progress.Finished? && Occupied(cfg, l.peers, d) {
      var i := Place(cfg, l.peers, d);
      var p := l.peers[i];
      if p.state.Waiting? || p.state.Unresponsive? {
        RestateKeeps(cfg, l.peers, l.waiting, l.handed, i, Restated(p, Failed), Fail(l, i).waiting, l.handed);
      }
    }
  }

  /** How many requests a lookup allows in parallel. */
  function Capacity(cfg: Config, progress: Progress): nat {
    match progress
    case Iterating(_) => cfg.parallelism
    case Stalled => cfg.numResults
    case Finished => 0
  }

  /** A peer handed out was not handed out before, and then no more are waited for than the stage of the lookup
      allows. */
  lemma NextKeeps(cfg: Config, l: Lookup, now: int)
    requires LookupInv(cfg, l)
    ensures LookupInv(cfg, Next(cfg, l, now).0)
    ensures var (l', v) := Next(cfg, l, now);
            && (v.Contact? ==>
                v.key !in l.handed && l'.handed == l.handed + [v.key] && l'.waiting <= Capacity(cfg, l.progress))
            && (v.Done? <==> l'.progress.Finished?)
  {
    if !l.progress.Finished? {
      assert l.peers[..0] == [];
      ScanKeeps(cfg, l, now, Full(cfg, l), 0, Some(0), Capacity(cfg, l.progress));
    }
  }

  lemma StepKeeps(cfg: Config, l: Lookup, e: Event)
    requires Injective(cfg.dist) && LookupInv(cfg, l)
    ensures LookupInv(cfg, Step(cfg, l, e))
  {
    match e
    case Success(key, cs) => OnSuccessKeeps(cfg, l, key, cs);
    case Failure(key) => OnFailureKeeps(cfg, l, key);
    case Poll(now) => NextKeeps(cfg, l, now);
  }

  lemma {:induction false} RunKeeps(cfg: Config, known: seq<Candidate>, events: seq<Event>)
    requires Injective(cfg.dist)
    ensures LookupInv(cfg, Run(cfg, known, events))
  {
    if events == [] {
      StartKeeps(cfg, known);
    } else {
      RunKeeps(cfg, known, events[..|events| - 1]);
      StepKeeps(cfg, Run(cfg, known, events[..|events| - 1]), events[|events| - 1]);
    }
  }

  // ----- What the invariant means

  /** The configuration of a lookup for `target`. */
  function ConfigFor(target: Key, parallelism: nat, numResults: nat, peerTimeout: nat, variant: Variant): Config {
    Config(parallelism, numResults, peerTimeout, variant, DistanceTo(target))
  }

  lemma DistanceIsInjective(target: Key)
    ensures Injective(DistanceTo(target))
  {
    forall a: Key, b: Key | DistanceTo(target)(a) == DistanceTo(target)(b) ensures a == b {
      XorMetric(target, a, b);
    }
  }

  lemma {:induction false} ResultAt(cfg: Config, peers: seq<Peer>, j: nat) returns (i: nat)
    requires j < |Results(cfg, peers)|
    ensures i < |peers| && peers[i] == Results(cfg, peers)[j] && Counts()(peers[i]) &&
            CountIf(Counts(), peers[..i]) == j
  {
    i := FilterAt(Counts(), peers, j);
    FilterCount(Counts(), peers[..i]);
  }

  lemma CountPrefix<T>(f: T -> bool, s: seq<T>, i: nat, j: nat)
    requires i <= j <= |s|
    ensures CountIf(f, s[..i]) <= CountIf(f, s[..j])
  {
    assert s[..j] == s[..i] + s[i..j];
    CountConcat(f, s[..i], s[i..j]);
  }

  /** The results come in strictly increasing distance. */
  lemma ResultsAscend(cfg: Config, peers: seq<Peer>, j: nat, k: nat)
    requires Ordered(cfg, peers) && j < k < |Results(cfg, peers)|
    ensures cfg.dist(Results(cfg, peers)[j].key) < cfg.dist(Results(cfg, peers)[k].key)
  {
    var a := ResultAt(cfg, peers, j);
    var b := ResultAt(cfg, peers, k);
    if b <= a { CountPrefix(Counts(), peers, b, a); }
  }

  /** In front of the cut lies everything up to the last result. */
  lemma LastBeforeCut(cfg: Config, peers: seq<Peer>, n: nat, i: nat)
    requires Ordered(cfg, peers) && CutAt(cfg, peers, n) && |Results(cfg, peers)| == cfg.numResults >= 1
    requires i < |peers| && cfg.dist(peers[i].key) <= cfg.dist(Results(cfg, peers)[cfg.numResults - 1].key)
    ensures i < n
  {
    var b := ResultAt(cfg, peers, cfg.numResults - 1);
    if n <= b { CountPrefix(Counts(), peers, n, b); }
  }

  /** A succeeded peer before the last result is a result. */
  lemma CloserIsResult(cfg: Config, peers: seq<Peer>, i: nat)
    requires Ordered(cfg, peers) && |Results(cfg, peers)| == cfg.numResults >= 1 && i < |peers| && Counts()(peers[i])
    requires cfg.dist(peers[i].key) <= cfg.dist(Results(cfg, peers)[cfg.numResults - 1].key)
    ensures peers[i] in Results(cfg, peers)
  {
    var b := ResultAt(cfg, peers, cfg.numResults - 1);
    CountPrefix(Counts(), peers, i, b);
    var j := FilterHas(Counts(), peers, i);
    FilterSplits(Counts(), peers, i);
    assert Results(cfg, peers)[CountIf(Counts(), peers[..i])] == peers[i];
  }

  lemma FilterSplits<T>(f: T -> bool, s: seq<T>, i: nat)
    requires i < |s| && f(s[i])
    ensures CountIf(f, s[..i]) < |Filter(f, s)| && Filter(f, s)[CountIf(f, s[..i])] == s[i]
  {
    assert s == s[..i] + [s[i]] + s[i + 1..];
    FilterConcat(f, s[..i] + [s[i]], s[i + 1..]);
    FilterAppend(f, s[..i], s[i]);
    FilterCount(f, s[..i]);
  }

  /** What a finished lookup returns: as many peers as wanted, and no closer known peer could add a result; or fewer,
      and no known peer is left to contact or to wait for. The results come in strictly increasing distance. */
  lemma FinishedLookup(target: Key, parallelism: nat, numResults: nat, peerTimeout: nat, variant: Variant,
                       known: seq<Candidate>, events: seq<Event>)
    ensures var cfg := ConfigFor(target, parallelism, numResults, peerTimeout, variant);
            var l := Run(cfg, known, events);
            var res := Results(cfg, l.peers);
            && |res| <= numResults
            && (forall j, k :: 0 <= j < k < |res| ==> Dist(target, res[j].key) < Dist(target, res[k].key))
            && (l.progress.Finished? && |res| == numResults >= 1 ==>
                  forall i ::
                    0 <= i < |l.peers| && Dist(target, l.peers[i].key) < Dist(target, res[numResults - 1].key) ==>
                    && !l.peers[i].state.NotContacted?
                    && (l.peers[i].matches || variant.FindNode? ==>
                        l.peers[i] in res || l.peers[i].state.Failed? || l.peers[i].state.Unresponsive?))
            && (l.progress.Finished? && |res| < numResults ==>
                  forall i :: 0 <= i < |l.peers| ==> !l.peers[i].state.NotContacted? && !l.peers[i].state.Waiting?)
  {
    var cfg := ConfigFor(target, parallelism, numResults, peerTimeout, variant);
    var l := Run(cfg, known, events);
    var res := Results(cfg, l.peers);
    DistanceIsInjective(target);
    RunKeeps(cfg, known, events);
    FilterCount(Counts(), l.peers);
    forall j, k | 0 <= j < k < |res| ensures Dist(target, res[j].key) < Dist(target, res[k].key) {
      ResultsAscend(cfg, l.peers, j, k);
    }
    if l.progress.Finished? {
      FinishedPeers(cfg, l);
      forall i | 0 <= i < |l.peers| && |res| == numResults >= 1 &&
        Dist(target, l.peers[i].key) < Dist(target, res[numResults - 1].key)
        ensures Answers(cfg, l.peers, i)
      {
        FinishedCloser(cfg, l.peers, i);
      }
    }
  }

  /** Nothing more can come from peer `i` of a finished lookup: its result is in, or it failed, or it did not answer. */
  ghost predicate Answers(cfg: Config, peers: seq<Peer>, i: nat)
    requires i < |peers|
  {
    && !peers[i].state.NotContacted?
    && (peers[i].matches || cfg.variant.FindNode? ==>
        peers[i] in Results(cfg, peers) || peers[i].state.Failed? || peers[i].state.Unresponsive?)
  }

  lemma FinishedCloser(cfg: Config, peers: seq<Peer>, i: nat)
    requires Ordered(cfg, peers) && AllMatch(cfg, peers) && Complete(cfg, peers) &&
             |Results(cfg, peers)| == cfg.numResults >= 1 && i < |peers|
    requires cfg.dist(peers[i].key) < cfg.dist(Results(cfg, peers)[cfg.numResults - 1].key)
    ensures Answers(cfg, peers, i)
  {
    FilterCount(Counts(), peers);
    var n :| CutAt(cfg, peers, n);
    LastBeforeCut(cfg, peers, n, i);
    if Counts()(peers[i]) { CloserIsResult(cfg, peers, i); }
  }

  lemma FinishedPeers(cfg: Config, l: Lookup)
    requires LookupInv(cfg, l) && l.progress.Finished?
    ensures |Results(cfg, l.peers)| < cfg.numResults ==>
              forall i :: 0 <= i < |l.peers| ==> !l.peers[i].state.NotContacted? && !l.peers[i].state.Waiting?
  {
    FilterCount(Counts(), l.peers);
    if n :| CutAt(cfg, l.peers, n) {
      CountPrefix(Counts(), l.peers, n, |l.peers|);
      assert l.peers[..|l.peers|] == l.peers;
    }
  }

  /** A finished lookup never changes again. */
  lemma {:induction false} FinishedIsFrozen(cfg: Config, known: seq<Candidate>, events: seq<Event>, more: seq<Event>)
    requires Run(cfg, known, events).progress.Finished?
    ensures Run(cfg, known, events + more) == Run(cfg, known, events)
    decreases |more|
  {
    if more == [] {
      assert events + more == events;
    } else {
      FinishedIsFrozen(cfg, known, events, more[..|more| - 1]);
      assert (events + more)[..|events + more| - 1] == events + more[..|more| - 1];
    }
  }

  // ----- Hand-outs

  ghost predicate KeysIn(peers: seq<Peer>, ids: set<Key>) {
    forall i :: 0 <= i < |peers| ==> peers[i].key in ids
  }

  ghost predicate CandidatesIn(cs: seq<Candidate>, ids: set<Key>) {
    forall i :: 0 <= i < |cs| ==> cs[i].key in ids
  }

  lemma {:induction false} JoinAllIn(cfg: Config, peers: seq<Peer>, cs: seq<Candidate>, ids: set<Key>)
    requires KeysIn(peers, ids) && CandidatesIn(cs, ids)
    ensures KeysIn(JoinAll(cfg, peers, cs), ids)
  {
    if cs != [] { JoinAllIn(cfg, peers, cs[..|cs| - 1], ids); }
  }

  lemma {:induction false} BeginAllIn(cfg: Config, cs: seq<Candidate>, ids: set<Key>)
    requires CandidatesIn(cs, ids)
    ensures KeysIn(BeginAll(cfg, cs), ids)
  {
    if cs != [] { BeginAllIn(cfg, cs[..|cs| - 1], ids); }
  }

  lemma {:induction false} ScanIn(cfg: Config, l: Lookup, now: int, full: bool, i: nat, counter: Option<nat>,
                                  ids: set<Key>)
    requires i <= |l.peers| && KeysIn(l.peers, ids)
    ensures KeysIn(Scan(cfg, l, now, full, i, counter).0.peers, ids)
    decreases |l.peers| - i
  {
    if i < |l.peers| {
      var p := l.peers[i];
      var c := if p.state.Waiting? && p.matches then None
               else if Counts()(p) && counter.Some? then Some(counter.value + 1)
               else counter;
      if p.state.Waiting? && now >= p.state.timeout {
        ScanIn(cfg, TimeOut(l, i), now, full, i + 1, counter, ids);
      } else {
        ScanIn(cfg, l, now, full, i + 1, c, ids);
      }
    }
  }

  ghost predicate EventsIn(events: seq<Event>, ids: set<Key>) {
    forall i :: 0 <= i < |events| ==> (events[i].Success? ==> CandidatesIn(events[i].candidates, ids))
  }

  lemma {:induction false} RunIn(cfg: Config, known: seq<Candidate>, events: seq<Event>, ids: set<Key>)
    requires CandidatesIn(known, ids) && EventsIn(events, ids)
    ensures KeysIn(Run(cfg, known, events).peers, ids)
  {
    if events == [] {
      BeginAllIn(cfg, if |known| <= cfg.numResults then known else known[..cfg.numResults], ids);
    } else {
      var l, e := Run(cfg, known, events[..|events| - 1]), events[|events| - 1];
      RunIn(cfg, known, events[..|events| - 1], ids);
      match e
      case Success(key, cs) =>
        var i := Place(cfg, l.peers, cfg.dist(key));
        if i < |l.peers| { JoinAllIn(cfg, Answer(l, i, |cs|).peers, cs, ids); }
      case Failure(key) =>
      case Poll(now) => ScanIn(cfg, l, now, Full(cfg, l), 0, Some(0), ids);
    }
  }

  lemma {:induction false} DistinctWithin(s: seq<Key>, ids: set<Key>)
    requires forall i :: 0 <= i < |s| ==> s[i] in ids
    requires forall i, j :: 0 <= i < j < |s| ==> s[i] != s[j]
    ensures |s| <= |ids|
    decreases |s|
  {
    if s != [] {
      DistinctWithin(s[1..], ids - {s[0]});
    }
  }

  /** In every run no peer is handed out twice, so there are no more hand-outs than ids the lookup hears of; the counter
      of peers waited for is exact and within the larger of the two limits. */
  lemma HandOutsAreBounded(target: Key, parallelism: nat, numResults: nat, peerTimeout: nat, variant: Variant,
                           known: seq<Candidate>, events: seq<Event>, ids: set<Key>)
    requires CandidatesIn(known, ids) && EventsIn(events, ids)
    ensures var l := Run(ConfigFor(target, parallelism, numResults, peerTimeout, variant), known, events);
            && (forall i, j :: 0 <= i < j < |l.handed| ==> l.handed[i] != l.handed[j])
            && |l.handed| <= |ids|
            && l.waiting == CountIf(Waits(), l.peers) && l.waiting <= Max(parallelism, numResults)
  {
    var cfg := ConfigFor(target, parallelism, numResults, peerTimeout, variant);
    var l := Run(cfg, known, events);
    DistanceIsInjective(target);
    RunKeeps(cfg, known, events);
    RunIn(cfg, known, events, ids);
    DistinctWithin(l.handed, ids);
  }

  // ----- Progress

  /** The distance of the closest of `cs`, or `d` if none is closer than that. */
  function Closest(cfg: Config, d: nat, cs: seq<Candidate>): nat {
    if cs == [] then d
    else
      var rest, last := Closest(cfg, d, cs[..|cs| - 1]), cfg.dist(cs[|cs| - 1].key);
      if last < rest then last else rest
  }

  lemma {:induction false} ClosestOf(cfg: Config, d: nat, cs: seq<Candidate>)
    ensures Closest(cfg, d, cs) <= d && forall i :: 0 <= i < |cs| ==> Closest(cfg, d, cs) <= cfg.dist(cs[i].key)
    ensures Closest(cfg, d, cs) == d || exists i :: 0 <= i < |cs| && Closest(cfg, d, cs) == cfg.dist(cs[i].key)
  {
    if cs != [] {
      ClosestOf(cfg, d, cs[..|cs| - 1]);
    }
  }

  lemma {:induction false} JoinAllFirst(cfg: Config, peers: seq<Peer>, cs: seq<Candidate>)
    requires Ordered(cfg, peers) && |peers| > 0
    ensures var all := JoinAll(cfg, peers, cs);
            Ordered(cfg, all) && |all| > 0 && cfg.dist(all[0].key) == Closest(cfg, cfg.dist(peers[0].key), cs)
  {
    if cs != [] {
      var init, c := cs[..|cs| - 1], cs[|cs| - 1];
      var all := JoinAll(cfg, peers, init);
      JoinAllFirst(cfg, peers, init);
      if !Occupied(cfg, all, cfg.dist(c.key)) {
        InsertOrdered(cfg, all, Fresh(cfg, c));
      }
      var i := Place(cfg, all, cfg.dist(c.key));
      if i > 0 { assert !NotCloser(cfg, cfg.dist(c.key))(all[0]); }
    }
  }

  /** The documented meaning of progress: a peer closer than any seen so far, or a new peer while there are too few. */
  ghost predicate Documented(cfg: Config, peers: seq<Peer>, cs: seq<Candidate>) {
    || Closer(cfg, peers, cs)
    || (|peers| < cfg.numResults && exists i :: 0 <= i < |cs| && !Has(peers, cs[i].key))
  }

  ghost predicate Closer(cfg: Config, peers: seq<Peer>, cs: seq<Candidate>) {
    exists i :: 0 <= i < |cs| && forall j :: 0 <= j < |peers| ==> cfg.dist(cs[i].key) < cfg.dist(peers[j].key)
  }

  /** The code agrees with the documentation exactly when nothing was returned, or, while there are too few peers, one
      returned is new; otherwise when the last one returned is the closest of those returned, if that beats all known,
      and is not the closest known one, if not. */
  lemma ProgressAsDocumented(cfg: Config, peers: seq<Peer>, cs: seq<Candidate>)
    requires Injective(cfg.dist) && Ordered(cfg, peers) && |peers| > 0
    ensures Advances(cfg, peers, cs) == Documented(cfg, peers, cs) <==>
            cs == [] ||
            var last := cs[|cs| - 1];
            if |peers| < cfg.numResults then exists i :: 0 <= i < |cs| && !Has(peers, cs[i].key)
            else if Closer(cfg, peers, cs) then forall i :: 0 <= i < |cs| ==> cfg.dist(last.key) <= cfg.dist(cs[i].key)
            else last.key != peers[0].key
  {
    if cs != [] {
      var first := cfg.dist(peers[0].key);
      JoinAllFirst(cfg, peers, cs);
      ClosestOf(cfg, first, cs);
      CloserIsBelow(cfg, peers, cs);
      if Closer(cfg, peers, cs) {
        var i :| 0 <= i < |cs| && forall j :: 0 <= j < |peers| ==> cfg.dist(cs[i].key) < cfg.dist(peers[j].key);
        assert !Has(peers, cs[i].key);
      }
    }
  }

  lemma OnlyAscends(origin: Key, i: nat, j: nat)
    requires i < j < NUM_BUCKETS && forall k :: 0 <= k < NUM_BUCKETS ==> !origin[k]
    ensures Dist(origin, Only(i)) < Dist(origin, Only(j))
  {
    HighestDifferenceDecides(Distance(origin, Only(i)), Distance(origin, Only(j)), j);
  }

  /** With enough peers known, a closer peer followed by a farther one counts as no progress. */
  lemma ProgressOverlooksCloser(origin: Key)
    requires forall k :: 0 <= k < NUM_BUCKETS ==> !origin[k]
    ensures var cfg := ConfigFor(origin, 3, 1, 10, FindNode);
            var peers := [Peer(Only(1), true, 0, Succeeded)];
            var cs := [Candidate(Only(0), true), Candidate(Only(2), true)];
            Documented(cfg, peers, cs) && !Advances(cfg, peers, cs)
  {
    var cfg := ConfigFor(origin, 3, 1, 10, FindNode);
    var peers := [Peer(Only(1), true, 0, Succeeded)];
    var cs := [Candidate(Only(0), true), Candidate(Only(2), true)];
    OnlyAscends(origin, 0, 1);
    OnlyAscends(origin, 1, 2);
    assert cfg.dist(cs[0].key) < cfg.dist(peers[0].key);
    assert Closer(cfg, peers, cs);
    DistanceIsInjective(origin);
    ProgressAsDocumented(cfg, peers, cs);
    assert cfg.dist(cs[1].key) > cfg.dist(cs[0].key);
  }

  lemma CloserIsBelow(cfg: Config, peers: seq<Peer>, cs: seq<Candidate>)
    requires Ordered(cfg, peers) && |peers| > 0
    ensures Closer(cfg, peers, cs) <==> Closest(cfg, cfg.dist(peers[0].key), cs) < cfg.dist(peers[0].key)
  {
    var first := cfg.dist(peers[0].key);
    ClosestOf(cfg, first, cs);
    if Closest(cfg, first, cs) < first {
      var i :| 0 <= i < |cs| && Closest(cfg, first, cs) == cfg.dist(cs[i].key);
      forall j | 0 <= j < |peers| ensures cfg.dist(cs[i].key) < cfg.dist(peers[j].key) {
        assert j > 0 ==> first < cfg.dist(peers[j].key);
      }
    }
  }
}
