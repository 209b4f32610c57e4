/** Iterative lookup: peers ordered by distance to a target, contacted with bounded parallelism until enough have
    answered. */
module Lookups {
  import opened Wrappers
  import opened Keys
  import opened Lists

  datatype PeerState = NotContacted | Waiting(timeout: int) | Unresponsive | Failed | Succeeded

  /** `matches` says whether the peer satisfies the lookup's predicate; without a predicate every peer does. */
  datatype Peer = Peer(key: Key, matches: bool, returned: nat, state: PeerState)

  datatype Progress = Iterating(noProgress: nat) | Stalled | Finished

  /** The two kinds of lookup. Only the first accepts a failure from a peer that had timed out. */
  datatype Variant = FindNode | Predicate

  datatype Config = Config(parallelism: nat, numResults: nat, peerTimeout: nat, variant: Variant, dist: Key -> nat)

  /** The state of a lookup, with the peers handed out so far. */
  datatype Lookup = Lookup(peers: seq<Peer>, progress: Progress, waiting: int, handed: seq<Key>)

  /** A peer found by the lookup and whether it satisfies the predicate. */
  datatype Candidate = Candidate(key: Key, matches: bool)

  datatype Verdict = Contact(key: Key) | Wait | AtCapacity | Done

  function DistanceTo(target: Key): Key -> nat {
    (k: Key) => Dist(target, k)
  }

  // ----- Peers in order of distance

  function NotCloser(cfg: Config, d: nat): Peer -> bool {
    (p: Peer) => cfg.dist(p.key) >= d
  }

  /** Where a peer at distance `d` is, or would be put. */
  function Place(cfg: Config, peers: seq<Peer>, d: nat): nat {
    Find(NotCloser(cfg, d), peers)
  }

  predicate Occupied(cfg: Config, peers: seq<Peer>, d: nat) {
    var i := Place(cfg, peers, d);
    i < |peers| && cfg.dist(peers[i].key) == d
  }

  function Fresh(cfg: Config, c: Candidate): Peer {
    Peer(c.key, cfg.variant.FindNode? || c.matches, 0, NotContacted)
  }

  function InsertAt<T>(s: seq<T>, i: nat, x: T): seq<T>
    requires i <= |s|
  {
    s[..i] + [x] + s[i..]
  }

  /** A new peer joins the lookup unless it is known already. */
  function Join(cfg: Config, peers: seq<Peer>, c: Candidate): seq<Peer> {
    var d := cfg.dist(c.key);
    if Occupied(cfg, peers, d) then peers else InsertAt(peers, Place(cfg, peers, d), Fresh(cfg, c))
  }

  function JoinAll(cfg: Config, peers: seq<Peer>, cs: seq<Candidate>): seq<Peer> {
    if cs == [] then peers else Join(cfg, JoinAll(cfg, peers, cs[..|cs| - 1]), cs[|cs| - 1])
  }

  /** A peer given when the lookup starts; the last of several equal ones counts. */
  function Begin(cfg: Config, peers: seq<Peer>, c: Candidate): seq<Peer> {
    var d := cfg.dist(c.key);
    if Occupied(cfg, peers, d) then peers[Place(cfg, peers, d) := Fresh(cfg, c)]
    else InsertAt(peers, Place(cfg, peers, d), Fresh(cfg, c))
  }

  function BeginAll(cfg: Config, cs: seq<Candidate>): seq<Peer> {
    if cs == [] then [] else Begin(cfg, BeginAll(cfg, cs[..|cs| - 1]), cs[|cs| - 1])
  }

  function Start(cfg: Config, known: seq<Candidate>): Lookup {
    var taken := if |known| <= cfg.numResults then known else known[..cfg.numResults];
    Lookup(BeginAll(cfg, taken), Iterating(0), 0, [])
  }

  // ----- Callbacks

  function Restated(p: Peer, state: PeerState): Peer {
    p.(state := state)
  }

  function Answered(p: Peer, returned: nat): Peer {
    p.(returned := p.returned + returned, state := Succeeded)
  }

  function Answer(l: Lookup, i: nat, returned: nat): Lookup
    requires i < |l.peers|
  {
    var p := l.peers[i];
    l.(peers := l.peers[i := Answered(p, returned)],
       waiting := if p.state.Waiting? then l.waiting - 1 else l.waiting)
  }

  /** Whether an answer that returned `cs` moves the lookup forward: the last candidate decides. */
  predicate Advances(cfg: Config, peers: seq<Peer>, cs: seq<Candidate>) {
    cs != [] &&
    var all := JoinAll(cfg, peers, cs);
    (|all| > 0 && cfg.dist(all[0].key) == cfg.dist(cs[|cs| - 1].key)) || |peers| < cfg.numResults
  }

  function NextProgress(cfg: Config, progress: Progress, advances: bool): Progress {
    match progress
    case Iterating(n) =>
      var n' := if advances then 0 else n + 1;
      if n' >= cfg.parallelism then Stalled else Iterating(n')
    case Stalled => if advances then Iterating(0) else Stalled
    case Finished => Finished
  }

  function OnSuccess(cfg: Config, l: Lookup, key: Key, cs: seq<Candidate>): Lookup {
    var d := cfg.dist(key);
    if l.progress.Finished? || !Occupied(cfg, l.peers, d) then l
    else
      var i := Place(cfg, l.peers, d);
      if l.peers[i].state.Waiting? || l.peers[i].state.Unresponsive? then
        var l1 := Answer(l, i, |cs|);
        l1.(peers := JoinAll(cfg, l1.peers, cs),
            progress := NextProgress(cfg, l1.progress, Advances(cfg, l1.peers, cs)))
      else l
  }

  function Fail(l: Lookup, i: nat): Lookup
    requires i < |l.peers|
  {
    l.(peers := l.peers[i := Restated(l.peers[i], Failed)],
       waiting := if l.peers[i].state.Waiting? then l.waiting - 1 else l.waiting)
  }

  function OnFailure(cfg: Config, l: Lookup, key: Key): Lookup {
    var d := cfg.dist(key);
    if l.progress.Finished? || !Occupied(cfg, l.peers, d) then l
    else
      var i := Place(cfg, l.peers, d);
      if l.peers[i].state.Waiting? || (cfg.variant.FindNode? && l.peers[i].state.Unresponsive?) then Fail(l, i) else l
  }

  // ----- Handing out peers

  predicate Full(cfg: Config, l: Lookup) {
    match l.progress
    case Stalled => l.waiting >= cfg.numResults
    case Iterating(_) => l.waiting >= cfg.parallelism
    case Finished => true
  }

  function HandOut(cfg: Config, l: Lookup, i: nat, now: int): Lookup
    requires i < |l.peers|
  {
    var p := l.peers[i];
    l.(peers := l.peers[i := Restated(p, Waiting(now + cfg.peerTimeout))], waiting := l.waiting + 1,
       handed := l.handed + [p.key])
  }

  function TimeOut(l: Lookup, i: nat): Lookup
    requires i < |l.peers|
  {
    l.(peers := l.peers[i := Restated(l.peers[i], Unresponsive)], waiting := l.waiting - 1)
  }

  /** The pass over the peers from `i` on; `counter` is the number of results so far, absent while a closer one may
      still come. */
  function Scan(cfg: Config, l: Lookup, now: int, full: bool, i: nat, counter: Option<nat>): (Lookup, Verdict)
    requires i <= |l.peers|
    decreases |l.peers| - i
  {
    if i == |l.peers| then
      if l.waiting > 0 then (l, Wait) else (l.(progress := Finished), Done)
    else
      var p := l.peers[i];
      match p.state
      case NotContacted => if full then (l, AtCapacity) else (HandOut(cfg, l, i, now), Contact(p.key))
      case Waiting(t) =>
        if now >= t then Scan(cfg, TimeOut(l, i), now, full, i + 1, counter)
        else if full then (l, AtCapacity)
        else Scan(cfg, l, now, full, i + 1, if p.matches then None else counter)
      case Succeeded =>
        if counter.Some? && p.matches then
          if counter.value + 1 >= cfg.numResults then (l.(progress := Finished), Done)
          else Scan(cfg, l, now, full, i + 1, Some(counter.value + 1))
        else Scan(cfg, l, now, full, i + 1, counter)
      case _ => Scan(cfg, l, now, full, i + 1, counter)
  }

  function Next(cfg: Config, l: Lookup, now: int): (Lookup, Verdict) {
    if l.progress.Finished? then (l, Done) else Scan(cfg, l, now, Full(cfg, l), 0, Some(0))
  }

  // ----- Results

  function Counts(): Peer -> bool {
    (p: Peer) => p.state.Succeeded? && p.matches
  }

  function Results(cfg: Config, peers: seq<Peer>): seq<Peer> {
    var all := Filter(Counts(), peers);
    if |all| <= cfg.numResults then all else all[..cfg.numResults]
  }

  // ----- Runs

  datatype Event = Success(key: Key, candidates: seq<Candidate>) | Failure(key: Key) | Poll(now: int)

  function Step(cfg: Config, l: Lookup, e: Event): Lookup {
    match e
    case Success(key, cs) => OnSuccess(cfg, l, key, cs)
    case Failure(key) => OnFailure(cfg, l, key)
    case Poll(now) => Next(cfg, l, now).0
  }

  function Run(cfg: Config, known: seq<Candidate>, events: seq<Event>): Lookup {
    if events == [] then Start(cfg, known) else Step(cfg, Run(cfg, known, events[..|events| - 1]), events[|events| - 1])
  }
}
