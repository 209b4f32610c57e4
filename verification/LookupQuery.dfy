/** The lookup as an object updated by callbacks. */
module LookupQueries {
  import opened Wrappers
  import opened Keys
  import opened Lists
  import opened Lookups
  import opened LookupRuns

  /** A peer that is waited for is counted. */
  lemma NoLongerWaiting(peers: seq<Peer>, i: nat, p: Peer)
    requires i < |peers| && peers[i].state.Waiting? && !p.state.Waiting?
    ensures CountIf(Waits(), peers) > 0 && CountIf(Waits(), peers[i := p]) == CountIf(Waits(), peers) - 1
  {
    CountUpdate(Waits(), peers, i, p);
    CountRemoveAt(Waits(), peers, i);
  }

  class LookupQuery {
    const cfg: Config
    var peers: seq<Peer>
    var progress: Progress
    var numWaiting: nat

    /** The peers handed out so far. */
    ghost var handed: seq<Key>

    ghost function State(): Lookup
      reads this
    {
      Lookup(peers, progress, numWaiting, handed)
    }

    ghost predicate Valid()
      reads this
    {
      Injective(cfg.dist) && LookupInv(cfg, State())
    }

    constructor (cfg: Config, known: seq<Candidate>)
      requires Injective(cfg.dist)
      ensures Valid() && this.cfg == cfg && State() == Start(cfg, known)
    {
      var taken := if |known| <= cfg.numResults then known else known[..cfg.numResults];
      var ps := [];
      for i := 0 to |taken|
        invariant ps == BeginAll(cfg, taken[..i])
      {
        assert taken[..i + 1][..i] == taken[..i];
        ps := Begin(cfg, ps, taken[i]);
      }
      assert taken[..|taken|] == taken;
      this.cfg := cfg;
      peers, progress, numWaiting, handed := ps, Iterating(0), 0, [];
      StartKeeps(cfg, known);
    }

    method OnSuccess(key: Key, closer: seq<Candidate>)
      requires Valid()
      modifies this
      ensures Valid() && State() == Lookups.OnSuccess(cfg, old(State()), key, closer)
    {
      OnSuccessKeeps(cfg, State(), key, closer);
      if progress.Finished? || !Occupied(cfg, peers, cfg.dist(key)) {
        return;
      }
      var i := Place(cfg, peers, cfg.dist(key));
      if !peers[i].state.Waiting? && !peers[i].state.Unresponsive? {
        return;
      }
      Absorb(i, closer);
    }

    method Absorb(i: nat, closer: seq<Candidate>)
      requires numWaiting == CountIf(Waits(), peers)
      requires i < |peers| && (peers[i].state.Waiting? || peers[i].state.Unresponsive?)
      modifies this
      ensures var l := Answer(old(State()), i, |closer|);
              State() == l.(peers := JoinAll(cfg, l.peers, closer),
                            progress := NextProgress(cfg, l.progress, Advances(cfg, l.peers, closer)))
    {
      if peers[i].state.Waiting? {
        NoLongerWaiting(peers, i, Answered(peers[i], |closer|));
        numWaiting := numWaiting - 1;
      }
      peers := peers[i := Answered(peers[i], |closer|)];
      var advances := Incorporate(closer);
      progress := NextProgress(cfg, progress, advances);
    }

    method Incorporate(closer: seq<Candidate>) returns (advances: bool)
      modifies this`peers
      ensures peers == JoinAll(cfg, old(peers), closer) && advances == Advances(cfg, old(peers), closer)
    {
      advances := false;
      var numClosest := |peers|;
      for i := 0 to |closer|
        invariant peers == JoinAll(cfg, old(peers), closer[..i])
        invariant advances == Advances(cfg, old(peers), closer[..i])
      {
        assert closer[..i + 1][..i] == closer[..i];
        var d := cfg.dist(closer[i].key);
        if !Occupied(cfg, peers, d) {
          peers := InsertAt(peers, Place(cfg, peers, d), Fresh(cfg, closer[i]));
        }
        advances := (|peers| > 0 && cfg.dist(peers[0].key) == d) || numClosest < cfg.numResults;
      }
      assert closer[..|closer|] == closer;
    }

    method OnFailure(key: Key)
      requires Valid()
      modifies this
      ensures Valid() && State() == Lookups.OnFailure(cfg, old(State()), key)
    {
      OnFailureKeeps(cfg, State(), key);
      if progress.Finished? || !Occupied(cfg, peers, cfg.dist(key)) {
        return;
      }
      var i := Place(cfg, peers, cfg.dist(key));
      match peers[i].state {
        case Waiting(_) =>
          NoLongerWaiting(peers, i, Restated(peers[i], Failed));
          numWaiting := numWaiting - 1;
          peers := peers[i := Restated(peers[i], Failed)];
        case Unresponsive =>
          if cfg.variant.FindNode? {
            peers := peers[i := Restated(peers[i], Failed)];
          }
        case _ =>
      }
    }

    method Next(now: int) returns (v: Verdict)
      requires Valid()
      modifies this
      ensures Valid() && (State(), v) == Lookups.Next(cfg, old(State()), now)
    {
      NextKeeps(cfg, State(), now);
      if progress.Finished? {
        return Done;
      }
      var atCapacity := match progress
        case Stalled => numWaiting >= cfg.numResults
        case _ => numWaiting >= cfg.parallelism;
      v := Pass(now, atCapacity);
    }

    method Pass(now: int, atCapacity: bool) returns (v: Verdict)
      requires numWaiting == CountIf(Waits(), peers)
      modifies this
      ensures (State(), v) == Scan(cfg, old(State()), now, atCapacity, 0, Some(0))
    {
      var counter: Option<nat> := Some(0);
      var i := 0;
      while i < |peers|
        invariant i <= |peers| && numWaiting == CountIf(Waits(), peers)
        invariant Scan(cfg, State(), now, atCapacity, i, counter) ==
                  Scan(cfg, old(State()), now, atCapacity, 0, Some(0))
        decreases |peers| - i
      {
        var p := peers[i];
        match p.state {
          case NotContacted =>
            if atCapacity {
              return AtCapacity;
            }
            peers := peers[i := Restated(p, Waiting(now + cfg.peerTimeout))];
            numWaiting := numWaiting + 1;
            handed := handed + [p.key];
            return Contact(p.key);
          case Waiting(timeout) =>
            if now >= timeout {
              NoLongerWaiting(peers, i, Restated(p, Unresponsive));
              numWaiting := numWaiting - 1;
              peers := peers[i := Restated(p, Unresponsive)];
            } else if atCapacity {
              return AtCapacity;
            } else if p.matches {
              counter := None;
            }
          case Succeeded =>
            if counter.Some? && p.matches {
              counter := Some(counter.value + 1);
              if counter.value >= cfg.numResults {
                progress := Finished;
                return Done;
              }
            }
          case _ =>
        }
        i := i + 1;
      }
      if numWaiting > 0 {
        return Wait;
      }
      progress := Finished;
      return Done;
    }

    method IntoResult() returns (r: seq<Peer>)
      ensures r == Results(cfg, peers)
    {
      r := [];
      for i := 0 to |peers|
        invariant r == Results(cfg, peers[..i])
      {
        assert peers[..i + 1] == peers[..i] + [peers[i]];
        FilterAppend(Counts(), peers[..i], peers[i]);
        if peers[i].state.Succeeded? && peers[i].matches && |r| < cfg.numResults {
          r := r + [peers[i]];
        }
      }
      assert peers[..|peers|] == peers;
    }
  }
}
