/** The service's two sides of FINDNODE: sending NODES responses and collecting them. */
module NodesServices {
  import opened Wrappers
  import opened Keys
  import opened Lists
  import opened Walks
  import opened Filters
  import opened Buckets
  import opened Tables
  import opened KBucketsTables
  import opened NodesResponses
  import opened NodesRuns
  import Distances

  lemma SplitNext(enrs: seq<Enr>, i: nat)
    requires i < |enrs|
    ensures Split(enrs[..i + 1]) == Add(Split(enrs[..i]), enrs[i])
  {
    assert enrs[..i + 1][..i] == enrs[..i];
  }

  /** Adds one record to the chunks, given the size of the last one. */
  method Pack(chunks: seq<seq<Enr>>, size: nat, enr: Enr) returns (r: seq<seq<Enr>>, size': nat)
    requires |chunks| > 0 && size == Size(chunks[|chunks| - 1])
    ensures r == Add(chunks, enr) && size' == Size(r[|r| - 1])
  {
    var index := |chunks| - 1;
    SizeAppend(chunks[index], enr);
    SizeAppend([], enr);
    assert [] + [enr] == [enr];
    if enr.size + size < LIMIT {
      return chunks[index := chunks[index] + [enr]], size + enr.size;
    }
    return chunks + [[enr]], enr.size;
  }

  method SplitNodes(enrs: seq<Enr>) returns (chunks: seq<seq<Enr>>)
    ensures chunks == Split(enrs)
  {
    var totalSize := 0;
    chunks := [[]];
    for i := 0 to |enrs|
      invariant |chunks| > 0 && chunks == Split(enrs[..i]) && totalSize == Size(chunks[|chunks| - 1])
    {
      SplitNext(enrs, i);
      chunks, totalSize := Pack(chunks, totalSize, enrs[i]);
    }
    assert enrs[..|enrs|] == enrs;
  }

  /** Records of the nodes that are not the requesting one. */
  method RecordsFor(requester: Key, found: seq<Node<Enr>>) returns (r: seq<Enr>)
    ensures r == Records(Filter(NotFor(requester), found))
  {
    r := [];
    for i := 0 to |found|
      invariant r == Records(Filter(NotFor(requester), found[..i]))
    {
      assert found[..i + 1][..i] == found[..i];
      if found[i].key != requester {
        r := r + [found[i].value];
      }
    }
    assert found[..|found|] == found;
  }

  /** The table after its nodes at the given distances were looked up, if any are given. */
  function Applied(cfg: Buckets.Config<Enr>, t: Table<Enr>, now: int, others: seq<nat>, max: nat): Table<Enr>
    requires |t.buckets| == NUM_BUCKETS
  {
    if others == [] then t else Distances.ApplyEach(Distances.At(cfg, now), t, Distances.InRange(others), 0, max)
  }

  /** The nodes of a table at the given distances, if any are given. */
  method FindNodes(table: KBucketsTable<Enr>, others: seq<nat>, max: nat, now: int, ghost expected: seq<Node<Enr>>)
    returns (found: seq<Node<Enr>>)
    requires table.Valid() && expected == Found(table.cfg, table.Abs(), now, others, max)
    modifies table, table.buckets
    ensures table.Valid() && table.Abs() == Applied(table.cfg, old(table.Abs()), now, others, max)
    ensures found == if others == [] then [] else expected
  {
    if others == [] {
      return [];
    }
    found := Distances.NodesByDistances(table, others, max, now);
  }

  /** Answers FINDNODE from a table: the chunks are sent in this order, each with their number as total. */
  method SendNodesResponse(table: KBucketsTable<Enr>, local: Enr, requester: Key, distances: seq<nat>, max: nat,
                           now: int, ghost expected: seq<Node<Enr>>)
    returns (chunks: seq<seq<Enr>>)
    requires table.Valid() && expected == Found(table.cfg, table.Abs(), now, Others(Sorted(distances)), max)
    modifies table, table.buckets
    ensures table.Valid() && table.Abs() == Applied(table.cfg, old(table.Abs()), now, Others(Sorted(distances)), max)
    ensures chunks == Split(ToSend(local, requester, Sorted(distances), expected))
  {
    var sorted := Sorted(distances);
    var found := FindNodes(table, Others(sorted), max, now, expected);
    var records := RecordsFor(requester, found);
    if Others(sorted) == [] {
      assert Records(Filter(NotFor(requester), [])) == [];
    }
    chunks := SplitNodes((if AsksSelf(sorted) then [local] else []) + records);
  }

  // ----- Collecting

  function DiscoveredBy(log: seq<Discovery>, id: RequestId): seq<seq<Enr>> {
    if log == [] then []
    else
      var rest, last := DiscoveredBy(log[..|log| - 1], id), log[|log| - 1];
      if last.id == id then rest + [last.enrs] else rest
  }

  lemma DiscoverMore(log: seq<Discovery>, d: Discovery, id: RequestId)
    ensures DiscoveredBy(log + [d], id) == if d.id == id then DiscoveredBy(log, id) + [d.enrs]
                                           else DiscoveredBy(log, id)
  {
    assert (log + [d])[..|log|] == log;
  }

  class NodesCollector {
    const max: nat
    var requests: map<RequestId, FindRequest>
    var partials: map<RequestId, Partial>
    var discovered: seq<Discovery>
    var answered: seq<Discovery>
    var banned: set<NodeAddress>

    constructor (max: nat)
      ensures this.max == max && State() == NO_REQUESTS
    {
      this.max := max;
      requests, partials, discovered, answered, banned := map[], map[], [], [], {};
    }

    ghost function State(): Service
      reads this
    {
      Service(requests, partials, discovered, answered, banned)
    }

    /** What has become of one request. */
    ghost function View(id: RequestId): Collector
      reads this
    {
      Collector(id in requests, if id in partials then Some(partials[id]) else None, DiscoveredBy(discovered, id))
    }

    /** The response of an open request, already filtered, is stored or passed on. */
    method Collect(id: RequestId, r: FindRequest, total: nat, kept: seq<Enr>)
      requires id !in requests
      modifies this`requests, this`partials, this`discovered
      ensures State() == CollectIn(old(State()), max, id, r, total, kept)
      ensures View(id) == Receive(old(View(id)).(open := true), max, total, kept)
      ensures requests == old(requests) || requests == old(requests)[id := r]
      ensures forall y :: y != id ==> View(y) == old(View(y))
    {
      var result := kept;
      if total > 1 {
        var p := if id in partials then partials[id] else Partial(1, []);
        if |p.received| < max && p.count < total && p.count < MAX_NODES_RESPONSES {
          partials := partials[id := Partial(p.count + 1, p.received + kept)];
          requests := requests[id := r];
          return;
        }
        result := p.received + kept;
      }
      partials := partials - {id};
      DiscoverMoreForAll(discovered, Discovery(id, result));
      discovered := discovered + [Discovery(id, result)];
    }

    method HandleNodes(addr: NodeAddress, id: RequestId, total: nat, enrs: seq<Enr>)
      modifies this
      ensures State() == HandleNodesIn(old(State()), max, addr, id, total, enrs)
      ensures id !in old(requests) ==> unchanged(this)
      ensures requests == old(requests) || requests == old(requests) - {id}
      ensures id in old(requests) && old(requests)[id].contact != addr ==>
                requests == old(requests) - {id} && partials == old(partials) && discovered == old(discovered) &&
                  banned == old(banned)
      ensures id in old(requests) && old(requests)[id].contact == addr && old(requests)[id].callback ==>
                && requests == old(requests) - {id} && partials == old(partials) && discovered == old(discovered)
                && answered == old(answered) + [Discovery(id, enrs)]
      ensures id in old(requests) && old(requests)[id].contact == addr && !old(requests)[id].callback ==>
                var r := old(requests)[id];
                var (kept, ban) := Accept(r.distances, r.peer, enrs);
                && View(id) == Receive(old(View(id)), max, total, kept)
                && (id in requests ==> requests[id] == r)
                && banned == (if ban then old(banned) + {addr} else old(banned))
      ensures forall y :: y != id ==> View(y) == old(View(y))
    {
      if id !in requests {
        return;
      }
      var r := requests[id];
      requests := requests - {id};
      if r.contact != addr {
        return;
      }
      if r.callback {
        answered := answered + [Discovery(id, enrs)];
        return;
      }
      var (kept, ban) := Accept(r.distances, r.peer, enrs);
      if ban {
        banned := banned + {addr};
      }
      Collect(id, r, total, kept);
    }
  }

  lemma DiscoverMoreForAll(log: seq<Discovery>, d: Discovery)
    ensures forall id :: DiscoveredBy(log + [d], id) == if d.id == id then DiscoveredBy(log, id) + [d.enrs]
                                                        else DiscoveredBy(log, id)
  {
    forall id
      ensures DiscoveredBy(log + [d], id) == if d.id == id then DiscoveredBy(log, id) + [d.enrs]
                                             else DiscoveredBy(log, id)
    {
      DiscoverMore(log, d, id);
    }
  }
}
