/** NODES responses: split by size on one side, filtered and put together again on the other. */
module NodesResponses {
  import opened Wrappers
  import opened Keys
  import opened Lists
  import opened Walks
  import opened Filters
  import opened Buckets
  import opened Tables
  import Distances
  import HandlerSpec

  /** Room for records in one packet: its maximum size less the overhead of a regular message. */
  const MAX_PACKET_SIZE: nat := 1280
  const LIMIT: nat := MAX_PACKET_SIZE - 104

  /** The largest size of a node record. */
  const MAX_ENR_SIZE: nat := 300

  const MAX_NODES_RESPONSES: nat := 15

  // ----- Splitting

  function Size(chunk: seq<Enr>): nat {
    if chunk == [] then 0 else Size(chunk[..|chunk| - 1]) + chunk[|chunk| - 1].size
  }

  /** A record is added to the last chunk if it fits, and opens a new one if not. */
  function Add(chunks: seq<seq<Enr>>, enr: Enr): (r: seq<seq<Enr>>)
    requires |chunks| > 0
    ensures |r| > 0
  {
    var last := chunks[|chunks| - 1];
    if enr.size + Size(last) < LIMIT then chunks[|chunks| - 1 := last + [enr]] else chunks + [[enr]]
  }

  function Split(enrs: seq<Enr>): (chunks: seq<seq<Enr>>)
    ensures |chunks| > 0
  {
    if enrs == [] then [[]] else Add(Split(enrs[..|enrs| - 1]), enrs[|enrs| - 1])
  }

  ghost predicate Small(enrs: seq<Enr>) {
    forall i :: 0 <= i < |enrs| ==> enrs[i].size <= MAX_ENR_SIZE
  }

  lemma SizeAppend(chunk: seq<Enr>, enr: Enr)
    ensures Size(chunk + [enr]) == Size(chunk) + enr.size
  {
    assert (chunk + [enr])[..|chunk|] == chunk;
  }

  lemma FlatAppend<T>(lists: seq<seq<T>>, last: seq<T>)
    ensures Flat(lists + [last]) == Flat(lists) + last
  {
    assert (lists + [last])[..|lists|] == lists;
  }

  /** The chunks put end to end are the list. */
  lemma {:induction false} SplitCovers(enrs: seq<Enr>, chunks: seq<seq<Enr>>)
    requires chunks == Split(enrs)
    ensures Flat(chunks) == enrs
    decreases |enrs|
  {
    if enrs == [] {
      FlatOne(enrs);
    } else {
      var init, enr, before := enrs[..|enrs| - 1], enrs[|enrs| - 1], Split(enrs[..|enrs| - 1]);
      SplitCovers(init, before);
      InitLast(enrs);
      AddCovers(before, enr, init, enrs, chunks);
    }
  }

  lemma FlatOne<T>(s: seq<T>)
    ensures Flat([s]) == s
  {
    assert [s][..0] == [];
  }

  lemma InitLast<T>(s: seq<T>)
    requires s != []
    ensures s == s[..|s| - 1] + [s[|s| - 1]]
  {
  }

  lemma AddCovers(chunks: seq<seq<Enr>>, enr: Enr, init: seq<Enr>, all: seq<Enr>, chunks': seq<seq<Enr>>)
    requires |chunks| > 0 && Flat(chunks) == init && all == init + [enr] && chunks' == Add(chunks, enr)
    ensures Flat(chunks') == all
  {
    FlatExtend(chunks, enr);
    FlatAppend(chunks, [enr]);
  }

  lemma FlatExtend<T>(lists: seq<seq<T>>, x: T)
    requires |lists| > 0
    ensures Flat(lists[|lists| - 1 := lists[|lists| - 1] + [x]]) == Flat(lists) + [x]
  {
    var n := |lists| - 1;
    assert lists[n := lists[n] + [x]][..n] == lists[..n];
    assert Flat(lists[..n]) + (lists[n] + [x]) == (Flat(lists[..n]) + lists[n]) + [x];
  }

  lemma {:induction false} SizeBound(chunk: seq<Enr>)
    requires Small(chunk)
    ensures Size(chunk) <= MAX_ENR_SIZE * |chunk|
  {
    if chunk != [] { SizeBound(chunk[..|chunk| - 1]); }
  }

  /** Every chunk fits into a packet. */
  ghost predicate Fits(chunks: seq<seq<Enr>>) {
    chunks == [] || (Fits(chunks[..|chunks| - 1]) && Size(chunks[|chunks| - 1]) < LIMIT)
  }

  lemma {:induction false} FitsAt(chunks: seq<seq<Enr>>, i: nat)
    requires Fits(chunks) && i < |chunks|
    ensures Size(chunks[i]) < LIMIT
  {
    if i < |chunks| - 1 { FitsAt(chunks[..|chunks| - 1], i); }
  }

  lemma AddFits(chunks: seq<seq<Enr>>, enr: Enr)
    requires |chunks| > 0 && Fits(chunks) && enr.size < LIMIT
    ensures Fits(Add(chunks, enr))
  {
    var n, last := |chunks| - 1, chunks[|chunks| - 1];
    SizeAppend(last, enr);
    SizeAppend([], enr);
    assert [] + [enr] == [enr];
    assert chunks[n := last + [enr]][..n] == chunks[..n];
    assert (chunks + [[enr]])[..|chunks|] == chunks;
  }

  /** Records within the limit are split into chunks within the limit. */
  lemma {:induction false} SplitFits(enrs: seq<Enr>, i: nat)
    requires (forall k :: 0 <= k < |enrs| ==> enrs[k].size < LIMIT) && i < |Split(enrs)|
    ensures Size(Split(enrs)[i]) < LIMIT
  {
    SplitAllFit(enrs);
    FitsAt(Split(enrs), i);
  }

  lemma {:induction false} SplitAllFit(enrs: seq<Enr>)
    requires forall k :: 0 <= k < |enrs| ==> enrs[k].size < LIMIT
    ensures Fits(Split(enrs))
  {
    if enrs == [] {
      assert [enrs][..0] == [];
    } else {
      SplitAllFit(enrs[..|enrs| - 1]);
      AddFits(Split(enrs[..|enrs| - 1]), enrs[|enrs| - 1]);
    }
  }

  /** Every chunk but the last holds at least three records. */
  ghost predicate Filled(chunks: seq<seq<Enr>>) {
    |chunks| > 0 && Small(chunks[|chunks| - 1]) && forall i :: 0 <= i < |chunks| - 1 ==> |chunks[i]| >= 3
  }

  lemma AddFills(chunks: seq<seq<Enr>>, enr: Enr)
    requires Filled(chunks) && enr.size <= MAX_ENR_SIZE
    ensures var r := Add(chunks, enr); Filled(r) && |r[|r| - 1]| > 0
  {
    SizeBound(chunks[|chunks| - 1]);
  }

  lemma {:induction false} SplitFills(enrs: seq<Enr>, chunks: seq<seq<Enr>>)
    requires Small(enrs) && chunks == Split(enrs)
    ensures Filled(chunks) && (enrs != [] ==> |chunks[|chunks| - 1]| > 0)
    decreases |enrs|
  {
    if enrs != [] {
      var before := Split(enrs[..|enrs| - 1]);
      SplitFills(enrs[..|enrs| - 1], before);
      AddFills(before, enrs[|enrs| - 1]);
    }
  }

  lemma {:induction false} FilledLength(chunks: seq<seq<Enr>>)
    requires |chunks| > 0 && forall i :: 0 <= i < |chunks| - 1 ==> |chunks[i]| >= 3
    ensures |Flat(chunks)| >= 3 * (|chunks| - 1) + |chunks[|chunks| - 1]|
  {
    var rest := chunks[..|chunks| - 1];
    if rest != [] { FilledLength(rest); }
  }

  /** Records of legal size are split into non-empty chunks, at least three records to each but the last. */
  lemma SplitCounts(enrs: seq<Enr>, chunks: seq<seq<Enr>>)
    requires Small(enrs) && enrs != [] && chunks == Split(enrs)
    ensures forall i :: 0 <= i < |chunks| ==> chunks[i] != []
    ensures 1 <= |chunks| && 3 * |chunks| <= |enrs| + 2
  {
    SplitFills(enrs, chunks);
    SplitCovers(enrs, chunks);
    FilledLength(chunks);
  }

  /** The first record of a chunk did not fit into the chunk before. */
  ghost predicate Follows(before: seq<Enr>, chunk: seq<Enr>) {
    chunk != [] && Size(before) + chunk[0].size >= LIMIT
  }

  ghost predicate Greedy(chunks: seq<seq<Enr>>) {
    forall i :: 0 < i < |chunks| ==> Follows(chunks[i - 1], chunks[i])
  }

  lemma AddGreedy(chunks: seq<seq<Enr>>, enr: Enr)
    requires |chunks| > 0 && Greedy(chunks)
    ensures Greedy(Add(chunks, enr))
  {
    var r, n := Add(chunks, enr), |chunks| - 1;
    forall i | 0 < i < |r| ensures Follows(r[i - 1], r[i]) {
      if i <= n { assert Follows(chunks[i - 1], chunks[i]); }
    }
  }

  /** No more chunks are used than needed: a new one is opened only for a record that does not fit into the last. */
  lemma {:induction false} SplitIsGreedy(enrs: seq<Enr>)
    ensures Greedy(Split(enrs))
  {
    if enrs != [] {
      SplitIsGreedy(enrs[..|enrs| - 1]);
      AddGreedy(Split(enrs[..|enrs| - 1]), enrs[|enrs| - 1]);
    }
  }

  // ----- Choosing the records to send

  /** The distances in ascending order, each once. */
  function Sorted(ds: seq<nat>): seq<nat> {
    if ds == [] then [] else Placed(Sorted(ds[..|ds| - 1]), ds[|ds| - 1])
  }

  function Placed(s: seq<nat>, d: nat): seq<nat> {
    if s == [] then [d]
    else if d == s[0] then s
    else if d < s[0] then [d] + s
    else [s[0]] + Placed(s[1..], d)
  }

  lemma {:induction false} PlacedHas(s: seq<nat>, d: nat, x: nat)
    ensures x in Placed(s, d) <==> x == d || x in s
  {
    if s != [] { PlacedHas(s[1..], d, x); }
  }

  lemma {:induction false} SortedHas(ds: seq<nat>, x: nat)
    ensures x in Sorted(ds) <==> x in ds
  {
    if ds != [] {
      SortedHas(ds[..|ds| - 1], x);
      PlacedHas(Sorted(ds[..|ds| - 1]), ds[|ds| - 1], x);
      assert ds == ds[..|ds| - 1] + [ds[|ds| - 1]];
    }
  }

  ghost predicate Ascending(s: seq<nat>) {
    forall i, j :: 0 <= i < j < |s| ==> s[i] < s[j]
  }

  lemma {:induction false} PlacedAscends(s: seq<nat>, d: nat)
    requires Ascending(s)
    ensures Ascending(Placed(s, d))
    ensures s != [] ==> Placed(s, d)[0] == (if d < s[0] then d else s[0])
  {
    if s != [] && d > s[0] {
      PlacedAscends(s[1..], d);
      var rest := Placed(s[1..], d);
      forall j | 0 <= j < |rest| ensures s[0] < rest[j] {
        PlacedHas(s[1..], d, rest[j]);
      }
    }
  }

  lemma {:induction false} SortedAscends(ds: seq<nat>)
    ensures Ascending(Sorted(ds))
  {
    if ds != [] {
      SortedAscends(ds[..|ds| - 1]);
      PlacedAscends(Sorted(ds[..|ds| - 1]), ds[|ds| - 1]);
    }
  }

  /** Our own record answers distance zero; it is asked for if it comes first. */
  predicate AsksSelf(sorted: seq<nat>) {
    sorted != [] && sorted[0] == 0
  }

  function Others(sorted: seq<nat>): seq<nat> {
    if AsksSelf(sorted) then sorted[1..] else sorted
  }

  function NotFor(requester: Key): Node<Enr> -> bool {
    (n: Node<Enr>) => n.key != requester
  }

  function Records(nodes: seq<Node<Enr>>): (r: seq<Enr>)
    ensures |r| == |nodes| && forall i :: 0 <= i < |r| ==> r[i] == nodes[i].value
  {
    seq(|nodes|, i requires 0 <= i < |nodes| => nodes[i].value)
  }

  /** The records to send, given the nodes found at the other distances. */
  function ToSend(local: Enr, requester: Key, sorted: seq<nat>, found: seq<Node<Enr>>): seq<Enr> {
    (if AsksSelf(sorted) then [local] else []) + if Others(sorted) == [] then []
                                                 else Records(Filter(NotFor(requester), found))
  }

  lemma SortedSelf(ds: seq<nat>)
    ensures AsksSelf(Sorted(ds)) <==> 0 in ds
    ensures ds == [0] ==> Others(Sorted(ds)) == []
    ensures forall d :: d in Others(Sorted(ds)) ==> d in ds
  {
    SortedHas(ds, 0);
    SortedAscends(ds);
    forall d | d in Others(Sorted(ds)) ensures d in ds { SortedHas(ds, d); }
    if ds == [0] {
      assert ds[..0] == [];
      assert Sorted(ds) == Placed(Sorted(ds[..0]), ds[0]) == [0];
    }
  }

  /** The records of these nodes, in order, without that of the requesting node. */
  ghost predicate RecordsBut(requester: Key, found: seq<Node<Enr>>, rest: seq<Enr>, at: seq<nat>) {
    && |rest| == |at|
    && (forall j :: 0 <= j < |at| ==> at[j] < |found| && rest[j] == found[at[j]].value)
    && (forall i, j :: 0 <= i < j < |at| ==> at[i] < at[j])
    && (forall i :: 0 <= i < |found| ==> (i in at <==> found[i].key != requester))
  }

  lemma RecordsPicked(requester: Key, found: seq<Node<Enr>>) returns (at: seq<nat>)
    ensures RecordsBut(requester, found, Records(Filter(NotFor(requester), found)), at)
  {
    at := FilterPicks(NotFor(requester), found);
  }

  /** What is sent: our own record first if distance zero is asked for, then, if other distances are, the records of the
      nodes found there, in order, without that of the requesting node. */
  lemma SentIs(local: Enr, requester: Key, ds: seq<nat>, found: seq<Node<Enr>>) returns (rest: seq<Enr>, at: seq<nat>)
    ensures ToSend(local, requester, Sorted(ds), found) == if 0 in ds then [local] + rest else rest
    ensures (exists d :: d in ds && d != 0) ==> RecordsBut(requester, found, rest, at)
    ensures (forall d :: d in ds ==> d == 0) ==> rest == []
  {
    SortedSelf(ds);
    OthersMean(ds);
    if Others(Sorted(ds)) == [] {
      rest, at := [], [];
    } else {
      rest := Records(Filter(NotFor(requester), found));
      at := RecordsPicked(requester, found);
      assert [] + rest == rest;
    }
  }

  lemma OthersMean(ds: seq<nat>)
    ensures Others(Sorted(ds)) == [] <==> forall d :: d in ds ==> d == 0
  {
    var s := Sorted(ds);
    SortedAscends(ds);
    forall d ensures d in s <==> d in ds { SortedHas(ds, d); }
    if Others(s) != [] {
      var d := s[|s| - 1];
      assert d in s && d != 0;
    } else if s != [] {
      assert s == [0];
    }
  }

  /** The nodes a table yields for some distances. */
  function Found(cfg: Buckets.Config<Enr>, t: Table<Enr>, now: int, ds: seq<nat>, max: nat): seq<Node<Enr>>
    requires |t.buckets| == NUM_BUCKETS
  {
    Distances.Take(Distances.AtLeastOne(max),
                   Distances.Collect(Views(Distances.AllReady(Distances.At(cfg, now), t.buckets)),
                                     Distances.InRange(ds)))
  }

  // ----- Filtering what was received

  function AtRequested(ds: seq<nat>, peer: Key): Enr -> bool {
    (e: Enr) => var l := Log2Distance(peer, e.nodeId); l.Some? && l.value in ds
  }

  function IsPeer(peer: Key): Enr -> bool {
    (e: Enr) => Log2Distance(peer, e.nodeId).None?
  }

  /** The records accepted from `peer`, and whether it is banned for the others. */
  function Accept(ds: seq<nat>, peer: Key, enrs: seq<Enr>): (seq<Enr>, bool) {
    if ds == [0] then
      if |enrs| > 1 then (Filter(IsPeer(peer), enrs), true) else (enrs, false)
    else
      var kept := Filter(AtRequested(ds, peer), enrs);
      (kept, |kept| < |enrs|)
  }

  predicate KeyRequested(ds: seq<nat>, local: Key, key: Key) {
    var l := Log2Distance(local, key);
    l.Some? && l.value in ds
  }

  /** The filter keeps, in order, exactly the records at requested distances, and bans exactly for dropping one. Asked
      for its own record alone, a node may send one record unchecked; of several only its own are kept, and it is
      banned. */
  lemma AcceptKeeps(ds: seq<nat>, peer: Key, enrs: seq<Enr>) returns (at: seq<nat>)
    ensures var (kept, ban) := Accept(ds, peer, enrs);
            && Picks(enrs, kept, at)
            && (ds != [0] ==>
                  && (forall i :: 0 <= i < |enrs| ==> (i in at <==> KeyRequested(ds, peer, enrs[i].nodeId)))
                  && (ban <==> exists i :: 0 <= i < |enrs| && !KeyRequested(ds, peer, enrs[i].nodeId)))
            && (ds == [0] && |enrs| > 1 ==>
                  ban && forall i :: 0 <= i < |enrs| ==> (i in at <==> enrs[i].nodeId == peer))
            && (ds == [0] && |enrs| <= 1 ==> kept == enrs && !ban)
  {
    if ds != [0] {
      at := FilterPicks(AtRequested(ds, peer), enrs);
      AllKeptMeans(AtRequested(ds, peer), enrs);
      forall i | 0 <= i < |enrs|
        ensures AtRequested(ds, peer)(enrs[i]) <==> KeyRequested(ds, peer, enrs[i].nodeId)
      {
      }
    } else if |enrs| > 1 {
      at := FilterPicks(IsPeer(peer), enrs);
      forall i | 0 <= i < |enrs| ensures i in at <==> enrs[i].nodeId == peer {
        Log2DistanceIsLogarithm(peer, enrs[i].nodeId);
      }
    } else {
      at := seq(|enrs|, i => i);
    }
  }

  lemma {:induction false} AllKeptMeans<T>(f: T -> bool, s: seq<T>)
    ensures |Filter(f, s)| <= |s|
    ensures |Filter(f, s)| < |s| <==> exists i :: 0 <= i < |s| && !f(s[i])
  {
    if s != [] {
      var n := |s| - 1;
      AllKeptMeans(f, s[..n]);
      if |Filter(f, s[..n])| < n {
        var i :| 0 <= i < n && !f(s[..n][i]);
        assert !f(s[i]);
      } else {
        assert forall i :: 0 <= i < n ==> f(s[..n][i]);
        assert forall i :: 0 <= i < n ==> s[..n][i] == s[i];
      }
    }
  }

  // ----- Putting chunks together

  datatype Partial = Partial(count: nat, received: seq<Enr>)

  /** The service's side of one request: whether it is open, what came so far, and what was passed on as discovered. */
  datatype Collector = Collector(open: bool, partial: Option<Partial>, discovered: seq<seq<Enr>>)

  function Receive(c: Collector, max: nat, total: nat, enrs: seq<Enr>): Collector {
    if !c.open then c
    else if total > 1 then
      var p := if c.partial.Some? then c.partial.value else Partial(1, []);
      if |p.received| < max && p.count < total && p.count < MAX_NODES_RESPONSES then
        c.(partial := Some(Partial(p.count + 1, p.received + enrs)))
      else Collector(false, None, c.discovered + [p.received + enrs])
    else Collector(false, None, c.discovered + [enrs])
  }

  /** A request as the handler and the service see it. */
  datatype Exchange = Exchange(awaiting: bool, remaining: Option<nat>, collector: Collector)

  const START: Exchange := Exchange(true, None, Collector(true, None, []))

  /** A response passes the handler while it awaits one, and then the service's filter. */
  function Deliver(x: Exchange, ds: seq<nat>, peer: Key, max: nat, total: nat, enrs: seq<Enr>): Exchange {
    if !x.awaiting then x
    else
      var (remaining, last) := HandlerSpec.NextRemaining(x.remaining, HandlerSpec.Nodes(total, false));
      Exchange(!last, remaining, Receive(x.collector, max, total, Accept(ds, peer, enrs).0))
  }

  function DeliverAll(ds: seq<nat>, peer: Key, max: nat, total: nat, arrivals: seq<seq<Enr>>): Exchange {
    if arrivals == [] then START
    else Deliver(DeliverAll(ds, peer, max, total, arrivals[..|arrivals| - 1]), ds, peer, max, total,
                 arrivals[|arrivals| - 1])
  }

  ghost predicate Accepted(ds: seq<nat>, peer: Key, chunks: seq<seq<Enr>>) {
    forall i :: 0 <= i < |chunks| ==> Accept(ds, peer, chunks[i]) == (chunks[i], false)
  }

  lemma {:induction false} FlatLonger(chunks: seq<seq<Enr>>, j: nat)
    requires j < |chunks| && forall i :: 0 <= i < |chunks| ==> chunks[i] != []
    ensures |Flat(chunks[..j])| < |Flat(chunks)|
  {
    var n := |chunks| - 1;
    if j < n {
      FlatLonger(chunks[..n], j);
      assert chunks[..n][..j] == chunks[..j];
    }
  }

  /** While chunks are missing, handler and service both wait, and their counters add up. */
  lemma {:induction false} PartlyDelivered(ds: seq<nat>, peer: Key, max: nat, arrivals: seq<seq<Enr>>, j: nat)
    requires 1 <= j < |arrivals| <= MAX_NODES_RESPONSES && Accepted(ds, peer, arrivals)
    requires (forall i :: 0 <= i < |arrivals| ==> arrivals[i] != []) && |Flat(arrivals)| <= max
    ensures DeliverAll(ds, peer, max, |arrivals|, arrivals[..j])
         == Exchange(true, Some(|arrivals| - j), Collector(true, Some(Partial(j + 1, Flat(arrivals[..j]))), []))
  {
    var total, last := |arrivals|, arrivals[j - 1];
    assert arrivals[..j][..j - 1] == arrivals[..j - 1];
    assert Accept(ds, peer, last) == (last, false);
    assert arrivals[..j] == arrivals[..j - 1] + [last];
    FlatAppend(arrivals[..j - 1], last);
    FlatLonger(arrivals, j - 1);
    if j > 1 {
      PartlyDelivered(ds, peer, max, arrivals, j - 1);
    } else {
      assert arrivals[..0] == [];
    }
  }

  /** Once all chunks are in, in any order, handler and service both close the request, and the records are passed on
      once. */
  lemma AllDelivered(ds: seq<nat>, peer: Key, max: nat, arrivals: seq<seq<Enr>>)
    requires 1 <= |arrivals| <= MAX_NODES_RESPONSES && Accepted(ds, peer, arrivals)
    requires |arrivals| > 1 ==> (forall i :: 0 <= i < |arrivals| ==> arrivals[i] != []) && |Flat(arrivals)| <= max
    ensures var x := DeliverAll(ds, peer, max, |arrivals|, arrivals);
            !x.awaiting && x.collector == Collector(false, None, [Flat(arrivals)])
  {
    var n := |arrivals| - 1;
    var init, last := arrivals[..n], arrivals[n];
    assert Accept(ds, peer, last) == (last, false);
    assert arrivals == init + [last];
    FlatAppend(init, last);
    if n > 0 {
      PartlyDelivered(ds, peer, max, arrivals, n);
    } else {
      assert init == [] && Flat(init) + last == last;
    }
  }

  lemma {:induction false} FlatRemove<T>(lists: seq<seq<T>>, i: nat)
    requires i < |lists|
    ensures multiset(Flat(lists)) == multiset(Flat(RemoveAt(lists, i))) + multiset(lists[i])
    decreases |lists|
  {
    var n := |lists| - 1;
    RemoveAtInit(lists, i);
    if i < n {
      FlatRemove(lists[..n], i);
      FlatAppend(RemoveAt(lists[..n], i), lists[n]);
    }
  }

  lemma RemoveBoth<T>(a: seq<T>, b: seq<T>, i: nat)
    requires multiset(a) == multiset(b) && a != [] && i < |b| && b[i] == a[|a| - 1]
    ensures multiset(a[..|a| - 1]) == multiset(RemoveAt(b, i))
  {
    RemoveMultiset(b, i);
    RemoveMultiset(a, |a| - 1);
    assert RemoveAt(a, |a| - 1) == a[..|a| - 1];
  }

  /** Reordering chunks does not change what they hold. */
  lemma {:induction false} FlatBag<T>(a: seq<seq<T>>, b: seq<seq<T>>)
    requires multiset(a) == multiset(b)
    ensures multiset(Flat(a)) == multiset(Flat(b))
    decreases |a|
  {
    SameLength(a, b);
    if a != [] {
      var i := MultisetIndex(a, b, |a| - 1);
      RemoveBoth(a, b, i);
      FlatBag(a[..|a| - 1], RemoveAt(b, i));
      FlatRemove(b, i);
    }
  }

  lemma SameChunks(ds: seq<nat>, peer: Key, chunks: seq<seq<Enr>>, arrivals: seq<seq<Enr>>, i: nat)
    requires multiset(arrivals) == multiset(chunks) && Accepted(ds, peer, chunks) && i < |arrivals|
    requires |chunks| > 1 ==> forall k :: 0 <= k < |chunks| ==> chunks[k] != []
    ensures Accept(ds, peer, arrivals[i]) == (arrivals[i], false) && (|chunks| > 1 ==> arrivals[i] != [])
  {
    var k := MultisetIndex(arrivals, chunks, i);
  }

  /** Chunks delivered in any order, without loss or repetition, are put together again. */
  lemma Reassemble(ds: seq<nat>, peer: Key, max: nat, enrs: seq<Enr>, chunks: seq<seq<Enr>>, arrivals: seq<seq<Enr>>)
    requires 1 <= |chunks| <= MAX_NODES_RESPONSES &&
             (|chunks| > 1 ==> forall k :: 0 <= k < |chunks| ==> chunks[k] != [])
    requires Flat(chunks) == enrs && (|enrs| <= max || |chunks| == 1)
    requires multiset(arrivals) == multiset(chunks) && Accepted(ds, peer, chunks)
    ensures var x := DeliverAll(ds, peer, max, |chunks|, arrivals);
            && !x.awaiting && !x.collector.open && x.collector.partial.None?
            && |x.collector.discovered| == 1 && multiset(x.collector.discovered[0]) == multiset(enrs)
  {
    SameLength(arrivals, chunks);
    FlatBag(arrivals, chunks);
    SameLength(Flat(arrivals), enrs);
    forall i | 0 <= i < |arrivals|
      ensures Accept(ds, peer, arrivals[i]) == (arrivals[i], false) && (|chunks| > 1 ==> arrivals[i] != [])
    {
      SameChunks(ds, peer, chunks, arrivals, i);
    }
    AllDelivered(ds, peer, max, arrivals);
  }

  /** A list of records is split, delivered in any order without loss or repetition, and put together again. */
  lemma SplitAndReassemble(ds: seq<nat>, peer: Key, max: nat, enrs: seq<Enr>, chunks: seq<seq<Enr>>,
                           arrivals: seq<seq<Enr>>)
    requires Small(enrs) && |enrs| <= 3 * MAX_NODES_RESPONSES && (|enrs| <= max || |enrs| <= 1)
    requires chunks == Split(enrs) && multiset(arrivals) == multiset(chunks) && Accepted(ds, peer, chunks)
    ensures |chunks| <= MAX_NODES_RESPONSES
    ensures var x := DeliverAll(ds, peer, max, |chunks|, arrivals);
            && !x.awaiting && !x.collector.open && x.collector.partial.None?
            && |x.collector.discovered| == 1 && multiset(x.collector.discovered[0]) == multiset(enrs)
  {
    SplitCovers(enrs, chunks);
    if enrs != [] { SplitCounts(enrs, chunks); }
    Reassemble(ds, peer, max, enrs, chunks, arrivals);
  }

  // ----- The distance filter accepts what the other side sends

  ghost predicate Keyed(nodes: seq<Node<Enr>>) {
    forall i :: 0 <= i < |nodes| ==> nodes[i].value.nodeId == nodes[i].key
  }

  /** Every record found in a table is at one of the requested distances from its owner. */
  lemma FoundIsRequested(cfg: Buckets.Config<Enr>, local: Key, t: Table<Enr>, now: int, ds: seq<nat>, max: nat, j: nat)
    requires TableInv(cfg, local, t) && j < |Found(cfg, t, now, ds, max)|
    ensures var l := Log2Distance(local, Found(cfg, t, now, ds, max)[j].key);
            l.Some? && l.value in ds && l.value > 0
  {
    var ready := t.(buckets := Distances.AllReady(Distances.At(cfg, now), t.buckets));
    Distances.AllReadyKeeps(cfg, local, t, now);
    Distances.CollectAtDistance(cfg, local, ready, Distances.InRange(ds), j);
    InRangeFrom(ds, Log2Distance(local, Found(cfg, t, now, ds, max)[j].key).value);
  }

  lemma {:induction false} InRangeFrom(ds: seq<nat>, d: Distances.LogDistance)
    ensures d in Distances.InRange(ds) ==> d in ds
  {
    if ds != [] {
      InRangeFrom(ds[..|ds| - 1], d);
      assert ds == ds[..|ds| - 1] + [ds[|ds| - 1]];
    }
  }

  lemma {:induction false} FlatElements<T>(lists: seq<seq<T>>, p: T -> bool, i: nat)
    requires (forall j :: 0 <= j < |Flat(lists)| ==> p(Flat(lists)[j])) && i < |lists|
    ensures forall k :: 0 <= k < |lists[i]| ==> p(lists[i][k])
    decreases |lists|
  {
    var n := |lists| - 1;
    var front := Flat(lists[..n]);
    if i < n {
      forall j | 0 <= j < |front| ensures p(front[j]) { assert front[j] == Flat(lists)[j]; }
      FlatElements(lists[..n], p, i);
    } else {
      forall k | 0 <= k < |lists[n]| ensures p(lists[n][k]) { assert lists[n][k] == Flat(lists)[|front| + k]; }
    }
  }

  lemma FilterKeepsAll<T>(f: T -> bool, s: seq<T>)
    ensures |Filter(f, s)| <= |s|
    ensures (forall i :: 0 <= i < |s| ==> f(s[i])) <==> |Filter(f, s)| == |s|
    ensures |Filter(f, s)| == |s| ==> Filter(f, s) == s
  {
    FilterCount(f, s);
    CountBelow(f, s);
  }

  lemma {:induction false} CountBelow<T>(f: T -> bool, s: seq<T>)
    ensures CountIf(f, s) <= |s| && |Filter(f, s)| == CountIf(f, s)
    ensures (forall i :: 0 <= i < |s| ==> f(s[i])) <==> CountIf(f, s) == |s|
    ensures CountIf(f, s) == |s| ==> Filter(f, s) == s
  {
    if s != [] {
      CountBelow(f, s[..|s| - 1]);
      InitLast(s);
    }
  }

  /** Distance zero is asked for alone, as the requesting side promises. */
  ghost predicate Unmixed(ds: seq<nat>) {
    0 in ds ==> ds == [0]
  }

  lemma SentIsRequested(local: Enr, requester: Key, ds: seq<nat>, sorted: seq<nat>, found: seq<Node<Enr>>, j: nat)
    requires !AsksSelf(sorted) && Keyed(found) && j < |ToSend(local, requester, sorted, found)|
    requires forall i :: 0 <= i < |found| ==> KeyRequested(ds, local.nodeId, found[i].key)
    ensures AtRequested(ds, local.nodeId)(ToSend(local, requester, sorted, found)[j])
  {
    var i := FilterAt(NotFor(requester), found, j);
    assert KeyRequested(ds, local.nodeId, found[i].key);
  }

  lemma AllFoundRequested(cfg: Buckets.Config<Enr>, local: Key, t: Table<Enr>, now: int, ds: seq<nat>, others: seq<nat>,
                          max: nat)
    requires TableInv(cfg, local, t) && forall d :: d in others ==> d in ds
    ensures var found := Found(cfg, t, now, others, max);
            forall i :: 0 <= i < |found| ==> KeyRequested(ds, local, found[i].key)
  {
    var found := Found(cfg, t, now, others, max);
    forall i | 0 <= i < |found| ensures KeyRequested(ds, local, found[i].key) {
      FoundIsRequested(cfg, local, t, now, others, max, i);
    }
  }

  /** The chunks sent pass the distance filter of the requesting side exactly when distance zero was not asked for with
      others. */
  lemma SentIsAccepted(cfg: Buckets.Config<Enr>, local: Enr, t: Table<Enr>, now: int, requester: Key, ds: seq<nat>,
                       max: nat, sent: seq<Enr>, chunks: seq<seq<Enr>>)
    requires TableInv(cfg, local.nodeId, t) && Keyed(Found(cfg, t, now, Others(Sorted(ds)), max))
    requires sent == ToSend(local, requester, Sorted(ds), Found(cfg, t, now, Others(Sorted(ds)), max)) && Small(sent) &&
             chunks == Split(sent)
    ensures Accepted(ds, local.nodeId, chunks) <==> Unmixed(ds)
  {
    SplitCovers(sent, chunks);
    SortedSelf(ds);
    var others := Others(Sorted(ds));
    if 0 !in ds {
      var found := Found(cfg, t, now, others, max);
      AllFoundRequested(cfg, local.nodeId, t, now, ds, others, max);
      OthersAreAccepted(local, requester, ds, Sorted(ds), found, sent, chunks);
    } else {
      SelfMakesMixed(local, ds, sent, chunks);
    }
  }

  lemma {:induction false} NothingCollected<T>(lists: seq<seq<T>>, ds: seq<Distances.LogDistance>)
    requires |lists| == NUM_BUCKETS && forall i :: 0 <= i < NUM_BUCKETS ==> lists[i] == []
    ensures Distances.Collect(lists, ds) == []
  {
    if ds != [] { NothingCollected(lists, ds[..|ds| - 1]); }
  }

  lemma NothingFound(cfg: Buckets.Config<Enr>, now: int, ds: seq<nat>, max: nat)
    ensures Found(cfg, EmptyTable(), now, ds, max) == []
  {
    var t: Table<Enr> := EmptyTable();
    NothingCollected(Views(Distances.AllReady(Distances.At(cfg, now), t.buckets)), Distances.InRange(ds));
  }

  /** Asked for distances zero and one, a node with an empty table sends its own record alone, and the requesting side
      refuses it. */
  lemma OwnRecordIsRefused(requester: Key)
    ensures var local, cfg := Enr(ZERO, 1, None, 200), Buckets.Config(60, 10, None);
            var sent := ToSend(local, requester, Sorted([0, 1]),
                               Found(cfg, EmptyTable(), 0, Others(Sorted([0, 1])), 16));
            sent == [local] && !Accepted([0, 1], ZERO, Split(sent))
  {
    var local, cfg, ds := Enr(ZERO, 1, None, 200), Buckets.Config(60, 10, None), [0, 1];
    var others := Others(Sorted(ds));
    var found := Found(cfg, EmptyTable(), 0, others, 16);
    var sent := ToSend(local, requester, Sorted(ds), found);
    NothingFound(cfg, 0, others, 16);
    SortedSelf(ds);
    assert sent == [local];
    TableRunKeeps(cfg, ZERO, None, []);
    SentIsAccepted(cfg, local, EmptyTable(), 0, requester, ds, 16, sent, Split(sent));
  }

  lemma OthersAreAccepted(local: Enr, requester: Key, ds: seq<nat>, sorted: seq<nat>, found: seq<Node<Enr>>,
                          sent: seq<Enr>, chunks: seq<seq<Enr>>)
    requires 0 !in ds && !AsksSelf(sorted) && Keyed(found) && sent == ToSend(local, requester, sorted, found) &&
             Flat(chunks) == sent
    requires forall i :: 0 <= i < |found| ==> KeyRequested(ds, local.nodeId, found[i].key)
    ensures Accepted(ds, local.nodeId, chunks)
  {
    forall j | 0 <= j < |sent| ensures AtRequested(ds, local.nodeId)(sent[j]) {
      SentIsRequested(local, requester, ds, sorted, found, j);
    }
    RequestedIsAccepted(ds, local.nodeId, chunks);
  }

  /** Our own record is accepted alone and refused with others. */
  lemma SelfMakesMixed(local: Enr, ds: seq<nat>, sent: seq<Enr>, chunks: seq<seq<Enr>>)
    requires sent != [] && sent[0] == local && (ds == [0] ==> sent == [local]) && Small(sent) && chunks == Split(sent)
    ensures Accepted(ds, local.nodeId, chunks) <==> ds == [0]
  {
    if ds == [0] {
      SplitOne(local);
    } else {
      SplitCovers(sent, chunks);
      SplitCounts(sent, chunks);
      SelfIsRefused(ds, local, sent, chunks);
    }
  }

  lemma RequestedIsAccepted(ds: seq<nat>, peer: Key, chunks: seq<seq<Enr>>)
    requires 0 !in ds && forall j :: 0 <= j < |Flat(chunks)| ==> AtRequested(ds, peer)(Flat(chunks)[j])
    ensures Accepted(ds, peer, chunks)
  {
    forall i | 0 <= i < |chunks| ensures Accept(ds, peer, chunks[i]) == (chunks[i], false) {
      FlatElements(chunks, AtRequested(ds, peer), i);
      FilterKeepsAll(AtRequested(ds, peer), chunks[i]);
    }
  }

  lemma SplitOne(enr: Enr)
    requires enr.size < LIMIT
    ensures Split([enr]) == [[enr]]
  {
    assert [enr][..0] == [];
    assert Split([enr]) == Add([[]], enr);
    assert [] + [enr] == [enr];
  }

  lemma {:induction false} FlatFirst<T>(lists: seq<seq<T>>)
    requires |lists| > 0 && lists[0] != []
    ensures |Flat(lists)| > 0 && Flat(lists)[0] == lists[0][0]
  {
    if |lists| > 1 { FlatFirst(lists[..|lists| - 1]); } else { assert lists[..0] == []; }
  }

  lemma SelfIsRefused(ds: seq<nat>, local: Enr, sent: seq<Enr>, chunks: seq<seq<Enr>>)
    requires ds != [0] && sent != [] && sent[0] == local && Flat(chunks) == sent && |chunks| > 0 && chunks[0] != []
    ensures !Accepted(ds, local.nodeId, chunks)
  {
    FlatFirst(chunks);
    XorMetric(local.nodeId, local.nodeId, local.nodeId);
    Log2DistanceIsLogarithm(local.nodeId, local.nodeId);
    assert !AtRequested(ds, local.nodeId)(chunks[0][0]);
    FilterKeepsAll(AtRequested(ds, local.nodeId), chunks[0]);
  }

  lemma SentIsBounded(local: Enr, requester: Key, sorted: seq<nat>, found: seq<Node<Enr>>, max: nat)
    requires |found| <= Distances.AtLeastOne(max)
    ensures var sent := ToSend(local, requester, sorted, found);
            && (Others(sorted) == [] ==> |sent| <= 1)
            && (!AsksSelf(sorted) ==> |sent| <= max || |sent| <= 1)
  {
    FilterKeepsAll(NotFor(requester), found);
  }

  /** A FINDNODE exchange between two nodes with the same limit on nodes per response: whatever the table and the order
      of arrival, what was sent is discovered, once, and both sides of the requesting node agree on when it is
      complete. */
  lemma FindNodeExchange(cfg: Buckets.Config<Enr>, local: Enr, t: Table<Enr>, now: int, requester: Key, ds: seq<nat>,
                         max: nat, sent: seq<Enr>, chunks: seq<seq<Enr>>, arrivals: seq<seq<Enr>>)
    requires TableInv(cfg, local.nodeId, t) && Keyed(Found(cfg, t, now, Others(Sorted(ds)), max))
    requires sent == ToSend(local, requester, Sorted(ds), Found(cfg, t, now, Others(Sorted(ds)), max)) && Small(sent)
    requires Unmixed(ds) && max <= 3 * MAX_NODES_RESPONSES && chunks == Split(sent) &&
             multiset(arrivals) == multiset(chunks)
    ensures |chunks| <= MAX_NODES_RESPONSES
    ensures var x := DeliverAll(ds, local.nodeId, max, |chunks|, arrivals);
            && !x.awaiting && !x.collector.open && x.collector.partial.None?
            && |x.collector.discovered| == 1 && multiset(x.collector.discovered[0]) == multiset(sent)
  {
    SentIsAccepted(cfg, local, t, now, requester, ds, max, sent, chunks);
    SortedSelf(ds);
    SentIsBounded(local, requester, Sorted(ds), Found(cfg, t, now, Others(Sorted(ds)), max), max);
    SplitAndReassemble(ds, local.nodeId, max, sent, chunks, arrivals);
  }
}
