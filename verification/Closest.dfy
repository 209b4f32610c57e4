/** The walk over the nodes closest to a target, against a distance-sorted scan of the whole table. */
module ClosestNodes {
  import opened Wrappers
  import opened Keys
  import opened Buckets
  import opened BucketRuns
  import opened KBuckets
  import opened Tables
  import opened KBucketsTables
  import opened ClosestOrder
  import opened Walks

  function DistTo<V>(target: Key): Node<V> -> nat {
    (n: Node<V>) => Dist(target, n.key)
  }

  function SortEach<T>(m: T -> nat, lists: seq<seq<T>>): (r: seq<seq<T>>)
    ensures |r| == |lists|
    ensures forall i :: 0 <= i < |r| ==> r[i] == SortBy(m, lists[i])
  {
    seq(|lists|, i requires 0 <= i < |lists| => SortBy(m, lists[i]))
  }

  lemma {:induction false} RangeCount(n: nat, k: nat)
    ensures multiset(Range(n))[k] == if k < n then 1 else 0
  {
    if n > 0 {
      RangeCount(n - 1, k);
      assert Range(n) == Range(n - 1) + [n - 1];
    }
  }

  /** As a multiset the order is every bucket once, and bucket 0 once more when it is walked twice. */
  lemma OrderBag(d: Bits)
    requires |d| > 0
    ensures multiset(Order(d)) == multiset(Range(|d|)) + if Twice(d) then multiset{0} else multiset{}
    ensures Within(Order(d), |d|)
  {
    OrderInBounds(d);
    forall k: nat
      ensures multiset(Order(d))[k] == (multiset(Range(|d|)) + if Twice(d) then multiset{0} else multiset{})[k]
    {
      RangeCount(|d|, k);
      if k < |d| { OrderCovers(d, k); }
    }
  }

  /** Where an element of a sorted view sits in its bucket. */
  lemma SortedFrom<V>(m: Node<V> -> nat, s: seq<Node<V>>, i: nat) returns (p: nat)
    requires i < |SortBy(m, View(s))|
    ensures |SortBy(m, View(s))| == |s| && p < |s| && SortBy(m, View(s))[i] == s[p]
  {
    var v := View(s);
    SameLength(SortBy(m, v), v);
    var j := MultisetIndex(SortBy(m, v), v, i);
    ViewPermutes(s);
    p :| 0 <= p < |s| && v[j] == s[p];
  }

  lemma BelongsAt<V>(cfg: Config<V>, local: Key, t: Table<V>, i: nat, p: nat)
    requires TableInv(cfg, local, t) && i < NUM_BUCKETS && p < |t.buckets[i].recent|
    ensures BucketIndex(Distance(local, t.buckets[i].recent[p].key)) == Some(i)
    ensures i == 0 ==> |t.buckets[i].recent| <= 1
  {
    assert BucketInv(cfg, local, i, t.buckets[i]);
    assert Belongs(local, i, t.buckets[i].recent[p]);
  }

  /** Nodes of a bucket earlier in the order are no farther than nodes of a later one. */
  lemma EarlierIsNearer<V>(cfg: Config<V>, local: Key, target: Key, t: Table<V>, a: nat, x: nat, b: nat, y: nat)
    requires TableInv(cfg, local, t) && a < NUM_BUCKETS && b < NUM_BUCKETS
    requires x < |t.buckets[a].recent| && y < |t.buckets[b].recent|
    requires a == 0 == b || Before(Distance(local, target), a, b)
    ensures Dist(target, t.buckets[a].recent[x].key) <= Dist(target, t.buckets[b].recent[y].key)
  {
    BelongsAt(cfg, local, t, a, x);
    BelongsAt(cfg, local, t, b, y);
    if a != 0 || b != 0 {
      BeforeMeansNearer(local, target, t.buckets[a].recent[x].key, t.buckets[b].recent[y].key, a, b);
    }
  }

  lemma PairAscends<V>(cfg: Config<V>, local: Key, target: Key, t: Table<V>, views: seq<seq<Node<V>>>, a: nat, b: nat,
                       i: nat, j: nat)
    requires TableInv(cfg, local, t) && a < NUM_BUCKETS && b < NUM_BUCKETS
    requires views == SortEach(DistTo(target), Views(t.buckets)) && i < |views[a]| && j < |views[b]|
    requires a == 0 == b || Before(Distance(local, target), a, b)
    ensures Dist(target, views[a][i].key) <= Dist(target, views[b][j].key)
  {
    var x := SortedFrom(DistTo(target), t.buckets[a].recent, i);
    var y := SortedFrom(DistTo(target), t.buckets[b].recent, j);
    EarlierIsNearer(cfg, local, target, t, a, x, b, y);
  }

  lemma OrderAscends<V>(cfg: Config<V>, local: Key, target: Key, t: Table<V>)
    requires TableInv(cfg, local, t)
    ensures Within(Order(Distance(local, target)), NUM_BUCKETS)
    ensures Ascends(DistTo(target), SortEach(DistTo(target), Views(t.buckets)), Order(Distance(local, target)))
  {
    var d, m := Distance(local, target), DistTo<V>(target);
    var views := SortEach(m, Views(t.buckets));
    OrderInBounds(d);
    forall p, q, i, j | 0 <= p < q < |Order(d)| && 0 <= i < |views[Order(d)[p]]| && 0 <= j < |views[Order(d)[q]]|
      ensures m(views[Order(d)[p]][i]) <= m(views[Order(d)[q]][j])
    {
      OrderIsByNearness(d, p, q);
      PairAscends(cfg, local, target, t, views, Order(d)[p], Order(d)[q], i, j);
    }
  }

  lemma {:induction false} FlatFrom<T>(lists: seq<seq<T>>, w: seq<T>, j: nat) returns (k: nat, p: nat)
    requires w == Flat(lists) && j < |w|
    ensures k < |lists| && p < |lists[k]| && w[j] == lists[k][p]
    decreases |lists|
  {
    var init := Flat(lists[..|lists| - 1]);
    if j < |init| {
      k, p := FlatFrom(lists[..|lists| - 1], init, j);
    } else {
      k, p := |lists| - 1, j - |init|;
    }
  }

  lemma {:induction false} FlatSame<T>(a: seq<seq<T>>, b: seq<seq<T>>)
    requires |a| == |b| && forall k :: 0 <= k < |a| ==> multiset(a[k]) == multiset(b[k])
    ensures multiset(Flat(a)) == multiset(Flat(b))
  {
    if a != [] {
      FlatSame(a[..|a| - 1], b[..|b| - 1]);
      assert Flat(a) == Flat(a[..|a| - 1]) + a[|a| - 1] && Flat(b) == Flat(b[..|b| - 1]) + b[|b| - 1];
    }
  }

  lemma FlatViewFrom<V>(buckets: seq<Bucket<V>>, j: nat) returns (k: nat, p: nat)
    requires j < |Flat(Views(buckets))|
    ensures k < |buckets| && p < |buckets[k].recent| && Flat(Views(buckets))[j] == buckets[k].recent[p]
  {
    var x;
    k, x := FlatFrom(Views(buckets), Flat(Views(buckets)), j);
    ViewPermutes(buckets[k].recent);
    p :| 0 <= p < |buckets[k].recent| && View(buckets[k].recent)[x] == buckets[k].recent[p];
  }

  /** Distance to the target tells all nodes of a table apart. */
  lemma DistanceTellsApart<V>(cfg: Config<V>, local: Key, target: Key, t: Table<V>)
    requires TableInv(cfg, local, t)
    ensures TellsApart(DistTo(target), Flat(Views(t.buckets)))
  {
    var m, all := DistTo<V>(target), Flat(Views(t.buckets));
    forall i, j | 0 <= i < |all| && 0 <= j < |all| && m(all[i]) == m(all[j]) ensures all[i] == all[j] {
      var k, p := FlatViewFrom(t.buckets, i);
      var l, q := FlatViewFrom(t.buckets, j);
      XorMetric(target, all[i].key, all[j].key);
      OnePlace(cfg, local, t, k, p, l, q);
    }
  }

  /** Nodes in the order the walk yields them. */
  function ClosestWalk<V>(local: Key, target: Key, buckets: seq<Bucket<V>>): seq<Node<V>>
    requires |buckets| == NUM_BUCKETS && Within(Order(Distance(local, target)), NUM_BUCKETS)
  {
    Gather(SortEach(DistTo(target), Views(buckets)), Order(Distance(local, target)))
  }

  /** The walk yields nodes by non-decreasing distance and misses none; it is the distance-sorted scan of the whole
      table exactly when bucket 0 is walked once or is empty. */
  lemma ClosestWalkIsScan<V>(cfg: Config<V>, local: Key, target: Key, t: Table<V>)
    requires TableInv(cfg, local, t)
    ensures Within(Order(Distance(local, target)), NUM_BUCKETS)
    ensures var d, m := Distance(local, target), DistTo<V>(target);
            var w, all := ClosestWalk(local, target, t.buckets), Flat(Views(t.buckets));
            && SortedBy(m, w)
            && multiset(w) == multiset(all) + (if Twice(d) then multiset(View(t.buckets[0].recent)) else multiset{})
            && (w == SortBy(m, all) <==> !Twice(d) || View(t.buckets[0].recent) == [])
  {
    var d, m := Distance(local, target), DistTo<V>(target);
    var views := Views(t.buckets);
    var sorted := SortEach(m, views);
    OrderBag(d);
    OrderAscends(cfg, local, target, t);
    GatherAscends(m, sorted, Order(d));
    GatherContents(sorted, Order(d), Twice(d));
    FlatSame(sorted, views);
    DistanceTellsApart(cfg, local, target, t);
    SortAgrees(m, Gather(sorted, Order(d)), Flat(views), if Twice(d) then views[0] else []);
  }

  // ----- Every node comes

  lemma {:induction false} FlatCount<T>(lists: seq<seq<T>>, i: nat, x: T)
    requires forall j :: 0 <= j < |lists| && j != i ==> x !in lists[j]
    ensures multiset(Flat(lists))[x] == if i < |lists| then multiset(lists[i])[x] else 0
  {
    if lists != [] {
      var n := |lists| - 1;
      FlatCount(lists[..n], i, x);
      assert lists[n] == lists[n] && (n != i ==> multiset(lists[n])[x] == 0);
    }
  }

  lemma {:induction false} StoredOnce<V>(s: seq<Node<V>>, n: Node<V>)
    requires DistinctKeys(s)
    ensures multiset(s)[n] == if n in s then 1 else 0
  {
    if s != [] {
      var init, last := s[..|s| - 1], s[|s| - 1];
      StoredOnce(init, n);
      assert s == init + [last];
    }
  }

  lemma ViewedInPlace<V>(cfg: Config<V>, local: Key, t: Table<V>, i: nat, n: Node<V>)
    requires TableInv(cfg, local, t) && i < NUM_BUCKETS && n in Views(t.buckets)[i]
    ensures BucketIndex(Distance(local, n.key)) == Some(i)
  {
    ViewPermutes(t.buckets[i].recent);
    var p :| 0 <= p < |t.buckets[i].recent| && t.buckets[i].recent[p] == n;
    BelongsAt(cfg, local, t, i, p);
  }

  lemma ElsewhereNot<V>(cfg: Config<V>, local: Key, t: Table<V>, i: nat, n: Node<V>)
    requires TableInv(cfg, local, t) && i < NUM_BUCKETS && n in Views(t.buckets)[i]
    ensures forall j :: 0 <= j < NUM_BUCKETS && j != i ==> n !in Views(t.buckets)[j]
  {
    ViewedInPlace(cfg, local, t, i, n);
    forall j | 0 <= j < NUM_BUCKETS && j != i ensures n !in Views(t.buckets)[j] {
      if n in Views(t.buckets)[j] { ViewedInPlace(cfg, local, t, j, n); }
    }
  }

  /** The walk yields every stored node exactly once, that of bucket zero twice if that bucket is visited twice, and
      nothing that is not stored. */
  lemma WalkYieldsEveryNode<V>(cfg: Config<V>, local: Key, target: Key, t: Table<V>, i: nat, n: Node<V>)
    requires TableInv(cfg, local, t) && i < NUM_BUCKETS
    ensures Within(Order(Distance(local, target)), NUM_BUCKETS)
    ensures var w := ClosestWalk(local, target, t.buckets);
            && (n in t.buckets[i].recent ==>
                multiset(w)[n] == if i == 0 && Twice(Distance(local, target)) then 2 else 1)
            && (n in w ==> StoredIn(t.buckets, n))
  {
    var views := Views(t.buckets);
    ClosestWalkIsScan(cfg, local, target, t);
    if n in t.buckets[i].recent {
      ViewPermutes(t.buckets[i].recent);
      ElsewhereNot(cfg, local, t, i, n);
      FlatCount(views, i, n);
      assert BucketInv(cfg, local, i, t.buckets[i]);
      StoredOnce(t.buckets[i].recent, n);
    }
    if n in ClosestWalk(local, target, t.buckets) { WalkedIsStored(cfg, local, target, t, n); }
  }

  lemma InEither<T>(w: seq<T>, all: seq<T>, more: seq<T>, x: T)
    requires multiset(w) <= multiset(all) + multiset(more) && x in w
    ensures x in all || x in more
  {
    assert x in multiset(w);
  }

  ghost predicate StoredIn<V>(buckets: seq<Bucket<V>>, n: Node<V>) {
    exists j :: 0 <= j < |buckets| && n in buckets[j].recent
  }

  lemma FlatIsStored<V>(buckets: seq<Bucket<V>>, n: Node<V>)
    requires n in Flat(Views(buckets))
    ensures StoredIn(buckets, n)
  {
    var j :| 0 <= j < |Flat(Views(buckets))| && Flat(Views(buckets))[j] == n;
    var k, p := FlatViewFrom(buckets, j);
  }

  lemma WalkedIsStored<V>(cfg: Config<V>, local: Key, target: Key, t: Table<V>, n: Node<V>)
    requires TableInv(cfg, local, t) && Within(Order(Distance(local, target)), NUM_BUCKETS)
    requires n in ClosestWalk(local, target, t.buckets)
    ensures StoredIn(t.buckets, n)
  {
    var w, all, more := ClosestWalk(local, target, t.buckets), Flat(Views(t.buckets)), View(t.buckets[0].recent);
    ClosestWalkIsScan(cfg, local, target, t);
    InEither(w, all, more, n);
    if n in all {
      FlatIsStored(t.buckets, n);
    } else {
      ViewPermutes(t.buckets[0].recent);
    }
  }

  // ----- A node that comes twice

  lemma {:induction false} FlatOfOne<T>(lists: seq<seq<T>>)
    requires |lists| > 0 && forall i :: 1 <= i < |lists| ==> lists[i] == []
    ensures Flat(lists) == lists[0]
  {
    if |lists| > 1 { FlatOfOne(lists[..|lists| - 1]); } else { assert lists[..0] == []; }
  }

  lemma BothAre<T>(w: seq<T>, all: seq<T>, more: seq<T>, x: T)
    requires multiset(w) == multiset(all) + multiset(more) && all == more == [x]
    ensures w == [x, x]
  {
    assert |w| == |multiset(w)| == 2;
    assert w[0] in multiset(w) && w[1] in multiset(w);
  }

  /** A table with one node, at distance one from the local key, yields it twice on the walk towards that node. */
  lemma NeighbourComesTwice()
    ensures var node, cfg := Node(Only(0), 0, NodeStatus(Outgoing, Connected)), Config(60, 10, None);
            var t := TableRun(cfg, ZERO, None, [(TInsertOrUpdate(node), 0)]);
            && Within(Order(Distance(ZERO, Only(0))), NUM_BUCKETS)
            && ClosestWalk(ZERO, Only(0), t.buckets) == [node, node]
            && SortBy(DistTo(Only(0)), Flat(Views(t.buckets))) == [node]
  {
    var node, cfg := Node(Only(0), 0, NodeStatus(Outgoing, Connected)), Config(60, 10, None);
    var ops := [(TInsertOrUpdate(node), 0)];
    var t := TableRun(cfg, ZERO, None, ops);
    NeighbourAlone(cfg, node, t);
    TableRunKeeps(cfg, ZERO, None, ops);
    AloneComesTwice(cfg, ZERO, Only(0), node, t);
    SortOne(DistTo(Only(0)), node);
  }

  lemma AloneComesTwice<V>(cfg: Config<V>, local: Key, target: Key, node: Node<V>, t: Table<V>)
    requires TableInv(cfg, local, t) && Twice(Distance(local, target))
    requires Flat(Views(t.buckets)) == View(t.buckets[0].recent) == [node]
    ensures Within(Order(Distance(local, target)), NUM_BUCKETS) && ClosestWalk(local, target, t.buckets) == [node, node]
  {
    ClosestWalkIsScan(cfg, local, target, t);
    BothAre(ClosestWalk(local, target, t.buckets), Flat(Views(t.buckets)), View(t.buckets[0].recent), node);
  }

  lemma SortOne<T>(m: T -> nat, x: T)
    ensures SortBy(m, [x]) == [x]
  {
    assert [x][..0] == [];
  }

  lemma NeighbourAlone<V>(cfg: Config<V>, node: Node<V>, t: Table<V>)
    requires node.key == Only(0) && cfg.filter.None? && !IsConnectedIncoming(node)
    requires t == TableRun(cfg, ZERO, None, [(TInsertOrUpdate(node), 0)])
    ensures Twice(Distance(ZERO, Only(0))) && Flat(Views(t.buckets)) == View(t.buckets[0].recent) == [node]
  {
    NeighbourInserted(cfg, node, 0);
    assert Distance(ZERO, Only(0))[0];
    ViewOne(node);
    FlatOfOne(Views(t.buckets));
  }

  // ----- Running the walk

  /** The bucket iterator run to its end. */
  method BucketOrder(distance: Bits) returns (order: seq<nat>)
    requires |distance| > 0
    ensures order == Order(distance)
  {
    var it := new ClosestBucketsIter(distance);
    order := [];
    while true
      invariant fresh(it) && it.Valid() && it.distance == distance
      invariant order + it.ToCome() == Order(distance)
      decreases |it.ToCome()|
    {
      var i := it.Next();
      if i.None? {
        return;
      }
      MoveOver(order, i.value, it.ToCome());
      order := order + [i.value];
    }
  }

  lemma MoveOver<T>(a: seq<T>, x: T, b: seq<T>)
    ensures (a + [x]) + b == a + ([x] + b)
  {
  }

  /** Applies the pending node of bucket `i` if ready and returns its nodes, nearest first. */
  method Load<V(==)>(table: KBucketsTable<V>, m: Node<V> -> nat, i: nat, now: int) returns (v: seq<Node<V>>)
    requires table.Owned() && i < NUM_BUCKETS
    modifies table, table.buckets[i]
    ensures table.Owned()
    ensures table.Abs() == Visit(table.cfg, old(table.Abs()), i, now)
    ensures v == SortEach(m, Views(table.Abs().buckets))[i]
  {
    table.VisitBucket(i, now);
    v := SortBy(m, table.buckets[i].nodes);
  }

  /** The table after the buckets of `order` were visited, the `k`-th at time `clock(k)`. */
  function VisitEach<V>(cfg: Config<V>, t: Table<V>, order: seq<nat>, clock: nat -> int): (t': Table<V>)
    requires Within(order, |t.buckets|)
    ensures |t'.buckets| == |t.buckets|
  {
    if order == [] then t
    else Visit(cfg, VisitEach(cfg, t, order[..|order| - 1], clock), order[|order| - 1], clock(|order| - 1))
  }

  lemma VisitNext<V>(cfg: Config<V>, t: Table<V>, order: seq<nat>, clock: nat -> int, k: nat)
    requires Within(order, |t.buckets|) && k < |order|
    ensures VisitEach(cfg, t, order[..k + 1], clock) ==
            Visit(cfg, VisitEach(cfg, t, order[..k], clock), order[k], clock(k))
  {
    assert order[..k + 1][..k] == order[..k];
  }

  /** Position `k` names bucket 0 or a bucket not named before. */
  ghost predicate Unrepeated(order: seq<nat>, k: nat)
    requires k < |order|
  {
    order[k] != 0 ==> forall p :: 0 <= p < k ==> order[p] != order[k]
  }

  lemma {:induction false} VisitsApply<V>(cfg: Config<V>, local: Key, t: Table<V>, order: seq<nat>, clock: nat -> int,
                                          n: nat, k: nat)
    requires TableInv(cfg, local, t) && k < n <= |order| && Within(order, NUM_BUCKETS)
    requires forall j :: 0 <= j < |order| ==> Unrepeated(order, j)
    ensures var t' := VisitEach(cfg, t, order[..n], clock);
            TableInv(cfg, local, t') && t'.buckets[order[k]] == ApplyPendingIn(cfg, t.buckets[order[k]], clock(k)).0
    decreases n
  {
    VisitNext(cfg, t, order, clock, n - 1);
    var before := VisitEach(cfg, t, order[..n - 1], clock);
    assert Unrepeated(order, n - 1);
    if k < n - 1 {
      VisitsApply(cfg, local, t, order, clock, n - 1, k);
      VisitLeaves(cfg, local, before, order[n - 1], clock(n - 1), order[k]);
    } else {
      NotYetVisited(cfg, local, t, order, clock, k, order[k]);
    }
    VisitStays(cfg, local, before, order[n - 1], clock(n - 1));
  }

  /** After the walk each bucket has had its pending node applied, if it was ready when the walk came to it. */
  lemma WalkAppliesPending<V>(cfg: Config<V>, local: Key, target: Key, t: Table<V>, clock: nat -> int, k: nat)
    requires TableInv(cfg, local, t) && k < |Order(Distance(local, target))|
    ensures var order := Order(Distance(local, target));
            Within(order, NUM_BUCKETS)
            && VisitEach(cfg, t, order, clock).buckets[order[k]] == ApplyPendingIn(cfg, t.buckets[order[k]], clock(k)).0
  {
    var order := Order(Distance(local, target));
    OrderInBounds(Distance(local, target));
    forall j | 0 <= j < |order| ensures Unrepeated(order, j) { VisitedOnce(Distance(local, target), j); }
    VisitsApply(cfg, local, t, order, clock, |order|, k);
    assert order[..|order|] == order;
  }

  /** A bucket keeps its contents until it is visited, and bucket 0 always. */
  lemma {:induction false} NotYetVisited<V>(cfg: Config<V>, local: Key, t: Table<V>, order: seq<nat>, clock: nat -> int,
                                            n: nat, i: nat)
    requires TableInv(cfg, local, t) && n <= |order| && Within(order, NUM_BUCKETS) && i < NUM_BUCKETS
    requires i != 0 ==> forall p :: 0 <= p < n ==> order[p] != i
    ensures var t' := VisitEach(cfg, t, order[..n], clock); TableInv(cfg, local, t') && t'.buckets[i] == t.buckets[i]
    decreases n
  {
    if n > 0 {
      VisitNext(cfg, t, order, clock, n - 1);
      NotYetVisited(cfg, local, t, order, clock, n - 1, i);
      var before := VisitEach(cfg, t, order[..n - 1], clock);
      VisitStays(cfg, local, before, order[n - 1], clock(n - 1));
      VisitLeaves(cfg, local, before, order[n - 1], clock(n - 1), i);
    } else {
      assert order[..0] == [];
    }
  }

  /** The first `k` buckets of the walk are visited and their nodes gathered in `r`. */
  ghost predicate Walked<V>(cfg: Config<V>, t: Table<V>, t': Table<V>, m: Node<V> -> nat, order: seq<nat>,
                            clock: nat -> int, k: nat, r: seq<Node<V>>)
    requires k <= |order| && Within(order, |t.buckets|) && |t'.buckets| == |t.buckets|
  {
    t' == VisitEach(cfg, t, order[..k], clock) && r == Gather(SortEach(m, Views(t'.buckets)), order[..k])
  }

  /** One bucket of the walk. */
  method LoadNext<V(==)>(table: KBucketsTable<V>, m: Node<V> -> nat, order: seq<nat>, clock: nat -> int, k: nat,
                         r: seq<Node<V>>, ghost start: Table<V>)
    returns (r': seq<Node<V>>)
    requires table.Valid() && k < |order| && Within(order, NUM_BUCKETS) && |start.buckets| == NUM_BUCKETS
    requires Unrepeated(order, k) && Walked(table.cfg, start, table.Abs(), m, order, clock, k, r)
    modifies table, table.buckets
    ensures table.Valid() && Walked(table.cfg, start, table.Abs(), m, order, clock, k + 1, r')
  {
    ghost var t := table.Abs();
    var v := Load(table, m, order[k], clock(k));
    ExtendsGathered(table.cfg, table.localKey, m, t, table.Abs(), order, k, clock(k));
    VisitNext(table.cfg, start, order, clock, k);
    r' := r + v;
  }

  /** Visits the buckets of an order that repeats no bucket but bucket 0. */
  method WalkBuckets<V(==)>(table: KBucketsTable<V>, m: Node<V> -> nat, order: seq<nat>, clock: nat -> int,
                            ghost start: Table<V>)
    returns (r: seq<Node<V>>)
    requires table.Valid() && start == table.Abs() && Within(order, NUM_BUCKETS)
    requires forall k :: 0 <= k < |order| ==> Unrepeated(order, k)
    modifies table, table.buckets
    ensures table.Valid() && Walked(table.cfg, start, table.Abs(), m, order, clock, |order|, r)
  {
    r := [];
    assert order[..0] == [];
    for k := 0 to |order|
      invariant table.Valid() && Walked(table.cfg, start, table.Abs(), m, order, clock, k, r)
    {
      r := LoadNext(table, m, order, clock, k, r, start);
    }
  }

  /** Everything the closest iterator yields; `clock(k)` is the time read when it reaches its `k`-th bucket. */
  method Closest<V(==)>(table: KBucketsTable<V>, target: Key, clock: nat -> int, ghost start: Table<V>)
    returns (r: seq<Node<V>>)
    requires table.Valid() && start == table.Abs()
    modifies table, table.buckets
    ensures table.Valid() && Within(Order(Distance(table.localKey, target)), NUM_BUCKETS)
    ensures table.Abs() == VisitEach(table.cfg, start, Order(Distance(table.localKey, target)), clock)
    ensures r == ClosestWalk(table.localKey, target, table.Abs().buckets)
  {
    var d := Distance(table.localKey, target);
    var order := BucketOrder(d);
    OrderInBounds(d);
    forall k | 0 <= k < |order| ensures Unrepeated(order, k) { VisitedOnce(d, k); }
    r := WalkBuckets(table, DistTo(target), order, clock, start);
    assert order[..|order|] == order;
  }

  /** A bucket of the order other than bucket 0 has not been walked before. */
  lemma VisitedOnce(d: Bits, k: nat)
    requires |d| > 0 && k < |Order(d)|
    ensures Order(d)[k] != 0 ==> forall p :: 0 <= p < k ==> Order(d)[p] != Order(d)[k]
  {
    var o := Order(d);
    OrderInBounds(d);
    forall p | 0 <= p < k && o[p] == o[k] ensures o[k] == 0 {
      OrderCovers(d, o[k]);
      NamedTwice(o[..k], o[k], o[k + 1..], p);
      assert o == o[..k] + ([o[k]] + o[k + 1..]);
    }
  }

  lemma NamedTwice(done: seq<nat>, i: nat, rest: seq<nat>, p: nat)
    requires p < |done| && done[p] == i
    ensures multiset(done + ([i] + rest))[i] >= 2
  {
    assert done == done[..p] + [i] + done[p + 1..];
    assert multiset(done + ([i] + rest)) ==
      multiset(done[..p]) + multiset{i} + multiset(done[p + 1..]) + multiset{i} + multiset(rest);
  }

  lemma {:induction false} GatherSame<T>(a: seq<seq<T>>, b: seq<seq<T>>, order: seq<nat>)
    requires |a| == |b| && Within(order, |a|) && forall p :: 0 <= p < |order| ==> a[order[p]] == b[order[p]]
    ensures Gather(a, order) == Gather(b, order)
  {
    if order != [] { GatherSame(a, b, order[..|order| - 1]); }
  }

  lemma GatherAppend<T>(lists: seq<seq<T>>, order: seq<nat>, i: nat)
    requires Within(order, |lists|) && i < |lists|
    ensures Gather(lists, order + [i]) == Gather(lists, order) + lists[i]
  {
    assert (order + [i])[..|order|] == order;
  }

  lemma ExtendLists<T>(before: seq<seq<T>>, after: seq<seq<T>>, order: seq<nat>, k: nat)
    requires |before| == |after| && k < |order| && Within(order, |after|)
    requires forall p :: 0 <= p < k ==> before[order[p]] == after[order[p]]
    ensures Gather(after, order[..k + 1]) == Gather(before, order[..k]) + after[order[k]]
  {
    GatherSame(before, after, order[..k]);
    GatherAppend(after, order[..k], order[k]);
    assert order[..k] + [order[k]] == order[..k + 1];
  }

  lemma SortedViewsSame<V>(m: Node<V> -> nat, a: seq<Bucket<V>>, b: seq<Bucket<V>>, i: nat)
    requires |a| == |b| && i < |a| && a[i] == b[i]
    ensures SortEach(m, Views(a))[i] == SortEach(m, Views(b))[i]
  {
  }

  /** Visiting the next bucket of the walk leaves what was gathered before, and adds that bucket. */
  lemma ExtendsGathered<V>(cfg: Config<V>, local: Key, m: Node<V> -> nat, t: Table<V>, t': Table<V>, order: seq<nat>,
                           k: nat, now: int)
    requires TableInv(cfg, local, t) && k < |order| && Within(order, NUM_BUCKETS)
    requires order[k] != 0 ==> forall p :: 0 <= p < k ==> order[p] != order[k]
    requires t' == Visit(cfg, t, order[k], now)
    ensures TableInv(cfg, local, t')
    ensures Gather(SortEach(m, Views(t'.buckets)), order[..k + 1]) ==
            Gather(SortEach(m, Views(t.buckets)), order[..k]) + SortEach(m, Views(t'.buckets))[order[k]]
  {
    VisitStays(cfg, local, t, order[k], now);
    forall p | 0 <= p < k
      ensures SortEach(m, Views(t.buckets))[order[p]] == SortEach(m, Views(t'.buckets))[order[p]]
    {
      VisitLeaves(cfg, local, t, order[k], now, order[p]);
      SortedViewsSame(m, t.buckets, t'.buckets, order[p]);
    }
    ExtendLists(SortEach(m, Views(t.buckets)), SortEach(m, Views(t'.buckets)), order, k);
  }

  /** A visit changes no other bucket, and bucket 0 not at all. */
  lemma VisitLeaves<V>(cfg: Config<V>, local: Key, t: Table<V>, i: nat, now: int, j: nat)
    requires TableInv(cfg, local, t) && i < NUM_BUCKETS && j < NUM_BUCKETS && (i == j ==> i == 0)
    ensures Visit(cfg, t, i, now).buckets[j] == t.buckets[j]
  {
    assert BucketInv(cfg, local, 0, t.buckets[0]);
  }
}
