/** Answering FINDNODE from the table: the nodes at the requested log2 distances. */
module Distances {
  import opened Wrappers
  import opened Keys
  import opened Buckets
  import opened BucketRuns
  import opened KBuckets
  import opened Tables
  import opened KBucketsTables

  function Take<T>(n: nat, s: seq<T>): seq<T> {
    if |s| <= n then s else s[..n]
  }

  function AtLeastOne(n: nat): nat {
    if n == 0 then 1 else n
  }

  /** A log2 distance some bucket covers. */
  type LogDistance = d: nat | 0 < d <= NUM_BUCKETS witness 1

  /** The bucket that covers a distance. */
  function Slot(d: LogDistance): (i: nat)
    ensures i < NUM_BUCKETS
  {
    (d as int) - 1
  }

  /** The distances a table has a bucket for. */
  function InRange(ds: seq<nat>): (r: seq<LogDistance>) {
    if ds == [] then []
    else
      var d := ds[|ds| - 1];
      InRange(ds[..|ds| - 1]) + if 0 < d <= NUM_BUCKETS then [d as LogDistance] else []
  }

  /** The lists at these distances, in the order asked. */
  function Collect<T>(lists: seq<seq<T>>, ds: seq<LogDistance>): seq<T>
    requires |lists| == NUM_BUCKETS
  {
    if ds == [] then [] else Collect(lists, ds[..|ds| - 1]) + lists[Slot(ds[|ds| - 1])]
  }

  /** Looks at the pending node of a bucket. */
  type Applier<!V> = Bucket<V> -> (Bucket<V>, Option<AppliedPending<V>>)

  function At<V>(cfg: Config<V>, now: int): Applier<V> {
    b => ApplyPendingIn(cfg, b, now)
  }

  function VisitBy<V>(f: Applier<V>, t: Table<V>, i: nat): (t': Table<V>)
    requires i < |t.buckets|
    ensures |t'.buckets| == |t.buckets|
  {
    var (b, a) := f(t.buckets[i]);
    Table(t.buckets[i := b], if a.Some? then t.applied + [a.value] else t.applied)
  }

  /** Every bucket with its pending node applied if ready. */
  function AllReady<V>(f: Applier<V>, buckets: seq<Bucket<V>>): (r: seq<Bucket<V>>)
    ensures |r| == |buckets|
    ensures forall i :: 0 <= i < |r| ==> r[i] == f(buckets[i]).0
  {
    seq(|buckets|, i requires 0 <= i < |buckets| => f(buckets[i]).0)
  }

  /** First pass: apply pending nodes bucket by bucket until the buckets that changed fill the answer. */
  function ApplyEach<V>(f: Applier<V>, t: Table<V>, ds: seq<LogDistance>, count: nat, max: nat): (t': Table<V>)
    requires |t.buckets| == NUM_BUCKETS
    ensures |t'.buckets| == NUM_BUCKETS
    decreases |ds|
  {
    if ds == [] then t
    else
      var i := Slot(ds[0]);
      var t1 := VisitBy(f, t, i);
      var applied := f(t.buckets[i]).1.Some?;
      var count1 := if applied then count + |t1.buckets[i].recent| else count;
      if applied && count1 >= max then t1 else ApplyEach(f, t1, ds[1..], count1, max)
  }

  // ----- Stopping early never changes the answer

  lemma {:induction false} CollectConcat<T>(t: seq<seq<T>>, a: seq<LogDistance>, b: seq<LogDistance>)
    requires |t| == NUM_BUCKETS
    ensures Collect(t, a + b) == Collect(t, a) + Collect(t, b)
  {
    if b == [] {
      assert a + b == a;
    } else {
      assert (a + b)[..|a + b| - 1] == a + b[..|b| - 1];
      CollectConcat(t, a, b[..|b| - 1]);
    }
  }

  lemma {:induction false} CollectSame<T>(t: seq<seq<T>>, u: seq<seq<T>>, ds: seq<LogDistance>)
    requires |t| == NUM_BUCKETS == |u|
    requires forall k :: 0 <= k < |ds| ==> t[Slot(ds[k])] == u[Slot(ds[k])]
    ensures Collect(t, ds) == Collect(u, ds)
  {
    if ds != [] { CollectSame(t, u, ds[..|ds| - 1]); }
  }

  lemma CollectLast<T>(t: seq<seq<T>>, done: seq<LogDistance>, d: LogDistance)
    requires |t| == NUM_BUCKETS
    ensures Collect(t, done + [d]) == Collect(t, done) + t[Slot(d)]
  {
    assert (done + [d])[..|done|] == done;
  }

  /** `f` applies pending nodes at time `now`. */
  ghost predicate Applies<V(!new)>(f: Applier<V>, cfg: Config<V>, now: int) {
    forall b {:trigger ApplyPendingIn(cfg, b, now)} :: f(b) == ApplyPendingIn(cfg, b, now)
  }

  /** A bucket that took a pending node in is not empty. */
  ghost predicate Fills<V(!new)>(f: Applier<V>) {
    forall b :: f(b).1.Some? ==> |f(b).0.recent| > 0
  }

  /** Looking at a pending node twice changes nothing more. */
  ghost predicate Settles<V(!new)>(f: Applier<V>) {
    forall b {:trigger f(f(b).0)} :: f(f(b).0).0 == f(b).0
  }

  lemma ApplyingSettles<V(!new)>(cfg: Config<V>, now: int)
    ensures Settles(At(cfg, now)) && Fills(At(cfg, now)) && Applies(At(cfg, now), cfg, now)
  {
  }

  /** `t` becomes `ready` by applying pending nodes, and already has at the distances in `done`. */
  ghost predicate Partly<V>(f: Applier<V>, ready: seq<Bucket<V>>, t: seq<Bucket<V>>, done: seq<LogDistance>)
    requires |ready| == NUM_BUCKETS == |t|
  {
    && (forall i :: 0 <= i < NUM_BUCKETS ==> f(t[i]).0 == ready[i])
    && (forall k :: 0 <= k < |done| ==> t[Slot(done[k])] == ready[Slot(done[k])])
  }

  lemma PartlyVisit<V>(f: Applier<V>, ready: seq<Bucket<V>>, t: Table<V>, done: seq<LogDistance>, d: LogDistance)
    requires |ready| == NUM_BUCKETS == |t.buckets|
    requires Partly(f, ready, t.buckets, done) && f(ready[Slot(d)]).0 == ready[Slot(d)]
    ensures Partly(f, ready, VisitBy(f, t, Slot(d)).buckets, done + [d])
  {
  }

  ghost predicate SameAnswer<V>(a: seq<Bucket<V>>, b: seq<Bucket<V>>, ds: seq<LogDistance>, max: nat)
    requires |a| == NUM_BUCKETS == |b|
  {
    Take(AtLeastOne(max), Collect(Views(a), ds)) == Take(AtLeastOne(max), Collect(Views(b), ds))
  }

  lemma TakePrefix<T>(n: nat, a: seq<T>, b: seq<T>)
    requires |a| >= n
    ensures Take(n, a + b) == Take(n, a)
  {
  }

  lemma EnoughAlready<V>(ready: seq<Bucket<V>>, t: seq<Bucket<V>>, done: seq<LogDistance>, rest: seq<LogDistance>,
                         n: nat)
    requires |ready| == NUM_BUCKETS == |t|
    requires forall k :: 0 <= k < |done| ==> t[Slot(done[k])] == ready[Slot(done[k])]
    requires |Collect(Views(ready), done)| >= n || rest == []
    ensures Take(n, Collect(Views(t), done + rest)) == Take(n, Collect(Views(ready), done + rest))
  {
    CollectSame(Views(t), Views(ready), done);
    CollectConcat(Views(t), done, rest);
    CollectConcat(Views(ready), done, rest);
    if rest != [] {
      TakePrefix(n, Collect(Views(t), done), Collect(Views(t), rest));
      TakePrefix(n, Collect(Views(ready), done), Collect(Views(ready), rest));
    }
  }

  lemma Shift<T>(a: seq<T>, b: seq<T>)
    requires b != []
    ensures (a + [b[0]]) + b[1..] == a + b
  {
  }

  /** What one visit adds to the count is in the answer. */
  lemma CountedIsCollected<V>(f: Applier<V>, ready: seq<Bucket<V>>, t: Table<V>, done: seq<LogDistance>, d: LogDistance,
                              count: nat, count1: nat)
    requires |ready| == NUM_BUCKETS == |t.buckets| && f(t.buckets[Slot(d)]).0 == ready[Slot(d)]
    requires count <= |Collect(Views(ready), done)| && count1 <= count + |ready[Slot(d)].recent|
    ensures count1 <= |Collect(Views(ready), done + [d])|
  {
    CollectLast(Views(ready), done, d);
    ViewLength(ready[Slot(d)].recent);
  }

  lemma ApplyFirst<V>(f: Applier<V>, t: Table<V>, ds: seq<LogDistance>, count: nat, max: nat, t1: Table<V>,
                      applied: bool, count1: nat)
    requires |t.buckets| == NUM_BUCKETS && ds != [] && t1 == VisitBy(f, t, Slot(ds[0]))
    requires applied == f(t.buckets[Slot(ds[0])]).1.Some?
    requires count1 == if applied then count + |t1.buckets[Slot(ds[0])].recent| else count
    ensures ApplyEach(f, t, ds, count, max) ==
            if applied && count1 >= max then t1 else ApplyEach(f, t1, ds[1..], count1, max)
  {
  }

  /** Stopping is harmless once the answer is full, or at the end. */
  lemma StopIsHarmless<V>(f: Applier<V>, ready: seq<Bucket<V>>, t: Table<V>, done: seq<LogDistance>,
                          rest: seq<LogDistance>, max: nat)
    requires |ready| == NUM_BUCKETS == |t.buckets| && Partly(f, ready, t.buckets, done)
    requires |Collect(Views(ready), done)| >= AtLeastOne(max) || rest == []
    ensures SameAnswer(t.buckets, ready, done + rest, max)
  {
    EnoughAlready(ready, t.buckets, done, rest, AtLeastOne(max));
  }

  lemma {:induction false} EarlyBreakIsHarmless<V(!new)>(f: Applier<V>, ready: seq<Bucket<V>>, t: Table<V>,
                                                         done: seq<LogDistance>, rest: seq<LogDistance>, count: nat,
                                                         max: nat)
    requires |ready| == NUM_BUCKETS == |t.buckets|
    requires Fills(f) && Partly(f, ready, t.buckets, done)
    requires forall i :: 0 <= i < NUM_BUCKETS ==> f(ready[i]).0 == ready[i]
    requires count <= |Collect(Views(ready), done)|
    ensures SameAnswer(ApplyEach(f, t, rest, count, max).buckets, ready, done + rest, max)
    decreases |rest|
  {
    if rest == [] {
      StopIsHarmless(f, ready, t, done, rest, max);
    } else {
      var d, tail, next := rest[0], rest[1..], done + [rest[0]];
      var i := Slot(d);
      var t1 := VisitBy(f, t, i);
      var applied := f(t.buckets[i]).1.Some?;
      var count1 := if applied then count + |t1.buckets[i].recent| else count;
      PartlyVisit(f, ready, t, done, d);
      CountedIsCollected(f, ready, t, done, d, count, count1);
      Shift(done, rest);
      ApplyFirst(f, t, rest, count, max, t1, applied, count1);
      if applied && count1 >= max {
        StopIsHarmless(f, ready, t1, next, tail, max);
      } else {
        EarlyBreakIsHarmless(f, ready, t1, next, tail, count1, max);
      }
    }
  }

  /** The answer is the first nodes of the requested buckets with every ready pending node applied. */
  lemma AnswerIsComplete<V(!new)>(f: Applier<V>, t: Table<V>, ds: seq<LogDistance>, max: nat)
    requires |t.buckets| == NUM_BUCKETS && Settles(f) && Fills(f)
    ensures SameAnswer(ApplyEach(f, t, ds, 0, max).buckets, AllReady(f, t.buckets), ds, max)
  {
    var ready := AllReady(f, t.buckets);
    forall i | 0 <= i < NUM_BUCKETS ensures f(ready[i]).0 == ready[i] {
      assert f(f(t.buckets[i]).0).0 == f(t.buckets[i]).0;
    }
    EarlyBreakIsHarmless(f, ready, t, [], ds, 0, max);
    assert [] + ds == ds;
  }

  // ----- The answer holds all nodes at the requested distances, in order

  /** How many elements come before the list of distance `ds[k]`. */
  function Before<T>(lists: seq<seq<T>>, ds: seq<LogDistance>, k: nat): nat
    requires |lists| == NUM_BUCKETS && k <= |ds|
  {
    if k == 0 then 0 else Before(lists, ds, k - 1) + |lists[Slot(ds[k - 1])]|
  }

  /** What is collected is the list of each distance after that of the one before it, as it is. */
  lemma {:induction false} CollectedInOrder<T>(lists: seq<seq<T>>, ds: seq<LogDistance>, k: nat, p: nat)
    requires |lists| == NUM_BUCKETS && k < |ds| && p < |lists[Slot(ds[k])]|
    ensures |Collect(lists, ds)| == Before(lists, ds, |ds|)
    ensures Before(lists, ds, k) + p < |Collect(lists, ds)|
    ensures Collect(lists, ds)[Before(lists, ds, k) + p] == lists[Slot(ds[k])][p]
    decreases |ds|
  {
    var n := |ds| - 1;
    CollectedLength(lists, ds[..n]);
    BeforeSame(lists, ds[..n], ds, n);
    BeforeSame(lists, ds[..n], ds, k);
    if k < n { CollectedInOrder(lists, ds[..n], k, p); }
  }

  lemma {:induction false} BeforeSame<T>(lists: seq<seq<T>>, a: seq<LogDistance>, b: seq<LogDistance>, k: nat)
    requires |lists| == NUM_BUCKETS && k <= |a| <= |b| && a == b[..|a|]
    ensures Before(lists, a, k) == Before(lists, b, k)
  {
    if k > 0 { BeforeSame(lists, a, b, k - 1); }
  }

  lemma {:induction false} CollectedLength<T>(lists: seq<seq<T>>, ds: seq<LogDistance>)
    requires |lists| == NUM_BUCKETS
    ensures |Collect(lists, ds)| == Before(lists, ds, |ds|)
  {
    if ds != [] {
      CollectedLength(lists, ds[..|ds| - 1]);
      BeforeSame(lists, ds[..|ds| - 1], ds, |ds| - 1);
    }
  }

  /** The distances looked up are those requested that a table has a bucket for, in the order requested. */
  lemma {:induction false} InRangePicks(ds: seq<nat>) returns (at: seq<nat>)
    ensures |at| == |InRange(ds)|
    ensures forall j :: 0 <= j < |at| ==> at[j] < |ds| && InRange(ds)[j] == ds[at[j]]
    ensures forall i, j :: 0 <= i < j < |at| ==> at[i] < at[j]
    ensures forall i :: 0 <= i < |ds| ==> (i in at <==> 1 <= ds[i] <= NUM_BUCKETS)
    decreases |ds|
  {
    at := [];
    if ds != [] {
      var n := |ds| - 1;
      at := InRangePicks(ds[..n]);
      if 1 <= ds[n] <= NUM_BUCKETS {
        at := at + [n];
      }
    }
  }

  /** Whatever is taken is taken from the front: the allowed number, at least one, or all there is. */
  lemma TakenFromFront<T>(max: nat, all: seq<T>)
    ensures var r := Take(AtLeastOne(max), all);
            && |r| <= |all| && r == all[..|r|]
            && (|r| == |all| || (|r| == max >= 1) || (max == 0 && |r| == 1))
  {
    assert all[..|all|] == all;
  }

  // ----- Every answer is at a requested distance

  /** Each collected element comes from one of the asked lists. */
  lemma {:induction false} CollectFrom<T>(t: seq<seq<T>>, ds: seq<LogDistance>, j: nat) returns (k: nat, p: nat)
    requires |t| == NUM_BUCKETS && j < |Collect(t, ds)|
    ensures k < |ds| && p < |t[Slot(ds[k])]| && Collect(t, ds)[j] == t[Slot(ds[k])][p]
  {
    var init, d := ds[..|ds| - 1], ds[|ds| - 1];
    var n := |Collect(t, init)|;
    if j < n {
      k, p := CollectFrom(t, init, j);
    } else {
      k, p := |ds| - 1, j - n;
    }
  }

  lemma CollectAtDistance<V>(cfg: Config<V>, local: Key, t: Table<V>, ds: seq<LogDistance>, j: nat)
    requires TableInv(cfg, local, t) && j < |Collect(Views(t.buckets), ds)|
    ensures var l := Log2Distance(local, Collect(Views(t.buckets), ds)[j].key);
            l.Some? && l.value in ds
  {
    var k, p := CollectFrom(Views(t.buckets), ds, j);
    ViewAtDistance(cfg, local, t, Slot(ds[k]), p);
  }

  lemma ViewAtDistance<V>(cfg: Config<V>, local: Key, t: Table<V>, i: nat, p: nat)
    requires TableInv(cfg, local, t) && i < NUM_BUCKETS && p < |View(t.buckets[i].recent)|
    ensures Log2Distance(local, View(t.buckets[i].recent)[p].key) == Some(i + 1)
  {
    PlacedByDistance(cfg, local, t, i);
    var q := ViewFrom(t.buckets[i].recent, p);
  }

  lemma ViewFrom<V>(s: seq<Node<V>>, j: nat) returns (p: nat)
    requires j < |View(s)|
    ensures p < |s| && View(s)[j] == s[p]
  {
    ViewPermutes(s);
    p :| 0 <= p < |s| && View(s)[j] == s[p];
  }

  lemma AllReadyKeeps<V>(cfg: Config<V>, local: Key, t: Table<V>, now: int)
    requires TableInv(cfg, local, t)
    ensures TableInv(cfg, local, t.(buckets := AllReady(At(cfg, now), t.buckets)))
  {
    forall i | 0 <= i < NUM_BUCKETS ensures BucketInv(cfg, local, i, At(cfg, now)(t.buckets[i]).0) {
      ApplyStays(cfg, local, i, t.buckets[i], now);
    }
  }

  // ----- The limit on the answer

  lemma CollectOne<T>(lists: seq<seq<T>>, ds: seq<nat>)
    requires |lists| == NUM_BUCKETS && ds == [1]
    ensures Collect(lists, InRange(ds)) == lists[0]
  {
    assert ds[..0] == [];
    assert InRange(ds) == [] + [1 as LogDistance];
    assert InRange(ds)[..0] == [];
  }

  lemma OneFound<V>(f: Applier<V>, t: Table<V>, node: Node<V>)
    requires |t.buckets| == NUM_BUCKETS && t.buckets[0] == f(t.buckets[0]).0 == Bucket([node], None)
    ensures Take(AtLeastOne(0), Collect(Views(AllReady(f, t.buckets)), InRange([1]))) == [node]
  {
    ViewOne(node);
    CollectOne(Views(AllReady(f, t.buckets)), [1]);
  }

  /** A table with one node, at distance one from the local key, yields it even if no node is allowed. */
  lemma OneDespiteLimit()
    ensures var node, cfg := Node(Only(0), 0, NodeStatus(Outgoing, Connected)), Config(60, 10, None);
            var t := TableRun(cfg, ZERO, None, [(TInsertOrUpdate(node), 0)]);
            Take(AtLeastOne(0), Collect(Views(AllReady(At(cfg, 0), t.buckets)), InRange([1]))) == [node]
  {
    var node, cfg := Node(Only(0), 0, NodeStatus(Outgoing, Connected)), Config(60, 10, None);
    var t := TableRun(cfg, ZERO, None, [(TInsertOrUpdate(node), 0)]);
    NeighbourInserted(cfg, node, 0);
    OneFound(At(cfg, 0), t, node);
  }

  // ----- The method

  method FilterDistances(ds: seq<nat>) returns (r: seq<LogDistance>)
    ensures r == InRange(ds)
  {
    r := [];
    for i := 0 to |ds|
      invariant r == InRange(ds[..i])
    {
      assert ds[..i + 1][..i] == ds[..i];
      if 0 < ds[i] <= NUM_BUCKETS {
        r := r + [ds[i]];
      }
    }
    assert ds[..|ds|] == ds;
  }

  lemma VisitKeeps<V(!new)>(f: Applier<V>, cfg: Config<V>, local: Key, t: Table<V>, i: nat, now: int)
    requires TableInv(cfg, local, t) && i < NUM_BUCKETS && Applies(f, cfg, now)
    ensures TableInv(cfg, local, VisitBy(f, t, i))
  {
    ApplyStays(cfg, local, i, t.buckets[i], now);
    assert f(t.buckets[i]) == ApplyPendingIn(cfg, t.buckets[i], now);
  }

  lemma {:induction false} ApplyEachKeeps<V(!new)>(f: Applier<V>, cfg: Config<V>, local: Key, t: Table<V>,
                                                   ds: seq<LogDistance>, count: nat, max: nat, now: int)
    requires TableInv(cfg, local, t) && Applies(f, cfg, now)
    ensures TableInv(cfg, local, ApplyEach(f, t, ds, count, max))
    decreases |ds|
  {
    if ds != [] {
      var i := Slot(ds[0]);
      var t1, applied := VisitBy(f, t, i), f(t.buckets[i]).1.Some?;
      var count1 := if applied then count + |t1.buckets[i].recent| else count;
      VisitKeeps(f, cfg, local, t, i, now);
      ApplyFirst(f, t, ds, count, max, t1, applied, count1);
      ApplyEachKeeps(f, cfg, local, t1, ds[1..], count1, max, now);
    }
  }

  method VisitOne<V(==,!new)>(table: KBucketsTable<V>, i: nat, now: int, ghost f: Applier<V>)
    returns (applied: bool, size: nat)
    requires table.Owned() && i < NUM_BUCKETS && Applies(f, table.cfg, now)
    modifies table, table.buckets[i]
    ensures table.Owned()
    ensures table.Abs() == VisitBy(f, old(table.Abs()), i)
    ensures applied == f(old(table.Abs()).buckets[i]).1.Some?
    ensures size == |table.Abs().buckets[i].recent|
  {
    var before := |table.appliedPending|;
    assert f(table.Abs().buckets[i]) == ApplyPendingIn(table.cfg, table.Abs().buckets[i], now);
    table.VisitBucket(i, now);
    ViewLength(table.buckets[i].recent);
    return |table.appliedPending| > before, |table.buckets[i].nodes|;
  }

  lemma ApplyEachStep<V>(f: Applier<V>, t: Table<V>, ds: seq<LogDistance>, k: nat, count: nat, max: nat,
                         t1: Table<V>, applied: bool, count1: nat)
    requires |t.buckets| == NUM_BUCKETS && k < |ds| && t1 == VisitBy(f, t, Slot(ds[k])) &&
             applied == f(t.buckets[Slot(ds[k])]).1.Some?
    requires count1 == if applied then count + |t1.buckets[Slot(ds[k])].recent| else count
    ensures ApplyEach(f, t, ds[k..], count, max) == if applied && count1 >= max then t1
                                                    else ApplyEach(f, t1, ds[k + 1..], count1, max)
  {
    assert ds[k..][0] == ds[k] && ds[k..][1..] == ds[k + 1..];
  }

  /** One turn of the first pass. */
  method ApplyOne<V(==,!new)>(table: KBucketsTable<V>, ds: seq<LogDistance>, k: nat, count: nat, max: nat, now: int,
                              ghost f: Applier<V>)
    returns (count1: nat, stop: bool)
    requires table.Owned() && Applies(f, table.cfg, now) && k < |ds|
    modifies table, table.buckets
    ensures table.Owned()
    ensures ApplyEach(f, old(table.Abs()), ds[k..], count, max) ==
            if stop then table.Abs() else ApplyEach(f, table.Abs(), ds[k + 1..], count1, max)
  {
    ghost var t := table.Abs();
    var applied, size := VisitOne(table, Slot(ds[k]), now, f);
    count1 := if applied then count + size else count;
    stop := applied && count1 >= max;
    ApplyEachStep(f, t, ds, k, count, max, table.Abs(), applied, count1);
  }

  method ApplyPendings<V(==,!new)>(table: KBucketsTable<V>, ds: seq<LogDistance>, max: nat, now: int,
                                   ghost f: Applier<V>)
    requires table.Owned() && Applies(f, table.cfg, now)
    modifies table, table.buckets
    ensures table.Owned()
    ensures table.Abs() == ApplyEach(f, old(table.Abs()), ds, 0, max)
  {
    var count: nat := 0;
    ghost var goal := ApplyEach(f, table.Abs(), ds, 0, max);
    assert ds[0..] == ds;
    var k := 0;
    while k < |ds|
      invariant 0 <= k <= |ds| && table.Owned()
      invariant ApplyEach(f, table.Abs(), ds[k..], count, max) == goal
    {
      var stop;
      count, stop := ApplyOne(table, ds, k, count, max, now, f);
      if stop {
        return;
      }
      k := k + 1;
    }
  }

  /** Appends `nodes` to `r` until the answer is full. */
  method AppendUpTo<T>(r0: seq<T>, nodes: seq<T>, max: nat) returns (r: seq<T>, full: bool)
    requires r0 == [] || |r0| < max
    ensures full ==> |r| == AtLeastOne(max) && |r| <= |r0 + nodes| && r == (r0 + nodes)[..|r|]
    ensures !full ==> r == r0 + nodes && (r == [] || |r| < max)
  {
    r := r0;
    for j := 0 to |nodes|
      invariant r == r0 + nodes[..j]
      invariant r == [] || |r| < max
    {
      r := r + [nodes[j]];
      if |r| >= max {
        return r, true;
      }
    }
    return r, false;
  }

  lemma TakeWithin<T>(a: seq<T>, b: seq<T>, r: seq<T>, n: nat)
    requires |r| == n <= |a| && r == a[..n]
    ensures r == Take(n, a + b)
  {
  }

  method NodesAt<V(==)>(table: KBucketsTable<V>, d: LogDistance, ghost lists: seq<seq<Node<V>>>)
    returns (nodes: seq<Node<V>>)
    requires table.Owned() && lists == Views(table.Abs().buckets)
    ensures nodes == lists[Slot(d)]
  {
    nodes := table.buckets[Slot(d)].nodes;
  }

  /** The second pass; `lists` are the buckets as stored. */
  method CollectNodes<V(==)>(table: KBucketsTable<V>, ds: seq<LogDistance>, max: nat, ghost lists: seq<seq<Node<V>>>)
    returns (r: seq<Node<V>>)
    requires table.Owned() && lists == Views(table.Abs().buckets)
    ensures r == Take(AtLeastOne(max), Collect(lists, ds))
  {
    r := [];
    for k := 0 to |ds|
      invariant r == Collect(lists, ds[..k])
      invariant r == [] || |r| < max
    {
      CollectNext(lists, ds, k);
      var nodes := NodesAt(table, ds[k], lists);
      var full;
      r, full := AppendUpTo(r, nodes, max);
      if full {
        TakeWithin(Collect(lists, ds[..k + 1]), Collect(lists, ds[k + 1..]), r, AtLeastOne(max));
        return;
      }
    }
    assert ds[..|ds|] == ds;
  }

  lemma CollectNext<T>(t: seq<seq<T>>, ds: seq<LogDistance>, k: nat)
    requires |t| == NUM_BUCKETS && k < |ds|
    ensures Collect(t, ds[..k + 1]) == Collect(t, ds[..k]) + t[Slot(ds[k])]
    ensures Collect(t, ds) == Collect(t, ds[..k + 1]) + Collect(t, ds[k + 1..])
  {
    assert ds[..k + 1][..k] == ds[..k];
    assert ds == ds[..k + 1] + ds[k + 1..];
    CollectConcat(t, ds[..k + 1], ds[k + 1..]);
  }

  method NodesByDistances<V(==,!new)>(table: KBucketsTable<V>, ds: seq<nat>, max: nat, now: int)
    returns (r: seq<Node<V>>)
    requires table.Valid()
    modifies table, table.buckets
    ensures table.Valid()
    ensures table.Abs() == ApplyEach(At(table.cfg, now), old(table.Abs()), InRange(ds), 0, max)
    ensures var all := Collect(Views(AllReady(At(table.cfg, now), old(table.Abs()).buckets)), InRange(ds));
            r == Take(AtLeastOne(max), all) && (|r| <= max <==> max > 0 || all == [])
  {
    ApplyingSettles(table.cfg, now);
    var distances := FilterDistances(ds);
    r := Answer(table, distances, max, now, At(table.cfg, now));
  }

  method Answer<V(==,!new)>(table: KBucketsTable<V>, ds: seq<LogDistance>, max: nat, now: int, ghost f: Applier<V>)
    returns (r: seq<Node<V>>)
    requires table.Valid() && Applies(f, table.cfg, now) && Settles(f) && Fills(f)
    modifies table, table.buckets
    ensures table.Valid()
    ensures table.Abs() == ApplyEach(f, old(table.Abs()), ds, 0, max)
    ensures r == Take(AtLeastOne(max), Collect(Views(AllReady(f, old(table.Abs()).buckets)), ds))
  {
    AnswerIsComplete(f, table.Abs(), ds, max);
    ApplyValid(table, ds, max, now, f);
    r := CollectNodes(table, ds, max, Views(table.Abs().buckets));
  }

  method ApplyValid<V(==,!new)>(table: KBucketsTable<V>, ds: seq<LogDistance>, max: nat, now: int, ghost f: Applier<V>)
    requires table.Valid() && Applies(f, table.cfg, now)
    modifies table, table.buckets
    ensures table.Valid()
    ensures table.Abs() == ApplyEach(f, old(table.Abs()), ds, 0, max)
  {
    ApplyEachKeeps(f, table.cfg, table.localKey, table.Abs(), ds, 0, max, now);
    ApplyPendings(table, ds, max, now, f);
  }
}
