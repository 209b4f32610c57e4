/** The order in which buckets are walked towards a target, driven by the bits of its distance from the local key. */
module ClosestOrder {
  import opened Wrappers
  import opened Keys

  /** Set bits of `d` below `i`, highest first. */
  function In(d: Bits, i: nat): seq<nat>
    requires i <= |d|
  {
    if i == 0 then [] else if d[i - 1] then [i - 1] + In(d, i - 1) else In(d, i - 1)
  }

  /** Clear bits of `d` above `i`, lowest first. */
  function Out(d: Bits, i: nat): seq<nat>
    requires i < |d|
    decreases |d| - i
  {
    if i + 1 == |d| then [] else if !d[i + 1] then [i + 1] + Out(d, i + 1) else Out(d, i + 1)
  }

  function Start(d: Bits): (i: nat)
    requires |d| > 0
    ensures i < |d|
  {
    var n := BitLength(d);
    if n == 0 then 0 else n - 1
  }

  function Order(d: Bits): seq<nat>
    requires |d| > 0
  {
    [Start(d)] + In(d, Start(d)) + [0] + Out(d, 0)
  }

  /** Bucket 0 is walked twice when it covers the target's side, or when the target is the local key. */
  predicate Twice(d: Bits)
    requires |d| > 0
  {
    d[0] || BitLength(d) == 0
  }

  /** Every node of bucket `i` is nearer to the target than every node of bucket `j`. */
  predicate Before(d: Bits, i: nat, j: nat)
    requires i < |d| && j < |d|
  {
    if d[i] then d[j] ==> i > j else !d[j] && i < j
  }

  lemma NearerByBits(d: Bits, x: Bits, y: Bits, i: nat, j: nat)
    requires |d| == |x| == |y| && i < |d| && j < |d| && Before(d, i, j)
    requires BucketIndex(x) == Some(i) && BucketIndex(y) == Some(j)
    ensures ToNat(Xor(d, x)) < ToNat(Xor(d, y))
  {
    var k := if i > j then i else j;
    var a, b := Xor(d, x), Xor(d, y);
    assert x[i] && y[j];
    assert forall m :: k < m < |d| ==> a[m] == b[m];
    assert !a[k] && b[k];
    HighestDifferenceDecides(a, b, k);
  }

  /** Nodes of a bucket that comes before another are strictly nearer to the target. */
  lemma BeforeMeansNearer(local: Key, target: Key, a: Key, b: Key, i: nat, j: nat)
    requires i < NUM_BUCKETS && j < NUM_BUCKETS && Before(Distance(local, target), i, j)
    requires BucketIndex(Distance(local, a)) == Some(i) && BucketIndex(Distance(local, b)) == Some(j)
    ensures Dist(target, a) < Dist(target, b)
  {
    XorCancels(local, target, a);
    XorCancels(local, target, b);
    NearerByBits(Distance(local, target), Distance(local, a), Distance(local, b), i, j);
  }

  // ----- The order visits every bucket

  lemma {:induction false} InSorted(d: Bits, i: nat)
    requires i <= |d|
    ensures forall p :: 0 <= p < |In(d, i)| ==> In(d, i)[p] < i && d[In(d, i)[p]]
    ensures forall p, q :: 0 <= p < q < |In(d, i)| ==> In(d, i)[p] > In(d, i)[q]
  {
    if i > 0 { InSorted(d, i - 1); }
  }

  lemma {:induction false} OutSorted(d: Bits, i: nat)
    requires i < |d|
    ensures forall p :: 0 <= p < |Out(d, i)| ==> i < Out(d, i)[p] < |d| && !d[Out(d, i)[p]]
    ensures forall p, q :: 0 <= p < q < |Out(d, i)| ==> Out(d, i)[p] < Out(d, i)[q]
    decreases |d| - i
  {
    if i + 1 < |d| { OutSorted(d, i + 1); }
  }

  lemma {:induction false} InCount(d: Bits, i: nat, k: nat)
    requires i <= |d|
    ensures multiset(In(d, i))[k] == if k < i && d[k] then 1 else 0
  {
    if i > 0 { InCount(d, i - 1, k); }
  }

  lemma {:induction false} OutCount(d: Bits, i: nat, k: nat)
    requires i < |d|
    ensures multiset(Out(d, i))[k] == if i < k < |d| && !d[k] then 1 else 0
    decreases |d| - i
  {
    if i + 1 < |d| { OutCount(d, i + 1, k); }
  }

  lemma CountOfFour(s: nat, a: seq<nat>, b: seq<nat>, k: nat)
    ensures multiset([s] + a + [0] + b)[k] ==
            (if s == k then 1 else 0) + multiset(a)[k] + (if k == 0 then 1 else 0) + multiset(b)[k]
  {
    assert multiset([s] + a + [0] + b) == multiset{s} + multiset(a) + multiset{0} + multiset(b);
  }

  /** Every bucket is visited once, except bucket 0, which is visited twice when `Twice` holds. */
  lemma OrderCovers(d: Bits, k: nat)
    requires |d| > 0 && k < |d|
    ensures multiset(Order(d))[k] == if k == 0 && Twice(d) then 2 else 1
  {
    InCount(d, Start(d), k);
    OutCount(d, 0, k);
    CountOfFour(Start(d), In(d, Start(d)), Out(d, 0), k);
  }

  lemma OrderInBounds(d: Bits)
    requires |d| > 0
    ensures forall p :: 0 <= p < |Order(d)| ==> Order(d)[p] < |d|
  {
    InSorted(d, Start(d));
    OutSorted(d, 0);
  }

  /** Of two places in the order the earlier is nearer, unless both are bucket 0. */
  lemma OrderIsByNearness(d: Bits, p: nat, q: nat)
    requires |d| > 0 && p < q < |Order(d)|
    ensures Order(d)[p] < |d| && Order(d)[q] < |d|
    ensures Order(d)[p] == 0 == Order(d)[q] || Before(d, Order(d)[p], Order(d)[q])
  {
    var s := Start(d);
    InSorted(d, s);
    OutSorted(d, 0);
    HalvesByNearness(d, [s] + In(d, s), [0] + Out(d, 0), p, q);
    assert Order(d) == ([s] + In(d, s)) + ([0] + Out(d, 0));
  }

  lemma HalvesByNearness(d: Bits, a: seq<nat>, b: seq<nat>, p: nat, q: nat)
    requires |d| > 0 && p < q < |a| + |b|
    requires forall m :: 0 <= m < |a| ==> a[m] < |d| && (a[m] == 0 || d[a[m]])
    requires forall m, n :: 0 <= m < n < |a| ==> a[m] > a[n]
    requires forall m :: 0 <= m < |b| ==> b[m] < |d| && (b[m] == 0 || !d[b[m]])
    requires forall m, n :: 0 <= m < n < |b| ==> b[m] < b[n]
    ensures var x, y := (a + b)[p], (a + b)[q];
            x < |d| && y < |d| && (x == 0 == y || Before(d, x, y))
  {
  }

  // ----- The iterator

  datatype IterState = AtStart(i: nat) | ZoomIn(i: nat) | ZoomOut(i: nat) | Done

  predicate InBounds(d: Bits, s: IterState) {
    |d| > 0 && (!s.Done? ==> s.i < |d|)
  }

  /** The bucket indices a state has yet to yield. */
  function Remaining(d: Bits, s: IterState): seq<nat>
    requires InBounds(d, s)
  {
    match s
    case AtStart(i) => [i] + In(d, i) + [0] + Out(d, 0)
    case ZoomIn(i) => In(d, i) + [0] + Out(d, 0)
    case ZoomOut(i) => Out(d, i)
    case Done => []
  }

  class ClosestBucketsIter {
    const distance: Bits
    var state: IterState

    ghost predicate Valid()
      reads this
    {
      InBounds(distance, state)
    }

    ghost function ToCome(): seq<nat>
      requires Valid()
      reads this
    {
      Remaining(distance, state)
    }

    constructor (distance: Bits)
      requires |distance| > 0
      ensures Valid() && this.distance == distance
      ensures ToCome() == Order(distance)
    {
      this.distance := distance;
      var index := BucketIndex(distance);
      state := AtStart(if index.Some? then index.value else 0);
    }

    method NextIn(i: nat) returns (r: Option<nat>)
      requires i <= |distance|
      ensures r.Some? ==> r.value < i && In(distance, i) == [r.value] + In(distance, r.value)
      ensures r.None? ==> In(distance, i) == []
    {
      var j: nat := i;
      while j > 0
        invariant 0 <= j <= i && In(distance, j) == In(distance, i)
      {
        j := j - 1;
        if distance[j] {
          return Some(j);
        }
      }
      return None;
    }

    method NextOut(i: nat) returns (r: Option<nat>)
      requires i < |distance|
      ensures r.Some? ==> i < r.value < |distance| && Out(distance, i) == [r.value] + Out(distance, r.value)
      ensures r.None? ==> Out(distance, i) == []
    {
      var j := i;
      while j + 1 < |distance|
        invariant i <= j < |distance| && Out(distance, j) == Out(distance, i)
      {
        j := j + 1;
        if !distance[j] {
          return Some(j);
        }
      }
      return None;
    }

    method Next() returns (r: Option<nat>)
      requires Valid()
      modifies this
      ensures Valid()
      ensures old(ToCome()) == (if r.Some? then [r.value] else []) + ToCome()
      ensures r.None? ==> old(ToCome()) == []
    {
      match state
      case AtStart(i) =>
        state := ZoomIn(i);
        return Some(i);
      case ZoomIn(i) =>
        var j := NextIn(i);
        if j.Some? {
          state := ZoomIn(j.value);
          return j;
        }
        state := ZoomOut(0);
        return Some(0);
      case ZoomOut(i) =>
        var j := NextOut(i);
        if j.Some? {
          state := ZoomOut(j.value);
          return j;
        }
        state := Done;
        return None;
      case Done =>
        return None;
    }
  }
}
