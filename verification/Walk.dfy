/** Walking sorted lists in a given order, and when that amounts to sorting everything. */
module Walks {

  function InsertBy<T>(m: T -> nat, x: T, s: seq<T>): (r: seq<T>)
    requires SortedBy(m, s)
    ensures SortedBy(m, r) && multiset(r) == multiset(s) + multiset{x}
  {
    if s == [] then [x]
    else if m(s[|s| - 1]) <= m(x) then s + [x]
    else
      var r := InsertBy(m, x, s[..|s| - 1]);
      assert s == s[..|s| - 1] + [s[|s| - 1]];
      InsertBound(m, x, s[..|s| - 1], r, s[|s| - 1]);
      r + [s[|s| - 1]]
  }

  lemma InsertBound<T>(m: T -> nat, x: T, s: seq<T>, r: seq<T>, y: T)
    requires multiset(r) == multiset(s) + multiset{x} && m(x) <= m(y)
    requires forall k :: 0 <= k < |s| ==> m(s[k]) <= m(y)
    ensures forall k :: 0 <= k < |r| ==> m(r[k]) <= m(y)
  {
    forall k | 0 <= k < |r| ensures m(r[k]) <= m(y) {
      assert r[k] in multiset(r);
      assert r[k] == x || r[k] in s;
    }
  }

  ghost predicate SortedBy<T>(m: T -> nat, s: seq<T>) {
    forall i, j :: 0 <= i < j < |s| ==> m(s[i]) <= m(s[j])
  }

  /** Stable sort by increasing measure. */
  function SortBy<T>(m: T -> nat, s: seq<T>): (r: seq<T>)
    ensures SortedBy(m, r) && multiset(r) == multiset(s)
  {
    if s == [] then []
    else
      assert s == s[..|s| - 1] + [s[|s| - 1]];
      InsertBy(m, s[|s| - 1], SortBy(m, s[..|s| - 1]))
  }

  predicate Within(order: seq<nat>, n: nat) {
    forall p :: 0 <= p < |order| ==> order[p] < n
  }

  /** The lists named by `order`, one after the other. */
  function Gather<T>(lists: seq<seq<T>>, order: seq<nat>): seq<T>
    requires Within(order, |lists|)
  {
    if order == [] then [] else Gather(lists, order[..|order| - 1]) + lists[order[|order| - 1]]
  }

  function Range(n: nat): (r: seq<nat>)
    ensures |r| == n && forall i :: 0 <= i < n ==> r[i] == i
  {
    seq(n, i => i)
  }

  /** All lists, one after the other. */
  function Flat<T>(lists: seq<seq<T>>): seq<T> {
    if lists == [] then [] else Flat(lists[..|lists| - 1]) + lists[|lists| - 1]
  }

  // ----- Order of a walk

  lemma GatherLast<T>(lists: seq<seq<T>>, order: seq<nat>)
    requires Within(order, |lists|) && order != []
    ensures Within(order[..|order| - 1], |lists|) && order[|order| - 1] < |lists|
    ensures Gather(lists, order) == Gather(lists, order[..|order| - 1]) + lists[order[|order| - 1]]
  {
  }

  lemma {:induction false} GatherFrom<T>(lists: seq<seq<T>>, order: seq<nat>, w: seq<T>, j: nat)
    returns (p: nat, k: nat)
    requires Within(order, |lists|) && w == Gather(lists, order) && j < |w|
    ensures p < |order| && k < |lists[order[p]]| && w[j] == lists[order[p]][k]
    decreases |order|
  {
    GatherLast(lists, order);
    var init := Gather(lists, order[..|order| - 1]);
    if j < |init| {
      p, k := GatherFrom(lists, order[..|order| - 1], init, j);
    } else {
      p, k := |order| - 1, j - |init|;
    }
  }

  /** Every element of an earlier list measures at most what any element of a later list does. */
  ghost predicate Ascends<T>(m: T -> nat, lists: seq<seq<T>>, order: seq<nat>)
    requires Within(order, |lists|)
  {
    forall p, q, i, j :: 0 <= p < q < |order| && 0 <= i < |lists[order[p]]| && 0 <= j < |lists[order[q]]| ==>
      m(lists[order[p]][i]) <= m(lists[order[q]][j])
  }

  ghost predicate EachSorted<T>(m: T -> nat, lists: seq<seq<T>>) {
    forall k :: 0 <= k < |lists| ==> SortedBy(m, lists[k])
  }

  lemma {:induction false} GatherAscends<T>(m: T -> nat, lists: seq<seq<T>>, order: seq<nat>)
    requires Within(order, |lists|) && Ascends(m, lists, order) && EachSorted(m, lists)
    ensures SortedBy(m, Gather(lists, order))
  {
    if order != [] {
      var init, last := order[..|order| - 1], |order| - 1;
      GatherLast(lists, order);
      AscendsInit(m, lists, order);
      GatherAscends(m, lists, init);
      var w, v := Gather(lists, init), lists[order[last]];
      forall i, j | 0 <= i < |w| && 0 <= j < |v| ensures m(w[i]) <= m(v[j]) {
        var p, k := GatherFrom(lists, init, w, i);
        assert order[p] == init[p] && m(lists[order[p]][k]) <= m(lists[order[last]][j]);
      }
      SortedConcat(m, w, v);
    }
  }

  lemma AscendsInit<T>(m: T -> nat, lists: seq<seq<T>>, order: seq<nat>)
    requires Within(order, |lists|) && Ascends(m, lists, order) && order != []
    ensures Ascends(m, lists, order[..|order| - 1])
  {
  }

  lemma SortedConcat<T>(m: T -> nat, w: seq<T>, v: seq<T>)
    requires SortedBy(m, w) && SortedBy(m, v)
    requires forall i, j :: 0 <= i < |w| && 0 <= j < |v| ==> m(w[i]) <= m(v[j])
    ensures SortedBy(m, w + v)
  {
  }

  // ----- Contents of a walk

  function Bag<T>(lists: seq<seq<T>>, order: seq<nat>): multiset<T>
    requires Within(order, |lists|)
  {
    if order == [] then multiset{}
    else Bag(lists, order[..|order| - 1]) + multiset(lists[order[|order| - 1]])
  }

  lemma {:induction false} GatherBag<T>(lists: seq<seq<T>>, order: seq<nat>)
    requires Within(order, |lists|)
    ensures multiset(Gather(lists, order)) == Bag(lists, order)
  {
    if order != [] {
      GatherBag(lists, order[..|order| - 1]);
      GatherLast(lists, order);
    }
  }

  lemma {:induction false} BagRemove<T>(lists: seq<seq<T>>, a: seq<nat>, i: nat)
    requires Within(a, |lists|)
    requires i < |a|
    ensures Within(a[..i] + a[i + 1..], |lists|)
    ensures Bag(lists, a) == Bag(lists, a[..i] + a[i + 1..]) + multiset(lists[a[i]])
  {
    var rest := a[..i] + a[i + 1..];
    if i == |a| - 1 {
      assert rest == a[..|a| - 1];
    } else {
      var init := a[..|a| - 1];
      BagRemove(lists, init, i);
      assert rest[..|rest| - 1] == init[..i] + init[i + 1..];
      assert rest[|rest| - 1] == a[|a| - 1];
    }
  }

  lemma BagAppend<T>(lists: seq<seq<T>>, a: seq<nat>, x: nat)
    requires Within(a, |lists|) && x < |lists|
    ensures Bag(lists, a + [x]) == Bag(lists, a) + multiset(lists[x])
  {
    assert (a + [x])[..|a|] == a;
  }

  /** What is walked depends only on how often each list is named. */
  lemma {:induction false} BagPermutes<T>(lists: seq<seq<T>>, a: seq<nat>, b: seq<nat>)
    requires Within(a, |lists|)
    requires Within(b, |lists|)
    requires multiset(a) == multiset(b)
    ensures Bag(lists, a) == Bag(lists, b)
    decreases |a|
  {
    SameLength(a, b);
    if a != [] {
      var n := |a| - 1;
      var i := MultisetIndex(a, b, n);
      var a', b' := a[..n] + a[n + 1..], b[..i] + b[i + 1..];
      BagRemove(lists, a, n);
      BagRemove(lists, b, i);
      RemoveMultiset(a, n);
      RemoveMultiset(b, i);
      BagPermutes(lists, a', b');
    }
  }

  lemma SameLength<T>(a: seq<T>, b: seq<T>)
    requires multiset(a) == multiset(b)
    ensures |a| == |b|
  {
    assert |a| == |multiset(a)| == |b|;
  }

  lemma MultisetIndex<T>(a: seq<T>, b: seq<T>, n: nat) returns (i: nat)
    requires multiset(a) == multiset(b) && n < |a|
    ensures i < |b| && b[i] == a[n]
  {
    assert a[n] in multiset(b);
    i :| 0 <= i < |b| && b[i] == a[n];
  }

  lemma RemoveMultiset<T>(b: seq<T>, i: nat)
    requires i < |b|
    ensures multiset(b[..i] + b[i + 1..]) == multiset(b) - multiset{b[i]}
  {
    assert b == b[..i] + [b[i]] + b[i + 1..];
  }

  lemma {:induction false} FlatBag<T>(lists: seq<seq<T>>, all: seq<seq<T>>, n: nat)
    requires n == |lists| <= |all| && lists == all[..n]
    ensures multiset(Flat(lists)) == Bag(all, Range(n))
  {
    if n > 0 {
      FlatBag(lists[..n - 1], all, n - 1);
      assert lists[..n - 1] == all[..n - 1];
      assert Range(n)[..n - 1] == Range(n - 1);
      assert Flat(lists) == Flat(lists[..n - 1]) + lists[n - 1];
    }
  }

  // ----- When a walk is a sort of everything

  /** Two sorted lists with the same contents agree when the measure tells elements apart. */
  lemma {:induction false} SortedUnique<T>(m: T -> nat, a: seq<T>, b: seq<T>)
    requires SortedBy(m, a) && SortedBy(m, b) && multiset(a) == multiset(b)
    requires TellsApart(m, a)
    ensures a == b
  {
    SameLength(a, b);
    if a != [] {
      var n := |a| - 1;
      SameLast(m, a, b);
      InitFacts(m, a);
      InitFacts(m, b);
      SortedUnique(m, a[..n], b[..n]);
    }
  }

  lemma InitFacts<T>(m: T -> nat, a: seq<T>)
    requires SortedBy(m, a) && a != []
    ensures SortedBy(m, a[..|a| - 1])
    ensures TellsApart(m, a) ==> TellsApart(m, a[..|a| - 1])
    ensures multiset(a[..|a| - 1]) == multiset(a) - multiset{a[|a| - 1]}
    ensures a == a[..|a| - 1] + [a[|a| - 1]]
  {
    RemoveMultiset(a, |a| - 1);
    assert a[..|a| - 1] + a[|a|..] == a[..|a| - 1];
  }

  lemma SameLast<T>(m: T -> nat, a: seq<T>, b: seq<T>)
    requires SortedBy(m, a) && SortedBy(m, b) && multiset(a) == multiset(b) && |a| == |b| > 0
    requires TellsApart(m, a)
    ensures a[|a| - 1] == b[|a| - 1]
  {
    var n := |a| - 1;
    var i := MultisetIndex(a, b, n);
    var j := MultisetIndex(b, a, n);
    assert m(b[i]) <= m(b[n]) && m(a[j]) <= m(a[n]);
  }

  lemma GatherContents<T>(lists: seq<seq<T>>, order: seq<nat>, twice: bool)
    requires |lists| > 0 && Within(order, |lists|)
    requires multiset(order) == multiset(Range(|lists|)) + if twice then multiset{0} else multiset{}
    ensures multiset(Gather(lists, order)) == multiset(Flat(lists)) + if twice then multiset(lists[0]) else multiset{}
  {
    var n := |lists|;
    GatherBag(lists, order);
    FlatBag(lists, lists, n);
    assert lists[..n] == lists;
    if twice {
      BagPermutes(lists, order, Range(n) + [0]);
      BagAppend(lists, Range(n), 0);
    } else {
      BagPermutes(lists, order, Range(n));
    }
  }

  ghost predicate TellsApart<T>(m: T -> nat, s: seq<T>) {
    forall i, j :: 0 <= i < |s| && 0 <= j < |s| && m(s[i]) == m(s[j]) ==> s[i] == s[j]
  }

  lemma TellsApartPermuted<T>(m: T -> nat, s: seq<T>, t: seq<T>)
    requires TellsApart(m, s) && multiset(s) == multiset(t)
    ensures TellsApart(m, t)
  {
    forall i, j | 0 <= i < |t| && 0 <= j < |t| && m(t[i]) == m(t[j]) ensures t[i] == t[j] {
      var i' := MultisetIndex(t, s, i);
      var j' := MultisetIndex(t, s, j);
    }
  }

  /** A sorted list with the contents of `all` and `more` is the sort of `all` exactly when there is nothing more. */
  lemma SortAgrees<T>(m: T -> nat, w: seq<T>, all: seq<T>, more: seq<T>)
    requires SortedBy(m, w) && multiset(w) == multiset(all) + multiset(more)
    requires TellsApart(m, all)
    ensures w == SortBy(m, all) <==> more == []
  {
    var s := SortBy(m, all);
    SameLength(s, all);
    SameLength(w, all + more);
    if more == [] {
      TellsApartPermuted(m, all, s);
      SortedUnique(m, s, w);
    }
  }
}
