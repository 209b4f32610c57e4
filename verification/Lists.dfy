/** Counting, filtering and searching in lists. */
module Lists {

  function CountIf<T>(f: T -> bool, s: seq<T>): nat {
    if s == [] then 0 else CountIf(f, s[..|s| - 1]) + if f(s[|s| - 1]) then 1 else 0
  }

  /** The elements that satisfy `f`, in order. */
  function Filter<T>(f: T -> bool, s: seq<T>): seq<T> {
    if s == [] then []
    else if f(s[|s| - 1]) then Filter(f, s[..|s| - 1]) + [s[|s| - 1]]
    else Filter(f, s[..|s| - 1])
  }

  function Not<T>(f: T -> bool): T -> bool {
    x => !f(x)
  }

  /** Position of the first element that satisfies `f`, or the length. */
  function Find<T>(f: T -> bool, s: seq<T>): (i: nat)
    ensures i <= |s|
    ensures i < |s| ==> f(s[i])
    ensures forall j :: 0 <= j < i ==> !f(s[j])
  {
    if s == [] then 0 else if f(s[0]) then 0 else 1 + Find(f, s[1..])
  }

  function RemoveAt<T>(s: seq<T>, i: nat): seq<T>
    requires i < |s|
  {
    s[..i] + s[i + 1..]
  }

  lemma RemoveAtInit<T>(s: seq<T>, i: nat)
    requires i < |s|
    ensures i == |s| - 1 ==> RemoveAt(s, i) == s[..|s| - 1]
    ensures i < |s| - 1 ==> RemoveAt(s, i) == RemoveAt(s[..|s| - 1], i) + [s[|s| - 1]]
  {
    var n := |s| - 1;
    if i < n {
      assert s[..n][..i] == s[..i];
      assert s[i + 1..] == s[..n][i + 1..] + [s[n]];
    }
  }

  /** One more than the last position of `x` in `s`, or 0. */
  function LastPosition<T(==)>(s: seq<T>, x: T): nat {
    if s == [] then 0 else if s[|s| - 1] == x then |s| else LastPosition(s[..|s| - 1], x)
  }

  lemma LastPositionAppend<T>(s: seq<T>, y: T, x: T)
    ensures LastPosition(s + [y], x) == if x == y then |s| + 1 else LastPosition(s, x)
  {
    assert (s + [y])[..|s|] == s;
  }

  lemma {:induction false} LastPositionBound<T>(s: seq<T>, x: T)
    ensures LastPosition(s, x) <= |s|
  {
    if s != [] { LastPositionBound(s[..|s| - 1], x); }
  }

  lemma {:induction false} CountConcat<T>(f: T -> bool, a: seq<T>, b: seq<T>)
    ensures CountIf(f, a + b) == CountIf(f, a) + CountIf(f, b)
  {
    if b == [] {
      assert a + b == a;
    } else {
      assert (a + b)[..|a + b| - 1] == a + b[..|b| - 1];
      CountConcat(f, a, b[..|b| - 1]);
    }
  }

  lemma CountAppend<T>(f: T -> bool, a: seq<T>, x: T)
    ensures CountIf(f, a + [x]) == CountIf(f, a) + if f(x) then 1 else 0
  {
    assert (a + [x])[..|a|] == a;
  }

  lemma CountRemoveAt<T>(f: T -> bool, s: seq<T>, i: nat)
    requires i < |s|
    ensures CountIf(f, RemoveAt(s, i)) == CountIf(f, s) - if f(s[i]) then 1 else 0
    ensures f(s[i]) ==> CountIf(f, s) >= 1
  {
    assert s == (s[..i] + [s[i]]) + s[i + 1..];
    CountConcat(f, s[..i] + [s[i]], s[i + 1..]);
    CountAppend(f, s[..i], s[i]);
    CountConcat(f, s[..i], s[i + 1..]);
  }

  lemma CountUpdate<T>(f: T -> bool, s: seq<T>, i: nat, x: T)
    requires i < |s|
    ensures CountIf(f, s[i := x]) == CountIf(f, s) - (if f(s[i]) then 1 else 0) + if f(x) then 1 else 0
  {
    CountRemoveAt(f, s, i);
    CountRemoveAt(f, s[i := x], i);
    assert RemoveAt(s, i) == RemoveAt(s[i := x], i);
  }

  /** Splitting a list by `g` splits every count. */
  lemma {:induction false} CountSplit<T>(f: T -> bool, g: T -> bool, s: seq<T>)
    ensures CountIf(f, s) == CountIf(f, Filter(g, s)) + CountIf(f, Filter(Not(g), s))
  {
    if s != [] {
      var init, x := s[..|s| - 1], s[|s| - 1];
      CountSplit(f, g, init);
      CountAppend(f, Filter(g, init), x);
      CountAppend(f, Filter(Not(g), init), x);
      if g(x) {
        assert Filter(Not(g), s) == Filter(Not(g), init);
      } else {
        assert Filter(g, s) == Filter(g, init);
      }
    }
  }

  lemma {:induction false} CountAll<T>(f: T -> bool, s: seq<T>)
    requires forall i :: 0 <= i < |s| ==> f(s[i])
    ensures CountIf(f, s) == |s|
  {
    if s != [] { CountAll(f, s[..|s| - 1]); }
  }

  lemma {:induction false} CountNone<T>(f: T -> bool, s: seq<T>)
    requires forall i :: 0 <= i < |s| ==> !f(s[i])
    ensures CountIf(f, s) == 0
  {
    if s != [] { CountNone(f, s[..|s| - 1]); }
  }

  lemma {:induction false} CountLess<T>(f: T -> bool, g: T -> bool, s: seq<T>)
    requires forall i :: 0 <= i < |s| && f(s[i]) ==> g(s[i])
    ensures CountIf(f, s) <= CountIf(g, s)
  {
    if s != [] { CountLess(f, g, s[..|s| - 1]); }
  }

  lemma {:induction false} CountPositive<T>(f: T -> bool, s: seq<T>)
    ensures CountIf(f, s) > 0 <==> Find(f, s) < |s|
  {
    if Find(f, s) < |s| {
      CountRemoveAt(f, s, Find(f, s));
    } else {
      CountNone(f, s);
    }
  }

  lemma FilterAppend<T>(f: T -> bool, s: seq<T>, x: T)
    ensures Filter(f, s + [x]) == if f(x) then Filter(f, s) + [x] else Filter(f, s)
  {
    assert (s + [x])[..|s|] == s;
  }

  lemma {:induction false} FilterConcat<T>(f: T -> bool, a: seq<T>, b: seq<T>)
    ensures Filter(f, a + b) == Filter(f, a) + Filter(f, b)
  {
    if b == [] {
      assert a + b == a;
    } else {
      assert (a + b)[..|a + b| - 1] == a + b[..|b| - 1];
      FilterConcat(f, a, b[..|b| - 1]);
    }
  }

  lemma {:induction false} FilterCount<T>(f: T -> bool, s: seq<T>)
    ensures |Filter(f, s)| == CountIf(f, s)
  {
    if s != [] { FilterCount(f, s[..|s| - 1]); }
  }

  /** Where each filtered element comes from. */
  lemma {:induction false} FilterAt<T>(f: T -> bool, s: seq<T>, k: nat) returns (i: nat)
    requires k < |Filter(f, s)|
    ensures i < |s| && f(s[i]) && s[i] == Filter(f, s)[k] && |Filter(f, s[..i])| == k
    decreases |s|
  {
    var init := s[..|s| - 1];
    if k < |Filter(f, init)| {
      i := FilterAt(f, init, k);
      assert init[..i] == s[..i];
    } else {
      i := |s| - 1;
    }
  }

  /** Where each kept element goes. */
  lemma {:induction false} FilterHas<T>(f: T -> bool, s: seq<T>, i: nat) returns (j: nat)
    requires i < |s| && f(s[i])
    ensures j < |Filter(f, s)| && Filter(f, s)[j] == s[i]
    decreases |s|
  {
    if i == |s| - 1 {
      j := |Filter(f, s)| - 1;
    } else {
      j := FilterHas(f, s[..|s| - 1], i);
    }
  }

  /** `kept` are the elements of `s` at the positions in `at`, in order. */
  ghost predicate Picks<T>(s: seq<T>, kept: seq<T>, at: seq<nat>) {
    && |at| == |kept|
    && (forall j :: 0 <= j < |at| ==> at[j] < |s| && kept[j] == s[at[j]])
    && (forall i, j :: 0 <= i < j < |at| ==> at[i] < at[j])
  }

  /** The positions of the filtered elements are all those that satisfy the test. */
  lemma {:induction false} FilterPicks<T>(f: T -> bool, s: seq<T>) returns (at: seq<nat>)
    ensures Picks(s, Filter(f, s), at)
    ensures forall i :: 0 <= i < |s| ==> (i in at <==> f(s[i]))
    decreases |s|
  {
    if s == [] {
      at := [];
    } else {
      var n := |s| - 1;
      at := FilterPicks(f, s[..n]);
      PickOneMore(f, s, Filter(f, s[..n]), at);
      if f(s[n]) {
        at := at + [n];
      }
    }
  }

  lemma PickOneMore<T>(f: T -> bool, s: seq<T>, kept: seq<T>, at: seq<nat>)
    requires s != [] && Picks(s[..|s| - 1], kept, at)
    requires forall i :: 0 <= i < |s| - 1 ==> (i in at <==> f(s[..|s| - 1][i]))
    ensures var n := |s| - 1;
            && Picks(s, kept, at) && Picks(s, kept + [s[n]], at + [n])
            && (forall i :: 0 <= i < n ==> (i in at <==> f(s[i]))) && n !in at
            && (forall i :: 0 <= i < |s| ==> (i in at + [n] <==> i == n || f(s[i])))
  {
    var n := |s| - 1;
    assert forall i :: 0 <= i < n ==> s[..n][i] == s[i];
  }

  lemma FindHit<T>(f: T -> bool, s: seq<T>, i: nat)
    requires i < |s| && f(s[i])
    ensures Find(f, s) <= i
  {
  }

  lemma FindUnique<T>(f: T -> bool, s: seq<T>, k: nat)
    requires k < |s| && f(s[k]) && forall j :: 0 <= j < k ==> !f(s[j])
    ensures Find(f, s) == k
  {
  }
}
