/** Items stamped with the time they came in, kept in that order. */
module Timelines {
  import opened Lists

  datatype Stamped<T> = Stamped(content: T, time: int)

  /** Whether an item came less than `age` before `now`. */
  function Younger<T>(now: int, age: nat): Stamped<T> -> bool {
    (p: Stamped<T>) => p.time > now - age
  }

  /** Items are dropped from the front until one is young enough. */
  function DropOld<T>(s: seq<Stamped<T>>, now: int, age: nat): seq<Stamped<T>> {
    if s != [] && s[0].time <= now - age then DropOld(s[1..], now, age) else s
  }

  /** Items are counted from the back until one is too old. */
  function CountBack<T>(s: seq<Stamped<T>>, now: int, age: nat): nat {
    if s != [] && s[|s| - 1].time > now - age then 1 + CountBack(s[..|s| - 1], now, age) else 0
  }

  // ----- Stopping early equals looking at everything

  /** Every item came no later than `time`. */
  ghost predicate Until<T>(s: seq<Stamped<T>>, time: int) {
    s == [] || (Until(s[..|s| - 1], time) && s[|s| - 1].time <= time)
  }

  /** Items are in order of time. */
  ghost predicate Ordered<T>(s: seq<Stamped<T>>) {
    s == [] || (Ordered(s[..|s| - 1]) && Until(s[..|s| - 1], s[|s| - 1].time))
  }

  lemma {:induction false} UntilAt<T>(s: seq<Stamped<T>>, time: int, i: nat)
    requires Until(s, time) && i < |s|
    ensures s[i].time <= time
  {
    if i < |s| - 1 { UntilAt(s[..|s| - 1], time, i); }
  }

  lemma {:induction false} UntilLater<T>(s: seq<Stamped<T>>, time: int, later: int)
    requires Until(s, time) && time <= later
    ensures Until(s, later)
  {
    if s != [] { UntilLater(s[..|s| - 1], time, later); }
  }

  lemma {:induction false} OrderedAt<T>(s: seq<Stamped<T>>, i: nat, j: nat)
    requires Ordered(s) && i < j < |s|
    ensures s[i].time <= s[j].time
  {
    if j < |s| - 1 { OrderedAt(s[..|s| - 1], i, j); } else { UntilAt(s[..|s| - 1], s[j].time, i); }
  }

  lemma {:induction false} UntilTail<T>(s: seq<Stamped<T>>, time: int)
    requires Until(s, time) && s != []
    ensures Until(s[1..], time)
  {
    if |s| > 1 {
      UntilTail(s[..|s| - 1], time);
      assert s[1..][..|s| - 2] == s[..|s| - 1][1..];
    }
  }

  lemma {:induction false} OrderedTail<T>(s: seq<Stamped<T>>)
    requires Ordered(s) && s != []
    ensures Ordered(s[1..])
  {
    if |s| > 1 {
      OrderedTail(s[..|s| - 1]);
      UntilTail(s[..|s| - 1], s[|s| - 1].time);
      assert s[1..][..|s| - 2] == s[..|s| - 1][1..];
    }
  }

  lemma {:induction false} UntilFilter<T>(f: Stamped<T> -> bool, s: seq<Stamped<T>>, time: int)
    requires Until(s, time)
    ensures Until(Filter(f, s), time)
  {
    if s != [] {
      UntilFilter(f, s[..|s| - 1], time);
      UntilAppend(Filter(f, s[..|s| - 1]), s[|s| - 1], time);
    }
  }

  lemma UntilAppend<T>(s: seq<Stamped<T>>, p: Stamped<T>, time: int)
    requires Until(s, time) && p.time <= time
    ensures Until(s + [p], time)
  {
    assert (s + [p])[..|s|] == s;
  }

  lemma OrderedAppend<T>(s: seq<Stamped<T>>, p: Stamped<T>)
    requires Ordered(s) && Until(s, p.time)
    ensures Ordered(s + [p])
  {
    assert (s + [p])[..|s|] == s;
  }

  lemma {:induction false} OrderedFilter<T>(f: Stamped<T> -> bool, s: seq<Stamped<T>>)
    requires Ordered(s)
    ensures Ordered(Filter(f, s))
  {
    if s != [] {
      OrderedFilter(f, s[..|s| - 1]);
      UntilFilter(f, s[..|s| - 1], s[|s| - 1].time);
      OrderedAppend(Filter(f, s[..|s| - 1]), s[|s| - 1]);
    }
  }

  lemma {:induction false} FilterAll<T>(f: T -> bool, s: seq<T>)
    requires forall i :: 0 <= i < |s| ==> f(s[i])
    ensures Filter(f, s) == s
  {
    if s != [] { FilterAll(f, s[..|s| - 1]); }
  }

  /** On ordered items, dropping from the front until one is young enough drops exactly the old ones. */
  lemma {:induction false} DropOldFilters<T>(s: seq<Stamped<T>>, now: int, age: nat)
    requires Ordered(s)
    ensures DropOld(s, now, age) == Filter(Younger(now, age), s)
  {
    if s != [] && s[0].time <= now - age {
      OrderedTail(s);
      DropOldFilters(s[1..], now, age);
      assert s == [s[0]] + s[1..];
      FilterConcat(Younger(now, age), [s[0]], s[1..]);
      assert Filter(Younger(now, age), [s[0]]) == [] by { assert [s[0]][..0] == []; }
    } else {
      forall i | 0 <= i < |s| ensures s[i].time > now - age {
        if i > 0 { OrderedAt(s, 0, i); }
      }
      FilterAll(Younger(now, age), s);
    }
  }

  /** On ordered items, counting from the back until one is too old counts exactly the young ones. */
  lemma {:induction false} CountBackCounts<T>(s: seq<Stamped<T>>, now: int, age: nat)
    requires Ordered(s)
    ensures CountBack(s, now, age) == CountIf(Younger(now, age), s)
  {
    if s != [] {
      if s[|s| - 1].time > now - age {
        CountBackCounts(s[..|s| - 1], now, age);
      } else {
        forall i | 0 <= i < |s| ensures s[i].time <= now - age {
          if i < |s| - 1 { OrderedAt(s, i, |s| - 1); }
        }
        CountNone(Younger(now, age), s);
      }
    }
  }

  /** Filtering by the weaker condition first changes nothing. */
  lemma {:induction false} FilterTwice<T>(f: T -> bool, g: T -> bool, s: seq<T>)
    requires forall i :: 0 <= i < |s| && g(s[i]) ==> f(s[i])
    ensures Filter(g, Filter(f, s)) == Filter(g, s)
  {
    if s != [] {
      var init, x := s[..|s| - 1], s[|s| - 1];
      FilterTwice(f, g, init);
      if f(x) { FilterAppend(g, Filter(f, init), x); }
    }
  }

  lemma CountFiltered<T>(f: T -> bool, g: T -> bool, s: seq<T>)
    requires forall i :: 0 <= i < |s| && g(s[i]) ==> f(s[i])
    ensures CountIf(g, Filter(f, s)) == CountIf(g, s)
  {
    FilterTwice(f, g, s);
    FilterCount(g, Filter(f, s));
    FilterCount(g, s);
  }
}
