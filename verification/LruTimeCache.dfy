/** A cache whose entries expire some time after they were last touched and whose size is bounded. */
module LruCaches {
  import opened Wrappers
  import opened Lists
  import opened Timelines

  datatype Binding<K, V> = Binding(key: K, value: V)

  /** An entry is stamped with the time it was last touched. */
  type Entry<K, V> = Stamped<Binding<K, V>>

  /** Entries in the order the linked map keeps them. */
  datatype Cache<K, V> = Cache(ttl: nat, capacity: nat, entries: seq<Entry<K, V>>)

  function ForKey<K(==), V>(k: K): Entry<K, V> -> bool {
    (e: Entry<K, V>) => e.content.key == k
  }

  function Without<K(==), V>(s: seq<Entry<K, V>>, k: K): seq<Entry<K, V>> {
    var i := Find(ForKey(k), s);
    if i < |s| then RemoveAt(s, i) else s
  }

  function Bounded<T>(capacity: nat, s: seq<T>): seq<T> {
    if |s| > capacity && s != [] then s[1..] else s
  }

  /** A binding is put last, and the first entry leaves if there are too many. */
  function Insert<K(==), V>(c: Cache<K, V>, now: int, k: K, v: V): Cache<K, V> {
    c.(entries := Bounded(c.capacity, Without(c.entries, k) + [Stamped(Binding(k, v), now)]))
  }

  function RemoveExpired<K, V>(c: Cache<K, V>, now: int): Cache<K, V> {
    c.(entries := DropOld(c.entries, now, c.ttl + 1))
  }

  /** The value under `k`, which the caller may change by `f`. */
  function GetMut<K(==), V>(c: Cache<K, V>, now: int, k: K, f: V -> V): (Cache<K, V>, Option<V>) {
    var c1 := RemoveExpired(c, now);
    var i := Find(ForKey(k), c1.entries);
    if i == |c1.entries| then (c1, None)
    else
      var v := c1.entries[i].content.value;
      (c1.(entries := RemoveAt(c1.entries, i) + [Stamped(Binding(k, f(v)), now)]), Some(v))
  }

  function Peek<K(==), V>(c: Cache<K, V>, now: int, k: K): Option<V> {
    var i := Find(ForKey(k), c.entries);
    if i < |c.entries| && c.entries[i].time + c.ttl >= now then Some(c.entries[i].content.value) else None
  }

  function Len<K, V>(c: Cache<K, V>, now: int): (Cache<K, V>, nat) {
    var c1 := RemoveExpired(c, now);
    (c1, |c1.entries|)
  }

  function Remove<K(==), V>(c: Cache<K, V>, k: K): (Cache<K, V>, Option<V>) {
    var i := Find(ForKey(k), c.entries);
    if i == |c.entries| then (c, None) else (c.(entries := RemoveAt(c.entries, i)), Some(c.entries[i].content.value))
  }

  // ----- The plain map behind the cache

  /** What is stored under each key. */
  function Contents<K(==), V>(s: seq<Entry<K, V>>): map<K, Stamped<V>> {
    if s == [] then map[]
    else
      var e := s[|s| - 1];
      Contents(s[..|s| - 1])[e.content.key := Stamped(e.content.value, e.time)]
  }

  /** The bindings not yet expired. */
  function Live<K(==), V>(m: map<K, Stamped<V>>, ttl: nat, now: int): map<K, Stamped<V>> {
    map k | k in m && m[k].time + ttl >= now :: m[k]
  }

  ghost predicate Distinct<K, V>(s: seq<Entry<K, V>>) {
    forall i, j :: 0 <= i < j < |s| ==> s[i].content.key != s[j].content.key
  }

  lemma ContentsAppend<K, V>(s: seq<Entry<K, V>>, e: Entry<K, V>)
    ensures Contents(s + [e]) == Contents(s)[e.content.key := Stamped(e.content.value, e.time)]
  {
    assert (s + [e])[..|s|] == s;
  }

  lemma {:induction false} ContentsAt<K, V>(s: seq<Entry<K, V>>, i: nat)
    requires Distinct(s) && i < |s|
    ensures s[i].content.key in Contents(s) && Contents(s)[s[i].content.key] == Stamped(s[i].content.value, s[i].time)
  {
    if i < |s| - 1 { ContentsAt(s[..|s| - 1], i); }
  }

  lemma {:induction false} ContentsFrom<K, V>(s: seq<Entry<K, V>>, k: K)
    ensures k in Contents(s) <==> Find(ForKey(k), s) < |s|
  {
    if s != [] {
      var init, e := s[..|s| - 1], s[|s| - 1];
      ContentsFrom(init, k);
      var i := Find(ForKey(k), init);
      if i < |init| { FindHit(ForKey(k), s, i); }
      if e.content.key == k { FindHit(ForKey(k), s, |s| - 1); }
      var j := Find(ForKey(k), s);
      if j < |init| { FindHit(ForKey(k), init, j); }
    }
  }

  lemma LastIsNew<K, V>(s: seq<Entry<K, V>>)
    requires Distinct(s) && s != []
    ensures Distinct(s[..|s| - 1]) && s[|s| - 1].content.key !in Contents(s[..|s| - 1])
  {
    ContentsFrom(s[..|s| - 1], s[|s| - 1].content.key);
  }

  lemma {:induction false} ContentsRemove<K, V>(s: seq<Entry<K, V>>, i: nat)
    requires Distinct(s) && i < |s|
    ensures Contents(RemoveAt(s, i)) == Contents(s) - {s[i].content.key}
    decreases |s|
  {
    var init, e := s[..|s| - 1], s[|s| - 1];
    LastIsNew(s);
    if i == |s| - 1 {
      assert RemoveAt(s, i) == init;
    } else {
      ContentsRemove(init, i);
      assert RemoveAt(s, i) == RemoveAt(init, i) + [e];
      ContentsAppend(RemoveAt(init, i), e);
    }
  }

  lemma {:induction false} ContentsSize<K, V>(s: seq<Entry<K, V>>)
    requires Distinct(s)
    ensures |Contents(s)| == |s|
  {
    if s != [] {
      LastIsNew(s);
      ContentsSize(s[..|s| - 1]);
    }
  }

  lemma LiveAdd<K, V>(m: map<K, Stamped<V>>, k: K, x: Stamped<V>, ttl: nat, now: int)
    requires k !in m
    ensures x.time + ttl >= now ==> Live(m[k := x], ttl, now) == Live(m, ttl, now)[k := x]
    ensures x.time + ttl < now ==> Live(m[k := x], ttl, now) == Live(m, ttl, now)
  {
  }

  lemma {:induction false} ContentsLive<K, V>(s: seq<Entry<K, V>>, ttl: nat, now: int)
    requires Distinct(s)
    ensures Contents(Filter(Younger(now, ttl + 1), s)) == Live(Contents(s), ttl, now)
  {
    if s != [] {
      var init, e := s[..|s| - 1], s[|s| - 1];
      LastIsNew(s);
      ContentsLive(init, ttl, now);
      LiveAdd(Contents(init), e.content.key, Stamped(e.content.value, e.time), ttl, now);
      if e.time + ttl >= now { ContentsAppend(Filter(Younger(now, ttl + 1), init), e); }
    }
  }

  lemma WithoutContents<K, V>(s: seq<Entry<K, V>>, k: K)
    requires Distinct(s)
    ensures Contents(Without(s, k)) == Contents(s) - {k}
  {
    var i := Find(ForKey(k), s);
    if i < |s| { ContentsRemove(s, i); } else { ContentsFrom(s, k); }
  }

  // ----- Reachable caches

  /** Entries are in the order their keys were last touched, given the keys touched so far. */
  ghost predicate ByRecency<K, V>(log: seq<K>, s: seq<Entry<K, V>>) {
    forall i, j :: 0 <= i < j < |s| ==> LastPosition(log, s[i].content.key) < LastPosition(log, s[j].content.key)
  }

  /** The cache is within its capacity, in order of time and in order of recency. */
  ghost predicate Sound<K, V>(c: Cache<K, V>, clock: int, log: seq<K>) {
    |c.entries| <= c.capacity && Ordered(c.entries) && Until(c.entries, clock) && ByRecency(log, c.entries)
  }

  lemma ByRecencyDistinct<K, V>(log: seq<K>, s: seq<Entry<K, V>>)
    requires ByRecency(log, s)
    ensures Distinct(s)
  {
  }

  lemma WithoutLacks<K, V>(s: seq<Entry<K, V>>, k: K, j: nat)
    requires Distinct(s) && j < |Without(s, k)|
    ensures Without(s, k)[j].content.key != k
  {
    var i := Find(ForKey(k), s);
    if i < |s| {
      assert Without(s, k)[j] == s[if j < i then j else j + 1];
    } else {
      assert !ForKey(k)(s[j]);
    }
  }

  lemma WithoutRecency<K, V>(log: seq<K>, s: seq<Entry<K, V>>, k: K)
    requires ByRecency(log, s)
    ensures ByRecency(log, Without(s, k))
  {
    var i, t := Find(ForKey(k), s), Without(s, k);
    if i < |s| { assert forall j :: 0 <= j < |t| ==> t[j] == s[if j < i then j else j + 1]; }
  }

  lemma {:induction false} FilterOfRemoved<T>(s: seq<T>, i: nat, f: T -> bool)
    requires i < |s| && (forall j :: 0 <= j < |s| ==> (f(s[j]) <==> j != i))
    ensures RemoveAt(s, i) == Filter(f, s)
    decreases |s|
  {
    var init := s[..|s| - 1];
    if i == |s| - 1 {
      FilterAll(f, init);
      assert RemoveAt(s, i) == init;
    } else {
      FilterOfRemoved(init, i, f);
      assert RemoveAt(s, i) == RemoveAt(init, i) + [s[|s| - 1]];
    }
  }

  lemma WithoutOrdered<K, V>(s: seq<Entry<K, V>>, k: K, clock: int)
    requires Distinct(s) && Ordered(s) && Until(s, clock)
    ensures Ordered(Without(s, k)) && Until(Without(s, k), clock)
  {
    var i := Find(ForKey(k), s);
    if i < |s| {
      FilterOfRemoved(s, i, Not(ForKey(k)));
      OrderedFilter(Not(ForKey(k)), s);
      UntilFilter(Not(ForKey(k)), s, clock);
    }
  }

  /** Touching `k` puts its entry last in every order. */
  lemma TouchKeeps<K, V>(log: seq<K>, s: seq<Entry<K, V>>, clock: int, e: Entry<K, V>)
    requires Ordered(s) && Until(s, clock) && ByRecency(log, s) && clock <= e.time
    requires forall j :: 0 <= j < |s| ==> s[j].content.key != e.content.key
    ensures Ordered(s + [e]) && Until(s + [e], e.time) && ByRecency(log + [e.content.key], s + [e])
  {
    UntilLater(s, clock, e.time);
    OrderedAppend(s, e);
    UntilAppend(s, e, e.time);
    var t, log' := s + [e], log + [e.content.key];
    forall i, j | 0 <= i < j < |t| ensures LastPosition(log', t[i].content.key) < LastPosition(log', t[j].content.key) {
      LastPositionAppend(log, e.content.key, t[i].content.key);
      LastPositionAppend(log, e.content.key, t[j].content.key);
      LastPositionBound(log, t[i].content.key);
    }
  }

  lemma TailKeeps<K, V>(log: seq<K>, s: seq<Entry<K, V>>, clock: int)
    requires Ordered(s) && Until(s, clock) && ByRecency(log, s) && s != []
    ensures Ordered(s[1..]) && Until(s[1..], clock) && ByRecency(log, s[1..])
  {
    OrderedTail(s);
    UntilTail(s, clock);
  }

  lemma {:induction false} DropKeeps<K, V>(log: seq<K>, s: seq<Entry<K, V>>, clock: int, now: int, age: nat)
    requires Ordered(s) && Until(s, clock) && ByRecency(log, s)
    ensures var t := DropOld(s, now, age);
            Ordered(t) && Until(t, clock) && ByRecency(log, t) && |t| <= |s|
    decreases |s|
  {
    if s != [] && s[0].time <= now - age {
      TailKeeps(log, s, clock);
      DropKeeps(log, s[1..], clock, now, age);
    }
  }

  lemma InsertKeeps<K, V>(c: Cache<K, V>, clock: int, log: seq<K>, now: int, k: K, v: V)
    requires Sound(c, clock, log) && clock <= now
    ensures Sound(Insert(c, now, k, v), now, log + [k])
  {
    var s, e := Without(c.entries, k), Stamped(Binding(k, v), now);
    ByRecencyDistinct(log, c.entries);
    WithoutRecency(log, c.entries, k);
    WithoutOrdered(c.entries, k, clock);
    forall j | 0 <= j < |s| ensures s[j].content.key != k { WithoutLacks(c.entries, k, j); }
    TouchKeeps(log, s, clock, e);
    TailKeeps(log + [k], s + [e], now);
  }

  lemma GetMutKeeps<K, V>(c: Cache<K, V>, clock: int, log: seq<K>, now: int, k: K, f: V -> V)
    requires Sound(c, clock, log) && clock <= now
    ensures var (c', r) := GetMut(c, now, k, f);
            Sound(c', now, if r.Some? then log + [k] else log)
  {
    var c1 := RemoveExpired(c, now);
    DropKeeps(log, c.entries, clock, now, c.ttl + 1);
    UntilLater(c1.entries, clock, now);
    var i := Find(ForKey(k), c1.entries);
    if i < |c1.entries| {
      var s := Without(c1.entries, k);
      ByRecencyDistinct(log, c1.entries);
      WithoutRecency(log, c1.entries, k);
      WithoutOrdered(c1.entries, k, clock);
      forall j | 0 <= j < |s| ensures s[j].content.key != k { WithoutLacks(c1.entries, k, j); }
      TouchKeeps(log, s, clock, Stamped(Binding(k, f(c1.entries[i].content.value)), now));
    }
  }

  lemma RemoveKeeps<K, V>(c: Cache<K, V>, clock: int, log: seq<K>, k: K)
    requires Sound(c, clock, log)
    ensures Sound(Remove(c, k).0, clock, log)
  {
    ByRecencyDistinct(log, c.entries);
    WithoutRecency(log, c.entries, k);
    WithoutOrdered(c.entries, k, clock);
  }

  lemma LenKeeps<K, V>(c: Cache<K, V>, clock: int, log: seq<K>, now: int)
    requires Sound(c, clock, log) && clock <= now
    ensures Sound(Len(c, now).0, now, log)
  {
    DropKeeps(log, c.entries, clock, now, c.ttl + 1);
    UntilLater(DropOld(c.entries, now, c.ttl + 1), clock, now);
  }

  // ----- Runs

  datatype Op<K, !V> =
    | Put(now: int, key: K, value: V)
    | Fetch(now: int, key: K, change: V -> V)
    | Size(now: int)
    | Drop(key: K)

  /** The cache, the time of the last operation and the keys touched so far. */
  datatype Track<K, V> = Track(cache: Cache<K, V>, clock: int, log: seq<K>)

  function Step<K(==), V>(s: Track<K, V>, op: Op<K, V>): Track<K, V> {
    match op
    case Put(now, k, v) => Track(Insert(s.cache, now, k, v), now, s.log + [k])
    case Fetch(now, k, f) =>
      var (c, r) := GetMut(s.cache, now, k, f);
      Track(c, now, if r.Some? then s.log + [k] else s.log)
    case Size(now) => s.(cache := Len(s.cache, now).0, clock := now)
    case Drop(k) => s.(cache := Remove(s.cache, k).0)
  }

  function Run<K(==), V>(ttl: nat, capacity: nat, start: int, ops: seq<Op<K, V>>): Track<K, V> {
    if ops == [] then Track(Cache(ttl, capacity, []), start, [])
    else Step(Run(ttl, capacity, start, ops[..|ops| - 1]), ops[|ops| - 1])
  }

  ghost predicate Timely<K, V>(ttl: nat, capacity: nat, start: int, ops: seq<Op<K, V>>) {
    ops == [] ||
    (Timely(ttl, capacity, start, ops[..|ops| - 1]) &&
     (!ops[|ops| - 1].Drop? ==> Run(ttl, capacity, start, ops[..|ops| - 1]).clock <= ops[|ops| - 1].now))
  }

  /** In any run the cache stays within capacity, in order of time and in order of recency. */
  lemma {:induction false} RunKeeps<K, V>(ttl: nat, capacity: nat, start: int, ops: seq<Op<K, V>>)
    requires Timely(ttl, capacity, start, ops)
    ensures var s := Run(ttl, capacity, start, ops);
            s.cache.ttl == ttl && s.cache.capacity == capacity && Sound(s.cache, s.clock, s.log)
  {
    if ops != [] {
      var s, op := Run(ttl, capacity, start, ops[..|ops| - 1]), ops[|ops| - 1];
      RunKeeps(ttl, capacity, start, ops[..|ops| - 1]);
      match op
      case Put(now, k, v) => InsertKeeps(s.cache, s.clock, s.log, now, k, v);
      case Fetch(now, k, f) => GetMutKeeps(s.cache, s.clock, s.log, now, k, f);
      case Size(now) => LenKeeps(s.cache, s.clock, s.log, now);
      case Drop(k) => RemoveKeeps(s.cache, s.clock, s.log, k);
    }
  }

  // ----- Agreement with the plain map

  /** Stopping at the first live entry removes exactly the expired ones. */
  lemma ExpiryIsExact<K, V>(c: Cache<K, V>, clock: int, log: seq<K>, now: int)
    requires Sound(c, clock, log)
    ensures Contents(RemoveExpired(c, now).entries) == Live(Contents(c.entries), c.ttl, now)
    ensures Distinct(RemoveExpired(c, now).entries)
  {
    ByRecencyDistinct(log, c.entries);
    DropOldFilters(c.entries, now, c.ttl + 1);
    ContentsLive(c.entries, c.ttl, now);
    DropKeeps(log, c.entries, clock, now, c.ttl + 1);
    ByRecencyDistinct(log, RemoveExpired(c, now).entries);
  }

  lemma GetMutAgrees<K, V>(c: Cache<K, V>, clock: int, log: seq<K>, now: int, k: K, f: V -> V)
    requires Sound(c, clock, log)
    ensures var (c', r) := GetMut(c, now, k, f);
            var live := Live(Contents(c.entries), c.ttl, now);
            && r == (if k in live then Some(live[k].content) else None)
            && Contents(c'.entries) == if k in live then live[k := Stamped(f(live[k].content), now)] else live
  {
    var s := RemoveExpired(c, now).entries;
    ExpiryIsExact(c, clock, log, now);
    ContentsFrom(s, k);
    var i := Find(ForKey(k), s);
    if i < |s| {
      ContentsAt(s, i);
      ContentsRemove(s, i);
      ContentsAppend(RemoveAt(s, i), Stamped(Binding(k, f(s[i].content.value)), now));
    }
  }

  lemma PeekAgrees<K, V>(c: Cache<K, V>, clock: int, log: seq<K>, now: int, k: K)
    requires Sound(c, clock, log)
    ensures var live := Live(Contents(c.entries), c.ttl, now);
            Peek(c, now, k) == if k in live then Some(live[k].content) else None
  {
    ByRecencyDistinct(log, c.entries);
    ContentsFrom(c.entries, k);
    var i := Find(ForKey(k), c.entries);
    if i < |c.entries| { ContentsAt(c.entries, i); }
  }

  lemma LenAgrees<K, V>(c: Cache<K, V>, clock: int, log: seq<K>, now: int)
    requires Sound(c, clock, log)
    ensures Len(c, now).1 == |Live(Contents(c.entries), c.ttl, now)|
    ensures Contents(Len(c, now).0.entries) == Live(Contents(c.entries), c.ttl, now)
  {
    ExpiryIsExact(c, clock, log, now);
    ContentsSize(RemoveExpired(c, now).entries);
  }

  lemma RemoveAgrees<K, V>(c: Cache<K, V>, clock: int, log: seq<K>, k: K)
    requires Sound(c, clock, log)
    ensures var (c', r) := Remove(c, k);
            var m := Contents(c.entries);
            Contents(c'.entries) == m - {k} && r == if k in m then Some(m[k].content) else None
  {
    ByRecencyDistinct(log, c.entries);
    WithoutContents(c.entries, k);
    ContentsFrom(c.entries, k);
    var i := Find(ForKey(k), c.entries);
    if i < |c.entries| { ContentsAt(c.entries, i); }
  }

  /** Inserting stores the binding; when that is one too many, the key that leaves was touched before all others
      stored. */
  lemma InsertAgrees<K(!new), V>(c: Cache<K, V>, clock: int, log: seq<K>, now: int, k: K, v: V)
    requires Sound(c, clock, log) && clock <= now
    ensures var m := Contents(c.entries)[k := Stamped(v, now)];
            var m' := Contents(Insert(c, now, k, v).entries);
            if |m| <= c.capacity then m' == m
            else exists oldest :: oldest in m && m' == m - {oldest} && LeastRecent(log + [k], m, oldest)
  {
    var s, e := Without(c.entries, k), Stamped(Binding(k, v), now);
    var all := s + [e];
    ByRecencyDistinct(log, c.entries);
    WithoutContents(c.entries, k);
    ContentsAppend(s, e);
    var m := Contents(c.entries)[k := Stamped(v, now)];
    assert Contents(all) == m by { assert (Contents(c.entries) - {k})[k := Stamped(v, now)] == m; }
    WithoutRecency(log, c.entries, k);
    WithoutOrdered(c.entries, k, clock);
    forall j | 0 <= j < |s| ensures s[j].content.key != k { WithoutLacks(c.entries, k, j); }
    TouchKeeps(log, s, clock, e);
    ByRecencyDistinct(log + [k], all);
    ContentsSize(all);
    if |all| > c.capacity { FirstIsLeastRecent(log + [k], all); }
  }

  ghost predicate LeastRecent<K(!new), V>(log: seq<K>, m: map<K, V>, oldest: K) {
    forall x :: x in m && x != oldest ==> LastPosition(log, oldest) < LastPosition(log, x)
  }

  lemma FirstIsLeastRecent<K(!new), V>(log: seq<K>, s: seq<Entry<K, V>>)
    requires ByRecency(log, s) && s != []
    ensures var oldest := s[0].content.key;
            oldest in Contents(s) && Contents(s[1..]) == Contents(s) - {oldest} && LeastRecent(log, Contents(s), oldest)
  {
    var oldest := s[0].content.key;
    ByRecencyDistinct(log, s);
    ContentsAt(s, 0);
    ContentsRemove(s, 0);
    assert RemoveAt(s, 0) == s[1..];
    forall x | x in Contents(s) && x != oldest ensures LastPosition(log, oldest) < LastPosition(log, x) {
      ContentsFrom(s, x);
    }
  }

  // ----- The class

  class LruTimeCache<K(==), V> {
    const ttl: nat
    const capacity: nat
    var entries: seq<Entry<K, V>>

    ghost function State(): Cache<K, V>
      reads this
    {
      Cache(ttl, capacity, entries)
    }

    constructor (ttl: nat, capacity: nat)
      ensures State() == Cache(ttl, capacity, [])
    {
      this.ttl, this.capacity, entries := ttl, capacity, [];
    }

    method Store(now: int, k: K, v: V)
      modifies this
      ensures State() == Insert(old(State()), now, k, v)
    {
      entries := Without(entries, k) + [Stamped(Binding(k, v), now)];
      if |entries| > capacity {
        entries := entries[1..];
      }
    }

    /** The keys of the entries before the first live one. */
    method ExpiredKeys(now: int) returns (keys: seq<K>)
      ensures |keys| <= |entries| && DropOld(entries, now, ttl + 1) == entries[|keys|..]
      ensures forall j :: 0 <= j < |keys| ==> keys[j] == entries[j].content.key
    {
      keys := [];
      assert entries[0..] == entries;
      for i := 0 to |entries|
        invariant |keys| == i && forall j :: 0 <= j < i ==> keys[j] == entries[j].content.key
        invariant DropOld(entries[i..], now, ttl + 1) == DropOld(entries, now, ttl + 1)
      {
        DropNext(entries, i, now, ttl + 1);
        if entries[i].time + ttl >= now {
          return;
        }
        keys := keys + [entries[i].content.key];
      }
    }

    method ExpireOld(now: int)
      modifies this
      ensures State() == RemoveExpired(old(State()), now)
    {
      var expired := ExpiredKeys(now);
      ghost var all := entries;
      assert all[0..] == all;
      for i := 0 to |expired|
        invariant entries == all[i..]
      {
        FrontLeaves(all, i);
        entries := Without(entries, expired[i]);
      }
    }

    method Access(now: int, k: K, f: V -> V) returns (r: Option<V>)
      modifies this
      ensures (State(), r) == GetMut(old(State()), now, k, f)
    {
      ExpireOld(now);
      var i := Find(ForKey(k), entries);
      if i == |entries| {
        return None;
      }
      var v := entries[i].content.value;
      entries := RemoveAt(entries, i) + [Stamped(Binding(k, f(v)), now)];
      return Some(v);
    }

    method Inspect(now: int, k: K) returns (r: Option<V>)
      ensures r == Peek(State(), now, k)
    {
      var i := Find(ForKey(k), entries);
      if i < |entries| {
        return if entries[i].time + ttl >= now then Some(entries[i].content.value) else None;
      }
      return None;
    }

    method Count(now: int) returns (n: nat)
      modifies this
      ensures (State(), n) == Len(old(State()), now)
    {
      ExpireOld(now);
      return |entries|;
    }

    method Discard(k: K) returns (r: Option<V>)
      modifies this
      ensures (State(), r) == Remove(old(State()), k)
    {
      var i := Find(ForKey(k), entries);
      if i == |entries| {
        return None;
      }
      r := Some(entries[i].content.value);
      entries := RemoveAt(entries, i);
    }
  }

  lemma DropNext<K, V>(s: seq<Entry<K, V>>, i: nat, now: int, age: nat)
    requires i < |s|
    ensures DropOld(s[i..], now, age) == if s[i].time <= now - age then DropOld(s[i + 1..], now, age) else s[i..]
  {
    assert s[i..][1..] == s[i + 1..];
  }

  lemma FrontLeaves<K, V>(s: seq<Entry<K, V>>, i: nat)
    requires i < |s|
    ensures Without(s[i..], s[i].content.key) == s[i + 1..]
  {
    FindUnique(ForKey(s[i].content.key), s[i..], 0);
  }
}
