/** A time-ordered cache of received packets that bounds how many are accepted per second. */
module PacketCaches {
  import opened Lists
  import opened Timelines

  /** Nanoseconds in the enforced time. */
  const SECOND: nat := 1_000_000_000

  /** At most `target` packets per second are accepted; packets are kept for the time `span`. */
  datatype Cache<T> = Cache(target: nat, span: nat, within: nat, inner: seq<Stamped<T>>)

  function Reset<T>(c: Cache<T>, now: int): Cache<T> {
    var inner := DropOld(c.inner, now, c.span);
    c.(inner := inner, within := CountBack(inner, now, SECOND))
  }

  function Insert<T>(c: Cache<T>, now: int, content: T): (Cache<T>, bool) {
    var c1 := Reset(c, now);
    if c1.within >= c1.target then (c1, false)
    else (c1.(inner := c1.inner + [Stamped(content, now)], within := c1.within + 1), true)
  }

  // ----- Runs

  datatype Op<T> = Put(now: int, content: T) | Clean(now: int)

  /** The cache, the time of the last operation, and every packet accepted so far. */
  datatype Track<T> = Track(cache: Cache<T>, clock: int, accepted: seq<Stamped<T>>)

  function Step<T>(s: Track<T>, op: Op<T>): Track<T> {
    match op
    case Put(now, content) =>
      var (c, ok) := Insert(s.cache, now, content);
      Track(c, now, if ok then s.accepted + [Stamped(content, now)] else s.accepted)
    case Clean(now) => s.(cache := Reset(s.cache, now), clock := now)
  }

  function Run<T>(target: nat, span: nat, start: int, ops: seq<Op<T>>): Track<T> {
    if ops == [] then Track(Cache(target, span, 0, []), start, [])
    else Step(Run(target, span, start, ops[..|ops| - 1]), ops[|ops| - 1])
  }

  ghost predicate Timely<T>(start: int, ops: seq<Op<T>>) {
    && (forall i :: 0 <= i < |ops| ==> start <= ops[i].now)
    && (forall i, j :: 0 <= i < j < |ops| ==> ops[i].now <= ops[j].now)
  }

  /** Whether a packet came in the time `length` that ends at `high`, open at its start. */
  function During<T>(high: int, length: nat): Stamped<T> -> bool {
    (p: Stamped<T>) => high - length < p.time <= high
  }

  /** No more than `target` packets were accepted in the second that ends at `high`. */
  ghost predicate Limited<T>(target: nat, accepted: seq<Stamped<T>>, high: int) {
    CountIf(During(high, SECOND), accepted) <= target
  }

  /** The cache holds exactly what was accepted within its span and counts what was accepted in the last second. */
  ghost predicate Mirrors<T>(c: Cache<T>, accepted: seq<Stamped<T>>, clock: int) {
    c.inner == Filter(Younger(clock, c.span), accepted) && c.within == CountIf(Younger(clock, SECOND), c.inner)
  }

  ghost predicate Past<T>(accepted: seq<Stamped<T>>, clock: int) {
    Ordered(accepted) && Until(accepted, clock)
  }

  ghost predicate TrackInv<T>(target: nat, span: nat, s: Track<T>) {
    s.cache.target == target && s.cache.span == span && Past(s.accepted, s.clock) &&
      Mirrors(s.cache, s.accepted, s.clock)
  }

  /** Cleaning, stopping early both times, leaves exactly the packets within the span and counts exactly those of the
      last second. */
  lemma ResetIsExact<T>(c: Cache<T>, accepted: seq<Stamped<T>>, clock: int, now: int)
    requires Ordered(accepted) && Mirrors(c, accepted, clock) && clock <= now && c.span >= SECOND
    ensures Mirrors(Reset(c, now), accepted, now)
    ensures Reset(c, now).within == CountIf(Younger(now, SECOND), accepted)
  {
    OrderedFilter(Younger(clock, c.span), accepted);
    DropOldFilters(c.inner, now, c.span);
    FilterTwice(Younger(clock, c.span), Younger(now, c.span), accepted);
    OrderedFilter(Younger(now, c.span), accepted);
    CountBackCounts(Filter(Younger(now, c.span), accepted), now, SECOND);
    CountFiltered(Younger(now, c.span), Younger(now, SECOND), accepted);
  }

  /** A packet accepted while fewer than `target` came in the last second keeps every second within the target. */
  lemma AcceptKeepsLimit<T>(target: nat, accepted: seq<Stamped<T>>, p: Stamped<T>, high: int)
    requires Limited(target, accepted, high) && CountIf(Younger(p.time, SECOND), accepted) < target &&
             Until(accepted, p.time)
    ensures Limited(target, accepted + [p], high)
  {
    var f := During(high, SECOND);
    CountAppend(f, accepted, p);
    if f(p) {
      forall i | 0 <= i < |accepted| && f(accepted[i]) ensures Younger(p.time, SECOND)(accepted[i]) {
        UntilAt(accepted, p.time, i);
      }
      CountLess(f, Younger(p.time, SECOND), accepted);
    }
  }

  lemma AppendPast<T>(s: seq<Stamped<T>>, clock: int, p: Stamped<T>)
    requires Past(s, clock) && clock <= p.time
    ensures Past(s, p.time) && Past(s + [p], p.time)
  {
    UntilLater(s, clock, p.time);
    OrderedAppend(s, p);
    UntilAppend(s, p, p.time);
  }

  lemma InsertMirrors<T>(c: Cache<T>, accepted: seq<Stamped<T>>, clock: int, p: Stamped<T>)
    requires Ordered(accepted) && Mirrors(c, accepted, clock) && clock <= p.time && c.span >= SECOND
    ensures var (c', ok) := Insert(c, p.time, p.content);
            && (ok <==> CountIf(Younger(p.time, SECOND), accepted) < c.target)
            && (ok ==> Mirrors(c', accepted + [p], p.time))
            && (!ok ==> Mirrors(c', accepted, p.time))
  {
    ResetIsExact(c, accepted, clock, p.time);
    FilterAppend(Younger(p.time, c.span), accepted, p);
    CountAppend(Younger(p.time, SECOND), Reset(c, p.time).inner, p);
  }

  lemma StepKeeps<T>(target: nat, span: nat, s: Track<T>, op: Op<T>)
    requires TrackInv(target, span, s) && s.clock <= op.now && span >= SECOND
    ensures TrackInv(target, span, Step(s, op))
    ensures forall high :: Limited(target, s.accepted, high) ==> Limited(target, Step(s, op).accepted, high)
  {
    match op
    case Clean(now) =>
      ResetIsExact(s.cache, s.accepted, s.clock, now);
      UntilLater(s.accepted, s.clock, now);
    case Put(now, content) =>
      var p := Stamped(content, now);
      InsertMirrors(s.cache, s.accepted, s.clock, p);
      AppendPast(s.accepted, s.clock, p);
      if Insert(s.cache, now, content).1 {
        forall high | Limited(target, s.accepted, high) ensures Limited(target, s.accepted + [p], high) {
          AcceptKeepsLimit(target, s.accepted, p, high);
        }
      }
  }

  lemma {:induction false} RunKeeps<T>(target: nat, span: nat, start: int, ops: seq<Op<T>>)
    requires Timely(start, ops) && span >= SECOND
    ensures TrackInv(target, span, Run(target, span, start, ops))
    ensures Run(target, span, start, ops).clock == if ops == [] then start else ops[|ops| - 1].now
    ensures forall high :: Limited(target, Run(target, span, start, ops).accepted, high)
  {
    if ops != [] {
      RunKeeps(target, span, start, ops[..|ops| - 1]);
      StepKeeps(target, span, Run(target, span, start, ops[..|ops| - 1]), ops[|ops| - 1]);
    }
  }

  // ----- What the invariant means

  /** In any run no second, open at its start, sees more than `target` packets accepted. */
  lemma RateIsLimited<T>(target: nat, span: nat, start: int, ops: seq<Op<T>>, high: int)
    requires Timely(start, ops) && span >= SECOND
    ensures CountIf(During(high, SECOND), Run(target, span, start, ops).accepted) <= target
  {
    RunKeeps(target, span, start, ops);
    assert Limited(target, Run(target, span, start, ops).accepted, high);
  }

  lemma {:induction false} CountPast<T>(accepted: seq<Stamped<T>>, now: int)
    requires Until(accepted, now)
    ensures CountIf(Younger(now, SECOND), accepted) == CountIf(During(now, SECOND), accepted)
  {
    if accepted != [] { CountPast(accepted[..|accepted| - 1], now); }
  }

  /** In any run a packet is accepted exactly when fewer than `target` were accepted in the second that ends with it. */
  lemma AcceptedBelowTarget<T>(target: nat, span: nat, start: int, ops: seq<Op<T>>, now: int, content: T)
    requires Timely(start, ops + [Put(now, content)]) && span >= SECOND
    ensures var s, s' := Run(target, span, start, ops), Run(target, span, start, ops + [Put(now, content)]);
            s'.accepted == if CountIf(During(now, SECOND), s.accepted) < target then
              s.accepted + [Stamped(content, now)]
                           else s.accepted
  {
    var all := ops + [Put(now, content)];
    assert all[..|ops|] == ops && all[|ops|] == Put(now, content);
    TimelyBefore(start, ops, Put(now, content));
    RunKeeps(target, span, start, ops);
    var s := Run(target, span, start, ops);
    InsertMirrors(s.cache, s.accepted, s.clock, Stamped(content, now));
    UntilLater(s.accepted, s.clock, now);
    CountPast(s.accepted, now);
  }

  lemma TimelyBefore<T>(start: int, ops: seq<Op<T>>, op: Op<T>)
    requires Timely(start, ops + [op])
    ensures Timely(start, ops) && start <= op.now && (ops != [] ==> ops[|ops| - 1].now <= op.now)
  {
    var all := ops + [op];
    assert all[|ops|] == op && forall i :: 0 <= i < |ops| ==> all[i] == ops[i];
  }

  /** In any run the cache is in time order and holds what was accepted within its span; the counter is the number of
      entries of the last second. */
  lemma CounterIsExact<T>(target: nat, span: nat, start: int, ops: seq<Op<T>>)
    requires Timely(start, ops) && span >= SECOND
    ensures var s := Run(target, span, start, ops);
            && Ordered(s.cache.inner)
            && s.cache.inner == Filter(Younger(s.clock, span), s.accepted)
            && s.cache.within == CountIf(Younger(s.clock, SECOND), s.cache.inner)
  {
    var s := Run(target, span, start, ops);
    RunKeeps(target, span, start, ops);
    OrderedFilter(Younger(s.clock, span), s.accepted);
  }

  /** No more than `n` times the target is accepted in `n` seconds. */
  lemma {:induction false} SecondsAddUp<T>(target: nat, span: nat, start: int, ops: seq<Op<T>>, n: nat, length: nat,
                                           high: int)
    requires Timely(start, ops) && span >= SECOND && length == n * SECOND
    ensures CountIf(During(high, length), Run(target, span, start, ops).accepted) <= target * n
    decreases n
  {
    var accepted := Run(target, span, start, ops).accepted;
    if n == 0 {
      CountNone(During(high, length), accepted);
    } else {
      SecondsAddUp(target, span, start, ops, n - 1, length - SECOND, high - SECOND);
      RateIsLimited(target, span, start, ops, high);
      CountUnion(accepted, high, length, high - SECOND, length - SECOND);
      assert target * n == target * (n - 1) + target;
    }
  }

  lemma {:induction false} CountUnion<T>(s: seq<Stamped<T>>, high: int, length: nat, mid: int, rest: nat)
    requires mid == high - SECOND && rest == length - SECOND
    ensures CountIf(During(high, length), s) == CountIf(During(mid, rest), s) + CountIf(During(high, SECOND), s)
  {
    if s != [] { CountUnion(s[..|s| - 1], high, length, mid, rest); }
  }

  lemma PastCount<T>(accepted: seq<Stamped<T>>, clock: int, span: nat)
    requires Past(accepted, clock)
    ensures |Filter(Younger(clock, span), accepted)| <= CountIf(During(clock, span), accepted)
  {
    FilterCount(Younger(clock, span), accepted);
    forall i | 0 <= i < |accepted| ensures accepted[i].time <= clock { UntilAt(accepted, clock, i); }
    CountLess(Younger(clock, span), During(clock, span), accepted);
  }

  lemma HeldWithinSpan<T>(target: nat, span: nat, start: int, ops: seq<Op<T>>)
    requires Timely(start, ops) && span >= SECOND
    ensures var s := Run(target, span, start, ops);
            |s.cache.inner| <= CountIf(During(s.clock, span), s.accepted)
  {
    RunKeeps(target, span, start, ops);
    var s := Run(target, span, start, ops);
    PastCount(s.accepted, s.clock, span);
  }

  /** In any run a cache that keeps packets for `window` seconds never holds more than `target` for each of them. */
  lemma SizeIsLimited<T>(target: nat, window: nat, start: int, ops: seq<Op<T>>)
    requires Timely(start, ops) && window >= 1
    ensures |Run(target, window * SECOND, start, ops).cache.inner| <= target * window
  {
    var span := window * SECOND;
    HeldWithinSpan(target, span, start, ops);
    SecondsAddUp(target, span, start, ops, window, span, Run(target, span, start, ops).clock);
  }

  // ----- The class

  class PacketCache<T> {
    const target: nat
    const span: nat
    var within: nat
    var inner: seq<Stamped<T>>

    ghost function State(): Cache<T>
      reads this
    {
      Cache(target, span, within, inner)
    }

    constructor (target: nat, window: nat)
      ensures State() == Cache(target, window * SECOND, 0, [])
    {
      this.target, this.span, within, inner := target, window * SECOND, 0, [];
    }

    method PopOld(now: int)
      modifies this`inner
      ensures inner == DropOld(old(inner), now, span)
    {
      while inner != []
        invariant DropOld(inner, now, span) == DropOld(old(inner), now, span)
        decreases |inner|
      {
        var packet, rest := inner[0], inner[1..];
        assert inner == [packet] + rest;
        inner := rest;
        if packet.time > now - span {
          inner := [packet] + inner;
          break;
        }
      }
    }

    method CountRecent(now: int) returns (count: nat)
      ensures count == CountBack(inner, now, SECOND)
    {
      count := 0;
      var i := |inner|;
      assert inner[..i] == inner;
      while i > 0
        invariant 0 <= i <= |inner|
        invariant CountBack(inner, now, SECOND) == count + CountBack(inner[..i], now, SECOND)
      {
        assert inner[..i][..i - 1] == inner[..i - 1];
        if inner[i - 1].time <= now - SECOND {
          break;
        }
        count := count + 1;
        i := i - 1;
      }
    }

    method Refresh(now: int)
      modifies this
      ensures State() == Reset(old(State()), now)
    {
      PopOld(now);
      within := CountRecent(now);
    }

    method CacheInsert(now: int, content: T) returns (ok: bool)
      modifies this
      ensures (State(), ok) == Insert(old(State()), now, content)
    {
      Refresh(now);
      if within >= target {
        return false;
      }
      inner := inner + [Stamped(content, now)];
      within := within + 1;
      return true;
    }
  }
}
