/** Rate limiting by the generic cell rate algorithm: each key has a theoretical arrival time. */
module RateLimits {
  import opened Wrappers

  /** The largest number of nanoseconds the limiter can represent. */
  const MAX_NANOS: nat := 0xFFFF_FFFF_FFFF_FFFF

  /** A full bucket is regained in `tau`, one token in `t`; `tats` holds when each key's bucket is full again. */
  datatype Limiter<K> = Limiter(tau: nat, t: nat, tats: map<K, nat>)

  datatype Verdict = Accepted | TooLarge | TooSoon(wait: nat)

  datatype QuotaError = NoTokens | NoTime | TooLong

  /** A limiter that allows `maxTokens` every `period` nanoseconds. */
  function FromQuota<K>(maxTokens: nat, period: nat): (r: Result<Limiter<K>, QuotaError>)
    ensures r.Ok? <==> 0 < maxTokens && 0 < period <= MAX_NANOS
    ensures r.Ok? ==> r.value.t * maxTokens <= r.value.tau < (r.value.t + 1) * maxTokens
  {
    if maxTokens == 0 then Err(NoTokens)
    else if period == 0 then Err(NoTime)
    else if period / maxTokens > MAX_NANOS || period > MAX_NANOS then Err(TooLong)
    else Ok(Limiter(period, period / maxTokens, map[]))
  }

  function Max(a: nat, b: nat): nat {
    if a >= b then a else b
  }

  function SaturatingSub(a: nat, b: nat): nat {
    if a >= b then a - b else 0
  }

  function Allows<K(==)>(l: Limiter<K>, now: nat, key: K, tokens: nat): (Limiter<K>, Verdict) {
    Charge(l, now, key, l.t * tokens)
  }

  /** A request whose tokens take `add` to replenish. */
  function Charge<K(==)>(l: Limiter<K>, now: nat, key: K, add: nat): (Limiter<K>, Verdict) {
    if add > l.tau then (l, TooLarge)
    else
      var tat := if key in l.tats then l.tats[key] else now;
      var earliest := SaturatingSub(tat + add, l.tau);
      if now < earliest then (l.(tats := l.tats[key := tat]), TooSoon(earliest - now))
      else (l.(tats := l.tats[key := Max(now, tat) + add]), Accepted)
  }

  function Prune<K(==)>(l: Limiter<K>, limit: nat): Limiter<K> {
    l.(tats := map k | k in l.tats && l.tats[k] >= limit :: l.tats[k])
  }

  // ----- The level of a key

  /** When the key's bucket is full again, seen from `now`. Nothing else about the key matters. */
  function Level<K(==)>(l: Limiter<K>, key: K, now: nat): nat {
    if key in l.tats then Max(l.tats[key], now) else now
  }

  /** A request is refused for good if it exceeds the bucket, and now if the level leaves no room. */
  lemma LevelDecides<K>(l: Limiter<K>, now: nat, key: K, add: nat)
    ensures var (l', v) := Charge(l, now, key, add);
            var level := Level(l, key, now);
            && l'.tau == l.tau && l'.t == l.t
            && (v.TooLarge? <==> add > l.tau)
            && (v.Accepted? <==> add <= l.tau && level + add <= now + l.tau)
            && (v.TooSoon? ==> v.wait == level + add - (now + l.tau))
            && Level(l', key, now) == (if v.Accepted? then level + add else level)
            && forall k :: k != key ==> Level(l', k, now) == Level(l, k, now)
  {
  }

  lemma LevelLater<K>(l: Limiter<K>, key: K, now: nat, later: nat)
    requires now <= later
    ensures Level(l, key, later) == Max(Level(l, key, now), later)
  {
  }

  /** Pruning at a past or present time changes no level. */
  lemma PruneKeepsLevel<K>(l: Limiter<K>, limit: nat, now: nat, key: K)
    requires limit <= now
    ensures Level(Prune(l, limit), key, now) == Level(l, key, now)
  {
  }

  /** Pruning drops exactly the keys whose bucket was full before the limit. */
  lemma PruneDrops<K>(l: Limiter<K>, limit: nat, key: K)
    ensures var l' := Prune(l, limit);
            && (key in l'.tats <==> key in l.tats && l.tats[key] >= limit)
            && (key in l'.tats ==> l'.tats[key] == l.tats[key])
            && l'.tau == l.tau && l'.t == l.t
  {
  }

  // ----- A refusal is exact

  /** A request told to wait `d` is refused until then and accepted from then on, if meanwhile nothing is accepted for
      its key. */
  lemma WaitIsExact<K>(l: Limiter<K>, now: nat, key: K, add: nat, l1: Limiter<K>, later: nat)
    requires Charge(l, now, key, add).1.TooSoon? && now <= later
    requires l1.tau == l.tau && Level(l1, key, later) == Max(Level(l, key, now), later)
    ensures var d := Charge(l, now, key, add).1.wait;
            Charge(l1, later, key, add).1 == if later < now + d then TooSoon(now + d - later) else Accepted
  {
    LevelDecides(l, now, key, add);
    LevelDecides(l1, later, key, add);
  }

  // ----- Runs

  datatype Event<K> = Ask(now: nat, key: K, tokens: nat) | Tidy(now: nat, limit: nat)

  /** An accepted request; `cost` is the time its tokens take to replenish. */
  datatype Grant<K> = Grant(key: K, time: nat, tokens: nat, cost: nat)

  /** The limiter, the time of the last event, the answers and the accepted requests. */
  datatype Track<K> = Track(limiter: Limiter<K>, clock: nat, answers: seq<Verdict>, grants: seq<Grant<K>>)

  function Asked<K(==)>(s: Track<K>, now: nat, key: K, tokens: nat, add: nat): Track<K> {
    var (l, v) := Charge(s.limiter, now, key, add);
    Track(l, now, s.answers + [v], if v.Accepted? then s.grants + [Grant(key, now, tokens, add)] else s.grants)
  }

  function Step<K(==)>(s: Track<K>, e: Event<K>): Track<K> {
    match e
    case Ask(now, key, tokens) => Asked(s, now, key, tokens, s.limiter.t * tokens)
    case Tidy(now, limit) => s.(limiter := Prune(s.limiter, limit), clock := now)
  }

  function Run<K(==)>(l: Limiter<K>, events: seq<Event<K>>): Track<K> {
    if events == [] then Track(l, 0, [], []) else Step(Run(l, events[..|events| - 1]), events[|events| - 1])
  }

  /** Events come in order of time, and pruning never looks ahead of the present. */
  ghost predicate Timely<K>(l: Limiter<K>, events: seq<Event<K>>) {
    events == [] ||
    (Timely(l, events[..|events| - 1]) &&
     var s, e := Run(l, events[..|events| - 1]), events[|events| - 1];
     s.clock <= e.now && (e.Tidy? ==> e.limit <= e.now))
  }

  // ----- The window bound

  function Total<K>(grants: seq<Grant<K>>): nat {
    if grants == [] then 0 else Total(grants[..|grants| - 1]) + grants[|grants| - 1].tokens
  }

  /** The time it takes to replenish what was accepted. */
  function Cost<K>(grants: seq<Grant<K>>): nat {
    if grants == [] then 0 else Cost(grants[..|grants| - 1]) + grants[|grants| - 1].cost
  }

  ghost predicate Priced<K>(t: nat, grants: seq<Grant<K>>) {
    forall i :: 0 <= i < |grants| ==> grants[i].cost == t * grants[i].tokens
  }

  lemma {:induction false} CostOfTotal<K>(t: nat, grants: seq<Grant<K>>)
    requires Priced(t, grants)
    ensures Cost(grants) == t * Total(grants)
  {
    if grants != [] {
      CostOfTotal(t, grants[..|grants| - 1]);
      Distribute(t, Total(grants[..|grants| - 1]), grants[|grants| - 1].tokens);
    }
  }

  lemma Distribute(t: nat, a: nat, b: nat)
    ensures t * (a + b) == t * a + t * b
  {
  }

  lemma {:induction false} RunPriced<K>(l: Limiter<K>, events: seq<Event<K>>)
    ensures Run(l, events).limiter.t == l.t && Priced(l.t, Run(l, events).grants)
  {
    if events != [] { RunPriced(l, events[..|events| - 1]); }
  }

  lemma {:induction false} ForKeyPriced<K>(t: nat, grants: seq<Grant<K>>, key: K)
    requires Priced(t, grants)
    ensures Priced(t, ForKey(grants, key))
  {
    if grants != [] { ForKeyPriced(t, grants[..|grants| - 1], key); }
  }

  function ForKey<K(==)>(grants: seq<Grant<K>>, key: K): (r: seq<Grant<K>>)
    ensures |r| <= |grants|
  {
    if grants == [] then []
    else ForKey(grants[..|grants| - 1], key) + if grants[|grants| - 1].key == key then [grants[|grants| - 1]] else []
  }

  /** Between grant `i` and grant `j` no more was accepted than the time between them and one full bucket replenish. */
  ghost predicate Within<K>(tau: nat, grants: seq<Grant<K>>, i: nat, j: nat)
    requires i <= j < |grants|
  {
    grants[i].time <= grants[j].time && Cost(grants[i..j + 1]) <= grants[j].time - grants[i].time + tau
  }

  ghost predicate Paced<K>(tau: nat, grants: seq<Grant<K>>, level: nat, clock: nat) {
    && (forall i, j :: 0 <= i <= j < |grants| ==> Within(tau, grants, i, j))
    && (forall i :: 0 <= i < |grants| ==> Behind(grants, i, level, clock))
  }

  ghost predicate Behind<K>(grants: seq<Grant<K>>, i: nat, level: nat, clock: nat)
    requires i < |grants|
  {
    grants[i].time <= clock && grants[i].time + Cost(grants[i..]) <= level
  }

  lemma CostPush<K>(grants: seq<Grant<K>>, g: Grant<K>, i: nat)
    requires i <= |grants|
    ensures Cost((grants + [g])[i..]) == Cost(grants[i..]) + g.cost
  {
    assert (grants + [g])[i..][..|grants| - i] == grants[i..];
  }

  /** Accepting one more request keeps the pace. */
  lemma PacePush<K>(tau: nat, grants: seq<Grant<K>>, level: nat, clock: nat, g: Grant<K>)
    requires Paced(tau, grants, level, clock) && clock <= g.time <= level && level + g.cost <= g.time + tau
    ensures Paced(tau, grants + [g], level + g.cost, g.time)
  {
    var all, level' := grants + [g], level + g.cost;
    forall i | 0 <= i < |all| ensures Behind(all, i, level', g.time) {
      CostPush(grants, g, i);
      assert i < |grants| ==> Behind(grants, i, level, clock);
      assert i == |grants| ==> grants[i..] == [];
    }
    forall i, j | 0 <= i <= j < |all| ensures Within(tau, all, i, j) {
      if j < |grants| {
        assert Within(tau, grants, i, j);
        assert all[i..j + 1] == grants[i..j + 1];
      } else {
        assert all[i..j + 1] == all[i..];
        assert Behind(all, i, level', g.time);
      }
    }
  }

  lemma PaceLater<K>(tau: nat, grants: seq<Grant<K>>, level: nat, clock: nat, level': nat, clock': nat)
    requires Paced(tau, grants, level, clock) && level <= level' && clock <= clock'
    ensures Paced(tau, grants, level', clock')
  {
    forall i | 0 <= i < |grants| ensures Behind(grants, i, level', clock') {
      assert Behind(grants, i, level, clock);
    }
  }

  lemma ForKeyPush<K>(grants: seq<Grant<K>>, g: Grant<K>, key: K)
    ensures g.key == key ==> ForKey(grants + [g], key) == ForKey(grants, key) + [g]
    ensures g.key != key ==> ForKey(grants + [g], key) == ForKey(grants, key)
  {
    assert (grants + [g])[..|grants|] == grants;
  }

  lemma {:induction false} RunPaced<K(!new)>(l: Limiter<K>, events: seq<Event<K>>, key: K)
    requires Timely(l, events)
    ensures var s := Run(l, events);
            && s.limiter.tau == l.tau && s.limiter.t == l.t
            && Paced(l.tau, ForKey(s.grants, key), Level(s.limiter, key, s.clock), s.clock)
  {
    if events != [] {
      var before, e := Run(l, events[..|events| - 1]), events[|events| - 1];
      RunPaced(l, events[..|events| - 1], key);
      match e
      case Ask(now, k, tokens) => AskPaced(l.tau, l.t, before, now, k, tokens, before.limiter.t * tokens, key);
      case Tidy(now, limit) => TidyPaced(l.tau, before, now, limit, key);
    }
  }

  lemma TidyPaced<K>(tau: nat, s: Track<K>, now: nat, limit: nat, key: K)
    requires s.clock <= now && limit <= now
    requires Paced(tau, ForKey(s.grants, key), Level(s.limiter, key, s.clock), s.clock)
    ensures Paced(tau, ForKey(s.grants, key), Level(Prune(s.limiter, limit), key, now), now)
  {
    PruneKeepsLevel(s.limiter, limit, now, key);
    LevelLater(s.limiter, key, s.clock, now);
    PaceLater(tau, ForKey(s.grants, key), Level(s.limiter, key, s.clock), s.clock, Level(s.limiter, key, now), now);
  }

  lemma AskPaced<K>(tau: nat, t: nat, s: Track<K>, now: nat, k: K, tokens: nat, add: nat, key: K)
    requires s.limiter.tau == tau && s.limiter.t == t && s.clock <= now
    requires Paced(tau, ForKey(s.grants, key), Level(s.limiter, key, s.clock), s.clock)
    ensures var s' := Asked(s, now, k, tokens, add);
            && s'.limiter.tau == tau && s'.limiter.t == t && s'.clock == now
            && Paced(tau, ForKey(s'.grants, key), Level(s'.limiter, key, now), now)
  {
    var grants, g := ForKey(s.grants, key), Grant(k, now, tokens, add);
    LevelDecides(s.limiter, now, k, add);
    LevelLater(s.limiter, key, s.clock, now);
    ForKeyPush(s.grants, g, key);
    var was, level := Level(s.limiter, key, s.clock), Level(s.limiter, key, now);
    if Charge(s.limiter, now, k, add).1.Accepted? && k == key {
      PaceLater(tau, grants, was, s.clock, level, s.clock);
      PacePush(tau, grants, level, s.clock, g);
    } else {
      PaceLater(tau, grants, was, s.clock, level, now);
    }
  }

  /** In any run the tokens accepted for a key from one grant to another never exceed the elapsed time plus one
      bucket. */
  lemma WindowBound<K(!new)>(l: Limiter<K>, events: seq<Event<K>>, key: K, i: nat, j: nat)
    requires Timely(l, events) && i <= j < |ForKey(Run(l, events).grants, key)|
    ensures var grants := ForKey(Run(l, events).grants, key);
            l.t * Total(grants[i..j + 1]) <= grants[j].time - grants[i].time + l.tau
  {
    RunPaced(l, events, key);
    var grants := ForKey(Run(l, events).grants, key);
    assert Within(l.tau, grants, i, j);
    RunPriced(l, events);
    ForKeyPriced(l.t, Run(l, events).grants, key);
    CostOfTotal(l.t, grants[i..j + 1]);
  }

  // ----- A refusal in a run

  /** The requests granted to a key, and its level, after one more event. */
  lemma StepQuiet<K>(s: Track<K>, e: Event<K>, key: K)
    requires s.clock <= e.now && (e.Tidy? ==> e.limit <= e.now)
    ensures var s' := Step(s, e);
            && s'.limiter.tau == s.limiter.tau && s'.limiter.t == s.limiter.t && s.clock <= s'.clock
            && |ForKey(s.grants, key)| <= |ForKey(s'.grants, key)|
            && (|ForKey(s.grants, key)| == |ForKey(s'.grants, key)| ==>
                  Level(s'.limiter, key, s'.clock) == Max(Level(s.limiter, key, s.clock), s'.clock))
  {
    match e
    case Ask(now, k, tokens) =>
      AskQuiet(s, now, k, tokens, s.limiter.t * tokens, key);
    case Tidy(now, limit) =>
      PruneKeepsLevel(s.limiter, limit, now, key);
      LevelLater(s.limiter, key, s.clock, now);
  }

  lemma AskQuiet<K>(s: Track<K>, now: nat, k: K, tokens: nat, add: nat, key: K)
    requires s.clock <= now
    ensures var s' := Asked(s, now, k, tokens, add);
            && s'.limiter.tau == s.limiter.tau && s'.limiter.t == s.limiter.t
            && |ForKey(s.grants, key)| <= |ForKey(s'.grants, key)|
            && (|ForKey(s.grants, key)| == |ForKey(s'.grants, key)| ==>
                  Level(s'.limiter, key, now) == Max(Level(s.limiter, key, s.clock), now))
  {
    ForKeyPush(s.grants, Grant(k, now, tokens, add), key);
    LevelDecides(s.limiter, now, k, add);
    LevelLater(s.limiter, key, s.clock, now);
  }

  lemma {:induction false} RunQuiet<K>(l: Limiter<K>, events: seq<Event<K>>, more: seq<Event<K>>, key: K)
    requires Timely(l, events + more)
    ensures var s, s' := Run(l, events), Run(l, events + more);
            && s'.limiter.tau == s.limiter.tau && s'.limiter.t == s.limiter.t && s.clock <= s'.clock
            && |ForKey(s.grants, key)| <= |ForKey(s'.grants, key)|
            && (|ForKey(s.grants, key)| == |ForKey(s'.grants, key)| ==>
                  Level(s'.limiter, key, s'.clock) == Max(Level(s.limiter, key, s.clock), s'.clock))
    decreases |more|
  {
    if more == [] {
      assert events + more == events;
    } else {
      var init, all := more[..|more| - 1], events + more;
      assert all[..|all| - 1] == events + init;
      RunQuiet(l, events, init, key);
      StepQuiet(Run(l, events + init), more[|more| - 1], key);
    }
  }

  /** In any run a request told to wait `d` would be refused at every later time before that and accepted at every time
      after, as long as nothing is accepted for its key in between, whatever else is asked or pruned. */
  lemma RefusalIsExact<K(!new)>(l: Limiter<K>, events: seq<Event<K>>, now: nat, key: K, tokens: nat,
                                more: seq<Event<K>>, later: nat)
    requires var all := events + [Ask(now, key, tokens)] + more;
             && Timely(l, all) && Run(l, all).clock <= later
             && Allows(Run(l, events).limiter, now, key, tokens).1.TooSoon?
             && |ForKey(Run(l, all).grants, key)| == |ForKey(Run(l, events).grants, key)|
    ensures var d := Allows(Run(l, events).limiter, now, key, tokens).1.wait;
            Allows(Run(l, events + [Ask(now, key, tokens)] + more).limiter, later, key, tokens).1
            == if later < now + d then TooSoon(now + d - later) else Accepted
  {
    var asked := events + [Ask(now, key, tokens)];
    var s, s1, s2 := Run(l, events), Run(l, asked), Run(l, asked + more);
    assert asked[..|events|] == events;
    RefusedStep(s, now, key, tokens, s.limiter.t * tokens);
    RunQuiet(l, asked, more, key);
    LevelLater(s2.limiter, key, s2.clock, later);
    WaitIsExact(s.limiter, now, key, s.limiter.t * tokens, s2.limiter, later);
  }

  lemma RefusedStep<K>(s: Track<K>, now: nat, key: K, tokens: nat, add: nat)
    requires Charge(s.limiter, now, key, add).1.TooSoon?
    ensures var s' := Asked(s, now, key, tokens, add);
            && s'.grants == s.grants && s'.clock == now && s'.limiter.tau == s.limiter.tau &&
               s'.limiter.t == s.limiter.t
            && Level(s'.limiter, key, now) == Level(s.limiter, key, now)
  {
    LevelDecides(s.limiter, now, key, add);
  }

  // ----- Stored times stay near the clock

  /** A stored time is at most one bucket after the key's last accepted request. */
  ghost predicate Near<K>(tau: nat, s: Track<K>, key: K) {
    key in s.limiter.tats ==>
      var grants := ForKey(s.grants, key);
      |grants| > 0 && grants[|grants| - 1].time <= s.clock && s.limiter.tats[key] <= grants[|grants| - 1].time + tau
  }

  lemma {:induction false} StoredTimesAreNear<K(!new)>(l: Limiter<K>, events: seq<Event<K>>, key: K)
    requires Timely(l, events) && l.tats == map[]
    ensures Near(l.tau, Run(l, events), key) && Run(l, events).limiter.tau == l.tau && Run(l, events).limiter.t == l.t
  {
    if events != [] {
      var s, e := Run(l, events[..|events| - 1]), events[|events| - 1];
      StoredTimesAreNear(l, events[..|events| - 1], key);
      if e.Ask? { AskNear(l.tau, s, e.now, e.key, e.tokens, s.limiter.t * e.tokens, key); }
    }
  }

  lemma AskNear<K>(tau: nat, s: Track<K>, now: nat, k: K, tokens: nat, add: nat, key: K)
    requires Near(tau, s, key) && s.limiter.tau == tau && s.clock <= now
    ensures Near(tau, Asked(s, now, k, tokens, add), key)
  {
    LevelDecides(s.limiter, now, k, add);
    ForKeyPush(s.grants, Grant(k, now, tokens, add), key);
  }

  /** Every sum the limiter forms fits in 64 bits as long as the clock plus two buckets does. */
  lemma SumsFit<K(!new)>(l: Limiter<K>, events: seq<Event<K>>, now: nat, key: K, tokens: nat)
    requires Timely(l, events) && l.tats == map[] && Run(l, events).clock <= now
    requires now + 2 * l.tau <= MAX_NANOS && l.t * tokens <= l.tau
    ensures var m := Run(l, events).limiter;
            var tat := if key in m.tats then m.tats[key] else now;
            m.t == l.t && tat + m.t * tokens <= MAX_NANOS && Max(now, tat) + m.t * tokens <= MAX_NANOS
  {
    StoredTimesAreNear(l, events, key);
  }

  // ----- Pruning is invisible

  function Unpruned<K>(events: seq<Event<K>>): seq<Event<K>> {
    if events == [] then []
    else
      var rest, e := Unpruned(events[..|events| - 1]), events[|events| - 1];
      if e.Ask? then rest + [e] else rest
  }

  lemma {:induction false} PruningIsInvisible<K(!new)>(l: Limiter<K>, events: seq<Event<K>>)
    requires Timely(l, events)
    ensures var s, s' := Run(l, events), Run(l, Unpruned(events));
            && s.answers == s'.answers && s.grants == s'.grants && s'.clock <= s.clock
            && s.limiter.tau == s'.limiter.tau && s.limiter.t == s'.limiter.t
            && forall key :: Level(s.limiter, key, s.clock) == Level(s'.limiter, key, s.clock)
  {
    if events != [] {
      var init, e := events[..|events| - 1], events[|events| - 1];
      PruningIsInvisible(l, init);
      var s, s' := Run(l, init), Run(l, Unpruned(init));
      match e
      case Ask(now, k, tokens) =>
        assert (Unpruned(init) + [e])[..|Unpruned(init)|] == Unpruned(init);
        AskAgrees(s, s', now, k, s.limiter.t * tokens);
      case Tidy(now, limit) =>
        forall key ensures Level(Prune(s.limiter, limit), key, now) == Level(s'.limiter, key, now) {
          PruneKeepsLevel(s.limiter, limit, now, key);
          LevelLater(s.limiter, key, s.clock, now);
          LevelLater(s'.limiter, key, s.clock, now);
        }
    }
  }

  lemma AskAgrees<K(!new)>(s: Track<K>, s': Track<K>, now: nat, k: K, add: nat)
    requires s.limiter.tau == s'.limiter.tau && s.limiter.t == s'.limiter.t && s.clock <= now
    requires forall key :: Level(s.limiter, key, s.clock) == Level(s'.limiter, key, s.clock)
    ensures var (m, v) := Charge(s.limiter, now, k, add);
            var (m', v') := Charge(s'.limiter, now, k, add);
            v == v' && m.tau == m'.tau && m.t == m'.t && forall key :: Level(m, key, now) == Level(m', key, now)
  {
    forall key ensures Level(s.limiter, key, now) == Level(s'.limiter, key, now) {
      LevelLater(s.limiter, key, s.clock, now);
      LevelLater(s'.limiter, key, s.clock, now);
    }
    LevelDecides(s.limiter, now, k, add);
    LevelDecides(s'.limiter, now, k, add);
  }

  // ----- Bursts

  /** A burst of `n` tokens is accepted from a new key. */
  predicate Bursts(maxTokens: nat, period: nat, n: nat)
    requires 0 < maxTokens && 0 < period <= MAX_NANOS
  {
    Allows(FromQuota<nat>(maxTokens, period).value, 0, 0, n).1.Accepted?
  }

  /** Bursts of up to the quota are accepted. Larger ones are refused exactly when the remainder of the division is
      below its quotient. */
  lemma BurstsUpToQuota(maxTokens: nat, period: nat, n: nat)
    requires 0 < maxTokens && 0 < period <= MAX_NANOS
    ensures n <= maxTokens ==> Bursts(maxTokens, period, n)
    ensures (forall m :: m > maxTokens ==> !Bursts(maxTokens, period, m)) <==> period % maxTokens < period / maxTokens
  {
    var t := period / maxTokens;
    if n <= maxTokens { MulMonotone(t, n, maxTokens); }
    if t > period % maxTokens {
      forall m | m > maxTokens ensures !Bursts(maxTokens, period, m) {
        MulMonotone(t, maxTokens + 1, m);
      }
    } else {
      assert t * (maxTokens + 1) <= period;
      assert Bursts(maxTokens, period, maxTokens + 1);
    }
  }

  lemma MulMonotone(t: nat, a: nat, b: nat)
    requires a <= b
    ensures t * a <= t * b
  {
  }

  /** Three tokens every five nanoseconds allows a burst of five. */
  lemma BurstExample()
    ensures Bursts(3, 5, 5)
  {
    assert 5 / 3 == 1;
  }

  // ----- The class

  class RateLimiter<K(==)> {
    const tau: nat
    const t: nat
    var tats: map<K, nat>

    ghost function State(): Limiter<K>
      reads this
    {
      Limiter(tau, t, tats)
    }

    constructor (tau: nat, t: nat)
      ensures State() == Limiter(tau, t, map[])
    {
      this.tau, this.t, tats := tau, t, map[];
    }

    method Admit(now: nat, key: K, tokens: nat) returns (v: Verdict)
      modifies this
      ensures (State(), v) == Allows(old(State()), now, key, tokens)
    {
      var additional := t * tokens;
      if additional > tau {
        return TooLarge;
      }
      if key !in tats {
        tats := tats[key := now];
      }
      var tat := tats[key];
      var earliest := SaturatingSub(tat + additional, tau);
      if now < earliest {
        assert old(tats)[key := tat] == tats;
        return TooSoon(earliest - now);
      }
      tats := tats[key := Max(now, tat) + additional];
      assert tats == old(tats)[key := Max(now, tat) + additional];
      return Accepted;
    }

    method Retain(limit: nat)
      modifies this
      ensures State() == Prune(old(State()), limit)
    {
      var keys := tats.Keys;
      ghost var was := tats;
      while keys != {}
        invariant keys <= was.Keys
        invariant tats == map k | k in was && (k in keys || was[k] >= limit) :: was[k]
        decreases keys
      {
        var k :| k in keys;
        keys := keys - {k};
        if tats[k] < limit {
          tats := tats - {k};
        }
      }
    }
  }
}
