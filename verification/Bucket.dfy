/** A single k-bucket, specified on a list of nodes in the order of their last status report. */
module Buckets {
  import opened Lists
  import opened Wrappers
  import opened Keys

  const MAX_NODES_PER_BUCKET: nat := 16

  datatype ConnectionState = Connected | Disconnected
  datatype ConnectionDirection = Incoming | Outgoing
  datatype NodeStatus = NodeStatus(direction: ConnectionDirection, state: ConnectionState)

  datatype Node<V> = Node(key: Key, value: V, status: NodeStatus) {
    predicate IsConnected() { status.state.Connected? }
  }

  /** A node waiting for a slot; it may be applied from time `replace` on. */
  datatype PendingNode<V> = PendingNode(node: Node<V>, replace: int)

  datatype Config<!V> = Config(pendingTimeout: nat, maxIncoming: nat, filter: Option<(V, seq<V>) -> bool>)

  datatype InsertResult =
    | Inserted
    | MadePending(disconnected: Key)
    | FailedFilter
    | TooManyIncoming
    | Full
    | NodeExists

  datatype FailureReason = IncomingLimit | BucketFilter | TableFilter | KeyNonExistent | BucketFull | InvalidSelfUpdate

  datatype UpdateResult =
    | Updated
    | UpdatedAndPromoted
    | UpdatedPending
    | Failed(reason: FailureReason)
    | NotModified

  datatype AppliedPending<V> = AppliedPending(inserted: Key, evicted: Option<Node<V>>)

  // ----- Lists of nodes

  function IndexOf<V>(s: seq<Node<V>>, k: Key): (i: nat)
    ensures i <= |s|
    ensures i < |s| ==> s[i].key == k
    ensures forall j :: 0 <= j < i ==> s[j].key != k
  {
    if s == [] then 0
    else if s[0].key == k then 0
    else 1 + IndexOf(s[1..], k)
  }

  predicate HasKey<V>(s: seq<Node<V>>, k: Key) {
    IndexOf(s, k) < |s|
  }

  function Without<V>(s: seq<Node<V>>, k: Key): seq<Node<V>> {
    var i := IndexOf(s, k);
    if i < |s| then s[..i] + s[i + 1..] else s
  }

  /** The disconnected, or the connected, nodes of `s` in order. */
  function Select<V>(s: seq<Node<V>>, connected: bool): seq<Node<V>> {
    if s == [] then []
    else
      var n := s[|s| - 1];
      if n.IsConnected() == connected then Select(s[..|s| - 1], connected) + [n] else Select(s[..|s| - 1], connected)
  }

  function Values<V>(s: seq<Node<V>>): (vs: seq<V>)
    ensures |vs| == |s|
    ensures forall i :: 0 <= i < |s| ==> vs[i] == s[i].value
  {
    seq(|s|, i requires 0 <= i < |s| => s[i].value)
  }

  predicate IsConnectedIncoming<V>(n: Node<V>) {
    n.IsConnected() && n.status.direction.Incoming?
  }

  ghost predicate DistinctKeys<V>(s: seq<Node<V>>) {
    forall i, j :: 0 <= i < j < |s| ==> s[i].key != s[j].key
  }

  // ----- Specification: a bucket is its nodes by time of last status report, plus the pending slot

  datatype Bucket<V> = Bucket(recent: seq<Node<V>>, pending: Option<PendingNode<V>>)

  /** The order in which a bucket stores its nodes: disconnected ones, then connected ones. */
  function View<V>(recent: seq<Node<V>>): seq<Node<V>> {
    Select(recent, false) + Select(recent, true)
  }

  function FirstConnected<V>(recent: seq<Node<V>>): Option<nat> {
    if |Select(recent, true)| == 0 then None else Some(|Select(recent, false)|)
  }

  predicate Passes<V>(cfg: Config<V>, value: V, others: seq<Node<V>>) {
    cfg.filter.Some? ==> cfg.filter.value(value, Values(others))
  }

  function InsertIn<V>(cfg: Config<V>, b: Bucket<V>, node: Node<V>, now: int): (Bucket<V>, InsertResult)
  {
    if HasKey(b.recent, node.key) then (b, NodeExists)
    else if !Passes(cfg, node.value, View(b.recent)) then (b, FailedFilter)
    else if IsConnectedIncoming(node) && CountIf(IsConnectedIncoming, b.recent) >= cfg.maxIncoming then
      (b, TooManyIncoming)
    else if |b.recent| < MAX_NODES_PER_BUCKET then
      var samePending := b.pending.Some? && b.pending.value.node.key == node.key;
      (Bucket(b.recent + [node], if samePending then None else b.pending), Inserted)
    else if !node.IsConnected() || b.pending.Some? || |Select(b.recent, false)| == 0 then (b, Full)
    else
      (b.(pending := Some(PendingNode(node, now + cfg.pendingTimeout))), MadePending(Select(b.recent, false)[0].key))
  }

  function ApplyPendingIn<V>(cfg: Config<V>, b: Bucket<V>, now: int): (Bucket<V>, Option<AppliedPending<V>>)
  {
    if b.pending.None? || b.pending.value.replace > now then (b, None)
    else
      var node := b.pending.value.node;
      var dropped := b.(pending := None);
      if |b.recent| < MAX_NODES_PER_BUCKET then
        var (b', r) := InsertIn(cfg, dropped, node, now);
        (b', if r.Inserted? then Some(AppliedPending(node.key, None)) else None)
      else if |Select(b.recent, false)| == 0
              || !Passes(cfg, node.value, View(b.recent))
              || (IsConnectedIncoming(node) && CountIf(IsConnectedIncoming, b.recent) >= cfg.maxIncoming) then
                (dropped, None)
      else
        var evicted := Select(b.recent, false)[0];
        (Bucket(Without(b.recent, evicted.key) + [node], None), Some(AppliedPending(node.key, Some(evicted))))
  }

  function WithStatus<V>(n: Node<V>, status: NodeStatus): Node<V> {
    n.(status := status)
  }

  function Restate(was: NodeStatus, state: ConnectionState, direction: Option<ConnectionDirection>): NodeStatus {
    NodeStatus(if direction.Some? then direction.value else was.direction, state)
  }

  function StatusResult(was: NodeStatus, status: NodeStatus, inserted: InsertResult): UpdateResult {
    if inserted.TooManyIncoming? then Failed(IncomingLimit)
    else if !inserted.Inserted? then Failed(BucketFilter)
    else if was == status then NotModified
    else if was.state.Disconnected? && status.state.Connected? then UpdatedAndPromoted
    else Updated
  }

  /** The bucket without a node whose status is reported. A connected first node drops the pending one. */
  function TakenOut<V>(b: Bucket<V>, key: Key, state: ConnectionState): Bucket<V> {
    var isHead := IndexOf(View(b.recent), key) == 0;
    Bucket(Without(b.recent, key), if isHead && state.Connected? then None else b.pending)
  }

  /** The stored node of that key with its reported status. */
  function Reporting<V>(b: Bucket<V>, key: Key, state: ConnectionState, direction: Option<ConnectionDirection>): Node<V>
    requires HasKey(b.recent, key)
  {
    var was := b.recent[IndexOf(b.recent, key)];
    WithStatus(was, Restate(was.status, state, direction))
  }

  function Reinsert<V>(cfg: Config<V>, b: Bucket<V>, was: NodeStatus, node: Node<V>, now: int)
    : (Bucket<V>, UpdateResult)
  {
    var (b', r) := InsertIn(cfg, b, node, now);
    (b', StatusResult(was, node.status, r))
  }

  function UpdateStatusIn<V>(cfg: Config<V>, b: Bucket<V>, key: Key, state: ConnectionState,
                             direction: Option<ConnectionDirection>, now: int): (Bucket<V>, UpdateResult)
  {
    if HasKey(b.recent, key) then
      Reinsert(cfg, TakenOut(b, key, state), b.recent[IndexOf(b.recent, key)].status,
               Reporting(b, key, state, direction), now)
    else if b.pending.Some? && b.pending.value.node.key == key then
      var p := b.pending.value;
      (b.(pending := Some(p.(node := WithStatus(p.node, Restate(p.node.status, state, direction))))), UpdatedPending)
    else (b, Failed(KeyNonExistent))
  }

  function UpdateValueIn<V(==)>(cfg: Config<V>, b: Bucket<V>, key: Key, value: V): (Bucket<V>, UpdateResult)
  {
    if HasKey(b.recent, key) then
      var i := IndexOf(b.recent, key);
      var rest := Without(b.recent, key);
      if b.recent[i].value == value then (b, NotModified)
      else if !Passes(cfg, value, View(rest)) then (b.(recent := rest), Failed(BucketFilter))
      else (b.(recent := b.recent[i := b.recent[i].(value := value)]), Updated)
    else if b.pending.Some? && b.pending.value.node.key == key then
      var p := b.pending.value;
      (b.(pending := Some(p.(node := p.node.(value := value)))), UpdatedPending)
    else (b, Failed(KeyNonExistent))
  }

  function UpdatePendingIn<V>(b: Bucket<V>, status: NodeStatus): Bucket<V> {
    if b.pending.None? then b
    else
      var p := b.pending.value;
      b.(pending := Some(p.(node := p.node.(status := status))))
  }

  function RemoveIn<V>(cfg: Config<V>, b: Bucket<V>, key: Key, now: int): (Bucket<V>, bool)
  {
    if HasKey(b.recent, key) then (ApplyPendingIn(cfg, b.(recent := Without(b.recent, key)), now).0, true)
    else (b, false)
  }

  /** What every bucket keeps. */
  ghost predicate Inv<V>(cfg: Config<V>, b: Bucket<V>) {
    && |b.recent| <= MAX_NODES_PER_BUCKET
    && DistinctKeys(b.recent)
    && CountIf(IsConnectedIncoming, b.recent) <= cfg.maxIncoming
    && (b.pending.Some? ==> !HasKey(b.recent, b.pending.value.node.key))
  }

  // ----- Facts about node lists

  lemma {:induction false} SelectConcat<V>(a: seq<Node<V>>, b: seq<Node<V>>, c: bool)
    ensures Select(a + b, c) == Select(a, c) + Select(b, c)
  {
    if b == [] {
      assert a + b == a;
    } else {
      var b' := b[..|b| - 1];
      assert (a + b)[..|a + b| - 1] == a + b';
      SelectConcat(a, b', c);
    }
  }

  /** `Select` keeps exactly the nodes of the asked connectedness, as a sub-list. */
  lemma {:induction false} SelectMembers<V>(s: seq<Node<V>>, c: bool)
    ensures forall i :: 0 <= i < |Select(s, c)| ==> Select(s, c)[i] in s && Select(s, c)[i].IsConnected() == c
    ensures DistinctKeys(s) ==> DistinctKeys(Select(s, c))
  {
    if s != [] {
      var s', n := s[..|s| - 1], s[|s| - 1];
      SelectMembers(s', c);
      assert s == s' + [n];
      if DistinctKeys(s) {
        forall i | 0 <= i < |Select(s', c)| ensures Select(s', c)[i].key != n.key {
          assert Select(s', c)[i] in s';
        }
      }
    }
  }

  /** The stored order is a permutation of the report order, and counts agree. */
  lemma {:induction false} ViewPermutes<V>(s: seq<Node<V>>)
    ensures multiset(View(s)) == multiset(s)
    ensures |View(s)| == |s|
    ensures forall i :: 0 <= i < |s| ==> View(s)[i] in s && s[i] in View(s)
  {
    SelectMultiset(s);
    assert |multiset(View(s))| == |multiset(s)|;
    forall i | 0 <= i < |s| ensures View(s)[i] in s && s[i] in View(s) {
      assert View(s)[i] in multiset(View(s)) && s[i] in multiset(s);
    }
  }

  lemma {:induction false} SelectMultiset<V>(s: seq<Node<V>>)
    ensures multiset(Select(s, false)) + multiset(Select(s, true)) == multiset(s)
  {
    if s != [] {
      var s', n := s[..|s| - 1], s[|s| - 1];
      SelectMultiset(s');
      assert s == s' + [n];
      assert multiset(s) == multiset(s') + multiset{n};
      var c := n.IsConnected();
      assert multiset(Select(s, c)) == multiset(Select(s', c)) + multiset{n};
      assert Select(s, !c) == Select(s', !c);
    }
  }

  lemma {:induction false} CountView<V>(s: seq<Node<V>>, p: Node<V> -> bool)
    ensures CountIf(p, View(s)) == CountIf(p, s)
  {
    CountConcat(p, Select(s, false), Select(s, true));
    CountSelect(s, p);
  }

  lemma {:induction false} CountSelect<V>(s: seq<Node<V>>, p: Node<V> -> bool)
    ensures CountIf(p, Select(s, false)) + CountIf(p, Select(s, true)) == CountIf(p, s)
  {
    if s != [] {
      var s', n := s[..|s| - 1], s[|s| - 1];
      CountSelect(s', p);
      CountConcat(p, Select(s', n.IsConnected()), [n]);
      assert Select(s, !n.IsConnected()) == Select(s', !n.IsConnected());
      assert CountIf(p, [n]) == (if p(n) then 1 else 0) by { assert [n][..0] == []; }
    }
  }

  lemma HasKeyMeans<V>(s: seq<Node<V>>, k: Key)
    ensures HasKey(s, k) <==> exists n :: n in s && n.key == k
  {
    if HasKey(s, k) { assert s[IndexOf(s, k)] in s; }
  }

  lemma ViewDistinct<V>(s: seq<Node<V>>)
    requires DistinctKeys(s)
    ensures DistinctKeys(View(s))
  {
    SelectMembers(s, false);
    SelectMembers(s, true);
    var d, c := Select(s, false), Select(s, true);
    forall i, j | 0 <= i < |d| && 0 <= j < |c| ensures d[i].key != c[j].key {
      assert d[i] in d && c[j] in c;
      assert d[i] in s && c[j] in s;
    }
  }

  lemma IndexOfUnique<V>(s: seq<Node<V>>, i: nat)
    requires DistinctKeys(s) && i < |s|
    ensures IndexOf(s, s[i].key) == i
  {
  }

  lemma WithoutKeys<V>(s: seq<Node<V>>, k: Key)
    requires DistinctKeys(s)
    ensures DistinctKeys(Without(s, k))
    ensures !HasKey(Without(s, k), k)
    ensures |Without(s, k)| == if HasKey(s, k) then |s| - 1 else |s|
  {
    var i, w := IndexOf(s, k), Without(s, k);
    forall j | 0 <= j < |w| ensures w[j].key != k {
      assert w[j] == s[if j < i then j else j + 1];
    }
  }

  lemma WithoutMembers<V>(s: seq<Node<V>>, k: Key)
    requires DistinctKeys(s)
    ensures forall n :: n in Without(s, k) <==> n in s && n.key != k
  {
    var i, w := IndexOf(s, k), Without(s, k);
    forall n ensures n in w <==> n in s && n.key != k {
      if n in s && n.key != k {
        var j :| 0 <= j < |s| && s[j] == n;
        assert w[if j < i then j else j - 1] == n;
      }
      if n in w {
        var j :| 0 <= j < |w| && w[j] == n;
        assert n == s[if j < i then j else j + 1];
      }
    }
  }

  /** Removing one key does not bring in another. */
  lemma WithoutHasNo<V>(s: seq<Node<V>>, k: Key, other: Key)
    requires !HasKey(s, other)
    ensures !HasKey(Without(s, k), other)
  {
    var i, w := IndexOf(s, k), Without(s, k);
    forall j | 0 <= j < |w| ensures w[j].key != other {
      assert w[j] == s[if j < i then j else j + 1];
    }
  }

  lemma CountWithout<V>(s: seq<Node<V>>, k: Key, p: Node<V> -> bool)
    ensures HasKey(s, k) ==>
              CountIf(p, s) == CountIf(p, Without(s, k)) + if p(s[IndexOf(s, k)]) then 1 else 0
  {
    var i := IndexOf(s, k);
    if i < |s| {
      assert s == (s[..i] + [s[i]]) + s[i + 1..];
      CountConcat(p, s[..i] + [s[i]], s[i + 1..]);
      CountConcat(p, s[..i], [s[i]]);
      CountConcat(p, s[..i], s[i + 1..]);
      assert [s[i]][..0] == [];
    }
  }

  lemma SelectOne<V>(a: seq<Node<V>>, x: Node<V>, b: seq<Node<V>>, c: bool)
    ensures Select(a + [x] + b, c) == if x.IsConnected() == c then Select(a, c) + [x] + Select(b, c)
                                      else Select(a, c) + Select(b, c)
    ensures Select(a + b, c) == Select(a, c) + Select(b, c)
  {
    SelectConcat(a + [x], b, c);
    SelectConcat(a, b, c);
    assert (a + [x])[..|a|] == a;
  }

  lemma WithoutMiddle<V>(l: seq<Node<V>>, x: Node<V>, r: seq<Node<V>>)
    requires DistinctKeys(l + [x] + r)
    ensures IndexOf(l + [x] + r, x.key) == |l|
    ensures Without(l + [x] + r, x.key) == l + r
  {
    var s := l + [x] + r;
    assert s[|l|] == x;
    IndexOfUnique(s, |l|);
  }

  lemma WithoutJoined<V>(d: seq<Node<V>>, e: seq<Node<V>>, f: seq<Node<V>>, x: Node<V>, g: seq<Node<V>>,
                         v: seq<Node<V>>)
    requires v == if x.IsConnected() then (d + e) + (f + [x] + g) else (d + [x] + e) + (f + g)
    requires DistinctKeys(v)
    ensures Without(v, x.key) == (d + e) + (f + g)
    ensures IndexOf(v, x.key) == if x.IsConnected() then |d| + |e| + |f| else |d|
    ensures HasKey(v, x.key) && v[IndexOf(v, x.key)] == x
  {
    var l, r := (if x.IsConnected() then d + e + f else d), (if x.IsConnected() then g else e + f + g);
    assert v == l + [x] + r;
    assert l + r == (d + e) + (f + g);
    WithoutMiddle(l, x, r);
  }

  lemma SplitAt<V>(s: seq<Node<V>>, k: Key, c: bool) returns (d: seq<Node<V>>, e: seq<Node<V>>)
    requires HasKey(s, k)
    ensures var x := s[IndexOf(s, k)];
            Select(s, c) == if x.IsConnected() == c then d + [x] + e else d + e
    ensures Select(Without(s, k), c) == d + e
  {
    var i := IndexOf(s, k);
    var a, x, b := s[..i], s[i], s[i + 1..];
    d, e := Select(a, c), Select(b, c);
    SelectOne(a, x, b, c);
    CutAt(s, i);
  }

  lemma CutAt<T>(s: seq<T>, i: nat)
    requires i < |s|
    ensures s == s[..i] + [s[i]] + s[i + 1..]
  {
  }

  /** Removing a stored key commutes with taking the stored order. */
  lemma WithoutView<V>(s: seq<Node<V>>, k: Key)
    requires DistinctKeys(s) && HasKey(s, k)
    ensures View(Without(s, k)) == Without(View(s), k)
    ensures HasKey(View(s), k)
    ensures View(s)[IndexOf(View(s), k)] == s[IndexOf(s, k)]
    ensures IndexOf(View(s), k) < |Select(s, false)| <==> !s[IndexOf(s, k)].IsConnected()
    ensures |Select(Without(s, k), false)| == |Select(s, false)| - if s[IndexOf(s, k)].IsConnected() then 0 else 1
    ensures |Select(Without(s, k), true)| == |Select(s, true)| - if s[IndexOf(s, k)].IsConnected() then 1 else 0
  {
    ViewDistinct(s);
    var d, e := SplitAt(s, k, false);
    var f, g := SplitAt(s, k, true);
    WithoutJoined(d, e, f, s[IndexOf(s, k)], g, View(s));
  }
}
