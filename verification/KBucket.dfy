/** The k-bucket as it is stored: one list, the cached position of its first connected node, and the pending slot. */
module KBuckets {
  import opened Lists
  import opened Wrappers
  import opened Keys
  import opened Buckets
  import opened BucketRuns

  /** The cached position once the node at `removed` is gone and `len` nodes remain. */
  function AfterRemoval(first: Option<nat>, removed: nat, len: nat): Option<nat> {
    if first.None? then None
    else if removed < first.value then Some(first.value - 1)
    else if first.value < len then first
    else None
  }

  /** A stored list and its cached position hold a bucket that keeps the invariant. */
  ghost predicate Stores<V>(cfg: Config<V>, nodes: seq<Node<V>>, first: Option<nat>, b: Bucket<V>) {
    && Inv(cfg, b)
    && nodes == View(b.recent)
    && first == FirstConnected(b.recent)
  }

  function CheckedSub1(n: nat): Option<nat> {
    if n == 0 then None else Some(n - 1)
  }

  /** The same, as a status update computes it from the state of the node it took out. */
  function AfterTaking(first: Option<nat>, was: ConnectionState, removed: nat, len: nat): Option<nat> {
    match was
    case Connected => if first == Some(removed) && removed == len then None else first
    case Disconnected => if first.Some? then CheckedSub1(first.value) else None
  }

  class KBucket<V(==)> {
    const cfg: Config<V>
    var nodes: seq<Node<V>>
    var firstConnectedPos: Option<nat>
    var pending: Option<PendingNode<V>>

    /** The nodes by time of last status report. */
    ghost var recent: seq<Node<V>>

    ghost function Abs(): Bucket<V>
      reads this
    {
      Bucket(recent, pending)
    }

    ghost predicate Valid()
      reads this
    {
      Stores(cfg, nodes, firstConnectedPos, Abs())
    }

    constructor (cfg: Config<V>)
      ensures Valid() && this.cfg == cfg
      ensures Abs() == Bucket([], None)
    {
      this.cfg := cfg;
      nodes, firstConnectedPos, pending, recent := [], None, None, [];
    }

    method IsMaxIncoming() returns (b: bool)
      requires Valid()
      ensures b == (CountIf(IsConnectedIncoming, recent) >= cfg.maxIncoming)
    {
      CountView(recent, IsConnectedIncoming);
      b := CountIf(IsConnectedIncoming, nodes) >= cfg.maxIncoming;
    }

    /** Stores a node where its status puts it; the caller has checked the limits. */
    method Place(node: Node<V>)
      requires Valid() && |nodes| < MAX_NODES_PER_BUCKET && !HasKey(recent, node.key)
      requires IsConnectedIncoming(node) ==> CountIf(IsConnectedIncoming, recent) < cfg.maxIncoming
      requires pending.Some? ==> pending.value.node.key != node.key
      modifies this
      ensures Valid()
      ensures Abs() == Bucket(old(recent) + [node], old(pending))
    {
      PlaceStores(cfg, nodes, firstConnectedPos, Abs(), node);
      var first := firstConnectedPos;
      if node.IsConnected() {
        firstConnectedPos := if first.Some? then first else Some(|nodes|);
        nodes := nodes + [node];
      } else if first.Some? {
        nodes := nodes[..first.value] + [node] + nodes[first.value..];
        firstConnectedPos := Some(first.value + 1);
      } else {
        nodes := nodes + [node];
      }
      recent := recent + [node];
    }

    method Insert(node: Node<V>, now: int) returns (r: InsertResult)
      requires Valid()
      modifies this
      ensures Valid()
      ensures (Abs(), r) == InsertIn(cfg, old(Abs()), node, now)
    {
      ViewHasKey(recent, node.key);
      HeadConnected(recent);
      if HasKey(nodes, node.key) {
        return NodeExists;
      }
      if cfg.filter.Some? && !cfg.filter.value(node.value, Values(nodes)) {
        return FailedFilter;
      }
      var isMax := IsMaxIncoming();
      if node.IsConnected() && node.status.direction.Incoming? && isMax {
        return TooManyIncoming;
      }
      if |nodes| == MAX_NODES_PER_BUCKET {
        if !node.IsConnected() || firstConnectedPos == Some(0) || pending.Some? {
          return Full;
        }
        pending := Some(PendingNode(node, now + cfg.pendingTimeout));
        return MadePending(nodes[0].key);
      }
      if pending.Some? && pending.value.node.key == node.key {
        pending := None;
      }
      Place(node);
      return Inserted;
    }

    /** Puts `node` in place of the first stored node, which is disconnected; the caller has checked the limits. */
    method Replace(node: Node<V>)
      requires Valid() && nodes != [] && !nodes[0].IsConnected() && !HasKey(recent, node.key)
      requires IsConnectedIncoming(node) ==> CountIf(IsConnectedIncoming, recent) < cfg.maxIncoming
      requires pending.None?
      modifies this
      ensures Valid()
      ensures Abs() == Bucket(Without(old(recent), old(nodes[0]).key) + [node], None)
    {
      ReplaceStores(cfg, nodes, firstConnectedPos, Abs(), node);
      ghost var recent' := Without(recent, nodes[0].key) + [node];
      var first := firstConnectedPos;
      nodes := nodes[1..];
      if node.IsConnected() {
        firstConnectedPos := if first.None? then Some(|nodes|) else CheckedSub1(first.value);
        nodes := nodes + [node];
      } else if first.Some? {
        nodes := nodes[..first.value - 1] + [node] + nodes[first.value - 1..];
      } else {
        nodes := nodes + [node];
      }
      recent := recent';
    }

    method ApplyPending(now: int) returns (applied: Option<AppliedPending<V>>)
      requires Valid()
      modifies this
      ensures Valid()
      ensures (Abs(), applied) == ApplyPendingIn(cfg, old(Abs()), now)
    {
      ViewLength(recent);
      if pending.None? || pending.value.replace > now {
        return None;
      }
      var node := pending.value.node;
      pending := None;
      if |nodes| == MAX_NODES_PER_BUCKET {
        HeadConnected(recent);
        if nodes[0].IsConnected() {
          return None;
        }
        if cfg.filter.Some? && !cfg.filter.value(node.value, Values(nodes)) {
          return None;
        }
        var isMax := IsMaxIncoming();
        if node.IsConnected() && node.status.direction.Incoming? && isMax {
          return None;
        }
        var evicted := nodes[0];
        Replace(node);
        return Some(AppliedPending(node.key, Some(evicted)));
      } else {
        var r := Insert(node, now);
        if r.Inserted? {
          return Some(AppliedPending(node.key, None));
        }
        if r.Full? || r.MadePending? || r.NodeExists? {
          assert false;
        }
        return None;
      }
    }

    method UpdatePending(status: NodeStatus)
      requires Valid()
      modifies this
      ensures Valid()
      ensures Abs() == UpdatePendingIn(old(Abs()), status)
    {
      if pending.Some? {
        pending := Some(pending.value.(node := pending.value.node.(status := status)));
      }
    }

    /** First half of a status update: takes the node at `pos` out and adjusts the cached position and the pending
        slot. */
    method RemoveForStatus(key: Key, pos: nat, state: ConnectionState)
      requires Valid() && pos < |nodes| && pos == IndexOf(nodes, key)
      modifies this
      ensures Valid() && !HasKey(recent, key)
      ensures |recent| < MAX_NODES_PER_BUCKET
      ensures Abs() == TakenOut(old(Abs()), key, state)
    {
      RemoveStores(cfg, nodes, firstConnectedPos, Abs(), key);
      var was := nodes[pos];
      nodes := nodes[..pos] + nodes[pos + 1..];
      firstConnectedPos := AfterTaking(firstConnectedPos, was.status.state, pos, |nodes|);
      if pos == 0 && state.Connected? {
        pending := None;
      }
      recent := Without(recent, key);
    }

    /** Inserts a node just taken out. */
    method PutBack(was: NodeStatus, node: Node<V>, now: int) returns (r: UpdateResult)
      requires Valid() && !HasKey(recent, node.key) && |recent| < MAX_NODES_PER_BUCKET
      modifies this
      ensures Valid()
      ensures (Abs(), r) == Reinsert(cfg, old(Abs()), was, node, now)
    {
      var inserted := Insert(node, now);
      if inserted.NodeExists? || inserted.Full? || inserted.MadePending? {
        assert false;
      }
      return StatusResult(was, node.status, inserted);
    }

    method UpdateStatus(key: Key, state: ConnectionState, direction: Option<ConnectionDirection>, now: int)
      returns (r: UpdateResult)
      requires Valid()
      modifies this
      ensures Valid()
      ensures (Abs(), r) == UpdateStatusIn(cfg, old(Abs()), key, state, direction, now)
    {
      ViewHasKey(recent, key);
      var pos := IndexOf(nodes, key);
      if pos < |nodes| {
        RemovedView(recent, key);
        var was := nodes[pos];
        RemoveForStatus(key, pos, state);
        r := PutBack(was.status, WithStatus(was, Restate(was.status, state, direction)), now);
      } else if pending.Some? && pending.value.node.key == key {
        var p := pending.value;
        pending := Some(p.(node := WithStatus(p.node, Restate(p.node.status, state, direction))));
        return UpdatedPending;
      } else {
        return Failed(KeyNonExistent);
      }
    }

    /** Takes the node at `pos` out for good. */
    method RemoveAt(key: Key, pos: nat)
      requires Valid() && pos < |nodes| && pos == IndexOf(nodes, key)
      modifies this
      ensures Valid()
      ensures Abs() == old(Abs()).(recent := Without(old(recent), key))
    {
      RemoveStores(cfg, nodes, firstConnectedPos, Abs(), key);
      nodes := nodes[..pos] + nodes[pos + 1..];
      firstConnectedPos := AfterRemoval(firstConnectedPos, pos, |nodes|);
      recent := Without(recent, key);
    }

    method SetValue(key: Key, pos: nat, value: V)
      requires Valid() && pos < |nodes| && pos == IndexOf(nodes, key)
      modifies this
      ensures Valid() && HasKey(old(recent), key)
      ensures var i := IndexOf(old(recent), key);
              Abs() == old(Abs()).(recent := old(recent)[i := old(recent)[i].(value := value)])
    {
      SetValueStores(cfg, nodes, firstConnectedPos, Abs(), key, value);
      ghost var i := IndexOf(recent, key);
      nodes := nodes[pos := nodes[pos].(value := value)];
      recent := recent[i := recent[i].(value := value)];
    }

    method UpdateValue(key: Key, value: V) returns (r: UpdateResult)
      requires Valid()
      modifies this
      ensures Valid()
      ensures (Abs(), r) == UpdateValueIn(cfg, old(Abs()), key, value)
    {
      ViewHasKey(recent, key);
      var pos := IndexOf(nodes, key);
      if pos < |nodes| {
        RemovedView(recent, key);
        var node := nodes[pos];
        if node.value == value {
          return NotModified;
        }
        if cfg.filter.Some? && !cfg.filter.value(value, Values(nodes[..pos] + nodes[pos + 1..])) {
          RemoveAt(key, pos);
          return Failed(BucketFilter);
        }
        SetValue(key, pos, value);
        return Updated;
      } else if pending.Some? && pending.value.node.key == key {
        var p := pending.value;
        pending := Some(p.(node := p.node.(value := value)));
        return UpdatedPending;
      } else {
        return Failed(KeyNonExistent);
      }
    }

    method Remove(key: Key, now: int) returns (existed: bool)
      requires Valid()
      modifies this
      ensures Valid()
      ensures (Abs(), existed) == RemoveIn(cfg, old(Abs()), key, now)
    {
      ViewHasKey(recent, key);
      var pos := IndexOf(nodes, key);
      if pos < |nodes| {
        RemoveAt(key, pos);
        var _ := ApplyPending(now);
        return true;
      } else {
        return false;
      }
    }
  }

  lemma ViewLength<V>(s: seq<Node<V>>)
    ensures |View(s)| == |s|
  {
    ViewPermutes(s);
  }

  lemma ViewHasKey<V>(s: seq<Node<V>>, k: Key)
    ensures HasKey(View(s), k) == HasKey(s, k)
    ensures |View(s)| == |s|
  {
    ViewPermutes(s);
    HasKeyMeans(s, k);
    HasKeyMeans(View(s), k);
  }

  /** The first stored node is connected exactly when all are. */
  lemma HeadConnected<V>(s: seq<Node<V>>)
    ensures View(s) != [] ==> (View(s)[0].IsConnected() <==> |Select(s, false)| == 0)
    ensures |Select(s, false)| > 0 ==> View(s)[0] == Select(s, false)[0]
  {
    SelectMembers(s, false);
    SelectMembers(s, true);
  }

  lemma AppendView<V>(s: seq<Node<V>>, node: Node<V>)
    ensures var p := FirstConnected(s);
            && View(s + [node]) == (if node.IsConnected() || p.None? then View(s) + [node]
                                    else View(s)[..p.value] + [node] + View(s)[p.value..])
            && FirstConnected(s + [node]) == (if p.None? then (if node.IsConnected() then Some(|View(s)|) else None)
                                              else if node.IsConnected() then p else Some(p.value + 1))
  {
    assert (s + [node])[..|s|] == s;
  }

  /** Removing a stored key, as seen by the stored list and the cached position. */
  lemma RemovedView<V>(s: seq<Node<V>>, key: Key)
    requires DistinctKeys(s) && HasKey(View(s), key)
    ensures HasKey(s, key) && !HasKey(Without(s, key), key)
    ensures |View(s)| == |s| && |Without(s, key)| == |s| - 1
    ensures var pos, v := IndexOf(View(s), key), View(s);
            && v[pos] == s[IndexOf(s, key)]
            && View(Without(s, key)) == v[..pos] + v[pos + 1..]
  {
    ViewHasKey(s, key);
    WithoutView(s, key);
    WithoutKeys(s, key);
  }

  lemma RemovedFirst<V>(s: seq<Node<V>>, key: Key)
    requires DistinctKeys(s) && HasKey(s, key)
    ensures var pos, was := IndexOf(View(s), key), s[IndexOf(s, key)].status.state;
            && FirstConnected(Without(s, key)) == AfterRemoval(FirstConnected(s), pos, |s| - 1)
            && FirstConnected(Without(s, key)) == AfterTaking(FirstConnected(s), was, pos, |s| - 1)
  {
    WithoutView(s, key);
    ViewLength(s);
    var d, c := |Select(s, false)|, |Select(s, true)|;
    var pos, was := IndexOf(View(s), key), s[IndexOf(s, key)].status.state;
    FirstIs(s, d, c);
    FirstIs(Without(s, key), if was.Connected? then d else d - 1, if was.Connected? then c - 1 else c);
    FirstAfter(d, c, pos, was);
  }

  lemma FirstIs<V>(s: seq<Node<V>>, d: int, c: int)
    requires |Select(s, false)| == d && |Select(s, true)| == c
    ensures FirstConnected(s) == if c == 0 then None else Some(d as nat)
  {
  }

  /** The two ways of adjusting the cached position give the new split point. */
  lemma FirstAfter(d: nat, c: nat, pos: nat, was: ConnectionState)
    requires pos < d + c && (pos < d <==> was.Disconnected?)
    ensures var first := if c == 0 then None else Some(d);
            var d', c' := (if was.Disconnected? then d - 1 else d), (if was.Disconnected? then c else c - 1);
            var first' := if c' == 0 then None else Some(d');
            first' == AfterRemoval(first, pos, d + c - 1) == AfterTaking(first, was, pos, d + c - 1)
  {
  }

  /** Evicting the first stored node and appending `node` to the report order. */
  lemma ReplaceHead<V>(s: seq<Node<V>>, node: Node<V>)
    requires DistinctKeys(s) && View(s) != [] && !View(s)[0].IsConnected()
    ensures var v, p := View(s), FirstConnected(s);
            var t := Without(s, v[0].key) + [node];
            && (p.Some? ==> 0 < p.value <= |v|)
            && View(t) == (if node.IsConnected() || p.None? then v[1..] + [node]
                           else v[1..][..p.value - 1] + [node] + v[1..][p.value - 1..])
            && FirstConnected(t) == (if p.None? then (if node.IsConnected() then Some(|v| - 1) else None)
                                     else if node.IsConnected() then Some(p.value - 1) else p)
  {
    var k := View(s)[0].key;
    RemovedHead(s);
    AppendView(Without(s, k), node);
  }

  lemma RemovedHead<V>(s: seq<Node<V>>)
    requires DistinctKeys(s) && View(s) != [] && !View(s)[0].IsConnected()
    ensures var v, p := View(s), FirstConnected(s);
            var t := Without(s, v[0].key);
            && (p.Some? ==> 0 < p.value <= |v|)
            && View(t) == v[1..] && |v[1..]| == |v| - 1
            && FirstConnected(t) == if p.None? then None else Some(p.value - 1)
  {
    var v, k := View(s), View(s)[0].key;
    assert HasKey(v, k) && IndexOf(v, k) == 0;
    RemovedView(s, k);
    RemovedFirst(s, k);
    assert v[..0] + v[1..] == v[1..];
    HeadConnected(s);
  }

  lemma ReplaceKeeps<V>(cfg: Config<V>, b: Bucket<V>, k: Key, node: Node<V>)
    requires Inv(cfg, b) && HasKey(View(b.recent), k) && !HasKey(b.recent, node.key) && b.pending.None?
    requires IsConnectedIncoming(node) ==> CountIf(IsConnectedIncoming, b.recent) < cfg.maxIncoming
    ensures Inv(cfg, Bucket(Without(b.recent, k) + [node], None))
  {
    ViewHasKey(b.recent, k);
    RemovalKeeps(cfg, b, k);
    WithoutKeys(b.recent, k);
    CountWithout(b.recent, k, IsConnectedIncoming);
    WithoutHasNo(b.recent, k, node.key);
    AppendKeeps(cfg, b.(recent := Without(b.recent, k)), node);
  }

  lemma ReplaceSelect<V>(s: seq<Node<V>>, i: nat, n: Node<V>, c: bool) returns (d: seq<Node<V>>, e: seq<Node<V>>)
    requires i < |s| && n.IsConnected() == s[i].IsConnected()
    ensures Select(s[i := n], c) == if n.IsConnected() == c then d + [n] + e else d + e
    ensures Select(s, c) == if n.IsConnected() == c then d + [s[i]] + e else d + e
    ensures |Select(s[i := n], c)| == |Select(s, c)|
  {
    d, e := Select(s[..i], c), Select(s[i + 1..], c);
    SelectOne(s[..i], n, s[i + 1..], c);
    SelectOne(s[..i], s[i], s[i + 1..], c);
    CutAt(s, i);
    CutUpdate(s, i, n);
  }

  lemma CutUpdate<T>(s: seq<T>, i: nat, x: T)
    requires i < |s|
    ensures s[i := x] == s[..i] + [x] + s[i + 1..]
  {
  }

  lemma ReplaceJoined<V>(d: seq<Node<V>>, e: seq<Node<V>>, f: seq<Node<V>>, g: seq<Node<V>>, x: Node<V>, n: Node<V>)
    requires x.IsConnected() == n.IsConnected()
    ensures x.IsConnected() ==>
              ((d + e) + (f + [x] + g))[|d| + |e| + |f| := n] == (d + e) + (f + [n] + g)
    ensures !x.IsConnected() ==>
              ((d + [x] + e) + (f + g))[|d| := n] == (d + [n] + e) + (f + g)
  {
  }

  /** Changing the value of a stored node leaves its place in the stored order. */
  lemma ReplaceValue<V>(s: seq<Node<V>>, k: Key, value: V)
    requires DistinctKeys(s) && HasKey(s, k)
    ensures HasKey(View(s), k)
    ensures var i, pos := IndexOf(s, k), IndexOf(View(s), k);
            View(s[i := s[i].(value := value)]) == View(s)[pos := s[i].(value := value)]
    ensures FirstConnected(s[IndexOf(s, k) := s[IndexOf(s, k)].(value := value)]) == FirstConnected(s)
  {
    var i := IndexOf(s, k);
    var x, n := s[i], s[i].(value := value);
    var d, e := ReplaceSelect(s, i, n, false);
    var f, g := ReplaceSelect(s, i, n, true);
    ViewDistinct(s);
    WithoutJoined(d, e, f, x, g, View(s));
    ReplaceJoined(d, e, f, g, x, n);
  }

  lemma SetValueKeeps<V>(cfg: Config<V>, b: Bucket<V>, k: Key, value: V)
    requires Inv(cfg, b) && HasKey(b.recent, k)
    ensures var i := IndexOf(b.recent, k);
            Inv(cfg, b.(recent := b.recent[i := b.recent[i].(value := value)]))
  {
    var i := IndexOf(b.recent, k);
    CountUpdate(IsConnectedIncoming, b.recent, i, b.recent[i].(value := value));
    ReplaceKeys(b.recent, i, b.recent[i].(value := value));
  }

  // ----- The stored form after each change

  lemma PlaceStores<V>(cfg: Config<V>, nodes: seq<Node<V>>, first: Option<nat>, b: Bucket<V>, node: Node<V>)
    requires Stores(cfg, nodes, first, b) && |nodes| < MAX_NODES_PER_BUCKET && !HasKey(b.recent, node.key)
    requires IsConnectedIncoming(node) ==> CountIf(IsConnectedIncoming, b.recent) < cfg.maxIncoming
    requires b.pending.Some? ==> b.pending.value.node.key != node.key
    ensures first.Some? ==> first.value <= |nodes|
    ensures var b' := b.(recent := b.recent + [node]);
            if node.IsConnected() then
              Stores(cfg, nodes + [node], if first.Some? then first else Some(|nodes|), b')
            else if first.Some? then
              Stores(cfg, nodes[..first.value] + [node] + nodes[first.value..], Some(first.value + 1), b')
            else Stores(cfg, nodes + [node], None, b')
  {
    ViewLength(b.recent);
    AppendView(b.recent, node);
    AppendKeeps(cfg, b, node);
  }

  lemma ReplaceStores<V>(cfg: Config<V>, nodes: seq<Node<V>>, first: Option<nat>, b: Bucket<V>, node: Node<V>)
    requires Stores(cfg, nodes, first, b) && nodes != [] && !nodes[0].IsConnected() && !HasKey(b.recent, node.key)
    requires IsConnectedIncoming(node) ==> CountIf(IsConnectedIncoming, b.recent) < cfg.maxIncoming
    requires b.pending.None?
    ensures first.Some? ==> 0 < first.value <= |nodes|
    ensures var b' := Bucket(Without(b.recent, nodes[0].key) + [node], None);
            if node.IsConnected() then
              Stores(cfg, nodes[1..] + [node], if first.None? then Some(|nodes| - 1) else Some(first.value - 1), b')
            else if first.Some? then
              Stores(cfg, nodes[1..][..first.value - 1] + [node] + nodes[1..][first.value - 1..], first, b')
            else Stores(cfg, nodes[1..] + [node], None, b')
  {
    ReplaceHead(b.recent, node);
    ReplaceKeeps(cfg, b, nodes[0].key, node);
  }

  lemma RemoveStores<V>(cfg: Config<V>, nodes: seq<Node<V>>, first: Option<nat>, b: Bucket<V>, key: Key)
    requires Stores(cfg, nodes, first, b) && HasKey(nodes, key)
    ensures HasKey(b.recent, key) && nodes[IndexOf(nodes, key)] == b.recent[IndexOf(b.recent, key)]
    ensures !HasKey(Without(b.recent, key), key) && |Without(b.recent, key)| < MAX_NODES_PER_BUCKET
    ensures var pos := IndexOf(nodes, key);
            var rest, b' := nodes[..pos] + nodes[pos + 1..], b.(recent := Without(b.recent, key));
            && Stores(cfg, rest, AfterRemoval(first, pos, |rest|), b')
            && Stores(cfg, rest, AfterTaking(first, nodes[pos].status.state, pos, |rest|), b')
            && Stores(cfg, rest, AfterTaking(first, nodes[pos].status.state, pos, |rest|), b'.(pending := None))
  {
    RemovedView(b.recent, key);
    RemovedFirst(b.recent, key);
    RemovalKeeps(cfg, b, key);
  }

  lemma SetValueStores<V>(cfg: Config<V>, nodes: seq<Node<V>>, first: Option<nat>, b: Bucket<V>, key: Key, value: V)
    requires Stores(cfg, nodes, first, b) && HasKey(nodes, key)
    ensures HasKey(b.recent, key)
    ensures var pos, i := IndexOf(nodes, key), IndexOf(b.recent, key);
            Stores(cfg, nodes[pos := nodes[pos].(value := value)], first,
                   b.(recent := b.recent[i := b.recent[i].(value := value)]))
  {
    RemovedView(b.recent, key);
    ReplaceValue(b.recent, key, value);
    SetValueKeeps(cfg, b, key, value);
  }
}
