/** A bucket as a map from keys: what each operation makes of it and says about it, and what is known of each node in
    every run. */
module BucketLaws {
  import opened Lists
  import opened Wrappers
  import opened Keys
  import opened Buckets
  import opened BucketRuns

  /** The stored node of a key. */
  function Look<V>(s: seq<Node<V>>, k: Key): Option<Node<V>> {
    if HasKey(s, k) then Some(s[IndexOf(s, k)]) else None
  }

  lemma LookAppended<V>(s: seq<Node<V>>, n: Node<V>, k: Key)
    requires !HasKey(s, n.key)
    ensures Look(s + [n], k) == if k == n.key then Some(n) else Look(s, k)
  {
    var t, i := s + [n], IndexOf(s, k);
    assert forall j :: 0 <= j < |s| ==> t[j] == s[j];
    assert t[|s|] == n;
    if i < |s| {
      assert IndexOf(t, k) <= i;
      assert t[IndexOf(t, k)] == s[IndexOf(t, k)];
    } else if k == n.key {
      assert IndexOf(t, k) <= |s|;
    } else {
      assert forall j :: 0 <= j < |t| ==> t[j].key != k;
    }
  }

  lemma LookMember<V>(s: seq<Node<V>>, n: Node<V>)
    requires DistinctKeys(s)
    ensures n in s <==> Look(s, n.key) == Some(n)
  {
    if i :| 0 <= i < |s| && s[i] == n { IndexOfUnique(s, i); }
  }

  lemma LookWithout<V>(s: seq<Node<V>>, gone: Key, k: Key)
    requires DistinctKeys(s)
    ensures Look(Without(s, gone), k) == if k == gone then None else Look(s, k)
  {
    var w := Without(s, gone);
    WithoutKeys(s, gone);
    WithoutMembers(s, gone);
    if k != gone {
      if Look(s, k).Some? {
        LookMember(w, Look(s, k).value);
      } else {
        WithoutHasNo(s, gone, k);
      }
    }
  }

  lemma LookReplaced<V>(s: seq<Node<V>>, i: nat, n: Node<V>, k: Key)
    requires DistinctKeys(s) && i < |s| && s[i].key == n.key
    ensures Look(s[i := n], k) == if k == n.key then Some(n) else Look(s, k)
  {
    var t := s[i := n];
    ReplaceKeys(s, i, n);
    assert t[i] == n;
    if k == n.key {
      IndexOfUnique(t, i);
    } else if HasKey(s, k) {
      var j := IndexOf(s, k);
      assert t[j] == s[j];
      IndexOfUnique(t, j);
    }
  }

  // ----- What decides

  /** The bucket's filter says no to a value next to those of the nodes `others`. */
  ghost predicate Refused<V>(cfg: Config<V>, value: V, others: seq<Node<V>>) {
    cfg.filter.Some? && !cfg.filter.value(value, Values(View(others)))
  }

  function Incoming<V>(): Node<V> -> bool {
    (n: Node<V>) => n.status.state.Connected? && n.status.direction.Incoming?
  }

  /** A node of this status next to `others` would be one connected incoming node too many. */
  ghost predicate TooMany<V>(cfg: Config<V>, status: NodeStatus, others: seq<Node<V>>) {
    status.state.Connected? && status.direction.Incoming? && CountIf(Incoming(), others) >= cfg.maxIncoming
  }

  lemma {:induction false} CountIncoming<V>(s: seq<Node<V>>)
    ensures CountIf(Incoming(), s) == CountIf(IsConnectedIncoming, s)
  {
    if s != [] { CountIncoming(s[..|s| - 1]); }
  }

  ghost predicate AllConnected<V>(s: seq<Node<V>>) {
    forall i :: 0 <= i < |s| ==> s[i].status.state.Connected?
  }

  lemma {:induction false} NoneSelected<V>(s: seq<Node<V>>)
    ensures |Select(s, false)| == 0 <==> AllConnected(s)
  {
    if s != [] {
      var n := |s| - 1;
      NoneSelected(s[..n]);
      assert AllConnected(s) <==> AllConnected(s[..n]) && s[n].status.state.Connected?;
    }
  }

  lemma FirstStored<V>(s: seq<Node<V>>)
    requires !AllConnected(s)
    ensures |View(s)| > 0 && |Select(s, false)| > 0 && View(s)[0] == Select(s, false)[0]
    ensures View(s)[0] in s && !View(s)[0].status.state.Connected?
  {
    NoneSelected(s);
    SelectMembers(s, false);
  }

  // ----- One operation

  /** An insertion is decided by what is stored: known keys, the filter, the limit and full buckets refuse it, in this
      order; a connected node may wait for the place of the first stored one if that is disconnected. Exactly an
      inserted node becomes known, and nothing else changes. */
  lemma InsertDecides<V>(cfg: Config<V>, b: Bucket<V>, node: Node<V>, now: int, k: Key)
    requires Inv(cfg, b)
    ensures var (b', r) := InsertIn(cfg, b, node, now);
            && (r.NodeExists? <==> Look(b.recent, node.key).Some?)
            && (r.FailedFilter? <==> Look(b.recent, node.key).None? && Refused(cfg, node.value, b.recent))
            && (r.TooManyIncoming? <==> Look(b.recent, node.key).None? && !Refused(cfg, node.value, b.recent)
                                        && TooMany(cfg, node.status, b.recent))
            && (r.Inserted? ==> |b.recent| < MAX_NODES_PER_BUCKET)
            && (r.MadePending? || r.Full? ==> |b.recent| == MAX_NODES_PER_BUCKET)
            && (r.MadePending? ==> node.status.state.Connected? && b.pending.None? && !AllConnected(b.recent))
            && (r.Full? ==> !node.status.state.Connected? || b.pending.Some? || AllConnected(b.recent))
            && Look(b'.recent, k) == (if r.Inserted? && k == node.key then Some(node) else Look(b.recent, k))
            && (!r.Inserted? && !r.MadePending? ==> b' == b)
  {
    CountIncoming(b.recent);
    NoneSelected(b.recent);
    if InsertIn(cfg, b, node, now).1.Inserted? { LookAppended(b.recent, node, k); }
  }

  /** What an insertion does to the pending slot. */
  lemma InsertPends<V>(cfg: Config<V>, b: Bucket<V>, node: Node<V>, now: int)
    requires Inv(cfg, b)
    ensures var (b', r) := InsertIn(cfg, b, node, now);
            && (r.MadePending? ==>
                  && b'.recent == b.recent && b'.pending == Some(PendingNode(node, now + cfg.pendingTimeout))
                  && |View(b.recent)| > 0 && r.disconnected == View(b.recent)[0].key)
            && (r.Inserted? ==>
                  b'.pending == if b.pending.Some? && b.pending.value.node.key == node.key then None else b.pending)
  {
    NoneSelected(b.recent);
    if InsertIn(cfg, b, node, now).1.MadePending? { FirstStored(b.recent); }
  }

  /** The pending node may come in at `now`. */
  ghost predicate Ready<V>(b: Bucket<V>, now: int) {
    b.pending.Some? && b.pending.value.replace <= now
  }

  /** A pending node that is ready comes in if filter and limit allow it and there is room, or the first stored node is
      disconnected and makes room; otherwise it is dropped. Before it is ready nothing happens. */
  lemma ApplyDecides<V>(cfg: Config<V>, b: Bucket<V>, now: int, k: Key)
    requires Inv(cfg, b)
    ensures var (b', a) := ApplyPendingIn(cfg, b, now);
            && (!Ready(b, now) ==> b' == b && a.None?)
            && (Ready(b, now) ==>
                  var node := b.pending.value.node;
                  var room := |b.recent| < MAX_NODES_PER_BUCKET;
                  && b'.pending.None?
                  && (a.Some? <==> !Refused(cfg, node.value, b.recent) && !TooMany(cfg, node.status, b.recent)
                                   && (room || !AllConnected(b.recent)))
                  && (a.None? ==> b'.recent == b.recent)
                  && (a.Some? ==>
                        && a.value.inserted == node.key
                        && (if room then a.value.evicted.None?
                            else |View(b.recent)| > 0 && a.value.evicted == Some(View(b.recent)[0]))
                        && Look(b'.recent, k) ==
                             if k == node.key then Some(node)
                             else if a.value.evicted.Some? && k == a.value.evicted.value.key then None
                             else Look(b.recent, k)))
  {
    var (b', a) := ApplyPendingIn(cfg, b, now);
    CountIncoming(b.recent);
    NoneSelected(b.recent);
    if Ready(b, now) {
      var node := b.pending.value.node;
      if |b.recent| < MAX_NODES_PER_BUCKET {
        if a.Some? { LookAppended(b.recent, node, k); }
      } else if a.Some? {
        FirstStored(b.recent);
        var gone := View(b.recent)[0].key;
        LookWithout(b.recent, gone, k);
        WithoutHasNo(b.recent, gone, node.key);
        LookAppended(Without(b.recent, gone), node, k);
      }
    }
  }

  /** The status a report makes of an earlier one: the reported state, and the reported direction if one is given. */
  function ReportedStatus(was: NodeStatus, state: ConnectionState, direction: Option<ConnectionDirection>): NodeStatus {
    match direction
    case Some(d) => NodeStatus(d, state)
    case None => NodeStatus(was.direction, state)
  }

  /** What a report on a stored node says: refused by filter or limit next to the other nodes, no change, a change from
      disconnected to connected, or another change. */
  ghost predicate ReportSays<V>(cfg: Config<V>, others: seq<Node<V>>, n: Node<V>, status: NodeStatus, r: UpdateResult) {
    if Refused(cfg, n.value, others) then r == Failed(BucketFilter)
    else if TooMany(cfg, status, others) then r == Failed(IncomingLimit)
    else if n.status == status then r.NotModified?
    else if n.status.state.Disconnected? && status.state.Connected? then r.UpdatedAndPromoted?
    else r.Updated?
  }

  lemma ReinsertDecides<V>(cfg: Config<V>, taken: Bucket<V>, node: Node<V>, now: int, k: Key)
    requires Inv(cfg, taken) && Look(taken.recent, node.key).None? && |taken.recent| < MAX_NODES_PER_BUCKET
    requires taken.pending.Some? ==> taken.pending.value.node.key != node.key
    ensures var (b', r) := InsertIn(cfg, taken, node, now);
            && r == (if Refused(cfg, node.value, taken.recent) then FailedFilter
                     else if TooMany(cfg, node.status, taken.recent) then TooManyIncoming
                     else Inserted)
            && Look(b'.recent, k) == (if r.Inserted? && k == node.key then Some(node) else Look(taken.recent, k))
            && b'.pending == taken.pending && (r.Inserted? ==> b'.recent == taken.recent + [node])
  {
    InsertDecides(cfg, taken, node, now, k);
    InsertPends(cfg, taken, node, now);
  }

  lemma TakenOutLook<V>(cfg: Config<V>, b: Bucket<V>, key: Key, state: ConnectionState, k: Key)
    requires Inv(cfg, b) && Look(b.recent, key).Some?
    ensures var taken := TakenOut(b, key, state);
            && Inv(cfg, taken) && taken.recent == Without(b.recent, key) && |taken.recent| < MAX_NODES_PER_BUCKET
            && Look(taken.recent, k) == (if k == key then None else Look(b.recent, k))
            && |View(b.recent)| > 0
            && taken.pending == (if state.Connected? && View(b.recent)[0].key == key then None else b.pending)
            && (taken.pending.Some? ==> taken.pending.value.node.key != key)
  {
    WithoutKeys(b.recent, key);
    LookWithout(b.recent, key, k);
    TakenOutKeeps(cfg, b, key, state);
    ViewPermutes(b.recent);
    HeadOfView(b.recent, key);
  }

  lemma ReportingNode<V>(b: Bucket<V>, key: Key, state: ConnectionState, direction: Option<ConnectionDirection>)
    requires Look(b.recent, key).Some?
    ensures var n := Look(b.recent, key).value;
            Reporting(b, key, state, direction) == Node(key, n.value, ReportedStatus(n.status, state, direction))
  {
  }

  /** A status report sets the state, and the direction if one is given, of the node it names and of no other. A stored
      node that filter or limit then refuses is dropped. */
  lemma ReportDecides<V>(cfg: Config<V>, b: Bucket<V>, key: Key, state: ConnectionState,
                         direction: Option<ConnectionDirection>, now: int, k: Key)
    requires Inv(cfg, b) && Look(b.recent, key).Some?
    ensures var (b', r) := UpdateStatusIn(cfg, b, key, state, direction, now);
            var n := Look(b.recent, key).value;
            var status := ReportedStatus(n.status, state, direction);
            && ReportSays(cfg, Without(b.recent, key), n, status, r)
            && Look(b'.recent, k) ==
                 (if k != key then Look(b.recent, k)
                  else if r.Failed? then None
                  else Some(Node(key, n.value, status)))
            && (!r.Failed? ==> b'.recent == Without(b.recent, key) + [Node(key, n.value, status)])
            && |View(b.recent)| > 0
            && b'.pending == (if state.Connected? && View(b.recent)[0].key == key then None else b.pending)
  {
    TakenOutLook(cfg, b, key, state, k);
    TakenOutLook(cfg, b, key, state, key);
    ReportingNode(b, key, state, direction);
    ReinsertDecides(cfg, TakenOut(b, key, state), Reporting(b, key, state, direction), now, k);
  }

  lemma HeadOfView<V>(s: seq<Node<V>>, key: Key)
    ensures |View(s)| > 0 ==> (IndexOf(View(s), key) == 0 <==> View(s)[0].key == key)
  {
  }

  /** A report on the pending node sets its status; on any other key it fails and nothing changes. */
  lemma ReportElsewhere<V>(cfg: Config<V>, b: Bucket<V>, key: Key, state: ConnectionState,
                           direction: Option<ConnectionDirection>, now: int)
    requires Look(b.recent, key).None?
    ensures var (b', r) := UpdateStatusIn(cfg, b, key, state, direction, now);
            if b.pending.Some? && b.pending.value.node.key == key then
              var p := b.pending.value;
              && r.UpdatedPending? && b'.recent == b.recent
              && b'.pending ==
                 Some(PendingNode(Node(key, p.node.value, ReportedStatus(p.node.status, state, direction)),
                                                p.replace))
            else r == Failed(KeyNonExistent) && b' == b
  {
  }

  /** A new value replaces the old one in place, or drops the node if the filter refuses it next to the others. */
  lemma ValueDecides<V>(cfg: Config<V>, b: Bucket<V>, key: Key, value: V, k: Key)
    requires Inv(cfg, b)
    ensures var (b', r) := UpdateValueIn(cfg, b, key, value);
            match Look(b.recent, key)
            case Some(n) =>
              var refused := Refused(cfg, value, Without(b.recent, key));
              && r == (if n.value == value then NotModified else if refused then Failed(BucketFilter) else Updated)
              && b'.pending == b.pending
              && Look(b'.recent, k) ==
                   if k != key then Look(b.recent, k)
                   else if r.Failed? then None
                   else Some(Node(key, value, n.status))
            case None =>
              if b.pending.Some? && b.pending.value.node.key == key then
                var p := b.pending.value;
                && r.UpdatedPending? && b'.recent == b.recent
                && b'.pending == Some(PendingNode(Node(key, value, p.node.status), p.replace))
              else r == Failed(KeyNonExistent) && b' == b
  {
    if HasKey(b.recent, key) {
      var i := IndexOf(b.recent, key);
      LookWithout(b.recent, key, k);
      LookReplaced(b.recent, i, b.recent[i].(value := value), k);
    }
  }

  /** A removed node leaves, every other stays, and the pending node takes its place if it is ready and allowed. */
  lemma RemoveDecides<V>(cfg: Config<V>, b: Bucket<V>, key: Key, now: int, k: Key)
    requires Inv(cfg, b)
    ensures var (b', removed) := RemoveIn(cfg, b, key, now);
            && (removed <==> Look(b.recent, key).Some?)
            && (!removed ==> b' == b)
            && (removed ==>
                  var others := Without(b.recent, key);
                  var comes := Ready(b, now) && !Refused(cfg, b.pending.value.node.value, others)
                               && !TooMany(cfg, b.pending.value.node.status, others);
                  && Look(b'.recent, k) ==
                       (if comes && k == b.pending.value.node.key then Some(b.pending.value.node)
                        else if k == key then None
                        else Look(b.recent, k))
                  && b'.pending == if Ready(b, now) then None else b.pending)
  {
    if HasKey(b.recent, key) {
      var b1 := b.(recent := Without(b.recent, key));
      WithoutKeys(b.recent, key);
      LookWithout(b.recent, key, k);
      RemovalKeeps(cfg, b, key);
      ApplyDecides(cfg, b1, now, k);
    }
  }

  // ----- What is known of a node in every run

  /** What the last operation that took note of `k` said of its status: an insertion that was not refused, a report, or
      a new status for the pending node while that was `k`. */
  function LastStatus<V(==)>(cfg: Config<V>, ops: seq<Timed<V>>, k: Key): Option<NodeStatus> {
    if ops == [] then None
    else
      var init, t := ops[..|ops| - 1], ops[|ops| - 1];
      var b, before := Run(cfg, init), LastStatus(cfg, init, k);
      match t.op
      case OpInsert(node) =>
        var r := InsertIn(cfg, b, node, t.now).1;
        if node.key == k && (r.Inserted? || r.MadePending?) then Some(node.status) else before
      case OpUpdateStatus(key, state, direction) =>
        if key == k && before.Some? then Some(ReportedStatus(before.value, state, direction)) else before
      case OpUpdatePending(status) =>
        if b.pending.Some? && b.pending.value.node.key == k then Some(status) else before
      case _ => before
  }

  /** The same for its value. */
  function LastValue<V(==)>(cfg: Config<V>, ops: seq<Timed<V>>, k: Key): Option<V> {
    if ops == [] then None
    else
      var init, t := ops[..|ops| - 1], ops[|ops| - 1];
      var b, before := Run(cfg, init), LastValue(cfg, init, k);
      match t.op
      case OpInsert(node) =>
        var r := InsertIn(cfg, b, node, t.now).1;
        if node.key == k && (r.Inserted? || r.MadePending?) then Some(node.value) else before
      case OpUpdateValue(key, value) => if key == k && before.Some? then Some(value) else before
      case _ => before
  }

  /** All a bucket says of `k`, stored or pending, is what it was last told. */
  ghost predicate AsTold<V>(b: Bucket<V>, k: Key, status: Option<NodeStatus>, value: Option<V>) {
    && (Look(b.recent, k).Some? ==>
          status == Some(Look(b.recent, k).value.status) && value == Some(Look(b.recent, k).value.value))
    && (b.pending.Some? && b.pending.value.node.key == k ==>
          status == Some(b.pending.value.node.status) && value == Some(b.pending.value.node.value))
  }

  lemma ApplyAsTold<V>(cfg: Config<V>, b: Bucket<V>, now: int, k: Key, status: Option<NodeStatus>, value: Option<V>)
    requires Inv(cfg, b) && AsTold(b, k, status, value)
    ensures AsTold(ApplyPendingIn(cfg, b, now).0, k, status, value)
  {
    ApplyDecides(cfg, b, now, k);
  }

  lemma InsertAsTold<V>(cfg: Config<V>, b: Bucket<V>, node: Node<V>, now: int, k: Key, status: Option<NodeStatus>,
                        value: Option<V>)
    requires Inv(cfg, b) && AsTold(b, k, status, value)
    ensures var (b', r) := InsertIn(cfg, b, node, now);
            var taken := node.key == k && (r.Inserted? || r.MadePending?);
            AsTold(b', k, if taken then Some(node.status) else status, if taken then Some(node.value) else value)
  {
    InsertDecides(cfg, b, node, now, k);
    InsertPends(cfg, b, node, now);
  }

  lemma ReportAsTold<V>(cfg: Config<V>, b: Bucket<V>, key: Key, state: ConnectionState,
                        direction: Option<ConnectionDirection>, now: int, k: Key, status: Option<NodeStatus>,
                        value: Option<V>)
    requires Inv(cfg, b) && AsTold(b, k, status, value)
    ensures AsTold(UpdateStatusIn(cfg, b, key, state, direction, now).0, k,
                   if key == k && status.Some? then Some(ReportedStatus(status.value, state, direction)) else status,
                   value)
  {
    if Look(b.recent, key).Some? {
      ReportDecides(cfg, b, key, state, direction, now, k);
    } else {
      ReportElsewhere(cfg, b, key, state, direction, now);
    }
  }

  lemma ValueAsTold<V>(cfg: Config<V>, b: Bucket<V>, key: Key, v: V, k: Key, status: Option<NodeStatus>,
                       value: Option<V>)
    requires Inv(cfg, b) && AsTold(b, k, status, value)
    ensures AsTold(UpdateValueIn(cfg, b, key, v).0, k, status, if key == k && value.Some? then Some(v) else value)
  {
    ValueDecides(cfg, b, key, v, k);
  }

  lemma RemoveAsTold<V>(cfg: Config<V>, b: Bucket<V>, key: Key, now: int, k: Key, status: Option<NodeStatus>,
                        value: Option<V>)
    requires Inv(cfg, b) && AsTold(b, k, status, value)
    ensures AsTold(RemoveIn(cfg, b, key, now).0, k, status, value)
  {
    RemoveDecides(cfg, b, key, now, k);
  }

  /** In every run a stored or pending node has the status and the value of the last operation that named its key. */
  lemma {:induction false} StatusIsLastReport<V>(cfg: Config<V>, ops: seq<Timed<V>>, k: Key)
    ensures AsTold(Run(cfg, ops), k, LastStatus(cfg, ops, k), LastValue(cfg, ops, k))
  {
    if ops != [] {
      var init, t := ops[..|ops| - 1], ops[|ops| - 1];
      var b, status, value := Run(cfg, init), LastStatus(cfg, init, k), LastValue(cfg, init, k);
      StatusIsLastReport(cfg, init, k);
      RunKeeps(cfg, init);
      match t.op
      case OpInsert(node) => InsertAsTold(cfg, b, node, t.now, k, status, value);
      case OpRemove(key) => RemoveAsTold(cfg, b, key, t.now, k, status, value);
      case OpUpdateStatus(key, state, direction) =>
        ReportAsTold(cfg, b, key, state, direction, t.now, k, status, value);
      case OpUpdateValue(key, v) => ValueAsTold(cfg, b, key, v, k, status, value);
      case OpUpdatePending(s) =>
      case OpApplyPending => ApplyAsTold(cfg, b, t.now, k, status, value);
    }
  }
}
