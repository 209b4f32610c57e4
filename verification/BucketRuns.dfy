/** What every k-bucket keeps, over every run of its operations. */
module BucketRuns {
  import opened Lists
  import opened Wrappers
  import opened Keys
  import opened Buckets

  // ----- One step

  lemma AppendKeeps<V>(cfg: Config<V>, b: Bucket<V>, node: Node<V>)
    requires Inv(cfg, b) && |b.recent| < MAX_NODES_PER_BUCKET && !HasKey(b.recent, node.key)
    requires IsConnectedIncoming(node) ==> CountIf(IsConnectedIncoming, b.recent) < cfg.maxIncoming
    requires b.pending.Some? ==> b.pending.value.node.key != node.key
    ensures Inv(cfg, b.(recent := b.recent + [node]))
  {
    var s, t := b.recent, b.recent + [node];
    assert t[..|s|] == s;
    if b.pending.Some? {
      var k := b.pending.value.node.key;
      assert forall j :: 0 <= j < |t| ==> t[j].key != k;
    }
  }

  lemma RemovalKeeps<V>(cfg: Config<V>, b: Bucket<V>, k: Key)
    requires Inv(cfg, b)
    ensures Inv(cfg, b.(recent := Without(b.recent, k)))
  {
    WithoutKeys(b.recent, k);
    CountWithout(b.recent, k, IsConnectedIncoming);
    if b.pending.Some? {
      WithoutHasNo(b.recent, k, b.pending.value.node.key);
    }
  }

  lemma InsertKeeps<V>(cfg: Config<V>, b: Bucket<V>, node: Node<V>, now: int)
    requires Inv(cfg, b)
    ensures Inv(cfg, InsertIn(cfg, b, node, now).0)
  {
    var (b', r) := InsertIn(cfg, b, node, now);
    if r.Inserted? {
      AppendKeeps(cfg, b.(pending := b'.pending), node);
    }
  }

  lemma ApplyPendingKeeps<V>(cfg: Config<V>, b: Bucket<V>, now: int)
    requires Inv(cfg, b)
    ensures Inv(cfg, ApplyPendingIn(cfg, b, now).0)
  {
    if b.pending.Some? && b.pending.value.replace <= now {
      var node := b.pending.value.node;
      var d := Select(b.recent, false);
      if |b.recent| < MAX_NODES_PER_BUCKET {
        InsertKeeps(cfg, b.(pending := None), node, now);
      } else if ApplyPendingIn(cfg, b, now).1.Some? {
        SelectMembers(b.recent, false);
        HasKeyMeans(b.recent, d[0].key);
        WithoutKeys(b.recent, d[0].key);
        WithoutHasNo(b.recent, d[0].key, node.key);
        RemovalKeeps(cfg, b, d[0].key);
        CountWithout(b.recent, d[0].key, IsConnectedIncoming);
        AppendKeeps(cfg, Bucket(Without(b.recent, d[0].key), None), node);
      }
    }
  }

  /** Applying a pending node evicts at most the first stored node, and only if that one is disconnected. */
  lemma ApplyPendingEvicts<V>(cfg: Config<V>, b: Bucket<V>, now: int)
    requires Inv(cfg, b)
    ensures var (b', applied) := ApplyPendingIn(cfg, b, now);
            && (applied.Some? && applied.value.evicted.Some? ==>
                  && b.recent != [] && View(b.recent) != [] && applied.value.evicted.value == View(b.recent)[0]
                  && !View(b.recent)[0].IsConnected() && |b'.recent| == |b.recent| == MAX_NODES_PER_BUCKET)
            && (forall n :: n in b.recent && n.IsConnected() ==> n in b'.recent)
            && |b'.recent| >= |b.recent|
  {
    var (b', applied) := ApplyPendingIn(cfg, b, now);
    if applied.Some? && applied.value.evicted.Some? {
      var d := Select(b.recent, false);
      SelectMembers(b.recent, false);
      HasKeyMeans(b.recent, d[0].key);
      WithoutKeys(b.recent, d[0].key);
      WithoutMembers(b.recent, d[0].key);
      forall n | n in b.recent && n.IsConnected() ensures n in b'.recent {
        assert d[0] in b.recent;
        assert n in Without(b.recent, d[0].key);
      }
    }
  }

  lemma UpdateStatusKeeps<V>(cfg: Config<V>, b: Bucket<V>, key: Key, state: ConnectionState,
                             direction: Option<ConnectionDirection>, now: int)
    requires Inv(cfg, b)
    ensures Inv(cfg, UpdateStatusIn(cfg, b, key, state, direction, now).0)
    ensures HasKey(b.recent, key) ==>
              UpdateStatusIn(cfg, b, key, state, direction, now).1 !in {Failed(BucketFull), Failed(KeyNonExistent)}
  {
    if HasKey(b.recent, key) {
      TakenOutKeeps(cfg, b, key, state);
      InsertKeeps(cfg, TakenOut(b, key, state), Reporting(b, key, state, direction), now);
    }
  }

  lemma TakenOutKeeps<V>(cfg: Config<V>, b: Bucket<V>, key: Key, state: ConnectionState)
    requires Inv(cfg, b)
    ensures Inv(cfg, TakenOut(b, key, state))
  {
    RemovalKeeps(cfg, b, key);
  }

  lemma ReplaceKeys<V>(s: seq<Node<V>>, i: nat, n: Node<V>)
    requires DistinctKeys(s) && i < |s| && s[i].key == n.key
    ensures DistinctKeys(s[i := n])
    ensures forall k :: HasKey(s[i := n], k) == HasKey(s, k)
  {
    var t := s[i := n];
    assert forall j :: 0 <= j < |s| ==> t[j].key == s[j].key;
    forall k ensures HasKey(t, k) == HasKey(s, k) {
      if HasKey(s, k) { assert t[IndexOf(s, k)].key == k; }
      if HasKey(t, k) { assert s[IndexOf(t, k)].key == k; }
    }
  }

  lemma UpdateValueKeeps<V>(cfg: Config<V>, b: Bucket<V>, key: Key, value: V)
    requires Inv(cfg, b)
    ensures Inv(cfg, UpdateValueIn(cfg, b, key, value).0)
  {
    if HasKey(b.recent, key) {
      var i := IndexOf(b.recent, key);
      var n := b.recent[i].(value := value);
      RemovalKeeps(cfg, b, key);
      CountUpdate(IsConnectedIncoming, b.recent, i, n);
      ReplaceKeys(b.recent, i, n);
    }
  }

  lemma RemoveKeeps<V>(cfg: Config<V>, b: Bucket<V>, key: Key, now: int)
    requires Inv(cfg, b)
    ensures Inv(cfg, RemoveIn(cfg, b, key, now).0)
  {
    RemovalKeeps(cfg, b, key);
    ApplyPendingKeeps(cfg, b.(recent := Without(b.recent, key)), now);
  }

  // ----- Runs

  datatype Op<V> =
    | OpInsert(node: Node<V>)
    | OpRemove(key: Key)
    | OpUpdateStatus(key: Key, state: ConnectionState, direction: Option<ConnectionDirection>)
    | OpUpdateValue(key: Key, value: V)
    | OpUpdatePending(status: NodeStatus)
    | OpApplyPending

  /** An operation and the time it reads from the clock. */
  datatype Timed<V> = At(op: Op<V>, now: int)

  function Step<V(==)>(cfg: Config<V>, b: Bucket<V>, t: Timed<V>): Bucket<V> {
    match t.op
    case OpInsert(node) => InsertIn(cfg, b, node, t.now).0
    case OpRemove(key) => RemoveIn(cfg, b, key, t.now).0
    case OpUpdateStatus(key, state, direction) => UpdateStatusIn(cfg, b, key, state, direction, t.now).0
    case OpUpdateValue(key, value) => UpdateValueIn(cfg, b, key, value).0
    case OpUpdatePending(status) => UpdatePendingIn(b, status)
    case OpApplyPending => ApplyPendingIn(cfg, b, t.now).0
  }

  function Run<V(==)>(cfg: Config<V>, ops: seq<Timed<V>>): Bucket<V> {
    if ops == [] then Bucket([], None) else Step(cfg, Run(cfg, ops[..|ops| - 1]), ops[|ops| - 1])
  }

  lemma StepKeeps<V>(cfg: Config<V>, b: Bucket<V>, t: Timed<V>)
    requires Inv(cfg, b)
    ensures Inv(cfg, Step(cfg, b, t))
  {
    match t.op
    case OpInsert(node) => InsertKeeps(cfg, b, node, t.now);
    case OpRemove(key) => RemoveKeeps(cfg, b, key, t.now);
    case OpUpdateStatus(key, state, direction) => UpdateStatusKeeps(cfg, b, key, state, direction, t.now);
    case OpUpdateValue(key, value) => UpdateValueKeeps(cfg, b, key, value);
    case OpUpdatePending(status) =>
    case OpApplyPending => ApplyPendingKeeps(cfg, b, t.now);
  }

  lemma {:induction false} RunKeeps<V>(cfg: Config<V>, ops: seq<Timed<V>>)
    ensures Inv(cfg, Run(cfg, ops))
  {
    if ops != [] {
      RunKeeps(cfg, ops[..|ops| - 1]);
      StepKeeps(cfg, Run(cfg, ops[..|ops| - 1]), ops[|ops| - 1]);
    }
  }

  // ----- Order of last status report

  /** The key whose status a step reports, if it reports one the bucket takes note of. */
  function Reported<V(==)>(cfg: Config<V>, b: Bucket<V>, t: Timed<V>): Option<Key> {
    match t.op
    case OpInsert(node) => if InsertIn(cfg, b, node, t.now).1.Inserted? then Some(node.key) else None
    case OpRemove(key) =>
      if HasKey(b.recent, key) then AppliedKey(ApplyPendingIn(cfg, b.(recent := Without(b.recent, key)), t.now).1)
      else None
    case OpUpdateStatus(key, _, _) => if HasKey(b.recent, key) then Some(key) else None
    case OpUpdateValue(_, _) => None
    case OpUpdatePending(_) => None
    case OpApplyPending => AppliedKey(ApplyPendingIn(cfg, b, t.now).1)
  }

  function AppliedKey<V>(a: Option<AppliedPending<V>>): Option<Key> {
    if a.Some? then Some(a.value.inserted) else None
  }

  /** All status reports of a run, oldest first. */
  function Reports<V(==)>(cfg: Config<V>, ops: seq<Timed<V>>): seq<Key> {
    if ops == [] then []
    else
      var init := ops[..|ops| - 1];
      var r := Reported(cfg, Run(cfg, init), ops[|ops| - 1]);
      if r.Some? then Reports(cfg, init) + [r.value] else Reports(cfg, init)
  }

  ghost predicate OrderedByReport<V>(h: seq<Key>, s: seq<Node<V>>) {
    && (forall i :: 0 <= i < |s| ==> 0 < LastPosition(h, s[i].key) <= |h|)
    && (forall i, j :: 0 <= i < j < |s| ==> LastPosition(h, s[i].key) < LastPosition(h, s[j].key))
  }

  lemma ReportOther<V>(h: seq<Key>, s: seq<Node<V>>, k: Key)
    requires OrderedByReport(h, s) && !HasKey(s, k)
    ensures OrderedByReport(h + [k], s)
  {
    assert (h + [k])[..|h|] == h;
    forall i | 0 <= i < |s| ensures LastPosition(h + [k], s[i].key) == LastPosition(h, s[i].key) {
      HasKeyMeans(s, k);
      assert s[i] in s;
    }
  }

  lemma ReportAppended<V>(h: seq<Key>, s: seq<Node<V>>, n: Node<V>)
    requires OrderedByReport(h, s) && !HasKey(s, n.key)
    ensures OrderedByReport(h + [n.key], s + [n])
  {
    ReportOther(h, s, n.key);
    assert (h + [n.key])[..|h|] == h;
    forall i | 0 <= i < |s| ensures LastPosition(h + [n.key], s[i].key) <= |h| {
      HasKeyMeans(s, n.key);
      assert s[i] in s;
    }
  }

  lemma OrderedWithout<V>(h: seq<Key>, s: seq<Node<V>>, k: Key)
    requires OrderedByReport(h, s)
    ensures OrderedByReport(h, Without(s, k))
  {
    var i, t := IndexOf(s, k), Without(s, k);
    forall j | 0 <= j < |t| ensures t[j] == s[if j < i then j else j + 1] {}
  }

  lemma OrderedReplaced<V>(h: seq<Key>, s: seq<Node<V>>, i: nat, n: Node<V>)
    requires OrderedByReport(h, s) && i < |s| && n.key == s[i].key
    ensures OrderedByReport(h, s[i := n])
  {
    forall j | 0 <= j < |s| ensures s[i := n][j].key == s[j].key {}
  }

  lemma ApplyPendingOrdered<V>(cfg: Config<V>, b: Bucket<V>, now: int, h: seq<Key>)
    requires Inv(cfg, b) && OrderedByReport(h, b.recent)
    ensures var (b', a) := ApplyPendingIn(cfg, b, now);
            OrderedByReport(if a.Some? then h + [a.value.inserted] else h, b'.recent)
  {
    if ApplyPendingIn(cfg, b, now).1.Some? {
      var node := b.pending.value.node;
      if |b.recent| < MAX_NODES_PER_BUCKET {
        ReportAppended(h, b.recent, node);
      } else {
        var k := Select(b.recent, false)[0].key;
        RemovalKeeps(cfg, b, k);
        OrderedWithout(h, b.recent, k);
        ReportAppended(h, Without(b.recent, k), node);
      }
    }
  }

  lemma InsertOrdered<V>(cfg: Config<V>, b: Bucket<V>, node: Node<V>, now: int, h: seq<Key>)
    requires OrderedByReport(h, b.recent)
    ensures var (b', r) := InsertIn(cfg, b, node, now);
            OrderedByReport(if r.Inserted? then h + [node.key] else h, b'.recent)
  {
    if InsertIn(cfg, b, node, now).1.Inserted? { ReportAppended(h, b.recent, node); }
  }

  lemma UpdateStatusOrdered<V>(cfg: Config<V>, b: Bucket<V>, key: Key, state: ConnectionState,
                               direction: Option<ConnectionDirection>, now: int, h: seq<Key>)
    requires Inv(cfg, b) && OrderedByReport(h, b.recent)
    ensures OrderedByReport(if HasKey(b.recent, key) then h + [key] else h,
                            UpdateStatusIn(cfg, b, key, state, direction, now).0.recent)
  {
    if HasKey(b.recent, key) {
      var w := Without(b.recent, key);
      WithoutKeys(b.recent, key);
      OrderedWithout(h, b.recent, key);
      ReportOther(h, w, key);
      var node := Reporting(b, key, state, direction);
      ReportAppended(h, w, node);
      assert UpdateStatusIn(cfg, b, key, state, direction, now).0.recent in {w, w + [node]};
    }
  }

  lemma RemoveOrdered<V>(cfg: Config<V>, b: Bucket<V>, key: Key, now: int, h: seq<Key>)
    requires Inv(cfg, b) && OrderedByReport(h, b.recent) && HasKey(b.recent, key)
    ensures var r := AppliedKey(ApplyPendingIn(cfg, b.(recent := Without(b.recent, key)), now).1);
            OrderedByReport(if r.Some? then h + [r.value] else h, RemoveIn(cfg, b, key, now).0.recent)
  {
    RemovalKeeps(cfg, b, key);
    OrderedWithout(h, b.recent, key);
    ApplyPendingOrdered(cfg, b.(recent := Without(b.recent, key)), now, h);
  }

  lemma UpdateValueOrdered<V>(cfg: Config<V>, b: Bucket<V>, key: Key, value: V, h: seq<Key>)
    requires OrderedByReport(h, b.recent)
    ensures OrderedByReport(h, UpdateValueIn(cfg, b, key, value).0.recent)
  {
    if HasKey(b.recent, key) {
      var i := IndexOf(b.recent, key);
      OrderedWithout(h, b.recent, key);
      OrderedReplaced(h, b.recent, i, b.recent[i].(value := value));
    }
  }

  lemma StepOrdered<V>(cfg: Config<V>, b: Bucket<V>, t: Timed<V>, h: seq<Key>)
    requires Inv(cfg, b) && OrderedByReport(h, b.recent)
    ensures var r := Reported(cfg, b, t);
            OrderedByReport(if r.Some? then h + [r.value] else h, Step(cfg, b, t).recent)
  {
    match t.op
    case OpInsert(node) => InsertOrdered(cfg, b, node, t.now, h);
    case OpRemove(key) => if HasKey(b.recent, key) { RemoveOrdered(cfg, b, key, t.now, h); }
    case OpUpdateStatus(key, state, direction) => UpdateStatusOrdered(cfg, b, key, state, direction, t.now, h);
    case OpUpdateValue(key, value) => UpdateValueOrdered(cfg, b, key, value, h);
    case OpUpdatePending(status) =>
    case OpApplyPending => ApplyPendingOrdered(cfg, b, t.now, h);
  }

  lemma {:induction false} RunOrdered<V>(cfg: Config<V>, ops: seq<Timed<V>>)
    ensures OrderedByReport(Reports(cfg, ops), Run(cfg, ops).recent)
  {
    if ops != [] {
      var init := ops[..|ops| - 1];
      RunOrdered(cfg, init);
      RunKeeps(cfg, init);
      StepOrdered(cfg, Run(cfg, init), ops[|ops| - 1], Reports(cfg, init));
    }
  }

  lemma SelectOrdered<V>(h: seq<Key>, s: seq<Node<V>>, c: bool)
    requires OrderedByReport(h, s)
    ensures OrderedByReport(h, Select(s, c))
  {
    var t := Select(s, c);
    forall i | 0 <= i < |t| ensures 0 < LastPosition(h, t[i].key) <= |h| { var p := SelectAt(s, c, i); }
    forall i, j | 0 <= i < j < |t| ensures LastPosition(h, t[i].key) < LastPosition(h, t[j].key) {
      var p := SelectAt(s, c, i);
      var q := SelectAt(s, c, j);
      if q < p { SelectPrefix(s, c, q, p); }
    }
  }

  /** Where a selected node comes from. */
  lemma {:induction false} SelectAt<V>(s: seq<Node<V>>, c: bool, i: nat) returns (p: nat)
    requires i < |Select(s, c)|
    ensures p < |s| && s[p] == Select(s, c)[i] && |Select(s[..p], c)| == i
    decreases |s|
  {
    var init := s[..|s| - 1];
    if i < |Select(init, c)| {
      p := SelectAt(init, c, i);
      assert init[..p] == s[..p];
    } else {
      p := |s| - 1;
    }
  }

  lemma SelectPrefix<V>(s: seq<Node<V>>, c: bool, i: nat, j: nat)
    requires i <= j <= |s|
    ensures |Select(s[..i], c)| <= |Select(s[..j], c)|
  {
    assert s[..j] == s[..i] + s[i..j];
    SelectConcat(s[..i], s[i..j], c);
  }

  /** In every reachable bucket the stored list is the disconnected nodes by time of last report, then the connected
      ones by time of last report. */
  lemma StoredOrderIsRecency<V>(cfg: Config<V>, ops: seq<Timed<V>>)
    ensures var s, h := Run(cfg, ops).recent, Reports(cfg, ops);
            var nodes := View(s);
            && multiset(nodes) == multiset(s)
            && (forall i, j :: 0 <= i < j < |nodes| ==>
                  || (!nodes[i].IsConnected() && nodes[j].IsConnected())
                  || (nodes[i].IsConnected() == nodes[j].IsConnected()
                      && LastPosition(h, nodes[i].key) < LastPosition(h, nodes[j].key)))
  {
    var s, h := Run(cfg, ops).recent, Reports(cfg, ops);
    RunOrdered(cfg, ops);
    ViewPermutes(s);
    forall i, j | 0 <= i < j < |View(s)|
      ensures || (!View(s)[i].IsConnected() && View(s)[j].IsConnected())
              || (View(s)[i].IsConnected() == View(s)[j].IsConnected()
                  && LastPosition(h, View(s)[i].key) < LastPosition(h, View(s)[j].key))
    {
      ViewOrdered(h, s, i, j);
    }
  }

  lemma ViewOrdered<V>(h: seq<Key>, s: seq<Node<V>>, i: nat, j: nat)
    requires OrderedByReport(h, s) && i < j < |View(s)|
    ensures || (!View(s)[i].IsConnected() && View(s)[j].IsConnected())
            || (View(s)[i].IsConnected() == View(s)[j].IsConnected()
                && LastPosition(h, View(s)[i].key) < LastPosition(h, View(s)[j].key))
  {
    var n := |Select(s, false)|;
    if j < n {
      SelectedOrdered(h, s, false, i, j);
    } else if i >= n {
      SelectedOrdered(h, s, true, i - n, j - n);
    } else {
      SelectedAre(s, false, i);
      SelectedAre(s, true, j - n);
    }
  }

  lemma SelectedAre<V>(s: seq<Node<V>>, c: bool, i: nat)
    requires i < |Select(s, c)|
    ensures Select(s, c)[i].IsConnected() == c
  {
    SelectMembers(s, c);
  }

  lemma SelectedOrdered<V>(h: seq<Key>, s: seq<Node<V>>, c: bool, i: nat, j: nat)
    requires OrderedByReport(h, s) && i < j < |Select(s, c)|
    ensures Select(s, c)[i].IsConnected() == c == Select(s, c)[j].IsConnected()
    ensures LastPosition(h, Select(s, c)[i].key) < LastPosition(h, Select(s, c)[j].key)
  {
    SelectedAre(s, c, i);
    SelectedAre(s, c, j);
    SelectOrdered(h, s, c);
  }
}
