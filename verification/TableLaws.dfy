/** The routing table as a map from keys: what each operation stores, drops and answers. */
module TableLaws {
  import opened Lists
  import opened Wrappers
  import opened Keys
  import opened Buckets
  import opened BucketRuns
  import opened BucketLaws
  import opened Tables

  /** The node stored under a key. */
  function Stored<V>(local: Key, t: Table<V>, k: Key): Option<Node<V>>
    requires |t.buckets| == NUM_BUCKETS
  {
    var i := IndexIn(local, k);
    if i.None? then None else Look(t.buckets[i.value].recent, k)
  }

  /** That is the only place a node can be. */
  lemma StoredIsAnywhere<V>(cfg: Config<V>, local: Key, t: Table<V>, n: Node<V>)
    requires TableInv(cfg, local, t)
    ensures Stored(local, t, n.key) == Some(n) <==> exists i :: 0 <= i < NUM_BUCKETS && n in t.buckets[i].recent
  {
    if i :| 0 <= i < NUM_BUCKETS && n in t.buckets[i].recent {
      assert BucketInv(cfg, local, i, t.buckets[i]);
      var j :| 0 <= j < |t.buckets[i].recent| && t.buckets[i].recent[j] == n;
      assert Belongs(local, i, t.buckets[i].recent[j]);
      LookMember(t.buckets[i].recent, n);
    }
  }

  lemma LocalHasNoIndex(local: Key, key: Key)
    ensures IndexIn(local, key).None? <==> key == local
  {
    Log2DistanceIsLogarithm(local, key);
  }

  // ----- The table's filter

  function HasValue<V(==)>(v: V): Node<V> -> bool {
    (n: Node<V>) => n.value == v
  }

  /** How many nodes of a table have value `v`. */
  function Tally<V(==)>(buckets: seq<Bucket<V>>, v: V): nat {
    if buckets == [] then 0
    else Tally(buckets[..|buckets| - 1], v) + CountIf(HasValue(v), buckets[|buckets| - 1].recent)
  }

  lemma {:induction false} ValuesTally<V>(s: seq<Node<V>>, v: V)
    ensures multiset(Values(s))[v] == CountIf(HasValue(v), s)
  {
    if s != [] {
      var n := |s| - 1;
      ValuesTally(s[..n], v);
      assert Values(s) == Values(s[..n]) + [s[n].value];
    }
  }

  /** The filter is shown the value of every stored node, as often as it is stored. */
  lemma {:induction false} AllValuesTally<V>(buckets: seq<Bucket<V>>, v: V)
    ensures multiset(AllValues(buckets))[v] == Tally(buckets, v)
  {
    if buckets != [] {
      var n := |buckets| - 1;
      AllValuesTally(buckets[..n], v);
      ValuesTally(View(buckets[n].recent), v);
      CountView(buckets[n].recent, HasValue(v));
    }
  }

  /** The table's filter is set, is asked because no stored node has this key and value, and says no. */
  ghost predicate TableRefuses<V>(filter: TableFilter<V>, local: Key, t: Table<V>, key: Key, value: V, values: seq<V>)
    requires |t.buckets| == NUM_BUCKETS
  {
    && filter.Some? && key != local
    && !(Stored(local, t, key).Some? && Stored(local, t, key).value.value == value)
    && !filter.value(value, values)
  }

  lemma PassesMeans<V>(filter: TableFilter<V>, local: Key, t: Table<V>, key: Key, value: V)
    requires |t.buckets| == NUM_BUCKETS && key != local
    ensures !PassesTable(filter, local, t, key, value) <==>
            TableRefuses(filter, local, t, key, value, AllValues(t.buckets))
  {
    LocalHasNoIndex(local, key);
  }

  // ----- Visits

  lemma VisitedIsNotReady<V>(cfg: Config<V>, t: Table<V>, i: nat, now: int)
    requires i < |t.buckets| && Inv(cfg, t.buckets[i])
    ensures !Ready(Visit(cfg, t, i, now).buckets[i], now)
    ensures Inv(cfg, Visit(cfg, t, i, now).buckets[i])
    ensures forall j :: 0 <= j < |t.buckets| && j != i ==> Visit(cfg, t, i, now).buckets[j] == t.buckets[j]
  {
    ApplyDecides(cfg, t.buckets[i], now, ZERO);
    ApplyPendingKeeps(cfg, t.buckets[i], now);
  }

  /** A visit records exactly what it applied: the node that came in and the one that made room. */
  lemma VisitRecords<V>(cfg: Config<V>, t: Table<V>, i: nat, now: int, k: Key)
    requires i < |t.buckets| && Inv(cfg, t.buckets[i])
    ensures var t1 := Visit(cfg, t, i, now);
            var was, held, n := Look(t.buckets[i].recent, k), Look(t1.buckets[i].recent, k), |t.applied|;
            && (t1.applied == t.applied || (|t1.applied| == n + 1 && t1.applied[..n] == t.applied))
            && (t1.applied == t.applied ==> held == was)
            && (|t1.applied| == n + 1 ==>
                  && Ready(t.buckets[i], now) && t1.applied[n].inserted == t.buckets[i].pending.value.node.key
                  && (was.None? && held.Some? <==> k == t1.applied[n].inserted)
                  && (was.Some? && held.None? <==> was.Some? && t1.applied[n].evicted == was))
  {
    ApplyDecides(cfg, t.buckets[i], now, k);
    ApplyEvictsStored(cfg, t.buckets[i], now);
  }

  lemma ApplyEvictsStored<V>(cfg: Config<V>, b: Bucket<V>, now: int)
    requires Inv(cfg, b)
    ensures var a := ApplyPendingIn(cfg, b, now).1;
            a.Some? && a.value.evicted.Some? ==>
              Look(b.recent, a.value.evicted.value.key) == a.value.evicted &&
                a.value.evicted.value.key != a.value.inserted
  {
    var a := ApplyPendingIn(cfg, b, now).1;
    ApplyDecides(cfg, b, now, ZERO);
    if a.Some? && a.value.evicted.Some? {
      ViewPermutes(b.recent);
      LookMember(b.recent, View(b.recent)[0]);
    }
  }

  /** The table as an operation on `key` at `now` finds it: a ready pending node of that bucket was applied. */
  function Visited<V>(cfg: Config<V>, local: Key, t: Table<V>, key: Key, now: int): (t1: Table<V>)
    requires |t.buckets| == NUM_BUCKETS
    ensures |t1.buckets| == NUM_BUCKETS
  {
    var i := IndexIn(local, key);
    if i.None? then t else Visit(cfg, t, i.value, now)
  }

  lemma StoredInSet<V>(local: Key, t: Table<V>, i: nat, b: Bucket<V>, key: Key, k: Key)
    requires |t.buckets| == NUM_BUCKETS && IndexIn(local, key) == Some(i)
    requires forall j :: j != key ==> Look(b.recent, j) == Look(t.buckets[i].recent, j)
    ensures Stored(local, SetBucket(t, i, b), k) == if k == key then Look(b.recent, key) else Stored(local, t, k)
  {
  }

  // ----- Removing

  lemma RemovedFromVisited<V>(cfg: Config<V>, b: Bucket<V>, key: Key, now: int)
    requires Inv(cfg, b) && !Ready(b, now)
    ensures var (b', removed) := RemoveIn(cfg, b, key, now);
            && (forall k :: Look(b'.recent, k) == if k == key then None else Look(b.recent, k))
            && (removed <==> Look(b.recent, key).Some?) && b'.pending == b.pending
  {
    forall k ensures Look(RemoveIn(cfg, b, key, now).0.recent, k) == if k == key then None else Look(b.recent, k) {
      RemoveDecides(cfg, b, key, now, k);
    }
    RemoveDecides(cfg, b, key, now, key);
  }

  /** Removing a key drops its node and no other, and says whether there was one. */
  lemma RemoveDrops<V>(cfg: Config<V>, local: Key, t: Table<V>, key: Key, now: int, k: Key)
    requires TableInv(cfg, local, t)
    ensures var (t', removed) := Remove(cfg, local, t, key, now);
            var t1 := Visited(cfg, local, t, key, now);
            && Stored(local, t', k) == (if k == key then None else Stored(local, t1, k))
            && (removed <==> Stored(local, t1, key).Some?)
  {
    LocalHasNoIndex(local, key);
    if key != local {
      var i := IndexIn(local, key).value;
      assert BucketInv(cfg, local, i, t.buckets[i]);
      var t1 := Visit(cfg, t, i, now);
      VisitedIsNotReady(cfg, t, i, now);
      RemovedFromVisited(cfg, t1.buckets[i], key, now);
      StoredInSet(local, t1, i, RemoveIn(cfg, t1.buckets[i], key, now).0, key, k);
    }
  }

  // ----- Inserting or updating

  predicate Updates(o: InsertOutcome) {
    o.StatusUpdated? || o.ValueUpdated? || o.BothUpdated?
  }

  /** Whether and how a node that was stored as `n` changed. */
  ghost predicate UpdateSays<V>(n: Node<V>, node: Node<V>, o: InsertOutcome) {
    var promoted := n.status.state.Disconnected? && node.status.state.Connected?;
    if n.value == node.value && n.status == node.status then o == BothUpdated(false)
    else if n.value == node.value then o == StatusUpdated(promoted)
    else if n.status == node.status then o == ValueUpdated
    else o == BothUpdated(promoted)
  }

  /** The outcome for a node whose key is not stored. */
  ghost predicate InsertSays<V>(cfg: Config<V>, b: Bucket<V>, node: Node<V>, o: InsertOutcome) {
    if Refused(cfg, node.value, b.recent) then o == InsertFailed(BucketFilter)
    else if TooMany(cfg, node.status, b.recent) then o == InsertFailed(IncomingLimit)
    else if |b.recent| < MAX_NODES_PER_BUCKET then o == NodeInserted
    else if node.status.state.Connected? && b.pending.None? && !AllConnected(b.recent) then
      |View(b.recent)| > 0 && o == NodePending(View(b.recent)[0].key)
    else o == InsertFailed(BucketFull)
  }

  /** The outcome for a node whose key is stored as `n`. */
  ghost predicate ReplaceSays<V>(cfg: Config<V>, others: seq<Node<V>>, n: Node<V>, node: Node<V>, o: InsertOutcome) {
    if Refused(cfg, n.value, others) || TooMany(cfg, node.status, others) then o == InsertFailed(IncomingLimit)
    else if n.value != node.value && Refused(cfg, node.value, others) then o == InsertFailed(BucketFilter)
    else UpdateSays(n, node, o)
  }

  lemma NewInBucket<V>(cfg: Config<V>, b: Bucket<V>, node: Node<V>, now: int, k: Key)
    requires Inv(cfg, b) && Look(b.recent, node.key).None?
    ensures var (b', o) := InsertOrUpdateIn(cfg, b, node, now);
            && InsertSays(cfg, b, node, o)
            && Look(b'.recent, k) == (if o.NodeInserted? && k == node.key then Some(node) else Look(b.recent, k))
            && (o.NodePending? ==> b'.pending == Some(PendingNode(node, now + cfg.pendingTimeout)))
  {
    InsertDecides(cfg, b, node, now, k);
    InsertPends(cfg, b, node, now);
  }

  /** What an update of a stored node says: whether it changed, and whether it became connected. */
  ghost predicate ChangeSays<V>(n: Node<V>, value: V, status: NodeStatus, r: UpdateResult) {
    if n.status.state.Disconnected? && status.state.Connected? then r.UpdatedAndPromoted?
    else if n.value == value && n.status == status then r.NotModified?
    else r.Updated?
  }

  /** The new value that follows a report. */
  lemma ValueAfterReport<V>(cfg: Config<V>, b1: Bucket<V>, others: seq<Node<V>>, n: Node<V>, node: Node<V>,
                            s: UpdateResult, k: Key)
    requires Inv(cfg, b1) && b1.recent == others + [Node(node.key, n.value, node.status)]
    requires n.key == node.key && ChangeSays(n, n.value, node.status, s)
    ensures var (b2, v) := UpdateValueIn(cfg, b1, node.key, node.value);
            var o, refused := UpdatedAs(v, s), n.value != node.value && Refused(cfg, node.value, others);
            && (if refused then o == InsertFailed(BucketFilter) else UpdateSays(n, node, o))
            && Look(b2.recent, k) ==
                 if k != node.key then Look(b1.recent, k) else if refused then None else Some(node)
  {
    var n1 := Node(node.key, n.value, node.status);
    ValueDecides(cfg, b1, node.key, node.value, k);
    assert others + [n1] + [] == b1.recent && others + [] == others;
    WithoutMiddle(others, n1, []);
    assert Look(b1.recent, node.key) == Some(n1);
  }

  lemma KnownInBucket<V>(cfg: Config<V>, b: Bucket<V>, node: Node<V>, now: int, k: Key)
    requires Inv(cfg, b) && Look(b.recent, node.key).Some?
    ensures var (b', o) := InsertOrUpdateIn(cfg, b, node, now);
            var n := Look(b.recent, node.key).value;
            && ReplaceSays(cfg, Without(b.recent, node.key), n, node, o)
            && Look(b'.recent, k) ==
                 (if k != node.key then Look(b.recent, k) else if Updates(o) then Some(node) else None)
  {
    var key, state, direction := node.key, node.status.state, Some(node.status.direction);
    var n := Look(b.recent, key).value;
    var (b1, s) := UpdateStatusIn(cfg, b, key, state, direction, now);
    ReportDecides(cfg, b, key, state, direction, now, k);
    if !s.Failed? {
      UpdateStatusKeeps(cfg, b, key, state, direction, now);
      ValueAfterReport(cfg, b1, Without(b.recent, key), n, node, s, k);
    }
  }

  lemma InsertedInBucket<V>(cfg: Config<V>, b: Bucket<V>, node: Node<V>, now: int, k: Key)
    requires Inv(cfg, b)
    ensures var (b', o) := InsertOrUpdateIn(cfg, b, node, now);
            && o != InsertFailed(TableFilter) && o != InsertFailed(InvalidSelfUpdate)
            && Look(b'.recent, k) ==
                 if k != node.key then Look(b.recent, k)
                 else if o.NodeInserted? || Updates(o) then Some(node)
                 else None
  {
    if Look(b.recent, node.key).None? {
      NewInBucket(cfg, b, node, now, k);
    } else {
      KnownInBucket(cfg, b, node, now, k);
    }
  }

  /** After inserting or updating, exactly a node that was inserted or updated is stored, with the given value and
      status, and all other keys are as they were. The local key is refused as such, and a value as refused by the
      table's filter exactly when that filter says no to it next to the values of all stored nodes. */
  lemma InsertOrUpdateStores<V>(cfg: Config<V>, local: Key, filter: TableFilter<V>, t: Table<V>, node: Node<V>,
                                now: int, k: Key)
    requires TableInv(cfg, local, t)
    ensures var (t', o) := InsertOrUpdate(cfg, local, filter, t, node, now);
            var t1 := Visited(cfg, local, t, node.key, now);
            && Stored(local, t', k) ==
                 (if k != node.key then Stored(local, t1, k)
                  else if o.NodeInserted? || Updates(o) then Some(node)
                  else None)
            && (o == InsertFailed(InvalidSelfUpdate) <==> node.key == local)
            && (o == InsertFailed(TableFilter) <==>
                TableRefuses(filter, local, t, node.key, node.value, AllValues(t.buckets)))
  {
    LocalHasNoIndex(local, node.key);
    if node.key != local {
      var i := IndexIn(local, node.key).value;
      assert BucketInv(cfg, local, i, t.buckets[i]);
      var t1 := Visit(cfg, t, i, now);
      var b := t1.buckets[i];
      VisitedIsNotReady(cfg, t, i, now);
      PassesMeans(filter, local, t, node.key, node.value);
      if PassesTable(filter, local, t, node.key, node.value) {
        forall j ensures j != node.key ==>
                           Look(InsertOrUpdateIn(cfg, b, node, now).0.recent, j) == Look(b.recent, j)
        {
          InsertedInBucket(cfg, b, node, now, j);
        }
        InsertedInBucket(cfg, b, node, now, node.key);
        StoredInSet(local, t1, i, InsertOrUpdateIn(cfg, b, node, now).0, node.key, k);
      } else {
        RemovedFromVisited(cfg, b, node.key, now);
        StoredInSet(local, t1, i, RemoveIn(cfg, b, node.key, now).0, node.key, k);
      }
    }
  }

  /** The outcome in every other case, from what the key's bucket holds. */
  lemma InsertOrUpdateSays<V>(cfg: Config<V>, local: Key, filter: TableFilter<V>, t: Table<V>, node: Node<V>, now: int)
    requires TableInv(cfg, local, t) && node.key != local
    requires !TableRefuses(filter, local, t, node.key, node.value, AllValues(t.buckets))
    ensures IndexIn(local, node.key).Some?
    ensures var o, t1 := InsertOrUpdate(cfg, local, filter, t, node, now).1, Visited(cfg, local, t, node.key, now);
            var b := t1.buckets[IndexIn(local, node.key).value];
            match Stored(local, t1, node.key)
            case None => InsertSays(cfg, b, node, o)
            case Some(n) => ReplaceSays(cfg, Without(b.recent, node.key), n, node, o)
  {
    LocalHasNoIndex(local, node.key);
    PassesMeans(filter, local, t, node.key, node.value);
    var i := IndexIn(local, node.key).value;
    assert BucketInv(cfg, local, i, t.buckets[i]);
    var b := Visit(cfg, t, i, now).buckets[i];
    VisitedIsNotReady(cfg, t, i, now);
    if Look(b.recent, node.key).None? {
      NewInBucket(cfg, b, node, now, node.key);
    } else {
      KnownInBucket(cfg, b, node, now, node.key);
    }
  }

  // ----- Updating

  /** The report that follows a new value. */
  lemma ReportAfterValue<V>(cfg: Config<V>, b1: Bucket<V>, n: Node<V>, value: V, v: UpdateResult,
                            state: ConnectionState, now: int, k: Key)
    requires Inv(cfg, b1) && Look(b1.recent, n.key) == Some(Node(n.key, value, n.status))
    requires v == if n.value == value then NotModified else Updated
    ensures var (b2, s) := UpdateStatusIn(cfg, b1, n.key, state, None, now);
            var r, status := Combined(v, s), ReportedStatus(n.status, state, None);
            && (r.Failed? <==> s.Failed?) && r != Failed(TableFilter)
            && (!r.Failed? ==> ChangeSays(n, value, status, r))
            && Look(b2.recent, k) ==
                 if k != n.key then Look(b1.recent, k) else if r.Failed? then None else Some(Node(n.key, value, status))
  {
    ReportDecides(cfg, b1, n.key, state, None, now, k);
  }

  lemma UpdatedInBucket<V>(cfg: Config<V>, b: Bucket<V>, key: Key, value: V, state: Option<ConnectionState>, now: int,
                           k: Key)
    requires Inv(cfg, b) && Look(b.recent, key).Some?
    ensures var (b', r) := UpdateNodeIn(cfg, b, key, value, state, now);
            var n := Look(b.recent, key).value;
            var status := if state.Some? then ReportedStatus(n.status, state.value, None) else n.status;
            && r != Failed(TableFilter)
            && (!r.Failed? ==> ChangeSays(n, value, status, r))
            && Look(b'.recent, k) ==
                 if k != key then Look(b.recent, k) else if r.Failed? then None else Some(Node(key, value, status))
  {
    var (b1, v) := UpdateValueIn(cfg, b, key, value);
    ValueDecides(cfg, b, key, value, k);
    ValueDecides(cfg, b, key, value, key);
    if !v.Failed? && state.Some? {
      UpdateValueKeeps(cfg, b, key, value);
      ReportAfterValue(cfg, b1, Look(b.recent, key).value, value, v, state.value, now, k);
    }
  }

  lemma UpdatedElsewhere<V>(cfg: Config<V>, b: Bucket<V>, key: Key, value: V, state: Option<ConnectionState>, now: int)
    requires Look(b.recent, key).None? && Inv(cfg, b)
    ensures var (b', r) := UpdateNodeIn(cfg, b, key, value, state, now);
            && b'.recent == b.recent && r == if b.pending.Some? && b.pending.value.node.key == key then UpdatedPending
                                             else Failed(KeyNonExistent)
  {
    ValueDecides(cfg, b, key, value, key);
    if state.Some? { ReportElsewhere(cfg, UpdateValueIn(cfg, b, key, value).0, key, state.value, None, now); }
  }

  lemma UpdatedBucket<V>(cfg: Config<V>, b: Bucket<V>, key: Key, value: V, state: Option<ConnectionState>, now: int,
                         k: Key)
    requires Inv(cfg, b)
    ensures var (b', r) := UpdateNodeIn(cfg, b, key, value, state, now);
            && r != Failed(TableFilter)
            && (k != key ==> Look(b'.recent, k) == Look(b.recent, k))
  {
    if Look(b.recent, key).Some? {
      UpdatedInBucket(cfg, b, key, value, state, now, k);
    } else {
      UpdatedElsewhere(cfg, b, key, value, state, now);
    }
  }

  /** Updating a node changes that node only: to the given value and state, or it is dropped and the result says why.
      The table's filter is the reason exactly when it says no. */
  lemma UpdateNodeStores<V>(cfg: Config<V>, local: Key, filter: TableFilter<V>, t: Table<V>, key: Key, value: V,
                            state: Option<ConnectionState>, now: int, k: Key)
    requires TableInv(cfg, local, t)
    ensures var (t', r) := UpdateNode(cfg, local, filter, t, key, value, state, now);
            var t1 := Visited(cfg, local, t, key, now);
            && (k != key ==> Stored(local, t', k) == Stored(local, t1, k))
            && (r == Failed(TableFilter) <==> TableRefuses(filter, local, t, key, value, AllValues(t.buckets)))
            && (r.Failed? ==> Stored(local, t', key).None?)
            && (key == local ==> r.NotModified? && t' == t)
            && (!r.Failed? && Stored(local, t1, key).Some? ==>
                  var n := Stored(local, t1, key).value;
                  var status := if state.Some? then ReportedStatus(n.status, state.value, None) else n.status;
                  Stored(local, t', key) == Some(Node(key, value, status)) && ChangeSays(n, value, status, r))
  {
    LocalHasNoIndex(local, key);
    if key != local {
      var i := IndexIn(local, key).value;
      assert BucketInv(cfg, local, i, t.buckets[i]);
      var t1 := Visit(cfg, t, i, now);
      var b := t1.buckets[i];
      VisitedIsNotReady(cfg, t, i, now);
      PassesMeans(filter, local, t, key, value);
      if PassesTable(filter, local, t, key, value) {
        forall j
          ensures j != key ==> Look(UpdateNodeIn(cfg, b, key, value, state, now).0.recent, j) == Look(b.recent, j)
        {
          UpdatedBucket(cfg, b, key, value, state, now, j);
        }
        StoredInSet(local, t1, i, UpdateNodeIn(cfg, b, key, value, state, now).0, key, k);
        StoredInSet(local, t1, i, UpdateNodeIn(cfg, b, key, value, state, now).0, key, key);
        UpdatedBucket(cfg, b, key, value, state, now, key);
        if Look(b.recent, key).Some? {
          UpdatedInBucket(cfg, b, key, value, state, now, key);
        } else {
          UpdatedElsewhere(cfg, b, key, value, state, now);
        }
      } else {
        RemovedFromVisited(cfg, b, key, now);
        StoredInSet(local, t1, i, RemoveIn(cfg, b, key, now).0, key, k);
        StoredInSet(local, t1, i, RemoveIn(cfg, b, key, now).0, key, key);
      }
    }
  }

  /** A status report changes the status of the node it names and nothing else, or drops that node. */
  lemma ReportStores<V>(cfg: Config<V>, local: Key, t: Table<V>, key: Key, state: ConnectionState,
                        direction: Option<ConnectionDirection>, now: int, k: Key)
    requires TableInv(cfg, local, t)
    ensures var (t', r) := UpdateNodeStatus(cfg, local, t, key, state, direction, now);
            var t1 := Visited(cfg, local, t, key, now);
            && (k != key ==> Stored(local, t', k) == Stored(local, t1, k))
            && (key == local ==> r.NotModified? && t' == t)
            && (key != local ==>
                  match Stored(local, t1, key)
                  case None => Stored(local, t', key).None? && (r.UpdatedPending? || r == Failed(KeyNonExistent))
                  case Some(n) =>
                    var status := ReportedStatus(n.status, state, direction);
                    if r.Failed? then Stored(local, t', key).None?
                    else Stored(local, t', key) == Some(Node(key, n.value, status)) &&
                         ChangeSays(n, n.value, status, r))
  {
    LocalHasNoIndex(local, key);
    if key != local {
      var i := IndexIn(local, key).value;
      assert BucketInv(cfg, local, i, t.buckets[i]);
      var t1 := Visit(cfg, t, i, now);
      var b := t1.buckets[i];
      VisitedIsNotReady(cfg, t, i, now);
      forall j ensures j != key ==>
                         Look(UpdateStatusIn(cfg, b, key, state, direction, now).0.recent, j) == Look(b.recent, j)
      {
        ReportInBucket(cfg, b, key, state, direction, now, j);
      }
      ReportInBucket(cfg, b, key, state, direction, now, key);
      StoredInSet(local, t1, i, UpdateStatusIn(cfg, b, key, state, direction, now).0, key, k);
      StoredInSet(local, t1, i, UpdateStatusIn(cfg, b, key, state, direction, now).0, key, key);
    }
  }

  lemma ReportInBucket<V>(cfg: Config<V>, b: Bucket<V>, key: Key, state: ConnectionState,
                          direction: Option<ConnectionDirection>, now: int, k: Key)
    requires Inv(cfg, b)
    ensures var (b', r) := UpdateStatusIn(cfg, b, key, state, direction, now);
            && (k != key ==> Look(b'.recent, k) == Look(b.recent, k))
            && match Look(b.recent, key)
               case None => Look(b'.recent, key).None? && (r.UpdatedPending? || r == Failed(KeyNonExistent))
               case Some(n) =>
                 var status := ReportedStatus(n.status, state, direction);
                 if r.Failed? then Look(b'.recent, key).None?
                 else Look(b'.recent, key) == Some(Node(key, n.value, status)) && ChangeSays(n, n.value, status, r)
  {
    if Look(b.recent, key).Some? {
      ReportDecides(cfg, b, key, state, direction, now, k);
      ReportDecides(cfg, b, key, state, direction, now, key);
    } else {
      ReportElsewhere(cfg, b, key, state, direction, now);
    }
  }
}
