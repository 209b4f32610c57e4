/** The routing table on values: 256 buckets around a local key. */
module Tables {
  import opened Lists
  import opened Wrappers
  import opened Keys
  import opened Buckets
  import opened BucketRuns

  /** `applied` lists the pending nodes applied on access, oldest first. */
  datatype Table<V> = Table(buckets: seq<Bucket<V>>, applied: seq<AppliedPending<V>>)

  datatype InsertOutcome =
    | NodeInserted
    | NodePending(disconnected: Key)
    | StatusUpdated(promoted: bool)
    | ValueUpdated
    | BothUpdated(promoted: bool)
    | PendingUpdated
    | InsertFailed(reason: FailureReason)

  type TableFilter<!V> = Option<(V, seq<V>) -> bool>

  // ----- What a table keeps

  ghost predicate Belongs<V>(local: Key, i: nat, n: Node<V>) {
    BucketIndex(Distance(local, n.key)) == Some(i)
  }

  ghost predicate InPlace<V>(local: Key, i: nat, b: Bucket<V>) {
    && (forall j :: 0 <= j < |b.recent| ==> Belongs(local, i, b.recent[j]))
    && (b.pending.Some? ==> Belongs(local, i, b.pending.value.node))
  }

  /** The state of bucket `i` of a table around `local`; bucket 0 covers one key only, so it never has to queue a
      node. */
  ghost predicate BucketInv<V>(cfg: Config<V>, local: Key, i: nat, b: Bucket<V>) {
    && Inv(cfg, b)
    && InPlace(local, i, b)
    && (i == 0 ==> |b.recent| <= 1 && b.pending.None?)
  }

  ghost predicate TableInv<V>(cfg: Config<V>, local: Key, t: Table<V>) {
    && |t.buckets| == NUM_BUCKETS
    && forall i :: 0 <= i < NUM_BUCKETS ==> BucketInv(cfg, local, i, t.buckets[i])
  }

  // ----- Operations

  function SetBucket<V>(t: Table<V>, i: nat, b: Bucket<V>): Table<V>
    requires i < |t.buckets|
  {
    t.(buckets := t.buckets[i := b])
  }

  /** Applies the pending node of bucket `i` if it is ready, and records that. */
  function Visit<V>(cfg: Config<V>, t: Table<V>, i: nat, now: int): (t': Table<V>)
    requires i < |t.buckets|
    ensures |t'.buckets| == |t.buckets|
  {
    var (b, a) := ApplyPendingIn(cfg, t.buckets[i], now);
    Table(t.buckets[i := b], if a.Some? then t.applied + [a.value] else t.applied)
  }

  function IndexIn(local: Key, key: Key): (i: Option<nat>)
    ensures i.Some? ==> i.value < NUM_BUCKETS
  {
    BucketIndex(Distance(local, key))
  }

  function AllValues<V>(buckets: seq<Bucket<V>>): seq<V> {
    if buckets == [] then []
    else AllValues(buckets[..|buckets| - 1]) + Values(View(buckets[|buckets| - 1].recent))
  }

  /** The stored list of every bucket. */
  function Views<V>(buckets: seq<Bucket<V>>): (r: seq<seq<Node<V>>>)
    ensures |r| == |buckets|
    ensures forall i :: 0 <= i < |r| ==> r[i] == View(buckets[i].recent)
  {
    seq(|buckets|, i requires 0 <= i < |buckets| => View(buckets[i].recent))
  }

  /** A stored node with this very value is not put to the table filter again. */
  predicate PassesTable<V(==)>(filter: TableFilter<V>, local: Key, t: Table<V>, key: Key, value: V)
    requires |t.buckets| == NUM_BUCKETS
  {
    filter.Some? ==>
      var i := IndexIn(local, key);
      || (i.Some? && var s := t.buckets[i.value].recent; HasKey(s, key) && s[IndexOf(s, key)].value == value)
      || filter.value(value, AllValues(t.buckets))
  }

  function InsertedAs(r: InsertResult): InsertOutcome {
    match r
    case Inserted => NodeInserted
    case MadePending(d) => NodePending(d)
    case FailedFilter => InsertFailed(BucketFilter)
    case TooManyIncoming => InsertFailed(IncomingLimit)
    case Full => InsertFailed(BucketFull)
    case NodeExists => InsertFailed(BucketFull)
  }

  /** Outcome of a successful status update followed by a value update. */
  function UpdatedAs(value: UpdateResult, status: UpdateResult): InsertOutcome {
    match value
    case Failed(reason) => InsertFailed(reason)
    case Updated => if status.Updated? || status.UpdatedAndPromoted? then BothUpdated(status.UpdatedAndPromoted?)
                    else ValueUpdated
    case _ =>
      if value.UpdatedPending? || status.UpdatedPending? then PendingUpdated
      else if status.NotModified? then BothUpdated(false)
      else StatusUpdated(status.UpdatedAndPromoted?)
  }

  function InsertOrUpdateIn<V(==)>(cfg: Config<V>, b: Bucket<V>, node: Node<V>, now: int): (Bucket<V>, InsertOutcome) {
    if !HasKey(b.recent, node.key) then
      var (b', r) := InsertIn(cfg, b, node, now);
      (b', InsertedAs(r))
    else
      var (b1, s) := UpdateStatusIn(cfg, b, node.key, node.status.state, Some(node.status.direction), now);
      if s.Failed? then (b1, InsertFailed(IncomingLimit))
      else
        var (b2, v) := UpdateValueIn(cfg, b1, node.key, node.value);
        (b2, UpdatedAs(v, s))
  }

  function InsertOrUpdate<V(==)>(cfg: Config<V>, local: Key, filter: TableFilter<V>, t: Table<V>, node: Node<V>,
                                 now: int)
    : (Table<V>, InsertOutcome)
    requires |t.buckets| == NUM_BUCKETS
  {
    var index := IndexIn(local, node.key);
    if index.None? then (t, InsertFailed(InvalidSelfUpdate))
    else
      var i := index.value;
      var t1 := Visit(cfg, t, i, now);
      if !PassesTable(filter, local, t, node.key, node.value) then
        (SetBucket(t1, i, RemoveIn(cfg, t1.buckets[i], node.key, now).0), InsertFailed(TableFilter))
      else
        var (b, r) := InsertOrUpdateIn(cfg, t1.buckets[i], node, now);
        (SetBucket(t1, i, b), r)
  }

  function UpdateNodeStatus<V>(cfg: Config<V>, local: Key, t: Table<V>, key: Key, state: ConnectionState,
                               direction: Option<ConnectionDirection>, now: int): (Table<V>, UpdateResult)
    requires |t.buckets| == NUM_BUCKETS
  {
    var index := IndexIn(local, key);
    if index.None? then (t, NotModified)
    else
      var i := index.value;
      var t1 := Visit(cfg, t, i, now);
      var (b, r) := UpdateStatusIn(cfg, t1.buckets[i], key, state, direction, now);
      (SetBucket(t1, i, b), r)
  }

  function Combined(value: UpdateResult, status: UpdateResult): UpdateResult {
    if status.Failed? then status
    else if value.Failed? then value
    else if status.UpdatedAndPromoted? then UpdatedAndPromoted
    else if value.UpdatedPending? || status.UpdatedPending? then UpdatedPending
    else if value.NotModified? && status.NotModified? then NotModified
    else Updated
  }

  function UpdateNodeIn<V(==)>(cfg: Config<V>, b: Bucket<V>, key: Key, value: V, state: Option<ConnectionState>,
                               now: int)
    : (Bucket<V>, UpdateResult)
  {
    var (b1, v) := UpdateValueIn(cfg, b, key, value);
    if v.Failed? then (b1, v)
    else if state.None? then (b1, Combined(v, NotModified))
    else
      var (b2, s) := UpdateStatusIn(cfg, b1, key, state.value, None, now);
      (b2, Combined(v, s))
  }

  function UpdateNode<V(==)>(cfg: Config<V>, local: Key, filter: TableFilter<V>, t: Table<V>, key: Key, value: V,
                             state: Option<ConnectionState>, now: int): (Table<V>, UpdateResult)
    requires |t.buckets| == NUM_BUCKETS
  {
    var index := IndexIn(local, key);
    if index.None? then (t, NotModified)
    else
      var i := index.value;
      var t1 := Visit(cfg, t, i, now);
      if !PassesTable(filter, local, t, key, value) then
        (SetBucket(t1, i, RemoveIn(cfg, t1.buckets[i], key, now).0), Failed(TableFilter))
      else
        var (b, r) := UpdateNodeIn(cfg, t1.buckets[i], key, value, state, now);
        (SetBucket(t1, i, b), r)
  }

  function Remove<V>(cfg: Config<V>, local: Key, t: Table<V>, key: Key, now: int): (Table<V>, bool)
    requires |t.buckets| == NUM_BUCKETS
  {
    var index := IndexIn(local, key);
    if index.None? then (t, false)
    else
      var i := index.value;
      var t1 := Visit(cfg, t, i, now);
      var (b, r) := RemoveIn(cfg, t1.buckets[i], key, now);
      (SetBucket(t1, i, b), r)
  }

  // ----- Buckets stay in place

  /** Bucket 0 of any table covers a single key. */
  lemma OnlyOneNeighbour(local: Key, a: Key, b: Key)
    requires BucketIndex(Distance(local, a)) == BucketIndex(Distance(local, b)) == Some(0)
    ensures a == b
  {
    var x, y := Distance(local, a), Distance(local, b);
    forall i | 0 <= i < NUM_BUCKETS ensures a[i] == b[i] {
      assert i > 0 ==> !x[i] && !y[i];
      assert x[0] && y[0];
    }
  }

  lemma BucketZero<V>(cfg: Config<V>, local: Key, b: Bucket<V>)
    requires Inv(cfg, b) && InPlace(local, 0, b)
    ensures |b.recent| <= 1
  {
    if |b.recent| > 1 {
      assert Belongs(local, 0, b.recent[0]) && Belongs(local, 0, b.recent[1]);
      OnlyOneNeighbour(local, b.recent[0].key, b.recent[1].key);
      assert false;
    }
  }

  /** A bucket takes in a pending node only when full. */
  ghost predicate QueuesWhenFull<V>(b: Bucket<V>, b': Bucket<V>) {
    b'.pending.Some? ==> b.pending.Some? || |b.recent| == MAX_NODES_PER_BUCKET
  }

  lemma Settle<V>(cfg: Config<V>, local: Key, i: nat, b: Bucket<V>, b': Bucket<V>)
    requires BucketInv(cfg, local, i, b) && Inv(cfg, b') && InPlace(local, i, b') && QueuesWhenFull(b, b')
    ensures BucketInv(cfg, local, i, b')
  {
    if i == 0 { BucketZero(cfg, local, b'); }
  }

  lemma WithoutInPlace<V>(local: Key, i: nat, b: Bucket<V>, k: Key)
    requires InPlace(local, i, b)
    ensures InPlace(local, i, b.(recent := Without(b.recent, k)))
  {
    var p, w := IndexOf(b.recent, k), Without(b.recent, k);
    forall j | 0 <= j < |w| ensures Belongs(local, i, w[j]) {
      assert w[j] == b.recent[if j < p then j else j + 1];
    }
  }

  lemma InsertInPlace<V>(cfg: Config<V>, local: Key, i: nat, b: Bucket<V>, node: Node<V>, now: int)
    requires InPlace(local, i, b) && Belongs(local, i, node)
    ensures InPlace(local, i, InsertIn(cfg, b, node, now).0)
  {
  }

  lemma ApplyStays<V>(cfg: Config<V>, local: Key, i: nat, b: Bucket<V>, now: int)
    requires BucketInv(cfg, local, i, b)
    ensures BucketInv(cfg, local, i, ApplyPendingIn(cfg, b, now).0)
  {
    ApplyPendingKeeps(cfg, b, now);
    if b.pending.Some? && b.pending.value.replace <= now {
      var dropped := b.(pending := None);
      InsertInPlace(cfg, local, i, dropped, b.pending.value.node, now);
      if ApplyPendingIn(cfg, b, now).1.Some? && |b.recent| == MAX_NODES_PER_BUCKET {
        WithoutInPlace(local, i, dropped, Select(b.recent, false)[0].key);
      }
    }
    Settle(cfg, local, i, b, ApplyPendingIn(cfg, b, now).0);
  }

  lemma InsertStays<V>(cfg: Config<V>, local: Key, i: nat, b: Bucket<V>, node: Node<V>, now: int)
    requires BucketInv(cfg, local, i, b) && Belongs(local, i, node)
    ensures BucketInv(cfg, local, i, InsertIn(cfg, b, node, now).0)
  {
    InsertKeeps(cfg, b, node, now);
    InsertInPlace(cfg, local, i, b, node, now);
    Settle(cfg, local, i, b, InsertIn(cfg, b, node, now).0);
  }

  lemma RemovalStays<V>(cfg: Config<V>, local: Key, i: nat, b: Bucket<V>, key: Key)
    requires BucketInv(cfg, local, i, b)
    ensures BucketInv(cfg, local, i, b.(recent := Without(b.recent, key)))
  {
    RemovalKeeps(cfg, b, key);
    WithoutInPlace(local, i, b, key);
  }

  lemma ReinsertStays<V>(cfg: Config<V>, local: Key, i: nat, b: Bucket<V>, key: Key, state: ConnectionState,
                         direction: Option<ConnectionDirection>, now: int)
    requires BucketInv(cfg, local, i, b) && HasKey(b.recent, key)
    ensures BucketInv(cfg, local, i,
                      InsertIn(cfg, TakenOut(b, key, state), Reporting(b, key, state, direction), now).0)
  {
    RemovalStays(cfg, local, i, b, key);
    assert Belongs(local, i, b.recent[IndexOf(b.recent, key)]);
    InsertStays(cfg, local, i, TakenOut(b, key, state), Reporting(b, key, state, direction), now);
  }

  lemma UpdateStatusStays<V>(cfg: Config<V>, local: Key, i: nat, b: Bucket<V>, key: Key, state: ConnectionState,
                             direction: Option<ConnectionDirection>, now: int)
    requires BucketInv(cfg, local, i, b)
    ensures BucketInv(cfg, local, i, UpdateStatusIn(cfg, b, key, state, direction, now).0)
  {
    if HasKey(b.recent, key) {
      ReinsertStays(cfg, local, i, b, key, state, direction, now);
    }
  }

  lemma UpdateValueStays<V>(cfg: Config<V>, local: Key, i: nat, b: Bucket<V>, key: Key, value: V)
    requires BucketInv(cfg, local, i, b)
    ensures BucketInv(cfg, local, i, UpdateValueIn(cfg, b, key, value).0)
  {
    UpdateValueKeeps(cfg, b, key, value);
    UpdateValueInPlace(cfg, local, i, b, key, value);
    Settle(cfg, local, i, b, UpdateValueIn(cfg, b, key, value).0);
  }

  lemma UpdateValueInPlace<V>(cfg: Config<V>, local: Key, i: nat, b: Bucket<V>, key: Key, value: V)
    requires InPlace(local, i, b)
    ensures InPlace(local, i, UpdateValueIn(cfg, b, key, value).0)
    ensures QueuesWhenFull(b, UpdateValueIn(cfg, b, key, value).0)
  {
    if HasKey(b.recent, key) {
      WithoutInPlace(local, i, b, key);
      var p := IndexOf(b.recent, key);
      ReplacedInPlace(local, i, b, p, b.recent[p].(value := value));
    }
  }

  lemma ReplacedInPlace<V>(local: Key, i: nat, b: Bucket<V>, p: nat, n: Node<V>)
    requires InPlace(local, i, b) && p < |b.recent| && n.key == b.recent[p].key
    ensures InPlace(local, i, b.(recent := b.recent[p := n]))
  {
    var s := b.recent[p := n];
    forall j | 0 <= j < |s| ensures Belongs(local, i, s[j]) {
      assert Belongs(local, i, b.recent[j]);
    }
  }

  lemma RemoveStays<V>(cfg: Config<V>, local: Key, i: nat, b: Bucket<V>, key: Key, now: int)
    requires BucketInv(cfg, local, i, b)
    ensures BucketInv(cfg, local, i, RemoveIn(cfg, b, key, now).0)
  {
    RemovalStays(cfg, local, i, b, key);
    ApplyStays(cfg, local, i, b.(recent := Without(b.recent, key)), now);
  }

  lemma InsertOrUpdateStays<V>(cfg: Config<V>, local: Key, i: nat, b: Bucket<V>, node: Node<V>, now: int)
    requires BucketInv(cfg, local, i, b) && Belongs(local, i, node)
    ensures BucketInv(cfg, local, i, InsertOrUpdateIn(cfg, b, node, now).0)
  {
    if !HasKey(b.recent, node.key) {
      InsertStays(cfg, local, i, b, node, now);
    } else {
      UpdateStatusStays(cfg, local, i, b, node.key, node.status.state, Some(node.status.direction), now);
      var b1 := UpdateStatusIn(cfg, b, node.key, node.status.state, Some(node.status.direction), now).0;
      UpdateValueStays(cfg, local, i, b1, node.key, node.value);
    }
  }

  lemma UpdateNodeStays<V>(cfg: Config<V>, local: Key, i: nat, b: Bucket<V>, key: Key, value: V,
                           state: Option<ConnectionState>, now: int)
    requires BucketInv(cfg, local, i, b)
    ensures BucketInv(cfg, local, i, UpdateNodeIn(cfg, b, key, value, state, now).0)
  {
    UpdateValueStays(cfg, local, i, b, key, value);
    if state.Some? {
      UpdateStatusStays(cfg, local, i, UpdateValueIn(cfg, b, key, value).0, key, state.value, None, now);
    }
  }

  // ----- Runs of table operations

  datatype TableOp<V> =
    | TInsertOrUpdate(node: Node<V>)
    | TUpdateNode(key: Key, value: V, state: Option<ConnectionState>)
    | TUpdateNodeStatus(key: Key, status: ConnectionState, direction: Option<ConnectionDirection>)
    | TRemove(key: Key)
    | TVisit(index: nat)

  function TableStep<V(==)>(cfg: Config<V>, local: Key, filter: TableFilter<V>, t: Table<V>, op: TableOp<V>, now: int)
    : (t': Table<V>)
    requires |t.buckets| == NUM_BUCKETS
    ensures |t'.buckets| == NUM_BUCKETS
  {
    match op
    case TInsertOrUpdate(node) => InsertOrUpdate(cfg, local, filter, t, node, now).0
    case TUpdateNode(key, value, state) => UpdateNode(cfg, local, filter, t, key, value, state, now).0
    case TUpdateNodeStatus(key, status, direction) => UpdateNodeStatus(cfg, local, t, key, status, direction, now).0
    case TRemove(key) => Remove(cfg, local, t, key, now).0
    case TVisit(index) => if index < NUM_BUCKETS then Visit(cfg, t, index, now) else t
  }

  function EmptyTable<V>(): Table<V> {
    Table(seq(NUM_BUCKETS, _ => Bucket([], None)), [])
  }

  function TableRun<V(==)>(cfg: Config<V>, local: Key, filter: TableFilter<V>, ops: seq<(TableOp<V>, int)>)
    : (t: Table<V>)
    ensures |t.buckets| == NUM_BUCKETS
  {
    if ops == [] then EmptyTable()
    else
      var (op, now) := ops[|ops| - 1];
      TableStep(cfg, local, filter, TableRun(cfg, local, filter, ops[..|ops| - 1]), op, now)
  }

  /** The table after one node is inserted where no filter or limit refuses it. */
  lemma OneInserted<V>(cfg: Config<V>, local: Key, node: Node<V>, now: int)
    requires IndexIn(local, node.key).Some? && cfg.filter.None? && !IsConnectedIncoming(node)
    ensures var i := IndexIn(local, node.key).value;
            TableRun(cfg, local, None, [(TInsertOrUpdate(node), now)]) ==
              SetBucket(EmptyTable(), i, Bucket([node], None))
  {
    var ops, i := [(TInsertOrUpdate(node), now)], IndexIn(local, node.key).value;
    var t: Table<V> := EmptyTable();
    assert ops[..0] == [];
    assert TableRun(cfg, local, None, ops) == InsertOrUpdate(cfg, local, None, t, node, now).0;
    assert t.buckets[i := t.buckets[i]] == t.buckets;
    assert Visit(cfg, t, i, now) == t;
    assert [] + [node] == [node];
    assert InsertOrUpdateIn(cfg, t.buckets[i], node, now).0 == Bucket([node], None);
  }

  lemma ViewOne<V>(node: Node<V>)
    ensures View([node]) == [node]
  {
    assert [node][..0] == [];
    assert [node] + [] == [] + [node] == [node];
    assert Select([node], node.IsConnected()) == [node] && Select([node], !node.IsConnected()) == [];
  }

  /** The one node nearest to the local key goes to bucket zero. */
  lemma NeighbourInserted<V>(cfg: Config<V>, node: Node<V>, now: int)
    requires node.key == Only(0) && cfg.filter.None? && !IsConnectedIncoming(node)
    ensures TableRun(cfg, ZERO, None, [(TInsertOrUpdate(node), now)]) ==
            SetBucket(EmptyTable(), 0, Bucket([node], None))
  {
    var d := Distance(ZERO, Only(0));
    assert d[0] && forall i :: 1 <= i < NUM_BUCKETS ==> !d[i];
    OneInserted(cfg, ZERO, node, now);
  }

  lemma VisitStays<V>(cfg: Config<V>, local: Key, t: Table<V>, i: nat, now: int)
    requires TableInv(cfg, local, t) && i < NUM_BUCKETS
    ensures TableInv(cfg, local, Visit(cfg, t, i, now))
  {
    ApplyStays(cfg, local, i, t.buckets[i], now);
  }

  lemma SetStays<V>(cfg: Config<V>, local: Key, t: Table<V>, i: nat, b: Bucket<V>)
    requires TableInv(cfg, local, t) && i < NUM_BUCKETS && BucketInv(cfg, local, i, b)
    ensures TableInv(cfg, local, SetBucket(t, i, b))
  {
  }

  lemma InsertOrUpdateKeeps<V>(cfg: Config<V>, local: Key, filter: TableFilter<V>, t: Table<V>, node: Node<V>, now: int)
    requires TableInv(cfg, local, t)
    ensures TableInv(cfg, local, InsertOrUpdate(cfg, local, filter, t, node, now).0)
  {
    var index := IndexIn(local, node.key);
    if index.Some? {
      var i := index.value;
      VisitStays(cfg, local, t, i, now);
      var t1 := Visit(cfg, t, i, now);
      var b := t1.buckets[i];
      RemoveStays(cfg, local, i, b, node.key, now);
      InsertOrUpdateStays(cfg, local, i, b, node, now);
      SetStays(cfg, local, t1, i, RemoveIn(cfg, b, node.key, now).0);
      SetStays(cfg, local, t1, i, InsertOrUpdateIn(cfg, b, node, now).0);
    }
  }

  lemma UpdateNodeKeeps<V>(cfg: Config<V>, local: Key, filter: TableFilter<V>, t: Table<V>, key: Key, value: V,
                           state: Option<ConnectionState>, now: int)
    requires TableInv(cfg, local, t)
    ensures TableInv(cfg, local, UpdateNode(cfg, local, filter, t, key, value, state, now).0)
  {
    var index := IndexIn(local, key);
    if index.Some? {
      var i := index.value;
      VisitStays(cfg, local, t, i, now);
      var t1 := Visit(cfg, t, i, now);
      var b := t1.buckets[i];
      RemoveStays(cfg, local, i, b, key, now);
      UpdateNodeStays(cfg, local, i, b, key, value, state, now);
      SetStays(cfg, local, t1, i, RemoveIn(cfg, b, key, now).0);
      SetStays(cfg, local, t1, i, UpdateNodeIn(cfg, b, key, value, state, now).0);
    }
  }

  lemma UpdateNodeStatusKeeps<V>(cfg: Config<V>, local: Key, t: Table<V>, key: Key, state: ConnectionState,
                                 direction: Option<ConnectionDirection>, now: int)
    requires TableInv(cfg, local, t)
    ensures TableInv(cfg, local, UpdateNodeStatus(cfg, local, t, key, state, direction, now).0)
  {
    var index := IndexIn(local, key);
    if index.Some? {
      var i := index.value;
      VisitStays(cfg, local, t, i, now);
      var t1 := Visit(cfg, t, i, now);
      UpdateStatusStays(cfg, local, i, t1.buckets[i], key, state, direction, now);
      SetStays(cfg, local, t1, i, UpdateStatusIn(cfg, t1.buckets[i], key, state, direction, now).0);
    }
  }

  lemma RemoveKeeps<V>(cfg: Config<V>, local: Key, t: Table<V>, key: Key, now: int)
    requires TableInv(cfg, local, t)
    ensures TableInv(cfg, local, Remove(cfg, local, t, key, now).0)
  {
    var index := IndexIn(local, key);
    if index.Some? {
      var i := index.value;
      VisitStays(cfg, local, t, i, now);
      var t1 := Visit(cfg, t, i, now);
      RemoveStays(cfg, local, i, t1.buckets[i], key, now);
      SetStays(cfg, local, t1, i, RemoveIn(cfg, t1.buckets[i], key, now).0);
    }
  }

  lemma TableStepKeeps<V>(cfg: Config<V>, local: Key, filter: TableFilter<V>, t: Table<V>, op: TableOp<V>, now: int)
    requires TableInv(cfg, local, t)
    ensures TableInv(cfg, local, TableStep(cfg, local, filter, t, op, now))
  {
    match op
    case TInsertOrUpdate(node) => InsertOrUpdateKeeps(cfg, local, filter, t, node, now);
    case TUpdateNode(key, value, state) => UpdateNodeKeeps(cfg, local, filter, t, key, value, state, now);
    case TUpdateNodeStatus(key, status, direction) => UpdateNodeStatusKeeps(cfg, local, t, key, status, direction, now);
    case TRemove(key) => RemoveKeeps(cfg, local, t, key, now);
    case TVisit(index) => if index < NUM_BUCKETS { VisitStays(cfg, local, t, index, now); }
  }

  lemma {:induction false} TableRunKeeps<V>(cfg: Config<V>, local: Key, filter: TableFilter<V>,
                                            ops: seq<(TableOp<V>, int)>)
    ensures TableInv(cfg, local, TableRun(cfg, local, filter, ops))
  {
    if ops != [] {
      TableRunKeeps(cfg, local, filter, ops[..|ops| - 1]);
      TableStepKeeps(cfg, local, filter, TableRun(cfg, local, filter, ops[..|ops| - 1]), ops[|ops| - 1].0,
                     ops[|ops| - 1].1);
    }
  }

  lemma BelongsByDistance<V>(local: Key, i: nat, n: Node<V>)
    requires Belongs(local, i, n)
    ensures Log2Distance(local, n.key) == Some(i + 1)
  {
  }

  /** In a table that keeps the invariant, bucket `i` holds and queues only nodes at log2 distance `i + 1`. */
  lemma PlacedByDistance<V>(cfg: Config<V>, local: Key, t: Table<V>, i: nat)
    requires TableInv(cfg, local, t) && i < NUM_BUCKETS
    ensures forall j :: 0 <= j < |t.buckets[i].recent| ==>
            Log2Distance(local, t.buckets[i].recent[j].key) == Some(i + 1)
    ensures t.buckets[i].pending.Some? ==> Log2Distance(local, t.buckets[i].pending.value.node.key) == Some(i + 1)
    ensures DistinctKeys(t.buckets[i].recent)
  {
    var b := t.buckets[i];
    assert BucketInv(cfg, local, i, b);
    forall j | 0 <= j < |b.recent| ensures Log2Distance(local, b.recent[j].key) == Some(i + 1) {
      BelongsByDistance(local, i, b.recent[j]);
    }
    if b.pending.Some? { BelongsByDistance(local, i, b.pending.value.node); }
  }

  lemma OnePlace<V>(cfg: Config<V>, local: Key, t: Table<V>, i: nat, j: nat, i': nat, j': nat)
    requires TableInv(cfg, local, t) && i < NUM_BUCKETS && i' < NUM_BUCKETS
    requires j < |t.buckets[i].recent| && j' < |t.buckets[i'].recent|
    ensures var k, k' := t.buckets[i].recent[j].key, t.buckets[i'].recent[j'].key;
            && k != local && Log2Distance(local, k) == Some(i + 1)
            && (k == k' ==> i == i' && j == j')
  {
    PlacedByDistance(cfg, local, t, i);
    PlacedByDistance(cfg, local, t, i');
    Log2DistanceIsLogarithm(local, t.buckets[i].recent[j].key);
  }

  /** In every reachable table each stored node is at the distance of its bucket, the local key is nowhere,
      and no key is stored twice. */
  lemma EveryKeyHasOnePlace<V>(cfg: Config<V>, local: Key, filter: TableFilter<V>, ops: seq<(TableOp<V>, int)>,
                               t: Table<V>, i: nat, j: nat, i': nat, j': nat)
    requires t == TableRun(cfg, local, filter, ops)
    requires i < NUM_BUCKETS && i' < NUM_BUCKETS && j < |t.buckets[i].recent| && j' < |t.buckets[i'].recent|
    ensures t.buckets[i].recent[j].key != local
    ensures Log2Distance(local, t.buckets[i].recent[j].key) == Some(i + 1)
    ensures t.buckets[i].recent[j].key == t.buckets[i'].recent[j'].key ==> i == i' && j == j'
  {
    TableRunKeeps(cfg, local, filter, ops);
    OnePlace(cfg, local, t, i, j, i', j');
  }
}
