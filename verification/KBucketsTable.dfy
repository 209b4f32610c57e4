/** The routing table as an object owning its 256 buckets. */
module KBucketsTables {
  import opened Lists
  import opened Wrappers
  import opened Keys
  import opened Buckets
  import opened KBuckets
  import opened Tables

  class KBucketsTable<V(==)> {
    const cfg: Config<V>
    const localKey: Key
    const tableFilter: TableFilter<V>
    const buckets: seq<KBucket<V>>
    var appliedPending: seq<AppliedPending<V>>

    ghost function Abs(): (t: Table<V>)
      reads this, buckets
      ensures |t.buckets| == |buckets| && t.applied == appliedPending
      ensures forall i :: 0 <= i < |buckets| ==> t.buckets[i] == buckets[i].Abs()
    {
      Table(seq(|buckets|, i requires 0 <= i < |buckets| reads this, buckets => buckets[i].Abs()), appliedPending)
    }

    /** The bucket objects are sound and distinct. */
    ghost predicate Owned()
      reads this, buckets
    {
      && |buckets| == NUM_BUCKETS
      && (forall i :: 0 <= i < NUM_BUCKETS ==> buckets[i].Valid() && buckets[i].cfg == cfg)
      && (forall i, j :: 0 <= i < j < NUM_BUCKETS ==> buckets[i] != buckets[j])
    }

    ghost predicate Valid()
      reads this, buckets
    {
      Owned() && TableInv(cfg, localKey, Abs())
    }

    constructor (cfg: Config<V>, localKey: Key, tableFilter: TableFilter<V>)
      ensures Valid() && fresh(buckets)
      ensures this.cfg == cfg && this.localKey == localKey && this.tableFilter == tableFilter
      ensures Abs() == EmptyTable()
    {
      this.cfg, this.localKey, this.tableFilter := cfg, localKey, tableFilter;
      appliedPending := [];
      var bs: seq<KBucket<V>> := [];
      for n := 0 to NUM_BUCKETS
        invariant |bs| == n && fresh(bs)
        invariant forall i :: 0 <= i < n ==> bs[i].Valid() && bs[i].cfg == cfg && bs[i].Abs() == Bucket([], None)
        invariant forall i, j :: 0 <= i < j < n ==> bs[i] != bs[j]
      {
        var b := new KBucket<V>(cfg);
        bs := bs + [b];
      }
      buckets := bs;
      new;
      assert Abs().buckets == EmptyTable<V>().buckets;
    }

    method VisitBucket(i: nat, now: int)
      requires Owned() && i < NUM_BUCKETS
      modifies this, buckets[i]
      ensures Owned()
      ensures Abs() == Visit(cfg, old(Abs()), i, now)
    {
      ghost var before := Abs();
      var applied := buckets[i].ApplyPending(now);
      if applied.Some? {
        appliedPending := appliedPending + [applied.value];
      }
      assert Abs().buckets == before.buckets[i := buckets[i].Abs()];
    }

    method TableValues() returns (vs: seq<V>)
      requires Valid()
      ensures vs == AllValues(Abs().buckets)
    {
      vs := [];
      ghost var t := Abs().buckets;
      for n := 0 to NUM_BUCKETS
        invariant vs == AllValues(t[..n])
      {
        vs := vs + Values(buckets[n].nodes);
        assert t[..n + 1][..n] == t[..n];
        assert buckets[n].nodes == View(t[n].recent);
      }
      assert t[..NUM_BUCKETS] == t;
    }

    /** A value already stored under this key skips the table filter. */
    method CheckTableFilter(key: Key, value: V) returns (passed: bool)
      requires Valid()
      ensures passed == PassesTable(tableFilter, localKey, Abs(), key, value)
    {
      if tableFilter.None? {
        return true;
      }
      var index := IndexIn(localKey, key);
      var duplicate := false;
      if index.Some? {
        duplicate := IsStored(index.value, key, value);
      }
      if duplicate {
        return true;
      }
      var vs := TableValues();
      passed := tableFilter.value(value, vs);
    }

    method IsStored(i: nat, key: Key, value: V) returns (b: bool)
      requires Valid() && i < NUM_BUCKETS
      ensures var s := Abs().buckets[i].recent;
              b <==> HasKey(s, key) && s[IndexOf(s, key)].value == value
    {
      var bucket := buckets[i];
      ViewHasKey(bucket.recent, key);
      var pos := IndexOf(bucket.nodes, key);
      if pos == |bucket.nodes| {
        return false;
      }
      RemovedView(bucket.recent, key);
      return bucket.nodes[pos].value == value;
    }

    method InsertOrUpdate(node: Node<V>, now: int) returns (r: InsertOutcome)
      requires Valid()
      modifies this, buckets
      ensures Valid()
      ensures (Abs(), r) == Tables.InsertOrUpdate(cfg, localKey, tableFilter, old(Abs()), node, now)
    {
      InsertOrUpdateKeeps(cfg, localKey, tableFilter, Abs(), node, now);
      var passed := CheckTableFilter(node.key, node.value);
      var index := IndexIn(localKey, node.key);
      if index.None? {
        return InsertFailed(InvalidSelfUpdate);
      }
      VisitBucket(index.value, now);
      if !passed {
        var _ := RemoveAt(index.value, node.key, now);
        return InsertFailed(FailureReason.TableFilter);
      }
      r := InsertOrUpdateAt(index.value, node, now);
    }

    method RemoveAt(i: nat, key: Key, now: int) returns (existed: bool)
      requires Owned() && i < NUM_BUCKETS
      modifies buckets[i]
      ensures Owned()
      ensures existed == RemoveIn(cfg, old(Abs().buckets[i]), key, now).1
      ensures Abs() == SetBucket(old(Abs()), i, RemoveIn(cfg, old(Abs().buckets[i]), key, now).0)
    {
      ghost var before := Abs();
      existed := buckets[i].Remove(key, now);
      assert Abs().buckets == before.buckets[i := buckets[i].Abs()];
    }

    method InsertOrUpdateAt(i: nat, node: Node<V>, now: int) returns (r: InsertOutcome)
      requires Owned() && i < NUM_BUCKETS
      modifies buckets[i]
      ensures Owned()
      ensures r == InsertOrUpdateIn(cfg, old(Abs().buckets[i]), node, now).1
      ensures Abs() == SetBucket(old(Abs()), i, InsertOrUpdateIn(cfg, old(Abs().buckets[i]), node, now).0)
    {
      ghost var before := Abs();
      r := InsertOrUpdateBucket(buckets[i], node, now);
      assert Abs().buckets == before.buckets[i := buckets[i].Abs()];
    }

    static method InsertOrUpdateBucket(bucket: KBucket<V>, node: Node<V>, now: int) returns (r: InsertOutcome)
      requires bucket.Valid()
      modifies bucket
      ensures bucket.Valid()
      ensures (bucket.Abs(), r) == InsertOrUpdateIn(bucket.cfg, old(bucket.Abs()), node, now)
    {
      ViewHasKey(bucket.recent, node.key);
      if !HasKey(bucket.nodes, node.key) {
        var inserted := bucket.Insert(node, now);
        if inserted.NodeExists? {
          assert false;
        }
        return InsertedAs(inserted);
      }
      var status := bucket.UpdateStatus(node.key, node.status.state, Some(node.status.direction), now);
      if status.Failed? {
        return InsertFailed(IncomingLimit);
      }
      var value := bucket.UpdateValue(node.key, node.value);
      if value.UpdatedAndPromoted? {
        assert false;
      }
      return UpdatedAs(value, status);
    }

    method UpdateNodeStatus(key: Key, state: ConnectionState, direction: Option<ConnectionDirection>, now: int)
      returns (r: UpdateResult)
      requires Valid()
      modifies this, buckets
      ensures Valid()
      ensures (Abs(), r) == Tables.UpdateNodeStatus(cfg, localKey, old(Abs()), key, state, direction, now)
    {
      UpdateNodeStatusKeeps(cfg, localKey, Abs(), key, state, direction, now);
      var index := IndexIn(localKey, key);
      if index.None? {
        return NotModified;
      }
      var i := index.value;
      VisitBucket(i, now);
      ghost var before := Abs();
      r := buckets[i].UpdateStatus(key, state, direction, now);
      assert Abs().buckets == before.buckets[i := buckets[i].Abs()];
    }

    method UpdateNode(key: Key, value: V, state: Option<ConnectionState>, now: int) returns (r: UpdateResult)
      requires Valid()
      modifies this, buckets
      ensures Valid()
      ensures (Abs(), r) == Tables.UpdateNode(cfg, localKey, tableFilter, old(Abs()), key, value, state, now)
    {
      UpdateNodeKeeps(cfg, localKey, tableFilter, Abs(), key, value, state, now);
      var passed := CheckTableFilter(key, value);
      var index := IndexIn(localKey, key);
      if index.None? {
        return NotModified;
      }
      VisitBucket(index.value, now);
      if !passed {
        var _ := RemoveAt(index.value, key, now);
        return Failed(FailureReason.TableFilter);
      }
      r := UpdateNodeAt(index.value, key, value, state, now);
    }

    method UpdateNodeAt(i: nat, key: Key, value: V, state: Option<ConnectionState>, now: int) returns (r: UpdateResult)
      requires Owned() && i < NUM_BUCKETS
      modifies buckets[i]
      ensures Owned()
      ensures r == UpdateNodeIn(cfg, old(Abs().buckets[i]), key, value, state, now).1
      ensures Abs() == SetBucket(old(Abs()), i, UpdateNodeIn(cfg, old(Abs().buckets[i]), key, value, state, now).0)
    {
      ghost var before := Abs();
      var bucket := buckets[i];
      var updated := bucket.UpdateValue(key, value);
      if updated.Failed? {
        r := updated;
      } else {
        var status := NotModified;
        if state.Some? {
          status := bucket.UpdateStatus(key, state.value, None, now);
        }
        r := Combined(updated, status);
      }
      assert Abs().buckets == before.buckets[i := buckets[i].Abs()];
    }

    method Remove(key: Key, now: int) returns (existed: bool)
      requires Valid()
      modifies this, buckets
      ensures Valid()
      ensures (Abs(), existed) == Tables.Remove(cfg, localKey, old(Abs()), key, now)
    {
      RemoveKeeps(cfg, localKey, Abs(), key, now);
      var index := IndexIn(localKey, key);
      if index.None? {
        return false;
      }
      VisitBucket(index.value, now);
      existed := RemoveAt(index.value, key, now);
    }

    method TakeAppliedPending() returns (a: Option<AppliedPending<V>>)
      requires Valid()
      modifies this
      ensures Valid() && Abs().buckets == old(Abs()).buckets
      ensures old(appliedPending) == (if a.Some? then [a.value] else []) + appliedPending
      ensures a.None? ==> old(appliedPending) == []
    {
      ghost var before := Abs();
      if appliedPending == [] {
        return None;
      }
      a := Some(appliedPending[0]);
      appliedPending := appliedPending[1..];
      assert Abs().buckets == before.buckets;
    }
  }
}
