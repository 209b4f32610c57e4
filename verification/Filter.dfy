/** The /24 subnet filter and what it guarantees of every bucket that uses it. */
module Filters {
  import opened Lists
  import opened Wrappers
  import opened Keys
  import opened Buckets
  import opened BucketRuns

  const MAX_NODES_PER_SUBNET_BUCKET: nat := 2

  datatype Ip4 = Ip4(a: nat, b: nat, c: nat, d: nat)

  /** A node record; `size` is the length of its encoding. */
  datatype Enr = Enr(nodeId: Key, seqNo: nat, ip4: Option<Ip4>, size: nat)

  predicate SameSubnet(x: Ip4, y: Ip4) {
    x.a == y.a && x.b == y.b && x.c == y.c
  }

  /** Records other than `value` itself in the subnet of `value`. */
  function Conflicts(value: Enr, others: seq<Enr>): nat {
    if others == [] then 0
    else
      var o := others[|others| - 1];
      Conflicts(value, others[..|others| - 1]) +
      if o != value && value.ip4.Some? && o.ip4.Some? && SameSubnet(o.ip4.value, value.ip4.value) then 1 else 0
  }

  /** Another record whose address has the same first three octets. */
  function Rival(value: Enr): Enr -> bool {
    (o: Enr) => && o != value && value.ip4.Some? && o.ip4.Some?
                && var x, y := o.ip4.value, value.ip4.value; x.a == y.a && x.b == y.b && x.c == y.c
  }

  lemma {:induction false} ConflictsAreRivals(value: Enr, others: seq<Enr>)
    ensures Conflicts(value, others) == CountIf(Rival(value), others)
  {
    if others != [] { ConflictsAreRivals(value, others[..|others| - 1]); }
  }

  method IpFilter(value: Enr, others: seq<Enr>, limit: nat) returns (ok: bool)
    ensures limit > 0 ==> (ok <==> value.ip4.None? || CountIf(Rival(value), others) < limit)
    ensures limit == 0 ==> (ok <==> value.ip4.None? || forall o :: o in others ==> o == value)
  {
    ConflictsAreRivals(value, others);
    if value.ip4.Some? {
      var count := 0;
      for i := 0 to |others|
        invariant count == Conflicts(value, others[..i])
        invariant limit > 0 ==> count < limit
        invariant limit == 0 ==> forall j :: 0 <= j < i ==> others[j] == value
      {
        assert others[..i + 1][..i] == others[..i];
        var o := others[i];
        if o == value {
          continue;
        }
        if o.ip4.Some? && SameSubnet(o.ip4.value, value.ip4.value) {
          count := count + 1;
        }
        if count >= limit {
          ConflictsGrow(value, others, i + 1);
          assert o in others;
          return false;
        }
      }
      assert others[..|others|] == others;
    }
    return true;
  }

  lemma {:induction false} ConflictsGrow(value: Enr, others: seq<Enr>, i: nat)
    requires i <= |others|
    ensures Conflicts(value, others[..i]) <= Conflicts(value, others)
  {
    if i == |others| {
      assert others[..i] == others;
    } else {
      var init := others[..|others| - 1];
      ConflictsGrow(value, init, i);
      assert init[..i] == others[..i];
    }
  }

  predicate IpBucketFilter(value: Enr, others: seq<Enr>) {
    value.ip4.None? || Conflicts(value, others) < MAX_NODES_PER_SUBNET_BUCKET
  }

  // ----- The bound on subnets

  function InSubnet(net: Ip4): Node<Enr> -> bool {
    (n: Node<Enr>) => n.value.ip4.Some? && var ip := n.value.ip4.value; ip.a == net.a && ip.b == net.b && ip.c == net.c
  }

  /** Nodes are stored under the id in their record, and no /24 has more than two of them. */
  ghost predicate SubnetInv(b: Bucket<Enr>) {
    && (forall i :: 0 <= i < |b.recent| ==> b.recent[i].key == b.recent[i].value.nodeId)
    && (b.pending.Some? ==> b.pending.value.node.key == b.pending.value.node.value.nodeId)
    && (forall net :: CountIf(InSubnet(net), b.recent) <= MAX_NODES_PER_SUBNET_BUCKET)
  }

  lemma {:induction false} ConflictsAreCount(value: Enr, s: seq<Node<Enr>>)
    requires value.ip4.Some?
    requires forall i :: 0 <= i < |s| ==> s[i].value != value
    ensures Conflicts(value, Values(s)) == CountIf(InSubnet(value.ip4.value), s)
  {
    if s != [] {
      ConflictsAreCount(value, s[..|s| - 1]);
      assert Values(s)[..|s| - 1] == Values(s[..|s| - 1]);
    }
  }

  lemma ViewAvoids(s: seq<Node<Enr>>, value: Enr)
    requires !HasKey(s, value.nodeId) && forall i :: 0 <= i < |s| ==> s[i].key == s[i].value.nodeId
    ensures forall i :: 0 <= i < |View(s)| ==> View(s)[i].value != value
  {
    SelectMembers(s, false);
    SelectMembers(s, true);
    forall i, c | 0 <= i < |Select(s, c)| ensures Select(s, c)[i].value != value {
      var j :| 0 <= j < |s| && s[j] == Select(s, c)[i];
    }
  }

  /** A record that passes the filter over a bucket not holding its id leaves room in its subnet. */
  lemma PassMeansRoom(cfg: Config<Enr>, s: seq<Node<Enr>>, value: Enr)
    requires cfg.filter == Some(IpBucketFilter)
    requires !HasKey(s, value.nodeId) && forall i :: 0 <= i < |s| ==> s[i].key == s[i].value.nodeId
    ensures Passes(cfg, value, View(s)) <==>
              value.ip4.Some? ==> CountIf(InSubnet(value.ip4.value), s) < MAX_NODES_PER_SUBNET_BUCKET
  {
    if value.ip4.Some? {
      ViewAvoids(s, value);
      ConflictsAreCount(value, View(s));
      CountView(s, InSubnet(value.ip4.value));
    }
  }

  lemma SubnetEquivalence(x: Ip4, y: Ip4, s: seq<Node<Enr>>)
    requires SameSubnet(x, y)
    ensures CountIf(InSubnet(x), s) == CountIf(InSubnet(y), s)
  {
    if s != [] { SubnetEquivalence(x, y, s[..|s| - 1]); }
  }

  lemma AppendSubnets(s: seq<Node<Enr>>, node: Node<Enr>)
    requires forall net :: CountIf(InSubnet(net), s) <= MAX_NODES_PER_SUBNET_BUCKET
    requires node.value.ip4.Some? ==> CountIf(InSubnet(node.value.ip4.value), s) < MAX_NODES_PER_SUBNET_BUCKET
    ensures forall net :: CountIf(InSubnet(net), s + [node]) <= MAX_NODES_PER_SUBNET_BUCKET
  {
    forall net ensures CountIf(InSubnet(net), s + [node]) <= MAX_NODES_PER_SUBNET_BUCKET {
      assert (s + [node])[..|s|] == s;
      if InSubnet(net)(node) { SubnetEquivalence(node.value.ip4.value, net, s); }
    }
  }

  lemma WithoutSubnets(b: Bucket<Enr>, k: Key)
    requires SubnetInv(b)
    ensures SubnetInv(b.(recent := Without(b.recent, k)))
  {
    var s, i := b.recent, IndexOf(b.recent, k);
    forall net ensures CountIf(InSubnet(net), Without(s, k)) <= MAX_NODES_PER_SUBNET_BUCKET {
      CountWithout(s, k, InSubnet(net));
    }
    forall j | 0 <= j < |Without(s, k)| ensures Without(s, k)[j].key == Without(s, k)[j].value.nodeId {
      assert Without(s, k)[j] == s[if j < i then j else j + 1];
    }
  }

  lemma InsertSubnets(cfg: Config<Enr>, b: Bucket<Enr>, node: Node<Enr>, now: int)
    requires cfg.filter == Some(IpBucketFilter) && SubnetInv(b) && node.key == node.value.nodeId
    ensures SubnetInv(InsertIn(cfg, b, node, now).0)
  {
    if InsertIn(cfg, b, node, now).1.Inserted? {
      PassMeansRoom(cfg, b.recent, node.value);
      AppendSubnets(b.recent, node);
    }
  }

  lemma ApplySubnets(cfg: Config<Enr>, b: Bucket<Enr>, now: int)
    requires cfg.filter == Some(IpBucketFilter) && SubnetInv(b) && Inv(cfg, b)
    ensures SubnetInv(ApplyPendingIn(cfg, b, now).0)
  {
    if b.pending.Some? && b.pending.value.replace <= now {
      var node := b.pending.value.node;
      if |b.recent| < MAX_NODES_PER_BUCKET {
        InsertSubnets(cfg, b.(pending := None), node, now);
      } else if ApplyPendingIn(cfg, b, now).1.Some? {
        var k := Select(b.recent, false)[0].key;
        PassMeansRoom(cfg, b.recent, node.value);
        WithoutSubnets(b, k);
        if node.value.ip4.Some? { CountWithout(b.recent, k, InSubnet(node.value.ip4.value)); }
        AppendSubnets(Without(b.recent, k), node);
      }
    }
  }

  /** Under this filter a status update never loses a node to the filter. */
  lemma UpdateStatusSubnets(cfg: Config<Enr>, b: Bucket<Enr>, key: Key, state: ConnectionState,
                            direction: Option<ConnectionDirection>, now: int)
    requires cfg.filter == Some(IpBucketFilter) && SubnetInv(b) && Inv(cfg, b)
    ensures SubnetInv(UpdateStatusIn(cfg, b, key, state, direction, now).0)
    ensures UpdateStatusIn(cfg, b, key, state, direction, now).1 != Failed(BucketFilter)
  {
    if HasKey(b.recent, key) {
      TakenOutFits(cfg, b, key);
      ReinsertSubnets(cfg, TakenOut(b, key, state), Reporting(b, key, state, direction), now);
    }
  }

  /** A stored node that is taken out passes the filter on its way back in. */
  lemma TakenOutFits(cfg: Config<Enr>, b: Bucket<Enr>, key: Key)
    requires cfg.filter == Some(IpBucketFilter) && SubnetInv(b) && Inv(cfg, b) && HasKey(b.recent, key)
    ensures var w := Without(b.recent, key);
            && !HasKey(w, key) && |w| < MAX_NODES_PER_BUCKET
            && SubnetInv(b.(recent := w)) && Passes(cfg, b.recent[IndexOf(b.recent, key)].value, View(w))
  {
    var was := b.recent[IndexOf(b.recent, key)];
    WithoutKeys(b.recent, key);
    WithoutSubnets(b, key);
    PassMeansRoom(cfg, Without(b.recent, key), was.value);
    if was.value.ip4.Some? { CountWithout(b.recent, key, InSubnet(was.value.ip4.value)); }
  }

  lemma ReinsertSubnets(cfg: Config<Enr>, b: Bucket<Enr>, node: Node<Enr>, now: int)
    requires cfg.filter == Some(IpBucketFilter) && SubnetInv(b) && node.key == node.value.nodeId
    requires Passes(cfg, node.value, View(b.recent)) && !HasKey(b.recent, node.key) && |b.recent| < MAX_NODES_PER_BUCKET
    ensures var (b', r) := InsertIn(cfg, b, node, now);
            SubnetInv(b') && (r.Inserted? || r.TooManyIncoming?)
  {
    InsertSubnets(cfg, b, node, now);
  }

  lemma UpdateValueSubnets(cfg: Config<Enr>, b: Bucket<Enr>, key: Key, value: Enr)
    requires cfg.filter == Some(IpBucketFilter) && SubnetInv(b) && Inv(cfg, b) && key == value.nodeId
    ensures SubnetInv(UpdateValueIn(cfg, b, key, value).0)
  {
    if HasKey(b.recent, key) {
      WithoutKeys(b.recent, key);
      WithoutSubnets(b, key);
      var i, w := IndexOf(b.recent, key), Without(b.recent, key);
      if UpdateValueIn(cfg, b, key, value).1.Updated? {
        var n := b.recent[i].(value := value);
        PassMeansRoom(cfg, w, value);
        forall net ensures CountIf(InSubnet(net), b.recent[i := n]) <= MAX_NODES_PER_SUBNET_BUCKET {
          CountReplaced(b.recent, i, n, InSubnet(net));
          if InSubnet(net)(n) { SubnetEquivalence(value.ip4.value, net, w); }
        }
      }
    }
  }

  lemma CountReplaced(s: seq<Node<Enr>>, i: nat, n: Node<Enr>, p: Node<Enr> -> bool)
    requires i < |s|
    ensures CountIf(p, s[i := n]) == CountIf(p, s[..i] + s[i + 1..]) + if p(n) then 1 else 0
  {
    assert s[i := n] == s[..i] + [n] + s[i + 1..];
    CountConcat(p, s[..i] + [n], s[i + 1..]);
    CountConcat(p, s[..i], [n]);
    CountConcat(p, s[..i], s[i + 1..]);
    assert [n][..0] == [];
  }

  predicate NamedByRecord(op: Op<Enr>) {
    match op
    case OpInsert(node) => node.key == node.value.nodeId
    case OpUpdateValue(key, value) => key == value.nodeId
    case _ => true
  }

  /** Every bucket reached through the IP filter holds at most two nodes per /24. */
  lemma {:induction false} RunSubnets(cfg: Config<Enr>, ops: seq<Timed<Enr>>)
    requires cfg.filter == Some(IpBucketFilter)
    requires forall i :: 0 <= i < |ops| ==> NamedByRecord(ops[i].op)
    ensures SubnetInv(Run(cfg, ops))
  {
    if ops != [] {
      var init, t := ops[..|ops| - 1], ops[|ops| - 1];
      var b := Run(cfg, init);
      RunSubnets(cfg, init);
      RunKeeps(cfg, init);
      match t.op
      case OpInsert(node) => InsertSubnets(cfg, b, node, t.now);
      case OpRemove(key) =>
        WithoutSubnets(b, key);
        RemovalKeeps(cfg, b, key);
        ApplySubnets(cfg, b.(recent := Without(b.recent, key)), t.now);
      case OpUpdateStatus(key, state, direction) => UpdateStatusSubnets(cfg, b, key, state, direction, t.now);
      case OpUpdateValue(key, value) => UpdateValueSubnets(cfg, b, key, value);
      case OpUpdatePending(status) =>
      case OpApplyPending => ApplySubnets(cfg, b, t.now);
    }
  }
}
