/** The Kademlia key space: 256-bit keys under the XOR metric. */
module Keys {
  import opened Wrappers

  /** Number of bits in a key, and number of buckets in a routing table. */
  const NUM_BUCKETS: nat := 256

  /** A bit string; position `i` holds the coefficient of `2^i`. */
  type Bits = seq<bool>

  /** A key is its hash; node ids and keys are in bijection. */
  type Key = k: Bits | |k| == NUM_BUCKETS witness seq(NUM_BUCKETS, _ => false)

  /** The key with one bit set, or none if `i` is not the position of a bit. */
  function Only(i: nat): Key {
    seq(NUM_BUCKETS, j => j == i)
  }

  const ZERO: Key := Only(NUM_BUCKETS)

  function Xor(a: Bits, b: Bits): (d: Bits)
    requires |a| == |b|
    ensures |d| == |a|
    ensures forall i :: 0 <= i < |a| ==> d[i] == (a[i] != b[i])
  {
    seq(|a|, i requires 0 <= i < |a| => a[i] != b[i])
  }

  /** The integer a bit string denotes; distances are compared by it. */
  function ToNat(d: Bits): nat {
    if d == [] then 0 else (if d[0] then 1 else 0) + 2 * ToNat(d[1..])
  }

  function Pow2(n: nat): nat {
    if n == 0 then 1 else 2 * Pow2(n - 1)
  }

  /** The width of `d` less its leading zeros. */
  function BitLength(d: Bits): (n: nat)
    ensures n <= |d|
    ensures n > 0 ==> d[n - 1]
    ensures forall i :: n <= i < |d| ==> !d[i]
  {
    if d == [] then 0
    else if d[|d| - 1] then |d|
    else BitLength(d[..|d| - 1])
  }

  function Distance(a: Key, b: Key): Bits {
    Xor(a, b)
  }

  /** Distance as an integer. */
  function Dist(a: Key, b: Key): nat {
    ToNat(Distance(a, b))
  }

  function Log2Distance(a: Key, b: Key): (r: Option<nat>) {
    var n := BitLength(Distance(a, b));
    if n == 0 then None else Some(n)
  }

  /** The bucket of a table owned by `local` that `d = Distance(local, key)` falls in. */
  function BucketIndex(d: Bits): (r: Option<nat>)
    ensures r.Some? ==> r.value < |d|
  {
    var n := BitLength(d);
    if n == 0 then None else Some(n - 1)
  }

  // ----- Order of distances

  /** The highest position where two bit strings differ decides their order. */
  lemma {:induction false} HighestDifferenceDecides(a: Bits, b: Bits, k: nat)
    requires |a| == |b| && k < |a|
    requires !a[k] && b[k]
    requires forall i :: k < i < |a| ==> a[i] == b[i]
    ensures ToNat(a) < ToNat(b)
  {
    if k == 0 {
      assert a[1..] == b[1..];
    } else {
      HighestDifferenceDecides(a[1..], b[1..], k - 1);
    }
  }

  lemma {:induction false} ToNatInjective(a: Bits, b: Bits)
    requires |a| == |b| && ToNat(a) == ToNat(b)
    ensures a == b
  {
    if a != [] {
      ToNatInjective(a[1..], b[1..]);
      assert a == [a[0]] + a[1..] && b == [b[0]] + b[1..];
    }
  }

  /** The bit length is the integer base-2 logarithm, rounded down, plus one. */
  lemma {:induction false} BitLengthBrackets(d: Bits)
    ensures ToNat(d) < Pow2(BitLength(d))
    ensures BitLength(d) > 0 ==> Pow2(BitLength(d) - 1) <= ToNat(d)
  {
    if d != [] {
      var t := d[1..];
      BitLengthBrackets(t);
      var m, n := BitLength(t), BitLength(d);
      assert forall i :: 0 <= i < |t| ==> t[i] == d[i + 1];
      if m > 0 {
        assert t[m - 1] && d[m];
        assert n == m + 1;
      } else {
        forall i | 1 <= i < |d| ensures !d[i] { assert !t[i - 1]; }
        assert n == 1 <==> d[0];
      }
    }
  }

  // ----- The XOR metric

  lemma XorCancels(l: Bits, t: Bits, k: Bits)
    requires |l| == |t| == |k|
    ensures Xor(Xor(l, t), Xor(l, k)) == Xor(t, k)
  {
    var x, y := Xor(Xor(l, t), Xor(l, k)), Xor(t, k);
    assert forall i :: 0 <= i < |l| ==> x[i] == y[i];
  }

  lemma {:induction false} ToNatZero(d: Bits)
    ensures ToNat(d) == 0 <==> forall i :: 0 <= i < |d| ==> !d[i]
  {
    if d != [] {
      ToNatZero(d[1..]);
      assert forall i :: 0 <= i < |d[1..]| ==> d[1..][i] == d[i + 1];
      assert (forall i :: 0 <= i < |d| ==> !d[i]) <==> !d[0] && forall i :: 1 <= i < |d| ==> !d[i];
      if forall i :: 0 <= i < |d[1..]| ==> !d[1..][i] {
        forall i | 1 <= i < |d| ensures !d[i] { assert !d[1..][i - 1]; }
      }
    }
  }

  lemma {:induction false} XorTriangle(a: Bits, b: Bits, c: Bits)
    requires |a| == |b| == |c|
    ensures ToNat(Xor(a, c)) <= ToNat(Xor(a, b)) + ToNat(Xor(b, c))
  {
    if a != [] {
      XorTriangle(a[1..], b[1..], c[1..]);
      assert Xor(a, c)[1..] == Xor(a[1..], c[1..]);
      assert Xor(a, b)[1..] == Xor(a[1..], b[1..]);
      assert Xor(b, c)[1..] == Xor(b[1..], c[1..]);
    }
  }

  /** Identity, symmetry, the triangle inequality and unidirectionality. */
  lemma XorMetric(a: Key, b: Key, c: Key)
    ensures Dist(a, b) == 0 <==> a == b
    ensures Dist(a, b) == Dist(b, a)
    ensures Dist(a, c) <= Dist(a, b) + Dist(b, c)
    ensures Dist(a, b) == Dist(a, c) ==> b == c
  {
    ToNatZero(Distance(a, b));
    if Dist(a, b) == 0 {
      assert forall i :: 0 <= i < |a| ==> a[i] == b[i] by {
        forall i | 0 <= i < |a| ensures a[i] == b[i] { assert !Distance(a, b)[i]; }
      }
    }
    assert Distance(a, b) == Distance(b, a);
    XorTriangle(a, b, c);
    if Dist(a, b) == Dist(a, c) {
      ToNatInjective(Distance(a, b), Distance(a, c));
      assert forall i :: 0 <= i < |a| ==> b[i] == c[i] by {
        forall i | 0 <= i < |a| ensures b[i] == c[i] {
          assert Distance(a, b)[i] == Distance(a, c)[i];
        }
      }
    }
  }

  /** `Log2Distance` is the integer logarithm of the distance plus one, and absent only for equal keys. */
  lemma Log2DistanceIsLogarithm(a: Key, b: Key)
    ensures Log2Distance(a, b).None? <==> a == b
    ensures Log2Distance(a, b) == Log2Distance(b, a)
    ensures Log2Distance(a, b).Some? ==>
              var n := Log2Distance(a, b).value;
              1 <= n <= NUM_BUCKETS && Pow2(n - 1) <= Dist(a, b) < Pow2(n)
  {
    BitLengthBrackets(Distance(a, b));
    XorMetric(a, b, b);
    assert Distance(a, b) == Distance(b, a);
  }
}
