/** Peer ids as bit strings, least significant bit first, and the XOR metric of Kademlia
    (Maymounkov and Mazieres 2002, section 2.1) that white-box/kad.go computes with
    big integers. */
module Ids {

  type Bits = seq<bool>

  /** The number a bit string stands for. */
  function Val(a: Bits): nat {
    if a == [] then 0 else (if a[0] then 1 else 0) + 2 * Val(a[1..])
  }

  function Xor(a: Bits, b: Bits): (r: Bits)
    requires |a| == |b|
    ensures |r| == |a| && forall i :: 0 <= i < |a| ==> r[i] == (a[i] != b[i])
  {
    seq(|a|, i requires 0 <= i < |a| => a[i] != b[i])
  }

  function Dist(a: Bits, b: Bits): nat
    requires |a| == |b|
  {
    Val(Xor(a, b))
  }

  /** The bit string with only bit i set. */
  function OneBit(n: nat, i: nat): (r: Bits)
    requires i < n
    ensures |r| == n && forall k :: 0 <= k < n ==> r[k] == (k == i)
  {
    seq(n, k => k == i)
  }

  function Flip(a: Bits, i: nat): (r: Bits)
    requires i < |a|
  {
    a[i := !a[i]]
  }

  /** The highest set bit, or -1. */
  function Top(d: Bits): (t: int)
    ensures -1 <= t < |d|
    ensures t >= 0 ==> d[t]
    ensures forall i :: t < i < |d| ==> !d[i]
  {
    if d == [] then -1
    else if d[|d| - 1] then |d| - 1
    else Top(d[..|d| - 1])
  }

  /** a and b agree above bit p, where a has 0 and b has 1. */
  ghost predicate LessAt(a: Bits, b: Bits, p: nat) {
    |a| == |b| && p < |a| && !a[p] && b[p] && forall i :: p < i < |a| ==> a[i] == b[i]
  }

  // ------------------------------------------------------------------ the bridge to numeric order

  /** The order of the numbers is the order at the highest bit where the strings differ. */
  lemma {:induction false} LessAtIsLess(a: Bits, b: Bits, p: nat)
    requires LessAt(a, b, p)
    ensures Val(a) < Val(b)
    decreases |a|
  {
    if p == 0 {
      assert a[1..] == b[1..];
    } else {
      assert LessAt(a[1..], b[1..], p - 1) by {
        assert forall i :: 0 <= i < |a| - 1 ==> a[1..][i] == a[i + 1] && b[1..][i] == b[i + 1];
      }
      LessAtIsLess(a[1..], b[1..], p - 1);
    }
  }

  /** And conversely: numbers that differ come from strings that differ somewhere. */
  lemma LessIsLessAt(a: Bits, b: Bits) returns (p: nat)
    requires |a| == |b| && Val(a) < Val(b)
    ensures LessAt(a, b, p)
  {
    var t := Top(Xor(a, b));
    assert a != b;
    if t < 0 {
      assert false;
    }
    p := t;
    if LessAt(b, a, p) {
      LessAtIsLess(b, a, p);
      assert false;
    }
  }

  lemma ValInjective(a: Bits, b: Bits)
    requires |a| == |b| && Val(a) == Val(b)
    ensures a == b
  {
    var t := Top(Xor(a, b));
    if t >= 0 {
      if b[t] {
        LessAtIsLess(a, b, t);
      } else {
        LessAtIsLess(b, a, t);
      }
    } else {
      assert forall i :: 0 <= i < |a| ==> Xor(a, b)[i] == (a[i] != b[i]);
    }
  }

  // ------------------------------------------------------------------ the XOR metric

  /** A unidirectional metric: given the one end and the distance, the other end is fixed. */
  lemma DistInjective(t: Bits, a: Bits, b: Bits)
    requires |t| == |a| == |b| && Dist(t, a) == Dist(t, b)
    ensures a == b
  {
    ValInjective(Xor(t, a), Xor(t, b));
    assert forall i :: 0 <= i < |t| ==> Xor(t, a)[i] == Xor(t, b)[i];
  }

  lemma {:induction false} ValZero(a: Bits)
    ensures Val(a) == 0 <==> forall i :: 0 <= i < |a| ==> !a[i]
    decreases |a|
  {
    if a != [] {
      ValZero(a[1..]);
      assert forall i :: 0 <= i < |a| - 1 ==> a[1..][i] == a[i + 1];
      if forall i :: 0 <= i < |a| ==> !a[i] {
        assert !a[0];
      }
      if Val(a) == 0 {
        forall i | 0 <= i < |a|
          ensures !a[i]
        {
          if i > 0 {
            assert !a[1..][i - 1];
          }
        }
      }
    }
  }

  lemma DistZero(a: Bits, b: Bits)
    requires |a| == |b|
    ensures Dist(a, b) == 0 <==> a == b
  {
    ValZero(Xor(a, b));
    if Dist(a, b) == 0 {
      assert forall i :: 0 <= i < |a| ==> !Xor(a, b)[i];
    }
  }

  // ------------------------------------------------------------------ buckets

  /** The bucket of x in the table of self (section 2.2): the highest bit where the two
      differ; self itself goes to bucket 0. */
  function Bucket(self: Bits, x: Bits): (b: nat)
    requires |self| == |x| > 0
    ensures b < |self|
  {
    var t := Top(Xor(self, x));
    if t < 0 then 0 else t
  }

  function Ideal(self: Bits, i: nat): (r: Bits)
    requires i < |self|
    ensures |r| == |self|
  {
    Flip(self, i)
  }

  /** The ideal id of x's bucket is strictly closer to x than every other ideal id. */
  lemma BucketIsNearestIdeal(self: Bits, x: Bits, i: nat)
    requires |self| == |x| && i < |self| && i != Bucket(self, x)
    ensures Dist(Ideal(self, Bucket(self, x)), x) < Dist(Ideal(self, i), x)
  {
    var b := Bucket(self, x);
    var l, r := Xor(Ideal(self, b), x), Xor(Ideal(self, i), x);
    var p := if i < b then b else i;
    assert LessAt(l, r, p);
    LessAtIsLess(l, r, p);
  }

  /** Every peer in the bucket of a target is strictly closer to the target than every peer
      in any other bucket. */
  lemma OwnBucketIsCloser(self: Bits, t: Bits, near: Bits, far: Bits)
    requires |self| == |t| == |near| == |far| > 0
    requires Bucket(self, near) == Bucket(self, t) != Bucket(self, far)
    ensures Dist(near, t) < Dist(far, t)
  {
    var b, f := Bucket(self, t), Bucket(self, far);
    var l, r := Xor(near, t), Xor(far, t);
    assert forall i :: 0 <= i < |self| ==> l[i] == (Xor(self, near)[i] != Xor(self, t)[i]);
    assert forall i :: 0 <= i < |self| ==> r[i] == (Xor(self, far)[i] != Xor(self, t)[i]);
    var p := if f > b then f else b;
    assert LessAt(l, r, p);
    LessAtIsLess(l, r, p);
  }

  /** Another peer in the bucket of a target other than self is closer to it than self is, and
      the highest bit of the distance falls. */
  lemma OwnBucketImproves(self: Bits, t: Bits, near: Bits)
    requires |self| == |t| == |near| > 0 && self != t && self != near
    requires Bucket(self, near) == Bucket(self, t)
    ensures Dist(near, t) < Dist(self, t)
    ensures Top(Xor(near, t)) < Top(Xor(self, t))
  {
    var l, r := Xor(near, t), Xor(self, t);
    var b := Top(r);
    assert exists i :: 0 <= i < |t| && r[i];
    assert forall i :: 0 <= i < |t| ==> l[i] == (Xor(self, near)[i] != r[i]);
    assert LessAt(l, r, b);
    LessAtIsLess(l, r, b);
  }
}
