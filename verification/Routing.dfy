/** Lookups in the peer table and greedy routing: findClosestN and findClosest of
    white-box/kad.go, route of white-box/senders.go. */
module Routing {
  import opened Ids
  import opened PeerTable

  // ------------------------------------------------------------------ sorting by distance

  /** Every id in the list has the length of the target. */
  ghost predicate Sized(list: seq<PeerEntry>, t: Bits) {
    forall e :: e in list ==> |e.id| == |t|
  }

  function DistTo(e: PeerEntry, t: Bits): nat {
    if |e.id| == |t| then Dist(e.id, t) else 0
  }

  /** Before the first entry that is strictly farther. */
  function InsertNear(t: Bits, s: seq<PeerEntry>, e: PeerEntry): seq<PeerEntry> {
    if s == [] then [e]
    else if DistTo(e, t) < DistTo(s[0], t) then [e] + s
    else [s[0]] + InsertNear(t, s[1..], e)
  }

  /** The entries in order of distance, earlier ones first among equals. */
  function SortNear(t: Bits, list: seq<PeerEntry>): seq<PeerEntry> {
    if list == [] then [] else InsertNear(t, SortNear(t, list[..|list| - 1]), list[|list| - 1])
  }

  function Take(s: seq<PeerEntry>, n: nat): seq<PeerEntry> {
    if |s| <= n then s else s[..n]
  }

  ghost predicate Ascending(t: Bits, s: seq<PeerEntry>) {
    forall a, b :: 0 <= a < b < |s| ==> DistTo(s[a], t) <= DistTo(s[b], t)
  }

  lemma {:induction false} InsertNearAdds(t: Bits, s: seq<PeerEntry>, e: PeerEntry)
    ensures multiset(InsertNear(t, s, e)) == multiset(s) + multiset{e}
    decreases |s|
  {
    if s != [] {
      assert s == [s[0]] + s[1..];
      InsertNearAdds(t, s[1..], e);
    }
  }

  lemma AscendingCons(t: Bits, x: PeerEntry, s: seq<PeerEntry>)
    requires Ascending(t, s) && (s != [] ==> DistTo(x, t) <= DistTo(s[0], t))
    ensures Ascending(t, [x] + s)
  {
  }

  lemma {:induction false} InsertNearSorts(t: Bits, s: seq<PeerEntry>, e: PeerEntry)
    requires Ascending(t, s)
    ensures Ascending(t, InsertNear(t, s, e))
    ensures InsertNear(t, s, e)[0] == e || (s != [] && InsertNear(t, s, e)[0] == s[0])
    decreases |s|
  {
    if s != [] {
      if DistTo(e, t) < DistTo(s[0], t) {
        AscendingCons(t, e, s);
      } else {
        InsertNearSorts(t, s[1..], e);
        AscendingCons(t, s[0], InsertNear(t, s[1..], e));
      }
    }
  }

  /** SortNear is a sorted permutation. */
  lemma {:induction false} SortNearSorts(t: Bits, list: seq<PeerEntry>)
    ensures Ascending(t, SortNear(t, list))
    ensures multiset(SortNear(t, list)) == multiset(list)
    ensures |SortNear(t, list)| == |list|
    decreases |list|
  {
    if list != [] {
      var front, last := list[..|list| - 1], list[|list| - 1];
      assert list == front + [last];
      SortNearSorts(t, front);
      InsertNearSorts(t, SortNear(t, front), last);
      InsertNearAdds(t, SortNear(t, front), last);
      assert |multiset(SortNear(t, list))| == |multiset(list)|;
    }
  }

  /** Keeping the first n after every insertion loses nothing of the first n. */
  lemma {:induction false} TakeInsert(t: Bits, s: seq<PeerEntry>, e: PeerEntry, n: nat)
    ensures Take(InsertNear(t, s, e), n) == Take(InsertNear(t, Take(s, n), e), n)
    decreases |s|
  {
    if |s| > n {
      if n > 0 && DistTo(e, t) >= DistTo(s[0], t) {
        TakeInsert(t, s[1..], e, n - 1);
        assert Take(s, n)[1..] == Take(s[1..], n - 1);
      }
    }
  }

  // ------------------------------------------------------------------ findClosestN

  ghost function NearestIn(t: Bits, list: seq<PeerEntry>, n: nat): seq<PeerEntry> {
    Take(SortNear(t, list), n)
  }

  /** What findClosestN returns: the n nearest of the target's bucket. */
  ghost function Nearest(node: Node, t: Bits, n: nat): seq<PeerEntry>
    requires |node.table| == |node.self.signPub| == |t| > 0
  {
    NearestIn(t, node.table[Bucket(node.self.signPub, t)], n)
  }

  function Splice(s: seq<PeerEntry>, i: nat, e: PeerEntry): seq<PeerEntry>
    requires i <= |s|
  {
    s[..i] + [e] + s[i..]
  }

  /** Splicing at the first strictly farther place is insertion. */
  lemma {:induction false} SpliceIsInsert(t: Bits, s: seq<PeerEntry>, i: nat, e: PeerEntry)
    requires i <= |s| && (forall k :: 0 <= k < i ==> DistTo(e, t) >= DistTo(s[k], t))
    requires i < |s| ==> DistTo(e, t) < DistTo(s[i], t)
    ensures Splice(s, i, e) == InsertNear(t, s, e)
    decreases |s|
  {
    if i > 0 {
      var tail := s[1..];
      assert forall k :: 0 <= k < |tail| ==> tail[k] == s[k + 1];
      SpliceIsInsert(t, tail, i - 1, e);
      SpliceCons(s, i, e);
    }
  }

  lemma SpliceCons(s: seq<PeerEntry>, i: nat, e: PeerEntry)
    requires 0 < i <= |s|
    ensures Splice(s, i, e) == [s[0]] + Splice(s[1..], i - 1, e)
  {
  }

  /** Splicing into the first n of a sorted list and cutting to n gives the first n of the
      longer sorted list. */
  lemma SpliceAndCut(t: Bits, sorted: seq<PeerEntry>, n: nat, i: nat, e: PeerEntry)
    requires var s := Take(sorted, n);
      && i <= |s| && (forall k :: 0 <= k < i ==> DistTo(e, t) >= DistTo(s[k], t))
      && (i < |s| ==> DistTo(e, t) < DistTo(s[i], t))
    ensures Take(Splice(Take(sorted, n), i, e), n) == Take(InsertNear(t, sorted, e), n)
  {
    SpliceIsInsert(t, Take(sorted, n), i, e);
    TakeInsert(t, sorted, e, n);
  }

  /** The first of the distances that is greater, or their number. */
  method PlaceFor(dists: seq<nat>, count: nat, entryDist: nat) returns (i: nat)
    requires count <= |dists|
    ensures i <= count && forall k :: 0 <= k < i ==> entryDist >= dists[k]
    ensures i < count ==> entryDist < dists[i]
  {
    i := 0;
    while i < count
      invariant 0 <= i <= count
      invariant forall k :: 0 <= k < i ==> entryDist >= dists[k]
    {
      if entryDist < dists[i] {
        break;
      }
      i := i + 1;
    }
  }

  ghost predicate AreDists(dists: seq<nat>, closest: seq<PeerEntry>, t: Bits) {
    |closest| <= |dists| && forall k :: 0 <= k < |closest| ==> dists[k] == DistTo(closest[k], t)
  }

  /** The body of findClosestN's loop.  The slice of distances is never cut; its first
      len(closest) entries are the distances of closest. */
  method InsertClosest(closest: seq<PeerEntry>, dists: seq<nat>, entry: PeerEntry, t: Bits, n: nat,
                       ghost sorted: seq<PeerEntry>)
    returns (closest': seq<PeerEntry>, dists': seq<nat>)
    requires |entry.id| == |t| && closest == Take(sorted, n) && AreDists(dists, closest, t)
    ensures closest' == Take(InsertNear(t, sorted, entry), n) && AreDists(dists', closest', t)
  {
    var entryDist := Dist(entry.id, t);
    var i := PlaceFor(dists, |closest|, entryDist);
    SpliceAndCut(t, sorted, n, i, entry);
    closest' := Splice(closest, i, entry);
    dists' := dists[..i] + [entryDist] + dists[i..];
    if |closest'| > n {
      closest' := closest'[..n];
    }
  }

  /** findClosestN's loop over the bucket (kad.go:282-312). */
  method FindClosestIn(list: seq<PeerEntry>, t: Bits, n: nat) returns (closest: seq<PeerEntry>)
    requires forall e :: e in list ==> |e.id| == |t|
    ensures closest == NearestIn(t, list, n)
  {
    closest := [];
    var dists: seq<nat> := [];
    var curr := 0;
    while curr < |list|
      invariant 0 <= curr <= |list|
      invariant closest == NearestIn(t, list[..curr], n) && AreDists(dists, closest, t)
    {
      assert list[curr] in list;
      assert list[..curr + 1][..curr] == list[..curr];
      closest, dists := InsertClosest(closest, dists, list[curr], t, n, SortNear(t, list[..curr]));
      curr := curr + 1;
    }
    assert list[..curr] == list;
  }

  // ------------------------------------------------------------------ the whole table

  function AllFrom(table: seq<seq<PeerEntry>>, i: nat): seq<PeerEntry>
    decreases |table| - i
  {
    if i >= |table| then [] else table[i] + AllFrom(table, i + 1)
  }

  function InBucketNo(self: Bits, b: nat): PeerEntry -> bool {
    (e: PeerEntry) => |e.id| == |self| && |self| > 0 && Bucket(self, e.id) == b
  }

  function NotInBucketNo(self: Bits, b: nat): PeerEntry -> bool {
    (e: PeerEntry) => !InBucketNo(self, b)(e)
  }

  lemma {:induction false} KeepConcat(a: seq<PeerEntry>, b: seq<PeerEntry>, keep: PeerEntry -> bool)
    ensures Keep(a + b, keep) == Keep(a, keep) + Keep(b, keep)
    decreases |b|
  {
    if b == [] {
      assert a + b == a;
    } else {
      var front, last := b[..|b| - 1], b[|b| - 1];
      assert (a + b)[..|a + b| - 1] == a + front;
      KeepConcat(a, front, keep);
    }
  }

  lemma {:induction false} KeepAllOrNone(list: seq<PeerEntry>, keep: PeerEntry -> bool)
    ensures (forall e :: e in list ==> keep(e)) ==> Keep(list, keep) == list
    ensures (forall e :: e in list ==> !keep(e)) ==> Keep(list, keep) == []
    decreases |list|
  {
    if list != [] {
      assert list == list[..|list| - 1] + [list[|list| - 1]];
      KeepAllOrNone(list[..|list| - 1], keep);
    }
  }

  function AtDistance(t: Bits, d: nat): PeerEntry -> bool {
    (e: PeerEntry) => DistTo(e, t) == d
  }

  lemma KeepCons(x: PeerEntry, s: seq<PeerEntry>, keep: PeerEntry -> bool)
    ensures Keep([x] + s, keep) == (if keep(x) then [x] else []) + Keep(s, keep)
  {
    KeepConcat([x], s, keep);
    KeepAllOrNone([x], keep);
  }

  lemma ConsStable(x: PeerEntry, s: seq<PeerEntry>, r: seq<PeerEntry>, more: seq<PeerEntry>, keep: PeerEntry -> bool)
    requires Keep(r, keep) == Keep(s, keep) + more
    ensures Keep([x] + r, keep) == Keep([x] + s, keep) + more
  {
    KeepCons(x, s, keep);
    KeepCons(x, r, keep);
    Associate(if keep(x) then [x] else [], Keep(s, keep), more);
  }

  lemma Associate(a: seq<PeerEntry>, b: seq<PeerEntry>, c: seq<PeerEntry>)
    ensures a + (b + c) == a + b + c
  {
  }

  lemma InsertFirstStable(t: Bits, s: seq<PeerEntry>, e: PeerEntry, d: nat)
    requires Ascending(t, s) && s != [] && DistTo(e, t) < DistTo(s[0], t)
    ensures Keep([e] + s, AtDistance(t, d)) == Keep(s, AtDistance(t, d)) + if DistTo(e, t) == d then [e] else []
  {
    KeepCons(e, s, AtDistance(t, d));
    if DistTo(e, t) == d {
      KeepAllOrNone(s, AtDistance(t, d));
    }
  }

  lemma {:induction false} InsertNearStable(t: Bits, s: seq<PeerEntry>, e: PeerEntry, d: nat)
    requires Ascending(t, s)
    ensures Keep(InsertNear(t, s, e), AtDistance(t, d)) ==
      Keep(s, AtDistance(t, d)) + if DistTo(e, t) == d then [e] else []
    decreases |s|
  {
    if s == [] {
      KeepCons(e, [], AtDistance(t, d));
    } else if DistTo(e, t) < DistTo(s[0], t) {
      InsertFirstStable(t, s, e, d);
    } else {
      InsertNearStable(t, s[1..], e, d);
      ConsStable(s[0], s[1..], InsertNear(t, s[1..], e), if DistTo(e, t) == d then [e] else [], AtDistance(t, d));
      assert s == [s[0]] + s[1..];
    }
  }

  /** The sorting is stable: entries at one distance stay in their order. */
  lemma {:induction false} SortNearStable(t: Bits, list: seq<PeerEntry>, d: nat)
    ensures Keep(SortNear(t, list), AtDistance(t, d)) == Keep(list, AtDistance(t, d))
    decreases |list|
  {
    if list != [] {
      var front, last := list[..|list| - 1], list[|list| - 1];
      SortNearStable(t, front, d);
      SortNearSorts(t, front);
      InsertNearStable(t, SortNear(t, front), last, d);
    }
  }

  ghost predicate KeepsOnly(table: seq<seq<PeerEntry>>, keep: PeerEntry -> bool, b: nat, k: nat) {
    k < |table| ==> Keep(table[k], keep) == if k == b then table[k] else []
  }

  /** Of the whole table, the entries that belong in bucket b are those that stand in it. */
  lemma {:induction false} KeepBucket(table: seq<seq<PeerEntry>>, keep: PeerEntry -> bool, b: nat, i: nat)
    requires b < |table| && i <= |table| && forall k: nat :: KeepsOnly(table, keep, b, k)
    ensures Keep(AllFrom(table, i), keep) == if i <= b then table[b] else []
    decreases |table| - i
  {
    if i < |table| {
      KeepBucket(table, keep, b, i + 1);
      KeepConcat(table[i], AllFrom(table, i + 1), keep);
      assert KeepsOnly(table, keep, b, i);
    }
  }

  lemma KeepOneBucket(self: Bits, list: seq<PeerEntry>, b: nat, i: nat)
    requires i < |self| && PlacedBucket(self, i, list)
    ensures Keep(list, InBucketNo(self, b)) == if i == b then list else []
  {
    forall e | e in list
      ensures InBucketNo(self, b)(e) <==> i == b
    {
      assert PlacedEntry(self, i, e);
    }
    KeepAllOrNone(list, InBucketNo(self, b));
  }

  lemma {:induction false} InsertIntoNear(t: Bits, near: seq<PeerEntry>, far: seq<PeerEntry>, e: PeerEntry)
    requires forall x :: x in far ==> DistTo(e, t) < DistTo(x, t)
    ensures InsertNear(t, near + far, e) == InsertNear(t, near, e) + far
    decreases |near|
  {
    if near == [] {
      assert near + far == far;
      if far != [] {
        assert far[0] in far;
      }
    } else {
      assert (near + far)[1..] == near[1..] + far;
      InsertIntoNear(t, near[1..], far, e);
    }
  }

  lemma {:induction false} InsertIntoFar(t: Bits, near: seq<PeerEntry>, far: seq<PeerEntry>, e: PeerEntry)
    requires forall x :: x in near ==> DistTo(x, t) < DistTo(e, t)
    ensures InsertNear(t, near + far, e) == near + InsertNear(t, far, e)
    decreases |near|
  {
    if near == [] {
      assert near + far == far;
    } else {
      assert near[0] in near;
      assert (near + far)[1..] == near[1..] + far;
      InsertIntoFar(t, near[1..], far, e);
      assert near == [near[0]] + near[1..];
    }
  }

  lemma SortedMembers(t: Bits, list: seq<PeerEntry>, x: PeerEntry)
    ensures x in SortNear(t, list) <==> x in list
  {
    SortNearSorts(t, list);
    assert x in multiset(SortNear(t, list)) <==> x in multiset(list);
  }

  /** Sorting puts the target's bucket first: its entries are strictly closer than the rest. */
  lemma {:induction false} SortSplits(t: Bits, self: Bits, list: seq<PeerEntry>)
    requires |self| == |t| > 0 && forall e :: e in list ==> |e.id| == |t|
    ensures var b := Bucket(self, t);
      SortNear(t, list) ==
        SortNear(t, Keep(list, InBucketNo(self, b))) + SortNear(t, Keep(list, NotInBucketNo(self, b)))
    decreases |list|
  {
    if list != [] {
      var b := Bucket(self, t);
      var front, last := list[..|list| - 1], list[|list| - 1];
      assert list == front + [last];
      SortSplits(t, self, front);
      var near, far := Keep(front, InBucketNo(self, b)), Keep(front, NotInBucketNo(self, b));
      if InBucketNo(self, b)(last) {
        forall x | x in SortNear(t, far)
          ensures DistTo(last, t) < DistTo(x, t)
        {
          SortedMembers(t, far, x);
          OwnBucketIsCloser(self, t, last.id, x.id);
        }
        InsertIntoNear(t, SortNear(t, near), SortNear(t, far), last);
        KeepLast(front, last, InBucketNo(self, b));
        KeepLast(front, last, NotInBucketNo(self, b));
      } else {
        forall x | x in SortNear(t, near)
          ensures DistTo(x, t) < DistTo(last, t)
        {
          SortedMembers(t, near, x);
          OwnBucketIsCloser(self, t, x.id, last.id);
        }
        InsertIntoFar(t, SortNear(t, near), SortNear(t, far), last);
        KeepLast(front, last, InBucketNo(self, b));
        KeepLast(front, last, NotInBucketNo(self, b));
      }
    }
  }

  lemma KeepLast(front: seq<PeerEntry>, last: PeerEntry, keep: PeerEntry -> bool)
    ensures Keep(front + [last], keep) == if keep(last) then Keep(front, keep) + [last] else Keep(front, keep)
    ensures keep(last) ==> forall t ::
      SortNear(t, Keep(front + [last], keep)) == InsertNear(t, SortNear(t, Keep(front, keep)), last)
  {
    assert (front + [last])[..|front|] == front;
    if keep(last) {
      assert (Keep(front, keep) + [last])[..|Keep(front, keep)|] == Keep(front, keep);
    }
  }

  /** The whole table in order of distance begins with the target's bucket in that order. */
  lemma BucketComesFirst(self: Bits, table: seq<seq<PeerEntry>>, t: Bits)
    requires Placed(self, table) && |t| == |table|
    ensures SortNear(t, table[Bucket(self, t)]) <= SortNear(t, AllFrom(table, 0))
  {
    AllSized(self, table, 0);
    SortSplits(t, self, AllFrom(table, 0));
    var b := Bucket(self, t);
    forall k: nat
      ensures KeepsOnly(table, InBucketNo(self, b), b, k)
    {
      if k < |table| {
        KeepOneBucket(self, table[k], b, k);
      }
    }
    KeepBucket(table, InBucketNo(self, b), b, 0);
  }

  /** One bucket is enough: what findClosestN returns from the target's bucket is the beginning
      of the whole table in order of distance to the target. */
  lemma OneBucketIsEnough(node: Node, t: Bits, n: nat)
    requires Placed(node.self.signPub, node.table) && |t| == |node.table|
    ensures Nearest(node, t, n) <= SortNear(t, AllFrom(node.table, 0))
    ensures var size := |node.table[Bucket(node.self.signPub, t)]|;
      |Nearest(node, t, n)| == if size <= n then size else n
  {
    BucketComesFirst(node.self.signPub, node.table, t);
    SortNearSorts(t, node.table[Bucket(node.self.signPub, t)]);
  }

  lemma {:induction false} AllSized(self: Bits, table: seq<seq<PeerEntry>>, i: nat)
    requires Placed(self, table)
    ensures forall e :: e in AllFrom(table, i) ==> |e.id| == |self|
    ensures forall e :: e in AllFrom(table, i) <==> exists k :: i <= k < |table| && e in table[k]
    decreases |table| - i
  {
    if i < |table| {
      AllSized(self, table, i + 1);
      forall e | e in table[i]
        ensures |e.id| == |self|
      {
        assert PlacedEntry(self, i, e);
      }
    }
  }

  /** findClosest is nil on an empty bucket, and otherwise the nearest of the whole table. */
  lemma NearestOfAll(node: Node, t: Bits, i: nat, e: PeerEntry)
    requires Placed(node.self.signPub, node.table) && |t| == |node.table|
    requires i < |node.table| && e in node.table[i]
    ensures Nearest(node, t, 1) == [] <==> node.table[Bucket(node.self.signPub, t)] == []
    ensures Nearest(node, t, 1) != [] ==> DistTo(Nearest(node, t, 1)[0], t) <= DistTo(e, t)
  {
    var all := AllFrom(node.table, 0);
    OneBucketIsEnough(node, t, 1);
    AllSized(node.self.signPub, node.table, 0);
    SortNearSorts(t, all);
    assert e in all;
    SortedMembers(t, all, e);
    var a :| 0 <= a < |SortNear(t, all)| && SortNear(t, all)[a] == e;
    if Nearest(node, t, 1) != [] {
      assert SortNear(t, all)[0] == Nearest(node, t, 1)[0];
    }
  }

  // ------------------------------------------------------------------ route

  /** route's filter on the entries that the lookup returned. */
  function Closer(self: Bits, t: Bits): PeerEntry -> bool {
    (e: PeerEntry) => |e.peer.signPub| == |self| == |t| && Dist(e.peer.signPub, t) < Dist(self, t)
  }

  /** The entries whose peers route writes the message to. */
  ghost function Route(node: Node, t: Bits): seq<PeerEntry>
    requires |node.table| == |node.self.signPub| == |t| > 0
  {
    Keep(Nearest(node, t, 3), Closer(node.self.signPub, t))
  }

  lemma NearestInBucket(node: Node, t: Bits, n: nat, e: PeerEntry)
    requires Placed(node.self.signPub, node.table) && |t| == |node.table|
    requires e in Nearest(node, t, n)
    ensures PlacedEntry(node.self.signPub, Bucket(node.self.signPub, t), e)
  {
    var b := Bucket(node.self.signPub, t);
    SortedMembers(t, node.table[b], e);
  }

  /** The filter passes every peer that the lookup returned, except the node itself should it
      stand in its own table; for a message to itself the node passes none. */
  lemma RouteFilter(node: Node, t: Bits, e: PeerEntry)
    requires Placed(node.self.signPub, node.table) && |t| == |node.table|
    requires e in Nearest(node, t, 3)
    ensures e in Route(node, t) <==> t != node.self.signPub && e.id != node.self.signPub
  {
    NearestInBucket(node, t, 3, e);
    var self := node.self.signPub;
    if t == self {
      DistZero(self, t);
    } else if e.id != self {
      OwnBucketImproves(self, t, e.id);
    }
  }

  /** A new node that has been sent a bootstrap from its own id finds itself in its first bucket,
      and routes to nobody. */
  lemma SelfIsNotRouted(self: Peer, time: nat, now: nat, t: Bits)
    requires |t| == |self.signPub| > 0 && Bucket(self.signPub, t) == 0
    ensures var n := Step(InitialNode(self), Bootstrap(self.Id(), self, time, true, now));
      |n.table| == |t| && (exists e :: Nearest(n, t, 3) == [e] && e.id == self.signPub) && Route(n, t) == []
  {
    SelfIsListed(self, time, now);
    var n := Step(InitialNode(self), Bootstrap(self.Id(), self, time, true, now));
    var e := n.table[0][0];
    assert SortNear(t, n.table[0]) == [e];
    assert Nearest(n, t, 3) == [e];
    KeepAllOrNone([e], Closer(self.signPub, t));
  }

  /** Where a message stands: one more than the highest bit in which its holder differs from
      the target, 0 at the target. */
  function Level(x: Bits, t: Bits): nat
    requires |x| == |t|
  {
    Top(Xor(x, t)) + 1
  }

  lemma RouteDescends(node: Node, t: Bits, e: PeerEntry)
    requires Placed(node.self.signPub, node.table) && |t| == |node.table|
    requires e in Route(node, t)
    ensures |e.peer.signPub| == |t| && Level(e.peer.signPub, t) < Level(node.self.signPub, t)
  {
    assert e in Nearest(node, t, 3);
    NearestInBucket(node, t, 3, e);
    RouteFilter(node, t, e);
    OwnBucketImproves(node.self.signPub, t, e.id);
  }

  /** b is a node that a routes a message for t to. */
  ghost predicate Hop(a: Node, b: Node, t: Bits)
    requires |a.table| == |a.self.signPub| == |t| > 0
  {
    exists e :: e in Route(a, t) && e.peer.signPub == b.self.signPub
  }

  lemma HopDescends(a: Node, b: Node, t: Bits)
    requires Placed(a.self.signPub, a.table) && |t| == |a.table| && Hop(a, b, t)
    ensures |b.self.signPub| == |t| && Level(b.self.signPub, t) < Level(a.self.signPub, t)
  {
    var e :| e in Route(a, t) && e.peer.signPub == b.self.signPub;
    RouteDescends(a, t, e);
  }

  ghost predicate HopAt(nodes: seq<Node>, t: Bits, k: nat) {
    && k + 1 < |nodes| && Placed(nodes[k].self.signPub, nodes[k].table) && |nodes[k].table| == |t|
    && Hop(nodes[k], nodes[k + 1], t)
  }

  /** A chain of nodes, each chosen by the one before for the same target. */
  ghost predicate IsRoute(nodes: seq<Node>, t: Bits) {
    && nodes != [] && |nodes[0].self.signPub| == |t|
    && forall k: nat :: k < |nodes| - 1 ==> HopAt(nodes, t, k)
  }

  /** From the i-th node to the j-th the level falls by at least one a hop. */
  lemma {:induction false} LevelsFall(nodes: seq<Node>, t: Bits, i: nat, j: nat)
    requires IsRoute(nodes, t) && i <= j < |nodes|
    ensures |nodes[i].self.signPub| == |t| == |nodes[j].self.signPub|
    ensures Level(nodes[j].self.signPub, t) + (j - i) <= Level(nodes[i].self.signPub, t)
    decreases j - i
  {
    if i == j {
      assert i > 0 ==> HopAt(nodes, t, i - 1);
    } else {
      LevelsFall(nodes, t, i, j - 1);
      assert HopAt(nodes, t, j - 1);
      HopDescends(nodes[j - 1], nodes[j], t);
    }
  }

  /** The routing bound: on any chain of nodes, each chosen by the one before for the same
      target, no node comes twice and there are at most as many hops as an id has bits. */
  lemma RoutingBound(nodes: seq<Node>, t: Bits)
    requires IsRoute(nodes, t)
    ensures |nodes| - 1 <= |t|
    ensures forall i, j :: 0 <= i < j < |nodes| ==> nodes[i].self.signPub != nodes[j].self.signPub
  {
    LevelsFall(nodes, t, 0, |nodes| - 1);
    forall i, j | 0 <= i < j < |nodes|
      ensures nodes[i].self.signPub != nodes[j].self.signPub
    {
      LevelsFall(nodes, t, i, j);
    }
  }

  // ------------------------------------------------------------------ relaying as it is written

  /** What processMessage does with a message (processors.go:23-33); time 0 is the zero time. */
  datatype Fate = Dropped | Relayed | Handled

  function FateOf(noReroute: set<nat>, time: nat, toSelf: bool): Fate {
    if time == 0 || toSelf then Handled
    else if time !in noReroute then Dropped
    else Relayed
  }

  function NoRerouteAfter(noReroute: set<nat>, time: nat, toSelf: bool): set<nat> {
    if FateOf(noReroute, time, toSelf) == Relayed then noReroute + {time} else noReroute
  }

  ghost predicate Messages(nrs: seq<set<nat>>, times: seq<nat>, toSelf: seq<bool>) {
    && |nrs| == |times| + 1 == |toSelf| + 1 && nrs[0] == {}
    && forall k :: 0 <= k < |times| ==> nrs[k + 1] == NoRerouteAfter(nrs[k], times[k], toSelf[k])
  }

  /** The test for "seen" is the wrong way round: starting with nothing in NoReroute, no run of
      messages puts anything there.  A message for the node itself, or without a time, is
      handled; every other is dropped, and none is ever relayed. */
  lemma {:induction false} NothingIsRelayed(nrs: seq<set<nat>>, times: seq<nat>, toSelf: seq<bool>, k: nat)
    requires Messages(nrs, times, toSelf) && k <= |times|
    ensures nrs[k] == {}
    ensures k < |times| ==>
      FateOf(nrs[k], times[k], toSelf[k]) == if times[k] == 0 || toSelf[k] then Handled else Dropped
  {
    if k > 0 {
      NothingIsRelayed(nrs, times, toSelf, k - 1);
    }
  }
}
