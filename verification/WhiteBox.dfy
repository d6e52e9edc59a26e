/** The WhiteBox object of white-box/kad.go, processors.go and senders.go, as far as it holds
    the peer table and the peer cache: each method takes the step of module PeerTable, or
    returns what module Routing says. */
module WhiteBoxes {
  import opened Ids
  import opened PeerTable
  import opened Routing

  datatype Found = Nobody | Found(entry: PeerEntry)

  function ShiftLeft(m: Bits): (r: Bits)
    requires m != []
  {
    [false] + m[..|m| - 1]
  }

  /** calculateIdealTable: the id with one bit flipped, for each bit. */
  method CalculateIdealTable(id: Bits) returns (idealIds: seq<Bits>)
    ensures |idealIds| == |id| && forall i :: 0 <= i < |id| ==> idealIds[i] == Ideal(id, i)
  {
    idealIds := [];
    if id == [] {
      return;
    }
    var mask := OneBit(|id|, 0);
    var i := 0;
    while i < |id|
      invariant 0 <= i <= |id| == |mask| && |idealIds| == i
      invariant i < |id| ==> mask == OneBit(|id|, i)
      invariant forall k :: 0 <= k < i ==> idealIds[k] == Ideal(id, k)
    {
      assert Xor(id, mask) == Ideal(id, i);
      idealIds := idealIds + [Xor(id, mask)];
      mask := ShiftLeft(mask);
      i := i + 1;
    }
  }

  lemma {:induction false} BackScan(list: seq<PeerEntry>, e: PeerEntry, at: nat)
    requires at <= |list| && forall k :: at <= k < |list| ==> e.distance < list[k].distance
    requires at > 0 ==> e.distance >= list[at - 1].distance
    ensures InsertFromBack(list, e) == list[..at] + [e] + list[at..]
    decreases |list|
  {
    if at < |list| {
      var front := list[..|list| - 1];
      BackScan(front, e, at);
      assert list[at..] == front[at..] + [list[|list| - 1]];
      assert front[..at] == list[..at];
    }
  }

  ghost predicate StaleBelow(table: seq<seq<PeerEntry>>, now: nat, i: nat) {
    exists k :: 0 <= k < i && k < |table| && Keep(table[k], Stale(now)) != []
  }

  /** The entries of a bucket that removePeer leaves. */
  method TakeOut(list: seq<PeerEntry>, id: Bits) returns (kept: seq<PeerEntry>)
    ensures kept == Keep(list, Other(id))
  {
    kept := [];
    var curr := 0;
    while curr < |list|
      invariant 0 <= curr <= |list|
      invariant kept == Keep(list[..curr], Other(id))
    {
      assert list[..curr + 1][..curr] == list[..curr];
      if list[curr].id != id {
        kept := kept + [list[curr]];
      }
      curr := curr + 1;
    }
    assert list[..curr] == list;
  }

  /** The entries of a bucket that removeStalePeers leaves and those it takes out. */
  method SplitStale(list: seq<PeerEntry>, now: nat) returns (kept: seq<PeerEntry>, removeList: seq<PeerEntry>)
    ensures kept == Keep(list, Recent(now)) && removeList == Keep(list, Stale(now))
  {
    kept, removeList := [], [];
    var curr := 0;
    while curr < |list|
      invariant 0 <= curr <= |list|
      invariant kept == Keep(list[..curr], Recent(now))
      invariant removeList == Keep(list[..curr], Stale(now))
    {
      assert list[..curr + 1][..curr] == list[..curr];
      if now - list[curr].seen > 60 {
        removeList := removeList + [list[curr]];
      } else {
        kept := kept + [list[curr]];
      }
      curr := curr + 1;
    }
    assert list[..curr] == list;
  }

  class WhiteBox {
    const self: Peer
    const idealPeerIds: seq<Bits>
    var table: seq<seq<PeerEntry>>
    var peerCache: map<PeerId, PeerCache>
    var emptyList: bool

    ghost predicate Valid()
      reads this
    {
      && |table| == |self.signPub| == |idealPeerIds| > 0
      && forall i :: 0 <= i < |idealPeerIds| ==> idealPeerIds[i] == Ideal(self.signPub, i)
    }

    ghost function State(): Node
      reads this
    {
      Node(self, table, peerCache, emptyList)
    }

    constructor (self: Peer)
      requires self.signPub != []
      ensures Valid() && State() == InitialNode(self)
    {
      var ideal := CalculateIdealTable(self.signPub);
      this.self, this.idealPeerIds := self, ideal;
      this.table, this.peerCache, this.emptyList := seq(|self.signPub|, _ => []), map[], true;
    }

    /** The scan over the ideal ids finds the Kademlia bucket. */
    method ClosestIndex(id: Bits) returns (lowestIdealIdx: nat)
      requires Valid() && |id| == |table|
      ensures lowestIdealIdx == Bucket(self.signPub, id)
    {
      var lowestIdealDist := 0;
      lowestIdealIdx := 0;
      var i := 0;
      while i < |idealPeerIds|
        invariant 0 <= i <= |idealPeerIds| && lowestIdealIdx < |idealPeerIds|
        invariant i > 0 ==> lowestIdealDist == Dist(idealPeerIds[lowestIdealIdx], id)
        invariant forall k :: 0 <= k < i ==> lowestIdealDist <= Dist(idealPeerIds[k], id)
      {
        var dist := Dist(idealPeerIds[i], id);
        if i == 0 {
          lowestIdealDist, lowestIdealIdx := dist, i;
        }
        if dist < lowestIdealDist {
          lowestIdealDist, lowestIdealIdx := dist, i;
        }
        i := i + 1;
      }
      assert lowestIdealDist <= Dist(idealPeerIds[Bucket(self.signPub, id)], id);
      if lowestIdealIdx != Bucket(self.signPub, id) {
        BucketIsNearestIdeal(self.signPub, id, lowestIdealIdx);
      }
    }

    method HavePeers() returns (r: bool)
      requires Valid()
      ensures r <==> !NoPeers(table)
    {
      var i := 0;
      while i < |table|
        invariant 0 <= i <= |table|
        invariant forall k :: 0 <= k < i ==> table[k] == []
      {
        if |table[i]| > 0 {
          return true;
        }
        i := i + 1;
      }
      return false;
    }

    method CacheMin(min: PeerId)
      requires Valid()
      modifies this`peerCache
      ensures Valid() && State() == old(State()).(cache := old(peerCache)[min := Cached(old(peerCache), min)])
    {
      peerCache := peerCache[min := Cached(peerCache, min)];
    }

    method AddPeer(peer: Peer, seenTime: nat, now: nat)
      requires Valid() && |peer.signPub| == |table|
      modifies this
      ensures Valid() && State() == PeerTable.AddPeer(old(State()), peer, seenTime, now)
    {
      var cache := Cached(peerCache, peer.Id());
      if peer.Id() in peerCache && cache.added && !cache.disconnected {
        return;
      }
      peerCache := peerCache[peer.Id() := cache.(added := true, disconnected := false, time := seenTime)];
      var idx := ClosestIndex(peer.signPub);
      var insertDist := Dist(idealPeerIds[idx], peer.signPub);
      var insertEntry := PeerEntry(peer.signPub, insertDist, peer, now);
      var list := table[idx];
      var curr := |list|;
      while curr > 0 && insertDist < list[curr - 1].distance
        invariant 0 <= curr <= |list|
        invariant forall k :: curr <= k < |list| ==> insertDist < list[k].distance
      {
        curr := curr - 1;
      }
      BackScan(list, insertEntry, curr);
      table := table[idx := list[..curr] + [insertEntry] + list[curr..]];
      if emptyList {
        emptyList := false;
      }
    }

    method RemovePeer(id: Bits)
      requires Valid() && |id| == |table|
      modifies this`table, this`emptyList
      ensures Valid() && State() == PeerTable.RemovePeer(old(State()), id)
    {
      var idx := ClosestIndex(id);
      var kept := TakeOut(table[idx], id);
      table := table[idx := kept];
      var have := HavePeers();
      if !emptyList && !have {
        emptyList := true;
      }
    }

    /** The inner loops of removeStalePeers on bucket i. */
    method RemoveStaleAt(now: nat, i: nat) returns (removed: bool)
      requires Valid() && i < |table|
      modifies this`table, this`peerCache
      ensures Valid() && State() == PeerTable.RemoveStaleAt(old(State()), now, i)
      ensures removed <==> Keep(old(table[i]), Stale(now)) != []
    {
      var kept, removeList := SplitStale(table[i], now);
      table := table[i := kept];
      DisconnectAll(removeList);
      removed := |removeList| > 0;
    }

    method DisconnectAll(removeList: seq<PeerEntry>)
      modifies this`peerCache
      ensures peerCache == MarkDisconnected(old(peerCache), removeList)
    {
      var k := 0;
      while k < |removeList|
        invariant 0 <= k <= |removeList|
        invariant peerCache == MarkDisconnected(old(peerCache), removeList[..k])
      {
        assert removeList[..k + 1][..k] == removeList[..k];
        var id := removeList[k].peer.Id();
        var cache := Cached(peerCache, id);
        if id !in peerCache || !cache.disconnected {
          peerCache := peerCache[id := cache.(disconnected := true)];
        } else {
          assert peerCache[id := cache.(disconnected := true)] == peerCache;
        }
        k := k + 1;
      }
      assert removeList[..k] == removeList;
    }

    method RemoveStalePeers(now: nat)
      requires Valid()
      modifies this
      ensures Valid() && State() == RemoveStale(old(State()), now)
    {
      var removed := false;
      var i := 0;
      ghost var n0 := State();
      while i < |table|
        invariant 0 <= i <= |table| == |n0.table| && Valid() && emptyList == n0.emptyList
        invariant RemoveStaleFrom(State(), now, i) == RemoveStaleFrom(n0, now, 0)
        invariant removed <==> StaleBelow(n0.table, now, i)
        invariant forall k :: i <= k < |table| ==> table[k] == n0.table[k]
      {
        var gone := RemoveStaleAt(now, i);
        removed := removed || gone;
        i := i + 1;
      }
      assert State() == RemoveStaleFrom(n0, now, 0);
      var have := HavePeers();
      if removed && !have && !emptyList {
        emptyList := true;
      }
    }

    method RefreshPeer(id: Bits, now: nat)
      requires Valid()
      modifies this`table
      ensures Valid() && State() == PeerTable.RefreshPeer(old(State()), id, now)
    {
      var i := 0;
      while i < |table|
        invariant 0 <= i <= |table| == |old(table)|
        invariant forall k :: 0 <= k < i ==> table[k] == Refresh(old(table)[k], id, now)
        invariant forall k :: i <= k < |table| ==> table[k] == old(table)[k]
      {
        table := table[i := Refresh(table[i], id, now)];
        i := i + 1;
      }
      assert table == PeerTable.RefreshPeer(old(State()), id, now).table;
    }

    // ---------------------------------------------------------------- messages

    /** processBootstrap and processVerify do the same to this state. */
    method ProcessBootstrap(from: PeerId, peer: Peer, time: nat, dialed: bool, now: nat)
      requires Valid() && |peer.signPub| == |table|
      modifies this
      ensures Valid() && State() == Step(old(State()), Bootstrap(from, peer, time, dialed, now))
      ensures State() == Step(old(State()), Verify(from, peer, time, dialed, now))
    {
      if from != peer.Id() || !dialed {
        return;
      }
      var cache := Cached(peerCache, peer.Id());
      var reconnecting := cache.disconnected && time > cache.time;
      if peer.Id() !in peerCache || !cache.added || reconnecting {
        AddPeer(peer, time, now);
      }
    }

    method ProcessAnnounce(peer: Peer, time: nat, dialed: bool, now: nat) returns (flooded: bool)
      requires Valid() && |peer.signPub| == |table|
      modifies this
      ensures Valid() && State() == Step(old(State()), Announce(peer, time, dialed, now))
      ensures flooded <==> AnnounceFloods(old(State()), peer, time, dialed)
    {
      flooded := false;
      if peer.Id() == self.Id() {
        return;
      }
      var cache, seen := Cached(peerCache, peer.Id()), peer.Id() in peerCache;
      var reconnecting := cache.disconnected && time > cache.time;
      if !seen || !cache.added || reconnecting {
        if !dialed {
          return;
        }
        AddPeer(peer, time, now);
      }
      if !seen || !cache.announced || reconnecting {
        flooded := true;
        cache := Cached(peerCache, peer.Id());
        peerCache := peerCache[peer.Id() := cache.(announced := true)];
      }
    }

    method ProcessSuggestionRequest(to: PeerId, peer: Peer, time: nat, dialed: bool, now: nat)
      requires Valid() && |peer.signPub| == |table|
      modifies this
      ensures Valid() && State() == Step(old(State()), SuggestionRequest(to, peer, time, dialed, now))
    {
      if to != self.Id() || !dialed {
        return;
      }
      var cache := Cached(peerCache, peer.Id());
      var reconnecting := cache.disconnected && time > cache.time;
      if peer.Id() !in peerCache || !cache.added || reconnecting {
        AddPeer(peer, time, now);
      }
    }

    method ProcessSuggestions(peer: Peer, time: nat, dialed: bool, now: nat)
      requires Valid() && |peer.signPub| == |table|
      modifies this
      ensures Valid() && State() == Step(old(State()), Suggestions(peer, time, dialed, now))
    {
      var cache := Cached(peerCache, peer.Id());
      var reconnecting := cache.disconnected && time > cache.time;
      if peer.Id() !in peerCache || !cache.added || reconnecting {
        if !dialed {
          return;
        }
        AddPeer(peer, time, now);
      }
    }

    method ProcessDisconnect(from: PeerId, messageType: int, time: nat) returns (flooded: bool)
      requires Valid() && |from.signPub| == |table|
      modifies this
      ensures Valid() && State() == Step(old(State()), Disconnect(from, messageType, time))
      ensures flooded <==> DisconnectFloods(old(State()), from, messageType)
    {
      flooded := false;
      if messageType != -1 {
        return;
      }
      RemovePeer(from.signPub);
      var cache := Cached(peerCache, from);
      if from !in peerCache || !cache.disconnected {
        peerCache := peerCache[from := cache.(disconnected := true)];
        flooded := true;
      }
    }

    method ProcessPulse(from: PeerId, messageType: int, now: nat)
      requires Valid()
      modifies this`table
      ensures Valid() && State() == Step(old(State()), Pulse(from, messageType, now))
    {
      if messageType != 1 {
        return;
      }
      RefreshPeer(from.signPub, now);
    }

    // ---------------------------------------------------------------- lookups

    method FindClosestN(t: Bits, n: nat) returns (closest: seq<PeerEntry>)
      requires Valid() && Placed(self.signPub, table) && |t| == |table|
      ensures closest == Nearest(State(), t, n)
    {
      var closestIdx := ClosestIndex(t);
      forall e | e in table[closestIdx]
        ensures |e.id| == |t|
      {
        assert PlacedEntry(self.signPub, closestIdx, e);
      }
      closest := FindClosestIn(table[closestIdx], t, n);
    }

    /** nil on an empty bucket, else the nearest entry of the whole table. */
    method FindClosest(t: Bits) returns (r: Found)
      requires Valid() && Placed(self.signPub, table) && |t| == |table|
      ensures r == Nobody <==> table[Bucket(self.signPub, t)] == []
      ensures r.Found? ==> forall i, e :: 0 <= i < |table| && e in table[i] ==> DistTo(r.entry, t) <= DistTo(e, t)
      ensures r.Found? ==> r.entry in table[Bucket(self.signPub, t)]
    {
      var closest := FindClosestN(t, 1);
      OneBucketIsEnough(State(), t, 1);
      forall i, e | 0 <= i < |table| && e in table[i] && closest != []
        ensures DistTo(closest[0], t) <= DistTo(e, t)
      {
        NearestOfAll(State(), t, i, e);
      }
      if |closest| == 0 {
        return Nobody;
      }
      SortedMembers(t, table[Bucket(self.signPub, t)], closest[0]);
      return Found(closest[0]);
    }

    /** The peers that route writes to. */
    method RouteTo(t: Bits) returns (written: seq<PeerEntry>)
      requires Valid() && Placed(self.signPub, table) && |t| == |table|
      ensures written == Route(State(), t)
    {
      var selfDist := Dist(self.signPub, t);
      var closest := FindClosestN(t, 3);
      written := [];
      var k := 0;
      while k < |closest|
        invariant 0 <= k <= |closest|
        invariant written == Keep(closest[..k], Closer(self.signPub, t))
      {
        assert closest[k] in Nearest(State(), t, 3);
        NearestInBucket(State(), t, 3, closest[k]);
        assert closest[..k + 1][..k] == closest[..k];
        if Dist(closest[k].peer.signPub, t) < selfDist {
          written := written + [closest[k]];
        }
        k := k + 1;
      }
      assert closest[..k] == closest;
    }
  }
}
