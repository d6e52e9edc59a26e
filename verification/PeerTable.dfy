/** The peer table and the peer cache of white-box/kad.go, and the messages of
    white-box/processors.go as steps on them. */
module PeerTable {
  import opened Ids

  // ------------------------------------------------------------------ state

  /** Id(): both public keys, here the signing key as bits and the encryption key as a
      number. */
  datatype PeerId = PeerId(signPub: Bits, encPub: nat)

  datatype Peer = Peer(signPub: Bits, encPub: nat, address: nat) {
    function Id(): PeerId { PeerId(signPub, encPub) }
  }

  datatype PeerCache = PeerCache(added: bool, announced: bool, disconnected: bool, time: nat)

  /** Go's zero value, read for a key that is not in the map. */
  const NO_CACHE: PeerCache := PeerCache(false, false, false, 0)

  datatype PeerEntry = PeerEntry(id: Bits, distance: nat, peer: Peer, seen: nat)

  datatype Node = Node(
    self: Peer,
    table: seq<seq<PeerEntry>>,
    cache: map<PeerId, PeerCache>,
    emptyList: bool)

  function Cached(cache: map<PeerId, PeerCache>, key: PeerId): PeerCache {
    if key in cache then cache[key] else NO_CACHE
  }

  predicate NoPeers(table: seq<seq<PeerEntry>>) {
    forall i :: 0 <= i < |table| ==> table[i] == []
  }

  // ------------------------------------------------------------------ operations on a bucket

  /** Insertion from the back: after the last entry that is not farther than e. */
  function InsertFromBack(list: seq<PeerEntry>, e: PeerEntry): seq<PeerEntry> {
    if list != [] && e.distance < list[|list| - 1].distance
    then InsertFromBack(list[..|list| - 1], e) + [list[|list| - 1]]
    else list + [e]
  }

  function Keep(list: seq<PeerEntry>, keep: PeerEntry -> bool): (r: seq<PeerEntry>)
    ensures forall e :: e in r <==> e in list && keep(e)
  {
    if list == [] then []
    else
      var r := Keep(list[..|list| - 1], keep);
      var last := list[|list| - 1];
      assert list == list[..|list| - 1] + [last];
      if keep(last) then r + [last] else r
  }

  function Other(id: Bits): PeerEntry -> bool { (e: PeerEntry) => e.id != id }

  /** Seen within the last sixty seconds. */
  function Recent(now: nat): PeerEntry -> bool { (e: PeerEntry) => now - e.seen <= 60 }

  function Stale(now: nat): PeerEntry -> bool { (e: PeerEntry) => now - e.seen > 60 }

  // ------------------------------------------------------------------ operations on a node

  function AddPeer(n: Node, peer: Peer, time: nat, now: nat): Node
    requires |n.table| == |n.self.signPub| == |peer.signPub| > 0
  {
    var c := Cached(n.cache, peer.Id());
    if peer.Id() in n.cache && c.added && !c.disconnected then n
    else
      var idx := Bucket(n.self.signPub, peer.signPub);
      var e := PeerEntry(peer.signPub, Dist(Ideal(n.self.signPub, idx), peer.signPub), peer, now);
      n.(cache := n.cache[peer.Id() := c.(added := true, disconnected := false, time := time)],
         table := n.table[idx := InsertFromBack(n.table[idx], e)],
         emptyList := false)
  }

  function RemovePeer(n: Node, id: Bits): Node
    requires |n.table| == |n.self.signPub| == |id| > 0
  {
    var idx := Bucket(n.self.signPub, id);
    var table := n.table[idx := Keep(n.table[idx], Other(id))];
    n.(table := table, emptyList := n.emptyList || NoPeers(table))
  }

  function MarkDisconnected(cache: map<PeerId, PeerCache>, gone: seq<PeerEntry>): map<PeerId, PeerCache> {
    if gone == [] then cache
    else
      var r := MarkDisconnected(cache, gone[..|gone| - 1]);
      var key := gone[|gone| - 1].peer.Id();
      r[key := Cached(r, key).(disconnected := true)]
  }

  /** Exactly the keys of the entries that are gone are marked. */
  lemma {:induction false} MarkedDisconnected(cache: map<PeerId, PeerCache>, gone: seq<PeerEntry>, k: PeerId)
    ensures Cached(MarkDisconnected(cache, gone), k) ==
      if exists e :: e in gone && e.peer.Id() == k then Cached(cache, k).(disconnected := true) else Cached(cache, k)
    decreases |gone|
  {
    if gone != [] {
      var rest, last := gone[..|gone| - 1], gone[|gone| - 1];
      assert gone == rest + [last];
      MarkedDisconnected(cache, rest, k);
      if last.peer.Id() == k {
        assert last in gone;
      }
    }
  }

  function RemoveStaleFrom(n: Node, now: nat, i: nat): (r: Node)
    ensures r.self == n.self && |r.table| == |n.table| && r.emptyList == n.emptyList
    decreases |n.table| - i
  {
    if i >= |n.table| then n
    else RemoveStaleFrom(RemoveStaleAt(n, now, i), now, i + 1)
  }

  function RemoveStaleAt(n: Node, now: nat, i: nat): Node
    requires i < |n.table|
  {
    n.(table := n.table[i := Keep(n.table[i], Recent(now))],
       cache := MarkDisconnected(n.cache, Keep(n.table[i], Stale(now))))
  }

  predicate AnyStale(table: seq<seq<PeerEntry>>, now: nat) {
    exists i :: 0 <= i < |table| && Keep(table[i], Stale(now)) != []
  }

  function RemoveStale(n: Node, now: nat): Node {
    var r := RemoveStaleFrom(n, now, 0);
    r.(emptyList := n.emptyList || (AnyStale(n.table, now) && NoPeers(r.table)))
  }

  /** refreshPeer on one bucket. */
  function Refresh(list: seq<PeerEntry>, id: Bits, now: nat): (r: seq<PeerEntry>)
    ensures |r| == |list|
    ensures forall k :: 0 <= k < |list| ==> r[k] == if list[k].id == id then list[k].(seen := now) else list[k]
  {
    seq(|list|, k requires 0 <= k < |list| => if list[k].id == id then list[k].(seen := now) else list[k])
  }

  function RefreshPeer(n: Node, id: Bits, now: nat): Node {
    n.(table := seq(|n.table|, i requires 0 <= i < |n.table| => Refresh(n.table[i], id, now)))
  }

  // ------------------------------------------------------------------ messages

  /** The gate in front of every call of addPeer in processors.go. */
  predicate Gate(n: Node, peer: Peer, time: nat) {
    var c := Cached(n.cache, peer.Id());
    peer.Id() !in n.cache || !c.added || (c.disconnected && time > c.time)
  }

  /** `from` is the sender named by the envelope, `dialed` whether the connection could be
      made, `now` the local clock.  Only messages whose signature has been verified and whose
      contents decoded are events; all others are dropped before they reach this state.  Ping
      is the node's own round of pings, which first removes stale peers (senders.go:351-354). */
  datatype Event =
    | Bootstrap(from: PeerId, peer: Peer, time: nat, dialed: bool, now: nat)
    | Verify(from: PeerId, peer: Peer, time: nat, dialed: bool, now: nat)
    | Announce(peer: Peer, time: nat, dialed: bool, now: nat)
    | SuggestionRequest(to: PeerId, peer: Peer, time: nat, dialed: bool, now: nat)
    | Suggestions(peer: Peer, time: nat, dialed: bool, now: nat)
    | Disconnect(from: PeerId, messageType: int, time: nat)
    | Chat(min: PeerId)
    | Pulse(from: PeerId, messageType: int, now: nat)
    | Ping(now: nat)

  /** The peer whose addition a message asks for, before the gate. */
  predicate AsksToAdd(n: Node, ev: Event) {
    match ev
    case Bootstrap(from, peer, _, dialed, _) => from == peer.Id() && dialed
    case Verify(from, peer, _, dialed, _) => from == peer.Id() && dialed
    case Announce(peer, _, dialed, _) => peer.Id() != n.self.Id() && dialed
    case SuggestionRequest(to, _, _, dialed, _) => to == n.self.Id() && dialed
    case Suggestions(_, _, dialed, _) => dialed
    case _ => false
  }

  predicate Adds(n: Node, ev: Event) {
    AsksToAdd(n, ev) && Gate(n, ev.peer, ev.time)
  }

  predicate WellSized(n: Node, ev: Event) {
    && |n.table| == |n.self.signPub| > 0
    && match ev
       case Disconnect(from, _, _) => |from.signPub| == |n.table|
       case Pulse(from, _, _) => true
       case Chat(min) => |min.signPub| == |n.table|
       case Ping(_) => true
       case _ => |ev.peer.signPub| == |n.table|
  }

  /** processAnnounce (processors.go:226-249). */
  function AnnounceStep(n: Node, peer: Peer, time: nat, dialed: bool, now: nat): Node
    requires |n.table| == |n.self.signPub| == |peer.signPub| > 0
  {
    var c := Cached(n.cache, peer.Id());
    var reconnecting := c.disconnected && time > c.time;
    if peer.Id() == n.self.Id() || (Gate(n, peer, time) && !dialed) then n
    else
      var r := if Gate(n, peer, time) then AddPeer(n, peer, time, now) else n;
      if peer.Id() !in n.cache || !c.announced || reconnecting
      then r.(cache := r.cache[peer.Id() := Cached(r.cache, peer.Id()).(announced := true)])
      else r
  }

  /** processDisconnect (processors.go:362-381).  The time in the message is not looked at. */
  function DisconnectStep(n: Node, from: PeerId, messageType: int): Node
    requires |n.table| == |n.self.signPub| == |from.signPub| > 0
  {
    if messageType != -1 then n
    else
      var r := RemovePeer(n, from.signPub);
      var c := Cached(n.cache, from);
      if from !in n.cache || !c.disconnected
      then r.(cache := r.cache[from := c.(disconnected := true)])
      else r
  }

  /** The other four: processBootstrap, processVerify, processSuggestionRequest and
      processSuggestions. */
  function AddStep(n: Node, ev: Event): Node
    requires WellSized(n, ev) && (ev.Bootstrap? || ev.Verify? || ev.SuggestionRequest? || ev.Suggestions?)
  {
    if Adds(n, ev) then AddPeer(n, ev.peer, ev.time, ev.now) else n
  }

  function Step(n: Node, ev: Event): Node
    requires WellSized(n, ev)
  {
    match ev
    case Announce(peer, time, dialed, now) => AnnounceStep(n, peer, time, dialed, now)
    case Disconnect(from, messageType, _) => DisconnectStep(n, from, messageType)
    case Chat(min) => n.(cache := n.cache[min := Cached(n.cache, min)])
    case Pulse(from, messageType, now) => if messageType == 1 then RefreshPeer(n, from.signPub, now) else n
    case Ping(now) => RemoveStale(n, now)
    case _ => AddStep(n, ev)
  }

  function InitialNode(self: Peer): Node {
    Node(self, seq(|self.signPub|, _ => []), map[], true)
  }

  // ------------------------------------------------------------------ the invariant

  /** An entry of bucket i: placed by its id, with its distance to the ideal id. */
  ghost predicate PlacedEntry(self: Bits, i: nat, e: PeerEntry)
    requires i < |self|
  {
    && |e.id| == |self| && Bucket(self, e.id) == i
    && e.distance == Dist(Ideal(self, i), e.id)
    && e.peer.signPub == e.id
  }

  ghost predicate PlacedBucket(self: Bits, i: nat, list: seq<PeerEntry>)
    requires i < |self|
  {
    forall e :: e in list ==> PlacedEntry(self, i, e)
  }

  /** What lookups and routing need of a table. */
  ghost predicate Placed(self: Bits, table: seq<seq<PeerEntry>>) {
    |table| == |self| > 0 && forall i :: 0 <= i < |table| ==> PlacedBucket(self, i, table[i])
  }

  /** In ascending order of distance, with no peer twice. */
  ghost predicate Ordered(list: seq<PeerEntry>) {
    forall a, b :: 0 <= a < b < |list| ==> Before(list[a], list[b])
  }

  ghost predicate Before(x: PeerEntry, y: PeerEntry) {
    x.distance <= y.distance && x.peer.Id() != y.peer.Id()
  }

  ghost predicate GoodBucket(self: Bits, i: nat, list: seq<PeerEntry>)
    requires i < |self|
  {
    PlacedBucket(self, i, list) && Ordered(list)
  }

  ghost predicate GoodTable(self: Bits, table: seq<seq<PeerEntry>>) {
    |table| == |self| > 0 && forall i :: 0 <= i < |table| ==> GoodBucket(self, i, table[i])
  }

  ghost predicate InBucket(list: seq<PeerEntry>, key: PeerId) {
    exists e :: e in list && e.peer.Id() == key
  }

  ghost predicate Listed(self: Bits, table: seq<seq<PeerEntry>>, key: PeerId)
    requires |table| == |self| == |key.signPub| > 0
  {
    InBucket(table[Bucket(self, key.signPub)], key)
  }

  /** Added and not disconnected since. */
  predicate Live(cache: map<PeerId, PeerCache>, key: PeerId) {
    Cached(cache, key).added && !Cached(cache, key).disconnected
  }

  /** A peer is listed just when its cache is live. */
  ghost predicate Agree(self: Bits, table: seq<seq<PeerEntry>>, cache: map<PeerId, PeerCache>)
    requires |table| == |self| > 0
  {
    forall key: PeerId {:trigger Listed(self, table, key)} :: |key.signPub| == |self| ==>
      (Listed(self, table, key) <==> Live(cache, key))
  }

  /** Table and cache agree, and EmptyList says whether there is anyone in the table. */
  ghost predicate GoodNode(n: Node) {
    && GoodTable(n.self.signPub, n.table)
    && Agree(n.self.signPub, n.table, n.cache)
    && (n.emptyList <==> NoPeers(n.table))
  }

  /** Two entries of a bucket are at one distance only if they share the signing key. */
  lemma SameDistance(self: Bits, i: nat, list: seq<PeerEntry>, a: nat, b: nat)
    requires i < |self| && GoodBucket(self, i, list) && a < b < |list|
    ensures list[a].distance <= list[b].distance
    ensures list[a].distance == list[b].distance <==> list[a].id == list[b].id
    ensures list[a].id == list[b].id ==> list[a].peer.encPub != list[b].peer.encPub
  {
    assert PlacedEntry(self, i, list[a]) && PlacedEntry(self, i, list[b]) && Before(list[a], list[b]);
    if list[a].distance == list[b].distance {
      DistInjective(Ideal(self, i), list[a].id, list[b].id);
    }
  }

  /** An entry of that peer at place a of bucket i. */
  ghost predicate StandsAt(table: seq<seq<PeerEntry>>, key: PeerId, i: nat, a: nat) {
    i < |table| && a < |table[i]| && table[i][a].peer.Id() == key
  }

  lemma StandsInItsBucket(self: Bits, table: seq<seq<PeerEntry>>, key: PeerId, i: nat, a: nat)
    requires GoodTable(self, table) && |key.signPub| == |self| && StandsAt(table, key, i, a)
    ensures i == Bucket(self, key.signPub) && Listed(self, table, key)
  {
    assert PlacedEntry(self, i, table[i][a]);
  }

  lemma PlaceOf(self: Bits, table: seq<seq<PeerEntry>>, key: PeerId) returns (i: nat, a: nat)
    requires |table| == |self| == |key.signPub| > 0 && Listed(self, table, key)
    ensures StandsAt(table, key, i, a)
  {
    i := Bucket(self, key.signPub);
    var e :| e in table[i] && e.peer.Id() == key;
    a :| a < |table[i]| && table[i][a] == e;
  }

  /** In a good node a peer stands somewhere in the table just when its cache is live. */
  lemma SomewhereIffLive(n: Node, key: PeerId)
    requires GoodNode(n) && |key.signPub| == |n.table|
    ensures Live(n.cache, key) <==> exists i, a: nat :: StandsAt(n.table, key, i, a)
  {
    if i, a: nat :| StandsAt(n.table, key, i, a) {
      StandsInItsBucket(n.self.signPub, n.table, key, i, a);
    }
    if Listed(n.self.signPub, n.table, key) {
      var i, a := PlaceOf(n.self.signPub, n.table, key);
    }
  }

  lemma OnePlace(list: seq<PeerEntry>, a: nat, b: nat)
    requires Ordered(list) && a < |list| && b < |list| && list[a].peer.Id() == list[b].peer.Id()
    ensures a == b
  {
    assert !Before(list[a], list[b]) && !Before(list[b], list[a]);
  }

  /** And it stands at one place at most. */
  lemma AtMostOnce(n: Node, key: PeerId, i: nat, a: nat, j: nat, b: nat)
    requires GoodNode(n) && |key.signPub| == |n.table|
    requires StandsAt(n.table, key, i, a) && StandsAt(n.table, key, j, b)
    ensures i == j && a == b
  {
    StandsInItsBucket(n.self.signPub, n.table, key, i, a);
    StandsInItsBucket(n.self.signPub, n.table, key, j, b);
    OnePlace(n.table[i], a, b);
  }

  // ------------------------------------------------------------------ buckets

  lemma {:induction false} InsertFromBackMembers(list: seq<PeerEntry>, e: PeerEntry)
    ensures forall x :: x in InsertFromBack(list, e) <==> x in list || x == e
    decreases |list|
  {
    if list != [] {
      var front, last := list[..|list| - 1], list[|list| - 1];
      assert list == front + [last];
      InsertFromBackMembers(front, e);
    }
  }

  lemma AppendOrdered(r: seq<PeerEntry>, last: PeerEntry)
    requires Ordered(r) && forall x :: x in r ==> Before(x, last)
    ensures Ordered(r + [last])
  {
    assert forall k :: 0 <= k < |r| ==> r[k] in r;
  }

  lemma FrontIsBefore(front: seq<PeerEntry>, last: PeerEntry, x: PeerEntry)
    requires Ordered(front + [last]) && x in front
    ensures Before(x, last)
  {
    var a :| 0 <= a < |front| && front[a] == x;
    assert Before((front + [last])[a], (front + [last])[|front|]);
  }

  lemma FrontIsOrdered(front: seq<PeerEntry>, last: PeerEntry)
    requires Ordered(front + [last])
    ensures Ordered(front)
  {
    forall a, b | 0 <= a < b < |front|
      ensures Before(front[a], front[b])
    {
      assert Before((front + [last])[a], (front + [last])[b]);
    }
  }

  lemma {:induction false} InsertFromBackOrders(list: seq<PeerEntry>, e: PeerEntry)
    requires Ordered(list) && !InBucket(list, e.peer.Id())
    ensures Ordered(InsertFromBack(list, e))
    decreases |list|
  {
    if list != [] {
      var front, last := list[..|list| - 1], list[|list| - 1];
      assert list == front + [last];
      FrontIsOrdered(front, last);
      if e.distance < last.distance {
        InsertFromBackOrders(front, e);
        InsertFromBackMembers(front, e);
        forall x | x in InsertFromBack(front, e)
          ensures Before(x, last)
        {
          if x in front {
            FrontIsBefore(front, last, x);
          } else {
            assert last in list;
          }
        }
        AppendOrdered(InsertFromBack(front, e), last);
      } else {
        forall x | x in list
          ensures Before(x, e)
        {
          if x in front {
            FrontIsBefore(front, last, x);
          }
        }
        AppendOrdered(list, e);
      }
    }
  }

  lemma {:induction false} KeepOrdered(list: seq<PeerEntry>, keep: PeerEntry -> bool)
    requires Ordered(list)
    ensures Ordered(Keep(list, keep))
    decreases |list|
  {
    if list != [] {
      var front, last := list[..|list| - 1], list[|list| - 1];
      assert list == front + [last];
      FrontIsOrdered(front, last);
      KeepOrdered(front, keep);
      forall x | x in Keep(front, keep)
        ensures Before(x, last)
      {
        FrontIsBefore(front, last, x);
      }
      AppendOrdered(Keep(front, keep), last);
    }
  }

  lemma KeepKeepsGood(self: Bits, i: nat, list: seq<PeerEntry>, keep: PeerEntry -> bool)
    requires i < |self| && GoodBucket(self, i, list)
    ensures GoodBucket(self, i, Keep(list, keep))
  {
    KeepOrdered(list, keep);
  }

  lemma InsertKeepsGood(self: Bits, i: nat, list: seq<PeerEntry>, e: PeerEntry)
    requires i < |self| && GoodBucket(self, i, list) && PlacedEntry(self, i, e) && !InBucket(list, e.peer.Id())
    ensures GoodBucket(self, i, InsertFromBack(list, e))
  {
    InsertFromBackOrders(list, e);
    InsertFromBackMembers(list, e);
  }

  lemma InsertMembers(list: seq<PeerEntry>, e: PeerEntry, key: PeerId)
    ensures InBucket(InsertFromBack(list, e), key) <==> InBucket(list, key) || key == e.peer.Id()
  {
    InsertFromBackMembers(list, e);
    assert e in InsertFromBack(list, e);
  }

  /** Taking out one id takes out every peer with that signing key, and no other. */
  lemma TakeOutMembers(self: Bits, i: nat, list: seq<PeerEntry>, id: Bits, key: PeerId)
    requires i < |self| && PlacedBucket(self, i, list)
    ensures InBucket(Keep(list, Other(id)), key) <==> InBucket(list, key) && key.signPub != id
  {
    if InBucket(list, key) {
      var e :| e in list && e.peer.Id() == key;
      assert PlacedEntry(self, i, e);
      assert key.signPub != id ==> e in Keep(list, Other(id));
    }
    if InBucket(Keep(list, Other(id)), key) {
      var e :| e in Keep(list, Other(id)) && e.peer.Id() == key;
      assert PlacedEntry(self, i, e);
    }
  }

  // ------------------------------------------------------------------ what each operation keeps

  /** When bucket i becomes `list` and the cache changes: right at this key. */
  ghost predicate RightAt(self: Bits, i: nat, list: seq<PeerEntry>, cache: map<PeerId, PeerCache>,
                          cache': map<PeerId, PeerCache>, key: PeerId) {
    0 < |key.signPub| == |self| ==>
      if Bucket(self, key.signPub) == i then InBucket(list, key) <==> Live(cache', key)
      else Live(cache', key) <==> Live(cache, key)
  }

  /** Then table and cache agree again exactly if that is right at every key. */
  lemma AgreeAfterChange(self: Bits, table: seq<seq<PeerEntry>>, cache: map<PeerId, PeerCache>,
                         i: nat, list: seq<PeerEntry>, cache': map<PeerId, PeerCache>)
    requires |table| == |self| > 0 && i < |table| && Agree(self, table, cache)
    ensures Agree(self, table[i := list], cache') <==> forall key: PeerId :: RightAt(self, i, list, cache, cache', key)
  {
    forall key: PeerId | |key.signPub| == |self|
      ensures RightAt(self, i, list, cache, cache', key) <==>
        (Listed(self, table[i := list], key) <==> Live(cache', key))
    {
      assert Listed(self, table, key) <==> Live(cache, key);
      ListedAfterChange(self, table, i, list, key);
    }
  }

  lemma ListedAfterChange(self: Bits, table: seq<seq<PeerEntry>>, i: nat, list: seq<PeerEntry>, key: PeerId)
    requires |table| == |self| == |key.signPub| > 0 && i < |table|
    ensures Listed(self, table[i := list], key) <==>
      if Bucket(self, key.signPub) == i then InBucket(list, key) else Listed(self, table, key)
  {
    var b := Bucket(self, key.signPub);
    assert table[i := list][b] == if b == i then list else table[b];
  }

  lemma TableAfterChange(self: Bits, table: seq<seq<PeerEntry>>, i: nat, list: seq<PeerEntry>)
    requires GoodTable(self, table) && i < |table| && GoodBucket(self, i, list)
    ensures GoodTable(self, table[i := list])
  {
  }

  /** An insertion, which the gate in addPeer lets through only for a peer that is not live. */
  lemma AddKeepsGood(n: Node, peer: Peer, time: nat, now: nat)
    requires GoodNode(n) && |peer.signPub| == |n.table|
    ensures GoodNode(AddPeer(n, peer, time, now))
  {
    var self, id, c := n.self.signPub, peer.signPub, Cached(n.cache, peer.Id());
    if !Live(n.cache, peer.Id()) {
      var i := Bucket(self, id);
      var e := PeerEntry(id, Dist(Ideal(self, i), id), peer, now);
      var list := InsertFromBack(n.table[i], e);
      var cache' := n.cache[peer.Id() := c.(added := true, disconnected := false, time := time)];
      assert !Listed(self, n.table, peer.Id());
      InsertKeepsGood(self, i, n.table[i], e);
      TableAfterChange(self, n.table, i, list);
      forall key: PeerId
        ensures RightAt(self, i, list, n.cache, cache', key)
      {
        InsertMembers(n.table[i], e, key);
        if |key.signPub| == |self| {
          assert Listed(self, n.table, key) <==> Live(n.cache, key);
        }
      }
      AgreeAfterChange(self, n.table, n.cache, i, list, cache');
      InsertMembers(n.table[i], e, peer.Id());
      assert n.table[i := list][i] != [];
    }
  }

  /** No other live peer has the signing key of one that disconnects. */
  ghost predicate SparesOthers(n: Node, ev: Event) {
    ev.Disconnect? && ev.messageType == -1 ==>
      forall key: PeerId :: Live(n.cache, key) && key.signPub == ev.from.signPub ==> key == ev.from
  }

  lemma RightAfterDisconnect(n: Node, from: PeerId, key: PeerId)
    requires GoodNode(n) && |from.signPub| == |n.table|
    ensures var i := Bucket(n.self.signPub, from.signPub);
      RightAt(n.self.signPub, i, Keep(n.table[i], Other(from.signPub)), n.cache, DisconnectStep(n, from, -1).cache, key)
      <==> !(Live(n.cache, key) && key.signPub == from.signPub && key != from)
  {
    var i := Bucket(n.self.signPub, from.signPub);
    TakeOutMembers(n.self.signPub, i, n.table[i], from.signPub, key);
    if |key.signPub| == |n.self.signPub| {
      assert Listed(n.self.signPub, n.table, key) <==> Live(n.cache, key);
    }
  }

  lemma DisconnectOnTable(n: Node, from: PeerId)
    requires GoodNode(n) && |from.signPub| == |n.table|
    ensures var r, i := DisconnectStep(n, from, -1), Bucket(n.self.signPub, from.signPub);
      && r.table == n.table[i := Keep(n.table[i], Other(from.signPub))]
      && GoodTable(r.self.signPub, r.table) && (r.emptyList <==> NoPeers(r.table))
  {
    var i := Bucket(n.self.signPub, from.signPub);
    KeepKeepsGood(n.self.signPub, i, n.table[i], Other(from.signPub));
    TableAfterChange(n.self.signPub, n.table, i, Keep(n.table[i], Other(from.signPub)));
  }

  /** A disconnect takes out every entry with the signing key, but marks the one peer: table and
      cache stay in agreement exactly if that key is the peer's own. */
  lemma DisconnectKeepsGood(n: Node, from: PeerId, messageType: int, time: nat)
    requires GoodNode(n) && |from.signPub| == |n.table|
    ensures GoodNode(DisconnectStep(n, from, messageType)) <==> SparesOthers(n, Disconnect(from, messageType, time))
  {
    if messageType == -1 {
      var i := Bucket(n.self.signPub, from.signPub);
      DisconnectOnTable(n, from);
      AgreeAfterChange(n.self.signPub, n.table, n.cache, i, Keep(n.table[i], Other(from.signPub)),
                       DisconnectStep(n, from, -1).cache);
      forall key: PeerId {
        RightAfterDisconnect(n, from, key);
      }
    }
  }

  /** A change of the cache that leaves every peer as live as it was. */
  lemma AgreeSameLive(n: Node, cache: map<PeerId, PeerCache>)
    requires GoodNode(n) && forall k :: Live(cache, k) <==> Live(n.cache, k)
    ensures GoodNode(n.(cache := cache))
  {
  }

  lemma AnnounceKeepsGood(n: Node, peer: Peer, time: nat, dialed: bool, now: nat)
    requires GoodNode(n) && |peer.signPub| == |n.table|
    ensures GoodNode(AnnounceStep(n, peer, time, dialed, now))
  {
    AddKeepsGood(n, peer, time, now);
    var r := if Gate(n, peer, time) then AddPeer(n, peer, time, now) else n;
    AgreeSameLive(r, r.cache[peer.Id() := Cached(r.cache, peer.Id()).(announced := true)]);
  }

  lemma RefreshKeepsGood(self: Bits, i: nat, list: seq<PeerEntry>, id: Bits, now: nat)
    requires i < |self| && GoodBucket(self, i, list)
    ensures GoodBucket(self, i, Refresh(list, id, now))
  {
    var r := Refresh(list, id, now);
    forall e | e in r
      ensures PlacedEntry(self, i, e)
    {
      var k :| 0 <= k < |r| && r[k] == e;
      assert PlacedEntry(self, i, list[k]);
    }
    forall a, b | 0 <= a < b < |r|
      ensures Before(r[a], r[b])
    {
      assert Before(list[a], list[b]);
    }
  }

  lemma RefreshMembers(list: seq<PeerEntry>, id: Bits, now: nat, key: PeerId)
    ensures InBucket(Refresh(list, id, now), key) <==> InBucket(list, key)
  {
    var r := Refresh(list, id, now);
    if InBucket(r, key) {
      var e :| e in r && e.peer.Id() == key;
      var k :| 0 <= k < |r| && r[k] == e;
      assert list[k] in list;
    }
    if InBucket(list, key) {
      var e :| e in list && e.peer.Id() == key;
      var k :| 0 <= k < |list| && list[k] == e;
      assert r[k] in r;
    }
  }

  lemma PulseKeepsTable(n: Node, id: Bits, now: nat)
    requires GoodTable(n.self.signPub, n.table)
    ensures GoodTable(n.self.signPub, RefreshPeer(n, id, now).table)
  {
    forall i | 0 <= i < |n.table|
      ensures GoodBucket(n.self.signPub, i, RefreshPeer(n, id, now).table[i])
    {
      RefreshKeepsGood(n.self.signPub, i, n.table[i], id, now);
    }
  }

  lemma PulseKeepsGood(n: Node, id: Bits, now: nat)
    requires GoodNode(n)
    ensures GoodNode(RefreshPeer(n, id, now))
  {
    var self, r := n.self.signPub, RefreshPeer(n, id, now);
    PulseKeepsTable(n, id, now);
    forall key: PeerId | |key.signPub| == |self|
      ensures Listed(self, r.table, key) <==> Live(n.cache, key)
    {
      assert Listed(self, n.table, key) <==> Live(n.cache, key);
      RefreshMembers(n.table[Bucket(self, key.signPub)], id, now, key);
    }
    assert forall i :: 0 <= i < |n.table| ==> |r.table[i]| == |n.table[i]|;
  }

  /** In an ordered bucket a peer has one entry, which is stale or not. */
  lemma OneEntry(list: seq<PeerEntry>, key: PeerId, x: PeerEntry, y: PeerEntry)
    requires Ordered(list) && x in list && y in list && x.peer.Id() == y.peer.Id() == key
    ensures x == y
  {
    var a :| 0 <= a < |list| && list[a] == x;
    var b :| 0 <= b < |list| && list[b] == y;
    OnePlace(list, a, b);
  }

  /** Of a good bucket, a peer is gone and marked, or stays and is left alone. */
  lemma StaleMembers(self: Bits, i: nat, list: seq<PeerEntry>, now: nat, cache: map<PeerId, PeerCache>, key: PeerId)
    requires i < |self| == |key.signPub| && GoodBucket(self, i, list)
    requires Bucket(self, key.signPub) == i ==> (InBucket(list, key) <==> Live(cache, key))
    ensures RightAt(self, i, Keep(list, Recent(now)), cache, MarkDisconnected(cache, Keep(list, Stale(now))), key)
  {
    var gone := Keep(list, Stale(now));
    MarkedDisconnected(cache, gone, key);
    forall e | e in gone && e.peer.Id() == key
      ensures Bucket(self, key.signPub) == i
    {
      assert PlacedEntry(self, i, e);
    }
    if Bucket(self, key.signPub) == i && InBucket(list, key) {
      var e :| e in list && e.peer.Id() == key;
      forall x | x in list && x.peer.Id() == key
        ensures x == e
      {
        OneEntry(list, key, x, e);
      }
      if Stale(now)(e) {
        assert e in gone;
      } else {
        assert e in Keep(list, Recent(now));
      }
    }
  }

  lemma StaleAtKeepsGood(n: Node, now: nat, i: nat)
    requires i < |n.table| && GoodTable(n.self.signPub, n.table) && Agree(n.self.signPub, n.table, n.cache)
    ensures var r := RemoveStaleAt(n, now, i);
      GoodTable(r.self.signPub, r.table) && Agree(r.self.signPub, r.table, r.cache)
  {
    var self, r := n.self.signPub, RemoveStaleAt(n, now, i);
    KeepKeepsGood(self, i, n.table[i], Recent(now));
    TableAfterChange(self, n.table, i, Keep(n.table[i], Recent(now)));
    forall key: PeerId
      ensures RightAt(self, i, Keep(n.table[i], Recent(now)), n.cache, r.cache, key)
    {
      if |key.signPub| == |self| {
        assert Listed(self, n.table, key) <==> Live(n.cache, key);
        StaleMembers(self, i, n.table[i], now, n.cache, key);
      }
    }
    AgreeAfterChange(self, n.table, n.cache, i, Keep(n.table[i], Recent(now)), r.cache);
  }

  lemma {:induction false} StaleFromKeepsGood(n: Node, now: nat, i: nat)
    requires GoodTable(n.self.signPub, n.table) && Agree(n.self.signPub, n.table, n.cache)
    ensures var r := RemoveStaleFrom(n, now, i);
      GoodTable(r.self.signPub, r.table) && Agree(r.self.signPub, r.table, r.cache)
    decreases |n.table| - i
  {
    if i < |n.table| {
      StaleAtKeepsGood(n, now, i);
      StaleFromKeepsGood(RemoveStaleAt(n, now, i), now, i + 1);
    }
  }

  lemma NoneStale(list: seq<PeerEntry>, now: nat)
    requires Keep(list, Stale(now)) == []
    ensures Keep(list, Recent(now)) == list
    decreases |list|
  {
    if list != [] {
      var front, last := list[..|list| - 1], list[|list| - 1];
      assert list == front + [last];
      NoneStale(front, now);
    }
  }

  lemma {:induction false} StaleFromTable(n: Node, now: nat, i: nat)
    ensures var r := RemoveStaleFrom(n, now, i);
      forall k :: 0 <= k < |n.table| ==> r.table[k] == if k < i then n.table[k] else Keep(n.table[k], Recent(now))
    decreases |n.table| - i
  {
    if i < |n.table| {
      StaleFromTable(RemoveStaleAt(n, now, i), now, i + 1);
    }
  }

  /** With nobody stale the table is as it was, and an empty one stays empty. */
  lemma StaleFromEmpty(n: Node, now: nat)
    ensures var r := RemoveStaleFrom(n, now, 0);
      && (!AnyStale(n.table, now) ==> r.table == n.table)
      && (NoPeers(n.table) ==> NoPeers(r.table))
  {
    var r := RemoveStaleFrom(n, now, 0);
    StaleFromTable(n, now, 0);
    if !AnyStale(n.table, now) {
      forall k | 0 <= k < |n.table|
        ensures r.table[k] == n.table[k]
      {
        NoneStale(n.table[k], now);
      }
    }
  }

  lemma PingKeepsGood(n: Node, now: nat)
    requires GoodNode(n)
    ensures GoodNode(RemoveStale(n, now))
  {
    StaleFromKeepsGood(n, now, 0);
    StaleFromEmpty(n, now);
  }

  // ------------------------------------------------------------------ every run

  /** Every message keeps a node good, but for a disconnect that does not spare another live
      peer of the same signing key. */
  lemma StepKeepsGood(n: Node, ev: Event)
    requires GoodNode(n) && WellSized(n, ev)
    ensures GoodNode(Step(n, ev)) <==> SparesOthers(n, ev)
  {
    match ev
    case Announce(peer, time, dialed, now) => AnnounceKeepsGood(n, peer, time, dialed, now);
    case Disconnect(from, messageType, time) => DisconnectKeepsGood(n, from, messageType, time);
    case Chat(min) => AgreeSameLive(n, n.cache[min := Cached(n.cache, min)]);
    case Pulse(from, messageType, now) => PulseKeepsGood(n, from.signPub, now);
    case Ping(now) => PingKeepsGood(n, now);
    case _ => AddKeepsGood(n, ev.peer, ev.time, ev.now);
  }

  ghost predicate IsRun(ns: seq<Node>, evs: seq<Event>) {
    |ns| == |evs| + 1 && forall k: nat :: k < |evs| ==> StepAt(ns, evs, k)
  }

  ghost predicate StepAt(ns: seq<Node>, evs: seq<Event>, k: nat) {
    k < |evs| == |ns| - 1 && WellSized(ns[k], evs[k]) && ns[k + 1] == Step(ns[k], evs[k])
  }

  lemma InitialIsGood(self: Peer)
    requires |self.signPub| > 0
    ensures GoodNode(InitialNode(self))
  {
  }

  /** From a new node, table and cache agree in all states of a run exactly if every disconnect
      in it spares the other live peers. */
  lemma {:induction false} RunKeepsGood(ns: seq<Node>, evs: seq<Event>, k: nat)
    requires IsRun(ns, evs) && k <= |evs| && |ns[0].self.signPub| > 0 && ns[0] == InitialNode(ns[0].self)
    ensures (forall i :: 0 <= i <= k ==> GoodNode(ns[i])) <==> forall i :: 0 <= i < k ==> SparesOthers(ns[i], evs[i])
  {
    if k == 0 {
      InitialIsGood(ns[0].self);
    } else {
      assert StepAt(ns, evs, k - 1);
      RunKeepsGood(ns, evs, k - 1);
      if GoodNode(ns[k - 1]) {
        StepKeepsGood(ns[k - 1], evs[k - 1]);
        assert GoodNode(ns[k]) <==> SparesOthers(ns[k - 1], evs[k - 1]);
      }
    }
  }

  // ------------------------------------------------------------------ placement, on any messages

  lemma InsertKeepsPlaced(n: Node, peer: Peer, time: nat, now: nat)
    requires Placed(n.self.signPub, n.table) && |peer.signPub| == |n.table|
    ensures Placed(n.self.signPub, AddPeer(n, peer, time, now).table)
  {
    var self, id := n.self.signPub, peer.signPub;
    var i := Bucket(self, id);
    InsertFromBackMembers(n.table[i], PeerEntry(id, Dist(Ideal(self, i), id), peer, now));
  }

  lemma RefreshKeepsPlaced(n: Node, id: Bits, now: nat)
    requires Placed(n.self.signPub, n.table)
    ensures Placed(n.self.signPub, RefreshPeer(n, id, now).table)
  {
    forall i, e | 0 <= i < |n.table| && e in Refresh(n.table[i], id, now)
      ensures PlacedEntry(n.self.signPub, i, e)
    {
      var k :| 0 <= k < |n.table[i]| && Refresh(n.table[i], id, now)[k] == e;
      assert PlacedEntry(n.self.signPub, i, n.table[i][k]);
    }
  }

  lemma StaleKeepsPlaced(n: Node, now: nat)
    requires Placed(n.self.signPub, n.table)
    ensures Placed(n.self.signPub, RemoveStale(n, now).table)
  {
    StaleFromTable(n, now, 0);
  }

  /** Every message keeps entries where their ids belong, also when one signing key turns up
      with several encryption keys. */
  lemma StepKeepsPlaced(n: Node, ev: Event)
    requires Placed(n.self.signPub, n.table) && WellSized(n, ev)
    ensures Step(n, ev).self == n.self && Placed(n.self.signPub, Step(n, ev).table)
  {
    match ev
    case Disconnect(_, _, _) =>
    case Chat(_) =>
    case Pulse(from, _, now) => RefreshKeepsPlaced(n, from.signPub, now);
    case Ping(now) => StaleKeepsPlaced(n, now);
    case _ => InsertKeepsPlaced(n, ev.peer, ev.time, ev.now);
  }

  /** In every state reachable from a new node, whatever the messages. */
  lemma {:induction false} RunKeepsPlaced(ns: seq<Node>, evs: seq<Event>, k: nat)
    requires IsRun(ns, evs) && k <= |evs| && |ns[0].self.signPub| > 0 && ns[0] == InitialNode(ns[0].self)
    ensures ns[k].self == ns[0].self && Placed(ns[k].self.signPub, ns[k].table)
  {
    if k > 0 {
      assert StepAt(ns, evs, k - 1);
      RunKeepsPlaced(ns, evs, k - 1);
      StepKeepsPlaced(ns[k - 1], evs[k - 1]);
    }
  }

  // ------------------------------------------------------------------ what each message does

  /** Live before, or added now: `test` is the message's own test, and the gate lets a peer pass
      that was never added or whose record is older than the message. */
  ghost predicate LiveAfter(n: Node, n': Node, peer: Peer, time: nat, test: bool) {
    forall key: PeerId :: Live(n'.cache, key) <==> Live(n.cache, key) || (test && Enters(n, peer, time, key))
  }

  ghost predicate Enters(n: Node, peer: Peer, time: nat, key: PeerId) {
    key == peer.Id() && (!Cached(n.cache, key).added || time > Cached(n.cache, key).time)
  }

  /** The table after that: in a good node the listed peers are again the live ones. */
  ghost predicate ListsLive(n: Node) {
    forall key: PeerId {:trigger Live(n.cache, key)} :: |key.signPub| == |n.self.signPub| == |n.table| ==>
      0 < |n.table| && (Listed(n.self.signPub, n.table, key) <==> Live(n.cache, key))
  }

  /** The sender of a bootstrap, or of the answer to one, is added if it speaks for itself and can
      be connected to. */
  lemma BootstrapAdds(n: Node, from: PeerId, peer: Peer, time: nat, dialed: bool, now: nat)
    requires GoodNode(n) && |peer.signPub| == |n.table|
    ensures var n' := Step(n, Bootstrap(from, peer, time, dialed, now));
      LiveAfter(n, n', peer, time, from == peer.Id() && dialed) && ListsLive(n')
    ensures var n' := Step(n, Verify(from, peer, time, dialed, now));
      LiveAfter(n, n', peer, time, from == peer.Id() && dialed) && ListsLive(n')
  {
    AddKeepsGood(n, peer, time, now);
  }

  /** An announced peer is added if it is another one and can be connected to. */
  lemma AnnounceAdds(n: Node, peer: Peer, time: nat, dialed: bool, now: nat)
    requires GoodNode(n) && |peer.signPub| == |n.table|
    ensures var n' := Step(n, Announce(peer, time, dialed, now));
      LiveAfter(n, n', peer, time, peer.Id() != n.self.Id() && dialed) && ListsLive(n')
  {
    AnnounceKeepsGood(n, peer, time, dialed, now);
  }

  /** Who asks this node for suggestions is added if it can be connected to. */
  lemma SuggestionRequestAdds(n: Node, to: PeerId, peer: Peer, time: nat, dialed: bool, now: nat)
    requires GoodNode(n) && |peer.signPub| == |n.table|
    ensures var n' := Step(n, SuggestionRequest(to, peer, time, dialed, now));
      LiveAfter(n, n', peer, time, to == n.self.Id() && dialed) && ListsLive(n')
  {
    AddKeepsGood(n, peer, time, now);
  }

  /** Who sends suggestions is added if it can be connected to. */
  lemma SuggestionsAdd(n: Node, peer: Peer, time: nat, dialed: bool, now: nat)
    requires GoodNode(n) && |peer.signPub| == |n.table|
    ensures var n' := Step(n, Suggestions(peer, time, dialed, now));
      LiveAfter(n, n', peer, time, dialed) && ListsLive(n')
  {
    AddKeepsGood(n, peer, time, now);
  }

  /** addPeer does nothing to a peer that is live. */
  lemma LiveIsNotAdded(n: Node, peer: Peer, time: nat, now: nat)
    requires |n.table| == |n.self.signPub| == |peer.signPub| > 0 && Live(n.cache, peer.Id())
    ensures AddPeer(n, peer, time, now) == n
  {
  }

  /** What an addition writes: the peer's entry in its bucket, seen now, with its place behind all
      entries that are not farther; the time of the message in the cache; nothing else. */
  lemma AddedEntry(n: Node, peer: Peer, time: nat, now: nat) returns (i: nat, at: nat)
    requires GoodNode(n) && |peer.signPub| == |n.table| && !Live(n.cache, peer.Id())
    ensures i < |n.table| && at <= |n.table[i]|
    ensures var e := PeerEntry(peer.signPub, Dist(Ideal(n.self.signPub, i), peer.signPub), peer, now);
      && AddPeer(n, peer, time, now).table == n.table[i := n.table[i][..at] + [e] + n.table[i][at..]]
      && (forall k :: 0 <= k < at ==> n.table[i][k].distance <= e.distance)
      && (forall k :: at <= k < |n.table[i]| ==> n.table[i][k].distance > e.distance)
    ensures forall key: PeerId ::
      var c, c' := Cached(n.cache, key), Cached(AddPeer(n, peer, time, now).cache, key);
      c' == if key == peer.Id() then PeerCache(true, c.announced, false, time) else c
  {
    i := Bucket(n.self.signPub, peer.signPub);
    assert GoodBucket(n.self.signPub, i, n.table[i]);
    at := PlaceFromBack(n.table[i], PeerEntry(peer.signPub, Dist(Ideal(n.self.signPub, i), peer.signPub), peer, now));
  }

  lemma LastIsFarthest(list: seq<PeerEntry>)
    requires Ordered(list) && list != []
    ensures forall k :: 0 <= k < |list| ==> list[k].distance <= list[|list| - 1].distance
  {
    forall k | 0 <= k < |list| - 1
      ensures list[k].distance <= list[|list| - 1].distance
    {
      assert Before(list[k], list[|list| - 1]);
    }
  }

  lemma {:induction false} PlaceFromBack(list: seq<PeerEntry>, e: PeerEntry) returns (at: nat)
    requires Ordered(list)
    ensures at <= |list| && InsertFromBack(list, e) == list[..at] + [e] + list[at..]
    ensures forall k :: 0 <= k < at ==> list[k].distance <= e.distance
    ensures forall k :: at <= k < |list| ==> list[k].distance > e.distance
    decreases |list|
  {
    if list != [] && e.distance < list[|list| - 1].distance {
      var front, last := list[..|list| - 1], list[|list| - 1];
      assert list == front + [last];
      FrontIsOrdered(front, last);
      at := PlaceFromBack(front, e);
      assert list[at..] == front[at..] + [last] && list[..at] == front[..at];
    } else {
      at := |list|;
      if list != [] {
        LastIsFarthest(list);
      }
    }
  }

  /** A disconnect makes its sender's record disconnected, and changes no other. */
  lemma DisconnectOnRecords(n: Node, from: PeerId, messageType: int, time: nat, key: PeerId)
    requires |n.table| == |n.self.signPub| == |from.signPub| > 0
    ensures var n' := Step(n, Disconnect(from, messageType, time));
      Cached(n'.cache, key) == if key == from && messageType == -1
        then Cached(n.cache, key).(disconnected := true) else Cached(n.cache, key)
  {
  }

  /** A chat leaves a record of its sender behind, and changes none. */
  lemma ChatOnRecords(n: Node, min: PeerId, key: PeerId)
    requires |n.table| == |n.self.signPub| == |min.signPub| > 0
    ensures var n' := Step(n, Chat(min));
      min in n'.cache && Cached(n'.cache, key) == Cached(n.cache, key) && n'.table == n.table
  {
  }

  /** A ping keeps in the table exactly the entries seen within the last sixty seconds. */
  lemma PingKeepsRecent(n: Node, now: nat, i: nat, e: PeerEntry)
    requires |n.table| == |n.self.signPub| > 0 && i < |n.table|
    ensures var n' := Step(n, Ping(now));
      |n'.table| == |n.table| && (e in n'.table[i] <==> e in n.table[i] && now - e.seen <= 60)
  {
    StaleFromTable(n, now, 0);
  }

  /** A peer with an entry that is older. */
  ghost predicate HasOld(n: Node, now: nat, key: PeerId, from: nat) {
    exists i :: from <= i < |n.table| && OldIn(n.table[i], now, key)
  }

  ghost predicate OldIn(list: seq<PeerEntry>, now: nat, key: PeerId) {
    exists e :: e in list && e.peer.Id() == key && now - e.seen > 60
  }

  /** And it marks exactly the peers of the older entries as disconnected. */
  lemma PingMarksOld(n: Node, now: nat, key: PeerId)
    requires |n.table| == |n.self.signPub| > 0
    ensures Cached(Step(n, Ping(now)).cache, key) ==
      if HasOld(n, now, key, 0) then Cached(n.cache, key).(disconnected := true) else Cached(n.cache, key)
  {
    MarksOldFrom(n, now, key, 0);
  }

  lemma {:induction false} MarksOldFrom(n: Node, now: nat, key: PeerId, i: nat)
    ensures Cached(RemoveStaleFrom(n, now, i).cache, key) ==
      if HasOld(n, now, key, i) then Cached(n.cache, key).(disconnected := true) else Cached(n.cache, key)
    decreases |n.table| - i
  {
    if i < |n.table| {
      var n1 := RemoveStaleAt(n, now, i);
      MarkedDisconnected(n.cache, Keep(n.table[i], Stale(now)), key);
      MarksOldFrom(n1, now, key, i + 1);
      assert forall k :: i + 1 <= k < |n.table| ==> n1.table[k] == n.table[k];
      assert HasOld(n1, now, key, i + 1) <==> HasOld(n, now, key, i + 1);
      assert HasOld(n, now, key, i) <==> OldIn(n.table[i], now, key) || HasOld(n, now, key, i + 1);
      assert OldIn(n.table[i], now, key) <==> exists e :: e in Keep(n.table[i], Stale(now)) && e.peer.Id() == key;
    }
  }

  /** A pulse makes the entries of its sender seen now; so they stay through every ping of the
      next sixty seconds. */
  lemma PulsedSurvives(n: Node, from: PeerId, now: nat, later: nat, i: nat, k: nat)
    requires |n.table| == |n.self.signPub| > 0 && i < |n.table| && k < |n.table[i]|
    requires later <= now + 60
    ensures var n1, e := Step(n, Pulse(from, 1, now)), n.table[i][k];
      && |n1.table| == |n.table| && |n1.table[i]| == |n.table[i]|
      && n1.table[i][k] == (if e.id == from.signPub then e.(seen := now) else e)
      && (e.id == from.signPub ==>
            |Step(n1, Ping(later)).table| == |n.table| && n1.table[i][k] in Step(n1, Ping(later)).table[i])
  {
    var n1 := Step(n, Pulse(from, 1, now));
    PingKeepsRecent(n1, later, i, n1.table[i][k]);
  }

  /** A pulse of another type changes nothing. */
  lemma PulseOfOtherType(n: Node, from: PeerId, messageType: int, now: nat)
    requires |n.table| == |n.self.signPub| > 0 && messageType != 1
    ensures Step(n, Pulse(from, messageType, now)) == n
  {
  }

  // ------------------------------------------------------------------ flooding

  /** Whether processAnnounce passes the announcement on. */
  predicate AnnounceFloods(n: Node, peer: Peer, time: nat, dialed: bool) {
    var c := Cached(n.cache, peer.Id());
    && peer.Id() != n.self.Id() && (dialed || !Gate(n, peer, time))
    && (peer.Id() !in n.cache || !c.announced || (c.disconnected && time > c.time))
  }

  /** Whether processDisconnect does. */
  predicate DisconnectFloods(n: Node, from: PeerId, messageType: int) {
    messageType == -1 && (from !in n.cache || !Cached(n.cache, from).disconnected)
  }

  /** A peer that was never announced is passed on, if it is another one that is live or can be
      connected to; one that is not live and cannot be connected to, though the message would
      bring it back, changes nothing. */
  lemma FirstAnnounceFloods(n: Node, peer: Peer, time: nat, dialed: bool, now: nat)
    requires |n.table| == |n.self.signPub| == |peer.signPub| > 0
    ensures !Cached(n.cache, peer.Id()).announced && (dialed || Live(n.cache, peer.Id())) ==>
      (AnnounceFloods(n, peer, time, dialed) <==> peer.Id() != n.self.Id())
    ensures !dialed && !Live(n.cache, peer.Id()) && Enters(n, peer, time, peer.Id()) ==>
      !AnnounceFloods(n, peer, time, dialed) && Step(n, Announce(peer, time, dialed, now)) == n
  {
  }

  /** Exactly what is passed on is remembered as announced. */
  lemma AnnouncedIffFlooded(n: Node, peer: Peer, time: nat, dialed: bool, now: nat, key: PeerId)
    requires |n.table| == |n.self.signPub| == |peer.signPub| > 0
    ensures Cached(Step(n, Announce(peer, time, dialed, now)).cache, key).announced <==>
      Cached(n.cache, key).announced || (key == peer.Id() && AnnounceFloods(n, peer, time, dialed))
  {
  }

  lemma {:induction false} AnnouncedStays(ns: seq<Node>, evs: seq<Event>, key: PeerId, i: nat, k: nat)
    requires IsRun(ns, evs) && i <= k <= |evs| && Cached(ns[i].cache, key).announced
    ensures Cached(ns[k].cache, key).announced && key in ns[k].cache
    decreases k
  {
    if i < k {
      assert StepAt(ns, evs, k - 1);
      AnnouncedStays(ns, evs, key, i, k - 1);
      StepKeepsAnnounced(ns[k - 1], evs[k - 1], key);
    }
  }

  lemma StepKeepsAnnounced(n: Node, ev: Event, key: PeerId)
    requires WellSized(n, ev) && Cached(n.cache, key).announced
    ensures Cached(Step(n, ev).cache, key).announced
  {
    if ev.Ping? {
      PingMarksOld(n, ev.now, key);
    }
  }

  /** Along any run, an announcement of a peer that has been passed on is passed on again only if
      the peer is disconnected by then and the announcement later than its record. */
  lemma FloodsAgainOnly(ns: seq<Node>, evs: seq<Event>, i: nat, j: nat)
    requires IsRun(ns, evs) && i < j < |evs| && evs[i].Announce? && evs[j].Announce?
    requires evs[i].peer.Id() == evs[j].peer.Id()
    requires AnnounceFloods(ns[i], evs[i].peer, evs[i].time, evs[i].dialed)
    ensures var c := Cached(ns[j].cache, evs[j].peer.Id());
      AnnounceFloods(ns[j], evs[j].peer, evs[j].time, evs[j].dialed) ==> c.disconnected && evs[j].time > c.time
  {
    assert StepAt(ns, evs, i);
    assert Cached(ns[i + 1].cache, evs[i].peer.Id()).announced;
    AnnouncedStays(ns, evs, evs[i].peer.Id(), i + 1, j);
  }

  /** A disconnect is passed on once, until the peer is back. */
  lemma DisconnectFloodsOnce(n: Node, from: PeerId, time: nat)
    requires |n.table| == |n.self.signPub| == |from.signPub| > 0
    ensures !DisconnectFloods(Step(n, Disconnect(from, -1, time)), from, -1)
    ensures Live(n.cache, from) ==> DisconnectFloods(n, from, -1)
  {
  }

  // ------------------------------------------------------------------ additions over time

  lemma {:induction false} StaleFromCache(n: Node, now: nat, i: nat, key: PeerId)
    ensures var c, c' := Cached(n.cache, key), Cached(RemoveStaleFrom(n, now, i).cache, key);
      c' == c || c' == c.(disconnected := true)
    decreases |n.table| - i
  {
    if i < |n.table| {
      MarkedDisconnected(n.cache, Keep(n.table[i], Stale(now)), key);
      StaleFromCache(RemoveStaleAt(n, now, i), now, i + 1, key);
    }
  }

  /** A live peer ceases to be live. */
  ghost predicate Leaves(n: Node, ev: Event, n': Node, key: PeerId) {
    Live(n.cache, key) && !Live(n'.cache, key) && (ev.Disconnect? || ev.Ping?)
  }

  predicate AddsKey(n: Node, ev: Event, key: PeerId) {
    Adds(n, ev) && ev.peer.Id() == key
  }

  /** A step leaves the cache of a key live or not and dated as it was, adds the key, or makes
      it leave. */
  lemma StepOnCache(n: Node, ev: Event, key: PeerId)
    requires WellSized(n, ev)
    ensures OnCache(n, ev, Step(n, ev), key)
  {
    match ev
    case Ping(now) => StaleFromCache(n, now, 0, key);
    case Announce(_, _, _, _) => AnnounceOnCache(n, ev, key);
    case Disconnect(_, _, _) => DisconnectOnCache(n, ev, key);
    case _ =>
  }

  ghost predicate OnCache(n: Node, ev: Event, n': Node, key: PeerId) {
    var c, c' := Cached(n.cache, key), Cached(n'.cache, key);
    if AddsKey(n, ev, key) then
      && c'.added && !c'.disconnected && c'.time == ev.time
      && (c.added ==> c.disconnected && ev.time > c.time)
    else
      && c'.added == c.added && c'.time == c.time
      && (Leaves(n, ev, n', key) || (Live(n.cache, key) <==> Live(n'.cache, key)))
  }

  lemma AnnounceOnCache(n: Node, ev: Event, key: PeerId)
    requires WellSized(n, ev) && ev.Announce?
    ensures OnCache(n, ev, Step(n, ev), key)
  {
  }

  lemma DisconnectOnCache(n: Node, ev: Event, key: PeerId)
    requires WellSized(n, ev) && ev.Disconnect?
    ensures OnCache(n, ev, Step(n, ev), key)
  {
  }

  /** Between an addition and any later state, the time does not fall, and a peer that is no
      longer live has left in between. */
  lemma {:induction false} SinceAddition(ns: seq<Node>, evs: seq<Event>, key: PeerId, i: nat, k: nat) returns (d: nat)
    requires IsRun(ns, evs) && i < k <= |evs| && AddsKey(ns[i], evs[i], key)
    ensures Cached(ns[k].cache, key).added && Cached(ns[k].cache, key).time >= evs[i].time
    ensures !Live(ns[k].cache, key) ==> i < d < k && Leaves(ns[d], evs[d], ns[d + 1], key)
    decreases k
  {
    assert StepAt(ns, evs, k - 1);
    StepOnCache(ns[k - 1], evs[k - 1], key);
    if k == i + 1 {
      d := i;
    } else {
      d := SinceAddition(ns, evs, key, i, k - 1);
      if Live(ns[k - 1].cache, key) {
        d := k - 1;
      }
    }
  }

  // ------------------------------------------------------------------ one encryption key each

  type KeyRing = Bits -> nat

  /** Whoever a message adds or disconnects has the encryption key that goes with its signing
      key. */
  ghost predicate OneKey(keys: KeyRing, ev: Event) {
    match ev
    case Disconnect(from, _, _) => from.encPub == keys(from.signPub)
    case Chat(_) => true
    case Pulse(_, _, _) => true
    case Ping(_) => true
    case _ => ev.peer.encPub == keys(ev.peer.signPub)
  }

  ghost predicate LiveHaveOneKey(keys: KeyRing, cache: map<PeerId, PeerCache>) {
    forall key: PeerId :: Live(cache, key) ==> key.encPub == keys(key.signPub)
  }

  /** As long as that is so, every disconnect spares the others, and table and cache agree in
      every reachable state. */
  lemma {:induction false} OneKeyKeepsGood(keys: KeyRing, ns: seq<Node>, evs: seq<Event>, k: nat)
    requires IsRun(ns, evs) && k <= |evs| && |ns[0].self.signPub| > 0 && ns[0] == InitialNode(ns[0].self)
    requires forall i :: 0 <= i < |evs| ==> OneKey(keys, evs[i])
    ensures GoodNode(ns[k]) && LiveHaveOneKey(keys, ns[k].cache)
  {
    if k == 0 {
      InitialIsGood(ns[0].self);
    } else {
      assert StepAt(ns, evs, k - 1);
      OneKeyKeepsGood(keys, ns, evs, k - 1);
      StepKeepsGood(ns[k - 1], evs[k - 1]);
      forall key: PeerId | Live(ns[k].cache, key)
        ensures key.encPub == keys(key.signPub)
      {
        StepOnCache(ns[k - 1], evs[k - 1], key);
      }
    }
  }

  /** Two peers of one signing key: when the one disconnects, the other is gone from the table and
      its cache says that it is there. */
  lemma SharedKeyExample(self: Peer, a: Peer, b: Peer, now: nat)
    requires |self.signPub| == |a.signPub| > 0 && a.signPub == b.signPub != self.signPub && a.encPub != b.encPub
    ensures var n1 := Step(InitialNode(self), Announce(a, 1, true, now));
      var n2 := Step(n1, Announce(b, 2, true, now));
      var n3 := Step(n2, Disconnect(a.Id(), -1, 3));
      Live(n3.cache, b.Id()) && !Listed(self.signPub, n3.table, b.Id()) && !GoodNode(n3)
  {
    var n2 := Step(Step(InitialNode(self), Announce(a, 1, true, now)), Announce(b, 2, true, now));
    var n3 := Step(n2, Disconnect(a.Id(), -1, 3));
    var i := Bucket(self.signPub, a.signPub);
    assert n3.table[i] == Keep(n2.table[i], Other(a.signPub));
    assert PlacedBucket(self.signPub, i, n2.table[i]) by {
      InsertKeepsPlaced(InitialNode(self), a, 1, now);
      InsertKeepsPlaced(Step(InitialNode(self), Announce(a, 1, true, now)), b, 2, now);
    }
    TakeOutMembers(self.signPub, i, n2.table[i], a.signPub, b.Id());
  }

  // ------------------------------------------------------------------ additions and disconnects

  /** Along any run, a peer that is added a second time is added by a message with a strictly
      later time, after a disconnect or a stale removal: whatever mix of the five messages, no
      replay revives a peer. */
  lemma ReAdditionsAdvance(ns: seq<Node>, evs: seq<Event>, key: PeerId, i: nat, j: nat)
    requires IsRun(ns, evs) && i < j < |evs|
    requires AddsKey(ns[i], evs[i], key) && AddsKey(ns[j], evs[j], key)
    ensures evs[j].time > evs[i].time
    ensures exists d :: i < d < j && Leaves(ns[d], evs[d], ns[d + 1], key)
  {
    assert StepAt(ns, evs, j);
    var d := SinceAddition(ns, evs, key, i, j);
    StepOnCache(ns[j], evs[j], key);
  }

  /** But the time of the disconnect itself plays no part: a message revives the peer just when
      it is later than the addition, even if it was sent before the disconnect. */
  lemma RevivalExactly(n: Node, from: PeerId, time: nat, ev: Event)
    requires WellSized(n, Disconnect(from, -1, time)) && WellSized(n, ev)
    requires Live(n.cache, from) && AsksToAdd(n, ev) && ev.peer.Id() == from
    ensures Adds(Step(n, Disconnect(from, -1, time)), ev) <==> ev.time > Cached(n.cache, from).time
  {
  }

  /** For instance: added by a message of time 1, disconnected by one sent at time 3, and live
      again by one that was sent in between. */
  lemma RevivalExample(self: Peer, peer: Peer, now: nat)
    requires |self.signPub| == |peer.signPub| > 0 && peer.Id() != self.Id()
    ensures var n1 := Step(InitialNode(self), Announce(peer, 1, true, now));
      var n2 := Step(n1, Disconnect(peer.Id(), -1, 3));
      var n3 := Step(n2, Announce(peer, 2, true, now));
      Live(n1.cache, peer.Id()) && !Live(n2.cache, peer.Id()) && Live(n3.cache, peer.Id())
  {
  }

  /** And a bootstrap from its own id puts a node into its own table. */
  lemma SelfIsListed(self: Peer, time: nat, now: nat)
    requires |self.signPub| > 0
    ensures var n := Step(InitialNode(self), Bootstrap(self.Id(), self, time, true, now));
      n.table[0] == [PeerEntry(self.signPub, Dist(Ideal(self.signPub, 0), self.signPub), self, now)]
      && Listed(self.signPub, n.table, self.Id())
  {
    var e := PeerEntry(self.signPub, Dist(Ideal(self.signPub, 0), self.signPub), self, now);
    var n := Step(InitialNode(self), Bootstrap(self.Id(), self, time, true, now));
    assert n.table[0] == [e] && e in n.table[0];
  }
}
