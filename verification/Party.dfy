/** The PartyLine object of white-box/party.go, as far as it floods chats. */
module Parties {
  import opened Ring

  /** Members by key, in the order that sort.Strings gives their ids. */
  type MemberId = nat

  /** The id of a chat joins its author and its time. */
  datatype ChatId = ChatId(peerId: MemberId, time: nat)

  datatype PartyChat = PartyChat(peerId: MemberId, partyId: string, message: string, time: nat) {
    function Id(): ChatId { ChatId(peerId, time) }
  }

  /** The members in ascending order, each once. */
  ghost predicate IsRing(ring: seq<MemberId>, members: set<MemberId>) {
    && (forall i, j :: 0 <= i < j < |ring| ==> ring[i] < ring[j])
    && (forall i :: 0 <= i < |ring| ==> ring[i] in members)
    && (forall m :: m in members ==> m in ring)
  }

  /** The sorted list of the members is determined by who they are: all who hold the same
      member list see the same ring. */
  lemma {:induction false} RingUnique(a: seq<MemberId>, b: seq<MemberId>, members: set<MemberId>)
    requires IsRing(a, members) && IsRing(b, members)
    ensures a == b
    decreases |a|
  {
    assert a != [] ==> a[0] in members;
    assert b != [] ==> b[0] in members;
    if a != [] && b != [] {
      var m := a[|a| - 1];
      LastIsMax(a, members);
      LastIsMax(b, members);
      LastOut(a, members);
      LastOut(b, members);
      RingUnique(a[..|a| - 1], b[..|b| - 1], members - {m});
      assert a == a[..|a| - 1] + [m];
      assert b == b[..|b| - 1] + [m];
    }
  }

  lemma LastIsMax(a: seq<MemberId>, members: set<MemberId>)
    requires IsRing(a, members) && a != []
    ensures a[|a| - 1] in members && forall m :: m in members ==> m <= a[|a| - 1]
  {
    forall m | m in members
      ensures m <= a[|a| - 1]
    {
      var i :| 0 <= i < |a| && a[i] == m;
    }
  }

  lemma LastOut(a: seq<MemberId>, members: set<MemberId>)
    requires IsRing(a, members) && a != []
    ensures IsRing(a[..|a| - 1], members - {a[|a| - 1]})
  {
    var front, last := a[..|a| - 1], a[|a| - 1];
    forall m | m in members - {last}
      ensures m in front
    {
      var i :| 0 <= i < |a| && a[i] == m;
      assert front[i] == m;
    }
  }

  ghost function Max(s: set<MemberId>): (m: MemberId)
    requires s != {}
    ensures m in s && forall x :: x in s ==> x <= m
  {
    var x :| x in s;
    if s == {x} then x
    else
      var y := Max(s - {x});
      assert forall z :: z in s ==> z == x || z in s - {x};
      if x > y then x else y
  }

  /** The ring of a set of members. */
  ghost function RingOf(members: set<MemberId>): (ring: seq<MemberId>)
    ensures IsRing(ring, members)
  {
    if members == {} then []
    else
      var m := Max(members);
      var front := RingOf(members - {m});
      assert forall i :: 0 <= i < |front| ==> front[i] in front;
      front + [m]
  }

  ghost function Place(ring: seq<MemberId>, self: MemberId): (i: nat)
    requires self in ring
    ensures i < |ring| && ring[i] == self
  {
    var i: nat :| i < |ring| && ring[i] == self;
    i
  }

  /** The members at the ring positions next to a member, none for one who is not a member. */
  ghost function NeighborIds(members: set<MemberId>, self: MemberId): set<MemberId> {
    var ring := RingOf(members);
    if self !in members then {}
    else
      assert self in ring;
      AtPlaces(ring, Neighbors(|ring|, Place(ring, self)))
  }

  ghost function AtPlaces(ring: seq<MemberId>, places: set<nat>): set<MemberId> {
    set j | j in places && j < |ring| :: ring[j]
  }

  /** Seen from its ring position, a member's neighbours are those of module Ring, on which the
      flood of module Gossip runs. */
  lemma NeighborsOfPosition(members: set<MemberId>, i: nat)
    requires i < |RingOf(members)|
    ensures NeighborIds(members, RingOf(members)[i]) == AtPlaces(RingOf(members), Neighbors(|RingOf(members)|, i))
  {
    var ring := RingOf(members);
    assert ring[i] in ring;
    assert Place(ring, ring[i]) == i;
  }

  /** Who is not a member has no neighbours. */
  lemma NoNeighborsOutside(members: set<MemberId>, self: MemberId)
    ensures NeighborIds(members, self) == {} <==> self !in members
  {
    if self in members {
      var ring := RingOf(members);
      var i := Place(ring, self);
      assert ring[Before(|ring|, i)] in NeighborIds(members, self);
    }
  }

  lemma ThreePlaces(ring: seq<MemberId>, i: nat)
    requires i < |ring|
    ensures var n := |ring|;
      && 0 <= ModFloor(i - 1, n) < n && 0 <= ModFloor(i + 1, n) < n && 0 <= ModFloor(i + 2, n) < n
      && AtPlaces(ring, Neighbors(n, i)) ==
        {ring[ModFloor(i - 1, n)], ring[ModFloor(i + 1, n)], ring[ModFloor(i + 2, n)]}
  {
    NeighborsAreModFloors(|ring|, i);
    var a, b, c := ModFloor(i - 1, |ring|), ModFloor(i + 1, |ring|), ModFloor(i + 2, |ring|);
    var places := Neighbors(|ring|, i);
    assert a in places && b in places && c in places;
  }

  lemma InsertedAscends(ring: seq<MemberId>, id: MemberId, at: nat)
    requires at <= |ring| && forall i, j :: 0 <= i < j < |ring| ==> ring[i] < ring[j]
    requires forall k :: 0 <= k < at ==> ring[k] < id
    requires forall k :: at <= k < |ring| ==> ring[k] > id
    ensures var r := ring[..at] + [id] + ring[at..]; forall i, j :: 0 <= i < j < |r| ==> r[i] < r[j]
  {
  }

  lemma InsertedRing(ring: seq<MemberId>, members: set<MemberId>, id: MemberId, at: nat)
    requires IsRing(ring, members) && id !in members && at <= |ring|
    requires forall k :: at <= k < |ring| ==> ring[k] > id
    requires at > 0 ==> ring[at - 1] <= id
    ensures IsRing(ring[..at] + [id] + ring[at..], members + {id})
  {
    assert at > 0 ==> ring[at - 1] in members;
    InsertedAscends(ring, id, at);
    InsertedMembers(ring, id, at);
  }

  lemma InsertedMembers(ring: seq<MemberId>, id: MemberId, at: nat)
    requires at <= |ring|
    ensures forall m :: m in ring[..at] + [id] + ring[at..] <==> m in ring || m == id
  {
    assert ring == ring[..at] + ring[at..];
  }

  method InsertSorted(ring: seq<MemberId>, ghost members: set<MemberId>, id: MemberId) returns (r: seq<MemberId>)
    requires IsRing(ring, members) && id !in members
    ensures IsRing(r, members + {id})
  {
    var at := |ring|;
    while at > 0 && ring[at - 1] > id
      invariant 0 <= at <= |ring|
      invariant forall k :: at <= k < |ring| ==> ring[k] > id
    {
      at := at - 1;
    }
    InsertedRing(ring, members, id, at);
    r := ring[..at] + [id] + ring[at..];
  }

  /** What a member keeps of the chats of the party; `channel` is what addChat has displayed. */
  datatype Member = Member(self: MemberId, seenChats: map<ChatId, bool>, channel: seq<PartyChat>)

  /** ProcessChat of a member of party `id`: the member after it, and to whom the chat goes on. */
  ghost function Processed(id: string, members: set<MemberId>, m: Member, chat: PartyChat, verified: bool)
    : (Member, set<MemberId>)
  {
    if chat.partyId != id || !verified || chat.Id() in m.seenChats then (m, {})
    else (m.(seenChats := m.seenChats[chat.Id() := true], channel := m.channel + [chat]),
          NeighborIds(members, m.self))
  }

  // ------------------------------------------------------------------ any sequence of chats

  /** A call of ProcessChat: the chat and whether its signature verifies. */
  datatype Call = Call(chat: PartyChat, verified: bool)

  ghost function AfterCalls(id: string, members: set<MemberId>, m: Member, calls: seq<Call>): Member {
    if calls == [] then m
    else
      var before, last := AfterCalls(id, members, m, calls[..|calls| - 1]), calls[|calls| - 1];
      Processed(id, members, before, last.chat, last.verified).0
  }

  /** The k-th call brings news: a verified chat of this party whose id the member had not seen at
      the start and no earlier such chat has. */
  ghost predicate IsNews(id: string, seen: set<ChatId>, calls: seq<Call>, k: nat) {
    && k < |calls| && IsGenuine(id, calls[k]) && calls[k].chat.Id() !in seen
    && forall l :: 0 <= l < k && IsGenuine(id, calls[l]) ==> calls[l].chat.Id() != calls[k].chat.Id()
  }

  predicate IsGenuine(id: string, call: Call) {
    call.verified && call.chat.partyId == id
  }

  ghost function News(id: string, seen: set<ChatId>, calls: seq<Call>, n: nat): seq<PartyChat>
    requires n <= |calls|
  {
    if n == 0 then []
    else News(id, seen, calls, n - 1) + if IsNews(id, seen, calls, n - 1) then [calls[n - 1].chat] else []
  }

  ghost function GenuineIds(id: string, calls: seq<Call>, n: nat): set<ChatId>
    requires n <= |calls|
  {
    set k | 0 <= k < n && IsGenuine(id, calls[k]) :: calls[k].chat.Id()
  }

  /** Over any calls with any chats, genuine or not: the channel grows, at its end, by the news in
      their order; the ids seen grow by those of the genuine chats, and none is forgotten. */
  lemma {:induction false} ShowsTheNews(id: string, members: set<MemberId>, m: Member, calls: seq<Call>, n: nat)
    requires n <= |calls|
    ensures var m', seen := AfterCalls(id, members, m, calls[..n]), m.seenChats.Keys;
      && m'.self == m.self
      && m'.channel == m.channel + News(id, seen, calls, n)
      && m'.seenChats.Keys == seen + GenuineIds(id, calls, n)
  {
    if n > 0 {
      ShowsTheNews(id, members, m, calls, n - 1);
      assert calls[..n][..n - 1] == calls[..n - 1];
      var before, last := AfterCalls(id, members, m, calls[..n - 1]), calls[n - 1];
      assert GenuineIds(id, calls, n) ==
        GenuineIds(id, calls, n - 1) + if IsGenuine(id, last) then {last.chat.Id()} else {};
      NewsIsUnseen(id, m.seenChats.Keys, calls, n - 1);
    }
  }

  lemma NewsIsUnseen(id: string, seen: set<ChatId>, calls: seq<Call>, k: nat)
    requires k < |calls|
    ensures IsNews(id, seen, calls, k) <==>
      IsGenuine(id, calls[k]) && calls[k].chat.Id() !in seen + GenuineIds(id, calls, k)
  {
  }

  /** A call sends the chat on, to the neighbours, exactly if it is news; a chat that is not
      verified or of another party changes nothing. */
  lemma ForwardsTheNews(id: string, members: set<MemberId>, m: Member, calls: seq<Call>, k: nat)
    requires k < |calls|
    ensures var before := AfterCalls(id, members, m, calls[..k]);
      var (m', sentTo) := Processed(id, members, before, calls[k].chat, calls[k].verified);
      && sentTo == (if IsNews(id, m.seenChats.Keys, calls, k) then NeighborIds(members, m.self) else {})
      && (!IsGenuine(id, calls[k]) ==> m' == before)
  {
    ShowsTheNews(id, members, m, calls, k);
    NewsIsUnseen(id, m.seenChats.Keys, calls, k);
  }

  /** No chat id is news twice. */
  lemma NewsOnce(id: string, seen: set<ChatId>, calls: seq<Call>, k: nat, l: nat)
    requires IsNews(id, seen, calls, k) && IsNews(id, seen, calls, l) && calls[k].chat.Id() == calls[l].chat.Id()
    ensures k == l
  {
  }

  class PartyLine {
    const id: string
    const self: MemberId
    var minList: map<MemberId, int>
    var seenChats: map<ChatId, bool>
    var channel: seq<PartyChat>

    ghost function State(): Member
      reads this
    {
      Member(self, seenChats, channel)
    }

    constructor (id: string, self: MemberId)
      ensures this.id == id && this.self == self
      ensures minList == map[self := 0] && seenChats == map[] && channel == []
    {
      this.id, this.self, this.minList, this.seenChats, this.channel := id, self, map[self := 0], map[], [];
    }

    /** The keys of the member list in any order, then sorted. */
    method SortedIds() returns (sortedIds: seq<MemberId>)
      ensures IsRing(sortedIds, minList.Keys)
    {
      sortedIds := [];
      var rest := minList.Keys;
      ghost var done: set<MemberId> := {};
      while rest != {}
        invariant done !! rest && done + rest == minList.Keys && IsRing(sortedIds, done)
        decreases |rest|
      {
        var m :| m in rest;
        sortedIds := InsertSorted(sortedIds, done, m);
        rest, done := rest - {m}, done + {m};
      }
    }

    method GetNeighbors() returns (neighbors: set<MemberId>)
      ensures neighbors == NeighborIds(minList.Keys, self)
    {
      var sortedIds := SortedIds();
      RingUnique(sortedIds, RingOf(minList.Keys), minList.Keys);
      var idx := -1;
      var i := 0;
      while i < |sortedIds|
        invariant 0 <= i <= |sortedIds| && idx == -1
        invariant forall k :: 0 <= k < i ==> sortedIds[k] != self
      {
        if sortedIds[i] == self {
          idx := i;
          break;
        }
        i := i + 1;
      }
      if idx == -1 {
        return {};
      }
      NeighborsOfPosition(minList.Keys, idx);
      ThreePlaces(sortedIds, idx);
      var n1, n2, n3 := ModFloor(idx - 1, |sortedIds|), ModFloor(idx + 1, |sortedIds|), ModFloor(idx + 2, |sortedIds|);
      neighbors := {sortedIds[n1], sortedIds[n2], sortedIds[n3]};
    }

    /** SendChat shows nothing and marks nothing: it only sends to the neighbours. */
    method SendChat() returns (sentTo: set<MemberId>)
      ensures sentTo == NeighborIds(minList.Keys, self)
    {
      sentTo := GetNeighbors();
    }

    /** ProcessChat, given whether the signature verifies. */
    method ProcessChat(chat: PartyChat, verified: bool) returns (sentTo: set<MemberId>)
      modifies this`seenChats, this`channel
      ensures (State(), sentTo) == Processed(id, minList.Keys, old(State()), chat, verified)
    {
      if chat.partyId != id || !verified {
        return {};
      }
      sentTo := {};
      if chat.Id() !in seenChats {
        seenChats := seenChats[chat.Id() := true];
        channel := channel + [chat];
        sentTo := GetNeighbors();
      }
    }
  }
}
