/** A whole party of PartyLine objects and all its chats: anyone may send chats at any time, each
    delivery runs ProcessChat at its destination, and unverified or foreign chats may turn up
    anywhere.  Seen from one chat, the members take the steps of module Gossip. */
module PartyFlood {
  import opened Gossip
  import opened Parties
  import opened Ring

  /** A party whose members all hold the same member list, and the positions that are down. */
  datatype Setting = Setting(id: string, ids: set<MemberId>, dead: set<nat>)

  /** Of one chat, the copies that are on their way and how many were ever sent. */
  datatype Traffic = Traffic(flight: multiset<Copy>, sent: nat)

  /** The members by ring position, and the traffic of every chat sent so far. */
  datatype World = World(members: seq<Member>, chats: map<PartyChat, Traffic>)

  datatype WorldEvent =
    | Send(from: nat, message: string, time: nat)
    | Pass(chat: PartyChat, event: Event)
    | Forge(to: nat, chat: PartyChat, verified: bool)

  function TrafficOf(w: World, chat: PartyChat): Traffic {
    if chat in w.chats then w.chats[chat] else Traffic(multiset{}, 0)
  }

  ghost predicate AtTheirPlaces(c: Setting, ms: seq<Member>) {
    |ms| == |RingOf(c.ids)| && forall i :: 0 <= i < |ms| ==> ms[i].self == RingOf(c.ids)[i]
  }

  // ------------------------------------------------------------------ the party as it runs

  /** The copies that sendToNeighbors of the member at position i makes. */
  ghost function CopiesTo(ring: seq<MemberId>, i: nat, sentTo: set<MemberId>): set<Copy> {
    set m | m in sentTo && m in ring :: Copy(i, Place(ring, m))
  }

  ghost function Launch(w: World, chat: PartyChat, copies: set<Copy>): World {
    var t := TrafficOf(w, chat);
    w.(chats := w.chats[chat := Traffic(t.flight + multiset(copies), t.sent + |copies|)])
  }

  /** ProcessChat at position i, and its copies sent on, if any. */
  ghost function Handle(c: Setting, w: World, i: nat, chat: PartyChat, verified: bool): World
    requires i < |w.members| == |RingOf(c.ids)|
  {
    var (m, sentTo) := Processed(c.id, c.ids, w.members[i], chat, verified);
    var w1, copies := w.(members := w.members[i := m]), CopiesTo(RingOf(c.ids), i, sentTo);
    if copies == {} then w1 else Launch(w1, chat, copies)
  }

  ghost function Take(w: World, chat: PartyChat, copy: Copy): World {
    var t := TrafficOf(w, chat);
    w.(chats := w.chats[chat := t.(flight := t.flight - multiset{copy})])
  }

  ghost predicate Initial(c: Setting, w: World) {
    && AtTheirPlaces(c, w.members) && w.chats == map[]
    && forall i :: 0 <= i < |w.members| ==> w.members[i].seenChats == map[] && w.members[i].channel == []
  }

  /** A member up sends a chat whose id, its own with the time, is new.  Copies travel as in module
      Gossip.  A chat that is not verified, or of another party, may reach anyone. */
  ghost predicate WorldStep(c: Setting, w: World, ev: WorldEvent, w': World)
    requires |w.members| == |RingOf(c.ids)|
  {
    match ev
    case Send(i, message, time) =>
      && i < |w.members| && i !in c.dead
      && var chat := PartyChat(w.members[i].self, c.id, message, time);
         && (forall d :: d in w.chats ==> d.Id() != chat.Id())
         && w' == Launch(w, chat, CopiesTo(RingOf(c.ids), i, NeighborIds(c.ids, w.members[i].self)))
    case Pass(chat, ev) =>
      && ev.copy in TrafficOf(w, chat).flight && ev.copy.to < |w.members|
      && (match ev
          case Deliver(copy) => copy.to !in c.dead && w' == Handle(c, Take(w, chat, copy), copy.to, chat, true)
          case Drop(copy) => (copy.to in c.dead || copy.to == copy.from) && w' == Take(w, chat, copy))
    case Forge(i, chat, verified) =>
      i < |w.members| && !(verified && chat.partyId == c.id) && w' == Handle(c, w, i, chat, verified)
  }

  ghost predicate IsWorldRun(c: Setting, ws: seq<World>, evs: seq<WorldEvent>) {
    && |ws| == |evs| + 1 && Initial(c, ws[0])
    && forall k: nat :: k < |evs| ==> StepAt(c, ws, evs, k)
  }

  ghost predicate StepAt(c: Setting, ws: seq<World>, evs: seq<WorldEvent>, k: nat) {
    k < |evs| == |ws| - 1 && |ws[k].members| == |RingOf(c.ids)| && WorldStep(c, ws[k], evs[k], ws[k + 1])
  }

  // ------------------------------------------------------------------ seen from one chat

  ghost function Times(m: Member, chat: PartyChat): nat {
    multiset(m.channel)[chat]
  }

  ghost function SeenBy(ms: seq<Member>, chat: PartyChat): set<nat> {
    set i: nat | i < |ms| && chat.Id() in ms[i].seenChats
  }

  ghost predicate Counts(ms: seq<Member>, chat: PartyChat, r: multiset<nat>) {
    forall i: nat :: r[i] == if i < |ms| then Times(ms[i], chat) else 0
  }

  lemma {:induction false} CountsExist(ms: seq<Member>, chat: PartyChat)
    ensures exists r :: Counts(ms, chat, r)
    decreases |ms|
  {
    if ms == [] {
      assert Counts(ms, chat, multiset{});
    } else {
      var front, last := ms[..|ms| - 1], |ms| - 1;
      CountsExist(front, chat);
      var r :| Counts(front, chat, r);
      assert Counts(ms, chat, r[last := Times(ms[last], chat)]);
    }
  }

  /** How often each position displays the chat. */
  ghost function ShownBy(ms: seq<Member>, chat: PartyChat): (r: multiset<nat>)
    ensures Counts(ms, chat, r)
  {
    CountsExist(ms, chat);
    var r :| Counts(ms, chat, r);
    r
  }

  ghost function View(w: World, chat: PartyChat): Flood {
    var t := TrafficOf(w, chat);
    Flood(t.flight, SeenBy(w.members, chat), ShownBy(w.members, chat), t.sent)
  }

  ghost predicate OfParty(c: Setting, chat: PartyChat) {
    chat.partyId == c.id && chat.peerId in RingOf(c.ids) && Place(RingOf(c.ids), chat.peerId) !in c.dead
  }

  ghost function PartyOf(c: Setting, chat: PartyChat): (p: Party)
    requires OfParty(c, chat)
    ensures ValidParty(p)
  {
    Party(|RingOf(c.ids)|, c.dead, Place(RingOf(c.ids), chat.peerId))
  }

  lemma PlaceIs(ids: set<MemberId>, i: nat)
    requires i < |RingOf(ids)|
    ensures RingOf(ids)[i] in RingOf(ids) && Place(RingOf(ids), RingOf(ids)[i]) == i
  {
  }

  lemma CopyIsSent(ids: set<MemberId>, i: nat, d: Copy)
    requires i < |RingOf(ids)| && d in Copies(|RingOf(ids)|, i)
    ensures d in CopiesTo(RingOf(ids), i, AtPlaces(RingOf(ids), Neighbors(|RingOf(ids)|, i)))
  {
    PlaceIs(ids, d.to);
  }

  lemma SentIsCopy(ids: set<MemberId>, i: nat, d: Copy)
    requires i < |RingOf(ids)|
    requires d in CopiesTo(RingOf(ids), i, AtPlaces(RingOf(ids), Neighbors(|RingOf(ids)|, i)))
    ensures d in Copies(|RingOf(ids)|, i)
  {
    var ring := RingOf(ids);
    var m :| m in AtPlaces(ring, Neighbors(|ring|, i)) && m in ring && d == Copy(i, Place(ring, m));
    var j :| j in Neighbors(|ring|, i) && j < |ring| && ring[j] == m;
    PlaceIs(ids, j);
  }

  /** The members that one member sends to stand where its copies go. */
  lemma SentAreCopies(ids: set<MemberId>, i: nat)
    requires i < |RingOf(ids)|
    ensures CopiesTo(RingOf(ids), i, NeighborIds(ids, RingOf(ids)[i])) == Copies(|RingOf(ids)|, i)
  {
    NeighborsOfPosition(ids, i);
    var l := CopiesTo(RingOf(ids), i, AtPlaces(RingOf(ids), Neighbors(|RingOf(ids)|, i)));
    forall d | d in Copies(|RingOf(ids)|, i) {
      CopyIsSent(ids, i, d);
    }
    forall d | d in l {
      SentIsCopy(ids, i, d);
    }
    assert l == Copies(|RingOf(ids)|, i);
  }

  lemma SeenAfter(ms: seq<Member>, chat: PartyChat, i: nat, m: Member, d: PartyChat)
    requires i < |ms| && m.seenChats.Keys == ms[i].seenChats.Keys + {chat.Id()}
    ensures SeenBy(ms[i := m], d) == SeenBy(ms, d) + if d.Id() == chat.Id() then {i} else {}
  {
    assert d.Id() in m.seenChats <==> d.Id() in ms[i].seenChats || d.Id() == chat.Id();
  }

  lemma SameMultiset(l: multiset<nat>, r: multiset<nat>)
    requires forall k: nat :: l[k] == r[k]
    ensures l == r
  {
  }

  lemma ShownAfter(ms: seq<Member>, chat: PartyChat, i: nat, m: Member, d: PartyChat)
    requires i < |ms| && m.channel == ms[i].channel + [chat]
    ensures ShownBy(ms[i := m], d) == ShownBy(ms, d) + if d == chat then multiset{i} else multiset{}
  {
    assert Times(m, d) == Times(ms[i], d) + if d == chat then 1 else 0;
    SameMultiset(ShownBy(ms[i := m], d), ShownBy(ms, d) + if d == chat then multiset{i} else multiset{});
  }

  lemma LaunchedView(w: World, chat: PartyChat, copies: set<Copy>, d: PartyChat)
    ensures View(Launch(w, chat, copies), d) ==
      var t := TrafficOf(w, d);
      if d == chat then View(w, d).(flight := t.flight + multiset(copies), sent := t.sent + |copies|)
      else View(w, d)
  {
  }

  lemma HandledFirst(c: Setting, w: World, i: nat, chat: PartyChat)
    requires AtTheirPlaces(c, w.members) && i < |w.members| && chat.partyId == c.id
    requires chat.Id() !in w.members[i].seenChats
    ensures var m := Processed(c.id, c.ids, w.members[i], chat, true).0;
      Handle(c, w, i, chat, true) == Launch(w.(members := w.members[i := m]), chat, Copies(|w.members|, i))
  {
    SentAreCopies(c.ids, i);
    assert Copy(i, Ring.Before(|w.members|, i)) in Copies(|w.members|, i);
  }

  /** A member that has not seen a chat displays and marks it; the other chats of the party look
      as before. */
  lemma MemberShows(c: Setting, w: World, i: nat, chat: PartyChat, d: PartyChat)
    requires i < |w.members| && chat.partyId == c.id && chat.Id() !in w.members[i].seenChats
    requires d == chat || d.Id() != chat.Id()
    ensures var m := Processed(c.id, c.ids, w.members[i], chat, true).0;
      View(w.(members := w.members[i := m]), d) ==
        if d == chat then View(w, d).(seen := SeenBy(w.members, d) + {i}, shown := ShownBy(w.members, d) + multiset{i})
        else View(w, d)
  {
    var m := Processed(c.id, c.ids, w.members[i], chat, true).0;
    SeenAfter(w.members, chat, i, m, d);
    ShownAfter(w.members, chat, i, m, d);
  }

  lemma HandledAgain(c: Setting, w: World, i: nat, chat: PartyChat)
    requires i < |w.members| == |RingOf(c.ids)| && chat.Id() in w.members[i].seenChats
    ensures Handle(c, w, i, chat, true) == w
  {
    assert w.members[i := w.members[i]] == w.members;
  }

  /** ProcessChat at a member is Process at its position for the chat itself ... */
  lemma HandledIsProcess(c: Setting, w: World, i: nat, chat: PartyChat)
    requires AtTheirPlaces(c, w.members) && i < |w.members| && chat.partyId == c.id
    ensures View(Handle(c, w, i, chat, true), chat) == Process(|w.members|, View(w, chat), i)
  {
    assert i in View(w, chat).seen <==> chat.Id() in w.members[i].seenChats;
    if chat.Id() in w.members[i].seenChats {
      HandledAgain(c, w, i, chat);
    } else {
      var w1 := w.(members := w.members[i := Processed(c.id, c.ids, w.members[i], chat, true).0]);
      MemberShows(c, w, i, chat, chat);
      HandledFirst(c, w, i, chat);
      LaunchedView(w1, chat, Copies(|w.members|, i), chat);
    }
  }

  /** ... and nothing for any chat of another id. */
  lemma HandledForOthers(c: Setting, w: World, i: nat, chat: PartyChat, d: PartyChat)
    requires AtTheirPlaces(c, w.members) && i < |w.members| && chat.partyId == c.id && d.Id() != chat.Id()
    ensures View(Handle(c, w, i, chat, true), d) == View(w, d)
  {
    if chat.Id() in w.members[i].seenChats {
      HandledAgain(c, w, i, chat);
    } else {
      var w1 := w.(members := w.members[i := Processed(c.id, c.ids, w.members[i], chat, true).0]);
      MemberShows(c, w, i, chat, d);
      HandledFirst(c, w, i, chat);
      LaunchedView(w1, chat, Copies(|w.members|, i), d);
    }
  }

  /** A chat that is not verified, or of another party, leaves everything as it was. */
  lemma ForgedIsNothing(c: Setting, w: World, i: nat, chat: PartyChat, verified: bool)
    requires i < |w.members| == |RingOf(c.ids)| && !(verified && chat.partyId == c.id)
    ensures Handle(c, w, i, chat, verified) == w
  {
    assert w.members[i := w.members[i]] == w.members;
  }

  // ------------------------------------------------------------------ every run

  /** Where the members stand, and that they know only what was sent. */
  ghost predicate Honest(c: Setting, w: World) {
    && AtTheirPlaces(c, w.members)
    && (forall chat :: chat in w.chats ==> OfParty(c, chat))
    && (forall a, b :: a in w.chats && b in w.chats && a.Id() == b.Id() ==> a == b)
    && (forall i :: 0 <= i < |w.members| ==> KnowsOnlySent(w, w.members[i]))
  }

  ghost predicate KnowsOnlySent(w: World, m: Member) {
    && (forall x :: x in m.seenChats ==> WasSent(w, x))
    && (forall chat :: chat in m.channel ==> chat in w.chats)
  }

  ghost predicate WasSent(w: World, x: ChatId) {
    exists chat :: chat in w.chats && chat.Id() == x
  }

  lemma KnowsMore(w: World, w': World, m: Member)
    requires KnowsOnlySent(w, m) && w.chats.Keys <= w'.chats.Keys
    ensures KnowsOnlySent(w', m)
  {
    forall x | x in m.seenChats
      ensures WasSent(w', x)
    {
      var chat :| chat in w.chats && chat.Id() == x;
      assert chat in w'.chats;
    }
  }

  lemma KnowsAnother(c: Setting, w: World, m: Member, chat: PartyChat)
    requires KnowsOnlySent(w, m) && chat in w.chats
    ensures KnowsOnlySent(w, Processed(c.id, c.ids, m, chat, true).0)
  {
    assert WasSent(w, chat.Id());
  }

  lemma TakenView(w: World, chat: PartyChat, copy: Copy, d: PartyChat)
    ensures View(Take(w, chat, copy), d) ==
      if d == chat then View(w, d).(flight := TrafficOf(w, d).flight - multiset{copy}) else View(w, d)
  {
  }

  /** A delivery or a loss of a copy of one chat is a step of its flood ... */
  lemma PassIsFlood(c: Setting, w: World, chat: PartyChat, ev: Event, w': World)
    requires AtTheirPlaces(c, w.members) && OfParty(c, chat) && WorldStep(c, w, Pass(chat, ev), w')
    ensures Step(PartyOf(c, chat), View(w, chat), ev, View(w', chat))
  {
    TakenView(w, chat, ev.copy, chat);
    if ev.Deliver? {
      HandledIsProcess(c, Take(w, chat, ev.copy), ev.copy.to, chat);
    }
  }

  /** ... and nothing to the floods of the others. */
  lemma PassForOthers(c: Setting, w: World, chat: PartyChat, ev: Event, w': World, d: PartyChat)
    requires AtTheirPlaces(c, w.members) && OfParty(c, chat) && WorldStep(c, w, Pass(chat, ev), w')
    requires d.Id() != chat.Id()
    ensures View(w', d) == View(w, d)
  {
    TakenView(w, chat, ev.copy, d);
    if ev.Deliver? {
      HandledForOthers(c, Take(w, chat, ev.copy), ev.copy.to, chat, d);
    }
  }

  lemma SameKeysHonest(c: Setting, w: World, w': World)
    requires Honest(c, w) && w'.chats.Keys == w.chats.Keys && AtTheirPlaces(c, w'.members)
    requires forall i :: 0 <= i < |w'.members| ==> KnowsOnlySent(w', w'.members[i])
    ensures Honest(c, w')
  {
    assert forall chat :: chat in w'.chats <==> chat in w.chats;
  }

  lemma HandleOnMembers(c: Setting, w: World, i: nat, chat: PartyChat)
    requires AtTheirPlaces(c, w.members) && chat in w.chats && i < |w.members|
    ensures var w' := Handle(c, w, i, chat, true);
      && w'.chats.Keys == w.chats.Keys && AtTheirPlaces(c, w'.members)
      && w'.members == w.members[i := Processed(c.id, c.ids, w.members[i], chat, true).0]
  {
  }

  lemma HandleKeepsHonest(c: Setting, w: World, i: nat, chat: PartyChat)
    requires Honest(c, w) && chat in w.chats && i < |w.members|
    ensures Honest(c, Handle(c, w, i, chat, true)) && Handle(c, w, i, chat, true).chats.Keys == w.chats.Keys
  {
    var w' := Handle(c, w, i, chat, true);
    HandleOnMembers(c, w, i, chat);
    forall k | 0 <= k < |w'.members|
      ensures KnowsOnlySent(w', w'.members[k])
    {
      if k == i {
        KnowsAnother(c, w, w.members[i], chat);
      }
      KnowsMore(w, w', w'.members[k]);
    }
    SameKeysHonest(c, w, w');
  }

  lemma TakeKeepsHonest(c: Setting, w: World, chat: PartyChat, copy: Copy)
    requires Honest(c, w) && chat in w.chats
    ensures Honest(c, Take(w, chat, copy)) && Take(w, chat, copy).chats.Keys == w.chats.Keys
  {
    var w' := Take(w, chat, copy);
    assert w'.chats.Keys == w.chats.Keys;
    forall k | 0 <= k < |w'.members|
      ensures KnowsOnlySent(w', w'.members[k])
    {
      KnowsMore(w, w', w.members[k]);
    }
    SameKeysHonest(c, w, w');
  }

  /** A new chat starts its flood, and leaves the others alone. */
  lemma SendIsSent(c: Setting, w: World, i: nat, message: string, time: nat, w': World)
    requires Honest(c, w) && WorldStep(c, w, Send(i, message, time), w')
    ensures var chat := PartyChat(w.members[i].self, c.id, message, time);
      OfParty(c, chat) && View(w', chat) == Sent(PartyOf(c, chat))
  {
    var chat := PartyChat(w.members[i].self, c.id, message, time);
    PlaceIs(c.ids, i);
    SentAreCopies(c.ids, i);
    NobodyKnows(c, w, chat);
    LaunchedView(w, chat, Copies(|w.members|, i), chat);
  }

  lemma NobodyKnows(c: Setting, w: World, chat: PartyChat)
    requires Honest(c, w) && forall d :: d in w.chats ==> d.Id() != chat.Id()
    ensures SeenBy(w.members, chat) == {} && ShownBy(w.members, chat) == multiset{}
  {
    forall i | 0 <= i < |w.members|
      ensures chat.Id() !in w.members[i].seenChats && Times(w.members[i], chat) == 0
    {
      assert KnowsOnlySent(w, w.members[i]);
    }
    SameMultiset(ShownBy(w.members, chat), multiset{});
  }

  lemma SendKeepsHonest(c: Setting, w: World, i: nat, message: string, time: nat, w': World)
    requires Honest(c, w) && WorldStep(c, w, Send(i, message, time), w')
    ensures Honest(c, w') && w'.chats.Keys == w.chats.Keys + {PartyChat(w.members[i].self, c.id, message, time)}
  {
    var chat := PartyChat(w.members[i].self, c.id, message, time);
    PlaceIs(c.ids, i);
    assert w'.chats.Keys == w.chats.Keys + {chat};
    assert OfParty(c, chat);
    forall k | 0 <= k < |w'.members|
      ensures KnowsOnlySent(w', w'.members[k])
    {
      KnowsMore(w, w', w.members[k]);
    }
  }

  /** The flood of every chat that was sent is as module Gossip has it. */
  ghost predicate Spreads(c: Setting, w: World, chat: PartyChat)
    requires OfParty(c, chat)
  {
    Spreading(PartyOf(c, chat), View(w, chat))
  }

  ghost predicate Good(c: Setting, w: World) {
    Honest(c, w) && forall chat :: chat in w.chats ==> Spreads(c, w, chat)
  }

  lemma SendKeepsGood(c: Setting, w: World, i: nat, message: string, time: nat, w': World)
    requires Good(c, w) && WorldStep(c, w, Send(i, message, time), w')
    ensures Good(c, w')
  {
    var chat := PartyChat(w.members[i].self, c.id, message, time);
    SendKeepsHonest(c, w, i, message, time, w');
    SendIsSent(c, w, i, message, time, w');
    SentIsSpreading(PartyOf(c, chat));
    forall d | d in w'.chats && d != chat
      ensures Spreads(c, w', d)
    {
      assert Spreads(c, w, d);
      LaunchedView(w, chat, CopiesTo(RingOf(c.ids), i, NeighborIds(c.ids, w.members[i].self)), d);
    }
  }

  lemma PassKeepsGood(c: Setting, w: World, chat: PartyChat, ev: Event, w': World)
    requires Good(c, w) && WorldStep(c, w, Pass(chat, ev), w')
    ensures Good(c, w') && w'.chats.Keys == w.chats.Keys
  {
    TakeKeepsHonest(c, w, chat, ev.copy);
    if ev.Deliver? {
      HandleKeepsHonest(c, Take(w, chat, ev.copy), ev.copy.to, chat);
    }
    forall d | d in w'.chats
      ensures Spreads(c, w', d)
    {
      assert Spreads(c, w, d);
      if d == chat {
        PassIsFlood(c, w, chat, ev, w');
        StepKeepsSpreading(PartyOf(c, d), View(w, d), ev, View(w', d));
      } else {
        PassForOthers(c, w, chat, ev, w', d);
      }
    }
  }

  lemma StepKeepsWorldGood(c: Setting, w: World, ev: WorldEvent, w': World)
    requires Good(c, w) && WorldStep(c, w, ev, w')
    ensures Good(c, w')
  {
    match ev
    case Send(i, message, time) => SendKeepsGood(c, w, i, message, time, w');
    case Pass(chat, pass) => PassKeepsGood(c, w, chat, pass, w');
    case Forge(i, chat, verified) => ForgedIsNothing(c, w, i, chat, verified);
  }

  lemma RunStepKeepsGood(c: Setting, ws: seq<World>, evs: seq<WorldEvent>, k: nat)
    requires IsWorldRun(c, ws, evs) && k < |evs| && Good(c, ws[k])
    ensures Good(c, ws[k + 1])
  {
    assert StepAt(c, ws, evs, k);
    StepKeepsWorldGood(c, ws[k], evs[k], ws[k + 1]);
  }

  /** In every state of every run of the party each chat's flood is as it should be, members know
      nothing but what was sent, and no id stands for two chats. */
  lemma {:induction false} RunKeepsWorldGood(c: Setting, ws: seq<World>, evs: seq<WorldEvent>, k: nat)
    requires IsWorldRun(c, ws, evs) && k <= |evs|
    ensures Good(c, ws[k])
  {
    if k > 0 {
      RunKeepsWorldGood(c, ws, evs, k - 1);
      RunStepKeepsGood(c, ws, evs, k - 1);
    }
  }

  /** The steps that one chat's copies have taken. */
  ghost function Passed(evs: seq<WorldEvent>, chat: PartyChat, k: nat): nat
    requires k <= |evs|
  {
    if k == 0 then 0
    else Passed(evs, chat, k - 1) + if evs[k - 1].Pass? && evs[k - 1].chat == chat then 1 else 0
  }

  lemma {:induction false} TrafficConserved(c: Setting, ws: seq<World>, evs: seq<WorldEvent>, chat: PartyChat, k: nat)
    requires IsWorldRun(c, ws, evs) && k <= |evs|
    ensures |TrafficOf(ws[k], chat).flight| + Passed(evs, chat, k) == TrafficOf(ws[k], chat).sent
  {
    if k > 0 {
      TrafficConserved(c, ws, evs, chat, k - 1);
      RunKeepsWorldGood(c, ws, evs, k - 1);
      TrafficStep(c, ws, evs, k - 1, chat);
    }
  }

  lemma HandledTraffic(c: Setting, w: World, i: nat, chat: PartyChat, d: PartyChat)
    requires i < |w.members| == |RingOf(c.ids)| && d != chat
    ensures TrafficOf(Handle(c, w, i, chat, true), d) == TrafficOf(w, d)
  {
  }

  lemma PassTraffic(c: Setting, w: World, chat: PartyChat, ev: Event, w': World, d: PartyChat)
    requires AtTheirPlaces(c, w.members) && OfParty(c, chat) && WorldStep(c, w, Pass(chat, ev), w')
    ensures var t, t' := TrafficOf(w, d), TrafficOf(w', d);
      if d == chat then |t'.flight| + 1 + t.sent == |t.flight| + t'.sent else t' == t
  {
    if d == chat {
      PassIsFlood(c, w, chat, ev, w');
      StepCounts(PartyOf(c, d), View(w, d), ev, View(w', d));
    } else if ev.Deliver? {
      HandledTraffic(c, Take(w, chat, ev.copy), ev.copy.to, chat, d);
    }
  }

  lemma SendTraffic(c: Setting, w: World, i: nat, message: string, time: nat, w': World, d: PartyChat)
    requires |w.members| == |RingOf(c.ids)| && WorldStep(c, w, Send(i, message, time), w')
    ensures |TrafficOf(w', d).flight| + TrafficOf(w, d).sent == |TrafficOf(w, d).flight| + TrafficOf(w', d).sent
  {
  }

  lemma TrafficStep(c: Setting, ws: seq<World>, evs: seq<WorldEvent>, k: nat, d: PartyChat)
    requires IsWorldRun(c, ws, evs) && k < |evs| && Good(c, ws[k])
    ensures var t, t' := TrafficOf(ws[k], d), TrafficOf(ws[k + 1], d);
      |t'.flight| + t.sent + (if evs[k].Pass? && evs[k].chat == d then 1 else 0) == |t.flight| + t'.sent
  {
    var w, w' := ws[k], ws[k + 1];
    assert StepAt(c, ws, evs, k);
    match evs[k]
    case Send(i, message, time) => SendTraffic(c, w, i, message, time, w', d);
    case Pass(chat, ev) => PassTraffic(c, w, chat, ev, w', d);
    case Forge(i, chat, verified) => ForgedIsNothing(c, w, i, chat, verified);
  }

  /** Delivery, said of the objects, for every chat of a party in which chats cross each other and
      forged ones turn up.  With at most two members down and another besides the author up, the
      copies of a chat take at most 3n + 3 steps, and once none is left the channel of every
      member that is up has the chat once, and of the others not at all. */
  lemma ChatReachesAll(c: Setting, ws: seq<World>, evs: seq<WorldEvent>, k: nat, chat: PartyChat, x: nat, i: nat)
    requires IsWorldRun(c, ws, evs) && |c.dead| <= 2 && k <= |evs| && chat in ws[k].chats
    requires x < |RingOf(c.ids)| && x !in c.dead && RingOf(c.ids)[x] != chat.peerId
    requires i < |RingOf(c.ids)|
    ensures Passed(evs, chat, k) <= 3 * |RingOf(c.ids)| + 3
    ensures |ws[k].members| == |RingOf(c.ids)|
    ensures ws[k].chats[chat].flight == multiset{} ==>
      Times(ws[k].members[i], chat) == if i in c.dead then 0 else 1
  {
    RunKeepsWorldGood(c, ws, evs, k);
    TrafficConserved(c, ws, evs, chat, k);
    var p, s := PartyOf(c, chat), View(ws[k], chat);
    assert Spreads(c, ws[k], chat);
    SeenFits(p, s);
    if s.flight == multiset{} {
      AtRest(p, s, x, i);
    }
  }

  /** At no point does a channel show a chat twice, or one that was not sent. */
  lemma ChannelsAreHonest(c: Setting, ws: seq<World>, evs: seq<WorldEvent>, k: nat, chat: PartyChat, i: nat)
    requires IsWorldRun(c, ws, evs) && k <= |evs| && i < |RingOf(c.ids)|
    ensures |ws[k].members| == |RingOf(c.ids)|
    ensures Times(ws[k].members[i], chat) <= if chat in ws[k].chats then 1 else 0
  {
    RunKeepsWorldGood(c, ws, evs, k);
    assert KnowsOnlySent(ws[k], ws[k].members[i]);
    if chat in ws[k].chats {
      assert Spreads(c, ws[k], chat);
      assert ShownBy(ws[k].members, chat)[i] == Times(ws[k].members[i], chat);
    }
  }
}
