/** One chat in a party of n members who all hold the same member list (white-box/party.go,
    SendChat, ProcessChat and sendToNeighbors): the flood as a global state, with copies in
    flight, and what every run of it delivers. */
module Gossip {
  import opened Ring

  /** A copy of the chat on its way from one position to another. */
  datatype Copy = Copy(from: nat, to: nat)

  /** `seen` is SeenChats of every member, `shown` what addChat has displayed, `sent` counts
      the copies ever sent. */
  datatype Flood = Flood(flight: multiset<Copy>, seen: set<nat>, shown: multiset<nat>, sent: nat)

  /** A party: its size, the members that are down, and the position of the sender. */
  datatype Party = Party(n: nat, dead: set<nat>, origin: nat)

  ghost predicate ValidParty(p: Party) {
    p.origin < p.n && p.origin !in p.dead
  }

  function Copies(n: nat, i: nat): (r: set<Copy>)
    requires i < n
    ensures |r| <= 3
    ensures forall j: nat :: Copy(i, j) in r <==> j in Neighbors(n, i)
    ensures forall c :: c in r ==> c.from == i && c.to in Neighbors(n, i) && c.to < n
  {
    {Copy(i, Before(n, i)), Copy(i, After(n, i, 1)), Copy(i, if n == 1 then 0 else After(n, i, 2))}
  }

  /** sendToNeighbors */
  function Forward(n: nat, s: Flood, i: nat): Flood
    requires i < n
  {
    s.(flight := s.flight + multiset(Copies(n, i)), sent := s.sent + |Copies(n, i)|)
  }

  /** SendChat: the sender neither displays the chat nor marks it as seen. */
  function Sent(p: Party): Flood
    requires p.origin < p.n
  {
    Forward(p.n, Flood(multiset{}, {}, multiset{}, 0), p.origin)
  }

  /** ProcessChat at the copy's destination. */
  function Process(n: nat, s: Flood, i: nat): Flood
    requires i < n
  {
    if i in s.seen then s
    else Forward(n, s.(seen := s.seen + {i}, shown := s.shown + multiset{i}), i)
  }

  datatype Event = Deliver(copy: Copy) | Drop(copy: Copy)

  /** Delivery is reliable between members that are up.  A copy to a member that is down is
      dropped; so may be a copy to oneself (in a party of two or one, position +2 or all of
      them), since route never writes a message for its own node. */
  ghost predicate Step(p: Party, s: Flood, ev: Event, s': Flood) {
    && ev.copy in s.flight && ev.copy.to < p.n
    && var s1 := s.(flight := s.flight - multiset{ev.copy});
       match ev
       case Deliver(_) => ev.copy.to !in p.dead && s' == Process(p.n, s1, ev.copy.to)
       case Drop(_) => (ev.copy.to in p.dead || ev.copy.to == ev.copy.from) && s' == s1
  }

  ghost predicate IsRun(p: Party, ss: seq<Flood>, evs: seq<Event>) {
    && p.origin < p.n && |ss| == |evs| + 1 && ss[0] == Sent(p)
    && forall k :: 0 <= k < |evs| ==> Step(p, ss[k], evs[k], ss[k + 1])
  }

  // ------------------------------------------------------------------ the invariant

  /** Member i has forwarded: every neighbour that is up has the chat or a copy under way. */
  ghost predicate HasForwarded(p: Party, s: Flood, i: nat)
    requires i < p.n
  {
    forall j :: j in Neighbors(p.n, i) && j !in p.dead && j != i ==> j in s.seen || Copy(i, j) in s.flight
  }

  ghost predicate Spreading(p: Party, s: Flood) {
    && (forall i :: i in s.seen ==> i < p.n && i !in p.dead)
    && (forall i {:trigger HasForwarded(p, s, i)} :: i in s.seen ==> HasForwarded(p, s, i))
    && p.origin < p.n && HasForwarded(p, s, p.origin)
    && (forall c :: c in s.flight ==> c.to < p.n)
    && (forall i :: s.shown[i] == if i in s.seen then 1 else 0)
    && s.sent <= 3 * (|s.seen| + 1)
  }

  lemma SentIsSpreading(p: Party)
    requires ValidParty(p)
    ensures Spreading(p, Sent(p))
  {
  }

  /** A neighbour that has the chat, or a copy of its own under way, keeps it when another copy
      arrives. */
  lemma StillForwarded(p: Party, s: Flood, c: Copy, s': Flood, i: nat)
    requires i < p.n && HasForwarded(p, s, i) && c in s.flight
    requires s.seen <= s'.seen && s.flight - multiset{c} <= s'.flight
    requires c.to in s'.seen || c.to in p.dead || c.to == c.from
    ensures HasForwarded(p, s', i)
  {
    forall j | j in Neighbors(p.n, i) && j !in p.dead && j != i
      ensures j in s'.seen || Copy(i, j) in s'.flight
    {
      if j !in s.seen && Copy(i, j) != c {
        assert Copy(i, j) in s.flight - multiset{c};
      }
    }
  }

  /** A copy leaves flight: whoever still counted on it is its destination, unless it is down
      or sent the copy to itself. */
  lemma ConsumeKeepsSpreading(p: Party, s: Flood, c: Copy)
    requires ValidParty(p) && Spreading(p, s) && c in s.flight
    requires c.to in s.seen || c.to in p.dead || c.to == c.from
    ensures Spreading(p, s.(flight := s.flight - multiset{c}))
  {
    var s' := s.(flight := s.flight - multiset{c});
    forall i | i in s.seen || i == p.origin
      ensures HasForwarded(p, s', i)
    {
      StillForwarded(p, s, c, s', i);
    }
  }

  /** A member's first copy: it displays the chat and sends at most three copies on. */
  lemma FirstTimeKeepsSpreading(p: Party, s: Flood, i: nat)
    requires ValidParty(p) && Spreading(p, s) && i < p.n && i !in s.seen && i !in p.dead
    ensures Spreading(p, Process(p.n, s, i))
  {
    var s' := Process(p.n, s, i);
    forall k | k in s.seen || k == p.origin
      ensures HasForwarded(p, s', k)
    {
      assert HasForwarded(p, s, k);
    }
    JustForwarded(p, s, i);
    assert |s'.seen| == |s.seen| + 1;
  }

  /** Who forwards has forwarded, and sends copies to members only. */
  lemma JustForwarded(p: Party, s: Flood, i: nat)
    requires i < p.n && i !in s.seen && forall d :: d in s.flight ==> d.to < p.n
    ensures HasForwarded(p, Process(p.n, s, i), i)
    ensures forall d :: d in Process(p.n, s, i).flight ==> d.to < p.n
  {
    var s' := Process(p.n, s, i);
    forall d | d in s'.flight
      ensures d.to < p.n
    {
      assert d in s.flight || d in Copies(p.n, i);
    }
  }

  lemma ProcessThenConsume(n: nat, s: Flood, c: Copy)
    requires c.to < n && c in s.flight && c.to !in s.seen
    ensures var s1 := Process(n, s, c.to);
      Process(n, s.(flight := s.flight - multiset{c}), c.to) == s1.(flight := s1.flight - multiset{c})
  {
  }

  lemma StepKeepsSpreading(p: Party, s: Flood, ev: Event, s': Flood)
    requires ValidParty(p) && Spreading(p, s) && Step(p, s, ev, s')
    ensures Spreading(p, s')
  {
    var c := ev.copy;
    if ev.Deliver? && c.to !in s.seen {
      // as if the member processed the chat first and the copy went after
      FirstTimeKeepsSpreading(p, s, c.to);
      ConsumeKeepsSpreading(p, Process(p.n, s, c.to), c);
      ProcessThenConsume(p.n, s, c);
    } else {
      ConsumeKeepsSpreading(p, s, c);
    }
  }

  lemma {:induction false} RunKeepsSpreading(p: Party, ss: seq<Flood>, evs: seq<Event>, k: nat)
    requires ValidParty(p) && IsRun(p, ss, evs) && k <= |evs|
    ensures Spreading(p, ss[k])
  {
    if k == 0 {
      SentIsSpreading(p);
    } else {
      RunKeepsSpreading(p, ss, evs, k - 1);
      StepKeepsSpreading(p, ss[k - 1], evs[k - 1], ss[k]);
    }
  }

  /** Conservation: every copy sent is in flight or has been taken out by one step. */
  lemma {:induction false} CopiesConserved(p: Party, ss: seq<Flood>, evs: seq<Event>, k: nat)
    requires IsRun(p, ss, evs) && k <= |evs|
    ensures |ss[k].flight| + k == ss[k].sent
  {
    if k > 0 {
      CopiesConserved(p, ss, evs, k - 1);
      StepCounts(p, ss[k - 1], evs[k - 1], ss[k]);
    }
  }

  /** A step takes one copy out of flight. */
  lemma StepCounts(p: Party, s: Flood, ev: Event, s': Flood)
    requires Step(p, s, ev, s')
    ensures |s'.flight| + 1 + s.sent == |s.flight| + s'.sent
  {
    assert |s.flight - multiset{ev.copy}| == |s.flight| - 1;
  }

  // ------------------------------------------------------------------ the results

  function Range(n: nat): (r: set<nat>)
    ensures |r| == n && forall i: nat :: i in r <==> i < n
  {
    if n == 0 then {} else Range(n - 1) + {n - 1}
  }

  lemma SeenFits(p: Party, s: Flood)
    requires Spreading(p, s)
    ensures |s.seen| <= p.n
  {
    assert Range(p.n) == s.seen + (Range(p.n) - s.seen);
  }

  /** The flood ends: at most 3n + 3 copies are ever sent, and no run has more steps. */
  lemma FloodEnds(p: Party, ss: seq<Flood>, evs: seq<Event>)
    requires ValidParty(p) && IsRun(p, ss, evs)
    ensures ss[|evs|].sent <= 3 * p.n + 3
    ensures |evs| <= 3 * p.n + 3
  {
    RunKeepsSpreading(p, ss, evs, |evs|);
    CopiesConserved(p, ss, evs, |evs|);
    SeenFits(p, ss[|evs|]);
  }

  /** While a copy is in flight some step is possible: a run that cannot go on is quiescent. */
  lemma NeverStuck(p: Party, s: Flood)
    requires ValidParty(p) && Spreading(p, s) && s.flight != multiset{}
    ensures exists ev, s' :: Step(p, s, ev, s')
  {
    var c :| c in s.flight;
    var s1 := s.(flight := s.flight - multiset{c});
    if c.to in p.dead {
      assert Step(p, s, Drop(c), s1);
    } else {
      assert Step(p, s, Deliver(c), Process(p.n, s1, c.to));
    }
  }

  lemma QuiescentIsClosed(p: Party, s: Flood)
    requires ValidParty(p) && Spreading(p, s) && s.flight == multiset{}
    ensures ClosedUnder(p.n, p.dead, s.seen + {p.origin})
  {
    var c := s.seen + {p.origin};
    forall i, j | i in c && i < p.n && i !in p.dead && j in Neighbors(p.n, i) && j !in p.dead
      ensures j in c
    {
      assert HasForwarded(p, s, i);
    }
  }

  /** The chat comes back to its sender, from whichever survivor links to it. */
  lemma SenderHears(p: Party, s: Flood, x: nat)
    requires ValidParty(p) && |p.dead| <= 2 && Spreading(p, s) && s.flight == multiset{}
    requires forall i :: 0 <= i < p.n && i !in p.dead && i != p.origin ==> i in s.seen
    requires x < p.n && x !in p.dead && x != p.origin
    ensures p.origin in s.seen
  {
    if p.origin !in s.seen {
      forall i, j | i in s.seen && i < p.n && i !in p.dead && j in Neighbors(p.n, i) && j !in p.dead
        ensures j in s.seen
      {
        assert HasForwarded(p, s, i);
      }
      ClosedIsAll(p.n, p.dead, s.seen, x, p.origin);
    }
  }

  /** When no copy is left, every member that is up, the sender included, has displayed the chat
      exactly once, and nobody else has. */
  lemma AtRest(p: Party, s: Flood, x: nat, i: nat)
    requires ValidParty(p) && |p.dead| <= 2 && Spreading(p, s) && s.flight == multiset{}
    requires x < p.n && x !in p.dead && x != p.origin
    requires i < p.n
    ensures s.shown[i] == if i in p.dead then 0 else 1
  {
    QuiescentIsClosed(p, s);
    forall j | 0 <= j < p.n && j !in p.dead && j != p.origin
      ensures j in s.seen
    {
      ClosedIsAll(p.n, p.dead, s.seen + {p.origin}, p.origin, j);
    }
    SenderHears(p, s, x);
  }

  /** Gossip delivery.  With at most two members down -- none, for the plain case -- and at
      least one member besides the sender up, every run that ends with no copy left has shown
      the chat so. */
  lemma GossipDelivers(p: Party, ss: seq<Flood>, evs: seq<Event>, x: nat, i: nat)
    requires ValidParty(p) && |p.dead| <= 2 && IsRun(p, ss, evs) && ss[|evs|].flight == multiset{}
    requires x < p.n && x !in p.dead && x != p.origin
    requires i < p.n
    ensures ss[|evs|].shown[i] == if i in p.dead then 0 else 1
  {
    RunKeepsSpreading(p, ss, evs, |evs|);
    AtRest(p, ss[|evs|], x, i);
  }

  /** And at no point of any run has anyone displayed it twice. */
  lemma NobodyTwice(p: Party, ss: seq<Flood>, evs: seq<Event>, k: nat, i: nat)
    requires ValidParty(p) && IsRun(p, ss, evs) && k <= |evs|
    ensures ss[k].shown[i] <= 1
  {
    RunKeepsSpreading(p, ss, evs, k);
  }

  /** Alone, a sender whose copies to itself are dropped does not see its own chat: one other
      member is needed. */
  lemma AloneMayNotHear()
    ensures var p := Party(1, {}, 0); var s := Sent(p);
      && s.flight == multiset{Copy(0, 0)}
      && Step(p, s, Drop(Copy(0, 0)), s.(flight := multiset{})) && s.shown[0] == 0
  {
    assert Copies(1, 0) == {Copy(0, 0)};
  }
}
