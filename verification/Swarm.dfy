/** Any number of peers exchanging one file, each sending only through chooseBlock. */
module Swarm {
  import opened Words
  import opened Blocks
  import opened Coverage
  import opened Chain
  import opened Download
  import opened Sender

  /** A peer with its copy of the file.  It is active while it downloads; a publisher or a
      peer whose download is complete takes no fulfillments (party.go:1020). */
  datatype Peer = Peer(file: FileState, active: bool, queue: seq<VerifiedBlock>)

  /** `wire` holds every block ever sent: it may reach any peer, any number of times, or
      never. */
  datatype State = State(peers: seq<Peer>, wire: set<Block>)

  datatype Event =
    | Send(peer: nat, req: Bitmap, choice: Word)
    | Receive(peer: nat, block: Block)
    | Commit(peer: nat, io: Io)
    | Finish(peer: nat)

  ghost predicate PeerStep(h: Hasher, wire: set<Block>, p: Peer, ev: Event, p': Peer) {
    match ev
    case Send(_, req, j) => Sends(h, p.file, req, j) && p' == p
    case Receive(_, b) =>
      && p.active && b in wire && Accepts(h, p.file, b)
      && p' == p.(queue := p.queue + [VerifiedBlock(0, b, h.block(b))])
    case Commit(_, io) =>
      && p.queue != []
      && p' == p.(queue := p.queue[1..], file := WriteVerified(p.file, p.queue[0], io).0)
    case Finish(_) => IsFull(p.file.size, p.file.coverage) && p' == p.(active := false)
  }

  ghost predicate Step(h: Hasher, s: State, ev: Event, s': State) {
    && ev.peer < |s.peers| == |s'.peers|
    && PeerStep(h, s.wire, s.peers[ev.peer], ev, s'.peers[ev.peer])
    && s'.peers == s.peers[ev.peer := s'.peers[ev.peer]]
    && s'.wire == if ev.Send? then s.wire + {ServedBlock(h, s.peers[ev.peer].file, ev.choice).value} else s.wire
  }

  ghost predicate IsRun(h: Hasher, ss: seq<State>, evs: seq<Event>) {
    |ss| == |evs| + 1 && forall k :: 0 <= k < |evs| ==> Step(h, ss[k], evs[k], ss[k + 1])
  }

  /** A peer as a pack of one file. */
  function PackOf(p: Peer): PackState {
    PackState(if p.active then Active else Complete, [p.file], p.queue)
  }

  /** What a peer does is what a pack does, or a sender, which changes nothing. */
  lemma PeerStepIsStep(h: Hasher, wire: set<Block>, p: Peer, ev: Event, p': Peer)
    requires PeerStep(h, wire, p, ev, p') && |p.file.coverage| == WordsFor(p.file.size)
    requires forall q :: 0 <= q < |p.queue| ==> p.queue[q].file == 0
    ensures match ev
      case Send(_, _, _) => PackOf(p') == PackOf(p)
      case Receive(_, b) => Download.Step(h, PackOf(p), Fulfill(p.file.hash, b), PackOf(p'))
      case Commit(_, io) => Download.Step(h, PackOf(p), Write(io), PackOf(p'))
      case Finish(_) => Download.Step(h, PackOf(p), Tick, PackOf(p'))
    ensures forall q :: 0 <= q < |p'.queue| ==> p'.queue[q].file == 0
  {
    assert FindFile([p.file], p.file.hash) == Some(0);
    assert [p.file][0 := p'.file] == [p'.file];
  }

  /** A block waiting to be written: true, with data, and with a covered parent. */
  ghost predicate QueuedReal(h: Hasher, file: Contents, st: FileState, vb: VerifiedBlock) {
    TrueQueued(h, file, vb) && HasParent(st, vb.block.index) && vb.block.index < RealBlocks(|file|)
  }

  /** A peer's copy is good and covers blocks with data only; it is linked while it downloads
      and full when it does not. */
  ghost predicate GoodPeer(h: Hasher, file: Contents, p: Peer) {
    && GoodFile(h, file, p.file) && OnlyReal(|file|, p.file.coverage)
    && |p.file.coverage| == WordsFor(|file|) < 0x1_0000_0000_0000
    && (if p.active then Linked(p.file) else IsFull(|file|, p.file.coverage))
    && forall q :: 0 <= q < |p.queue| ==> QueuedReal(h, file, p.file, p.queue[q])
  }

  /** Nobody has, or is about to have, a block past the data. */
  ghost predicate Bounded(h: Hasher, file: Contents, s: State) {
    && (forall i :: 0 <= i < |s.peers| ==> GoodPeer(h, file, s.peers[i]))
    && (forall b :: b in s.wire ==> b.index < RealBlocks(|file|))
  }

  ghost predicate NoCollision(h: Hasher, file: Contents, wire: set<Block>) {
    !ChainCollides(h, file) && forall b :: b in wire ==> !Collides(h, file, b)
  }

  lemma RootCovered(h: Hasher, file: Contents, p: Peer)
    requires GoodPeer(h, file, p) && !IsEmpty(p.file.coverage)
    ensures Has(p.file.coverage, 0)
  {
    var j: nat :| Has(p.file.coverage, j);
    if p.active {
      var path := PathToZero(p.file, j);
      assert Has(p.file.coverage, path[|path| - 1]);
    }
  }

  /** What chooseBlock serves has data: a candidate is covered by the sender, and block 0 is
      a real block as soon as anything is covered. */
  lemma ServedIsReal(h: Hasher, file: Contents, p: Peer, req: Bitmap, j: Word)
    requires GoodPeer(h, file, p) && Sends(h, p.file, req, j)
    ensures ServedBlock(h, p.file, j).value.index == j < RealBlocks(|file|)
  {
    RootCovered(h, file, p);
    assert Has(p.file.coverage, j);
    assert GoodBlock(h, file, p.file, j);
  }

  lemma CommitKeepsGood(h: Hasher, file: Contents, p: Peer, io: Io, p': Peer)
    requires GoodPeer(h, file, p) && !ChainCollides(h, file) && p.queue != []
    requires p' == p.(queue := p.queue[1..], file := WriteVerified(p.file, p.queue[0], io).0)
    ensures GoodPeer(h, file, p')
  {
    var vb := p.queue[0];
    assert QueuedReal(h, file, p.file, vb);
    if p.active {
      WriterKeepsDownloader(h, file, p.file, vb, io);
      WriteKeepsLinked(p.file, vb, io);
    } else {
      RealBlockFits(|file|, vb.block.index);
    }
    forall q | 0 <= q < |p'.queue|
      ensures QueuedReal(h, file, p'.file, p'.queue[q])
    {
      assert p'.queue[q] == p.queue[q + 1];
      assert QueuedReal(h, file, p.file, p.queue[q + 1]);
    }
  }

  lemma ReceiveKeepsGood(h: Hasher, file: Contents, p: Peer, b: Block, p': Peer)
    requires GoodPeer(h, file, p) && p.active && Accepts(h, p.file, b) && b.index < RealBlocks(|file|)
    requires !ChainCollides(h, file) && !Collides(h, file, b)
    requires p' == p.(queue := p.queue + [VerifiedBlock(0, b, h.block(b))])
    ensures GoodPeer(h, file, p')
  {
    AcceptedIsTrue(h, file, p.file, b);
    AcceptedHasParent(h, p.file, b);
    forall q | 0 <= q < |p'.queue|
      ensures QueuedReal(h, file, p'.file, p'.queue[q])
    {
      if q < |p.queue| {
        assert QueuedReal(h, file, p.file, p.queue[q]);
      }
    }
  }

  lemma StepKeepsBounded(h: Hasher, file: Contents, s: State, ev: Event, s': State)
    requires Bounded(h, file, s) && NoCollision(h, file, s.wire) && Step(h, s, ev, s')
    ensures Bounded(h, file, s')
  {
    var p, p' := s.peers[ev.peer], s'.peers[ev.peer];
    assert GoodPeer(h, file, p);
    match ev
    case Send(_, req, j) => ServedIsReal(h, file, p, req, j);
    case Receive(_, b) => ReceiveKeepsGood(h, file, p, b, p');
    case Commit(_, io) => CommitKeepsGood(h, file, p, io, p');
    case Finish(_) => assert GoodPeer(h, file, p');
  }

  lemma {:induction false} WireGrows(h: Hasher, ss: seq<State>, evs: seq<Event>, k: nat, l: nat)
    requires IsRun(h, ss, evs) && k <= l <= |evs|
    ensures ss[k].wire <= ss[l].wire
    decreases l - k
  {
    if k < l {
      WireGrows(h, ss, evs, k, l - 1);
      assert Step(h, ss[l - 1], evs[l - 1], ss[l]);
    }
  }

  /** The bound over every run: from peers that each cover real blocks only, whatever requests
      are made and however blocks are delayed, doubled or lost, no coverage ever has the empty
      block past the data -- or two different blocks with one hash are in the file or were
      sent. */
  lemma {:induction false} RunKeepsBounded(h: Hasher, file: Contents, ss: seq<State>, evs: seq<Event>, k: nat)
    requires IsRun(h, ss, evs) && Bounded(h, file, ss[0]) && k <= |evs|
    ensures Bounded(h, file, ss[k]) || !NoCollision(h, file, ss[k].wire)
    decreases k
  {
    if k > 0 {
      RunKeepsBounded(h, file, ss, evs, k - 1);
      WireGrows(h, ss, evs, k - 1, k);
      assert Step(h, ss[k - 1], evs[k - 1], ss[k]);
      if NoCollision(h, file, ss[k].wire) {
        StepKeepsBounded(h, file, ss[k - 1], evs[k - 1], ss[k]);
      }
    }
  }

  /** Then isFullCoverage says what it is meant to say, and the writer never panics. */
  lemma BoundedIsFull(h: Hasher, file: Contents, s: State, i: nat)
    requires Bounded(h, file, s) && i < |s.peers|
    ensures var c := s.peers[i].file.coverage;
      IsFull(|file|, c) <==> forall j: nat :: j < RealBlocks(|file|) ==> Has(c, j)
    ensures forall q, io :: 0 <= q < |s.peers[i].queue| ==>
      WriteVerified(s.peers[i].file, s.peers[i].queue[q], io).1 != Panicked
  {
    var p := s.peers[i];
    forall q, io | 0 <= q < |p.queue|
      ensures WriteVerified(p.file, p.queue[q], io).1 != Panicked
    {
      assert QueuedReal(h, file, p.file, p.queue[q]);
      RealBlockFits(|file|, p.queue[q].block.index);
    }
  }

  // ------------------------------------------------------------------ from the start

  /** A downloader just after its start, or a peer that has the whole file. */
  ghost predicate Fresh(h: Hasher, file: Contents, p: Peer) {
    && p.queue == []
    && if p.active then JustStarted(h, file, p.file) else FullSender(h, file, p.file)
  }

  ghost predicate Initial(h: Hasher, file: Contents, s: State) {
    s.wire == {} && forall i :: 0 <= i < |s.peers| ==> Fresh(h, file, s.peers[i])
  }

  /** StartPack on an advertised file makes such a downloader. */
  lemma StartMakesFresh(h: Hasher, sources: Sources, p: PackState, p': PackState, f: nat)
    requires Advertised(h, sources, p) && Download.Step(h, p, Start, p') && f < |sources|
    ensures |p'.files| == |sources| && Fresh(h, sources[f], Peer(p'.files[f], true, []))
  {
    assert IsStarted(p.files[f], p'.files[f]);
  }

  lemma FreshIsGood(h: Hasher, file: Contents, p: Peer)
    requires Fresh(h, file, p)
    ensures GoodPeer(h, file, p)
  {
    if !p.active {
      forall j: nat
        ensures Has(p.file.coverage, j) <==> j < RealBlocks(|file|)
      {
      }
    }
  }

  /** The swarm-wide bound.  From peers that have the whole file and downloaders that have just
      been started, whatever requests are made and however blocks are delayed, doubled or lost:
      in every state no peer covers a block past the data, isFullCoverage means that all real
      blocks are there, and no queued block makes the writer panic -- or two different blocks
      with one hash are in the file or were sent. */
  lemma SwarmBound(h: Hasher, file: Contents, ss: seq<State>, evs: seq<Event>, k: nat, i: nat)
    requires IsRun(h, ss, evs) && Initial(h, file, ss[0]) && k <= |evs| && i < |ss[k].peers|
    requires NoCollision(h, file, ss[k].wire)
    ensures var p := ss[k].peers[i];
      && (forall j: nat :: Has(p.file.coverage, j) ==> j < RealBlocks(|file|))
      && (IsFull(|file|, p.file.coverage) <==> forall j: nat :: j < RealBlocks(|file|) ==> Has(p.file.coverage, j))
      && (forall q, io :: 0 <= q < |p.queue| ==> WriteVerified(p.file, p.queue[q], io).1 != Panicked)
  {
    forall i | 0 <= i < |ss[0].peers|
      ensures GoodPeer(h, file, ss[0].peers[i])
    {
      FreshIsGood(h, file, ss[0].peers[i]);
    }
    RunKeepsBounded(h, file, ss, evs, k);
    BoundedIsFull(h, file, ss[k], i);
  }
}
