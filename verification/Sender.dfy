/** The sender's side of a download (white-box/party.go: chooseBlock, RequestSender): the
    blocks a requester can verify, the block that is served, and the progress this makes. */
module Sender {
  import opened Words
  import opened Blocks
  import opened Coverage
  import opened Chain
  import opened Download

  // ------------------------------------------------------------------ the frontier of a request

  /** A slice of 64-bit words that fits a 64-bit address space. */
  type Bitmap = c: seq<Word> | |c| < 0x1_0000_0000_0000

  /** The requester lacks block j and has its predecessor or its tree parent. */
  predicate InFrontier(req: Bitmap, j: nat) {
    && 1 <= j < 64 * |req| && !Has(req, j)
    && (Has(req, j - 1) || Has(req, (j - 1) / 2))
  }

  /** chooseBlock indexes the requester's coverage past its end: some covered block has a
      right child (the largest of its three successors) beyond the last word. */
  ghost predicate FrontierFaults(req: Bitmap) {
    exists k: nat :: FaultsAt(req, k)
  }

  predicate FaultsAt(req: Bitmap, k: nat) {
    Has(req, k) && 2 * k + 2 >= 64 * |req|
  }

  /** j is a successor of some covered block below `bound`. */
  ghost predicate FedBelow(req: Bitmap, j: nat, bound: nat) {
    && 1 <= j < 64 * |req| && !Has(req, j)
    && ((j - 1 < bound && Has(req, j - 1)) || ((j - 1) / 2 < bound && Has(req, (j - 1) / 2)))
  }

  function Offer(req: Bitmap, next: seq<Word>, child: nat): (r: seq<Word>)
    requires child / 64 < |req| == |next|
    ensures |r| == |next|
    ensures forall j: nat :: Has(r, j) <==> Has(next, j) || (j == child && !Has(req, child))
  {
    if Has(req, child) then next else Mark(next, child)
  }

  /** j comes after k in the chain or is one of its children. */
  predicate Succeeds(j: nat, k: nat) {
    j == k + 1 || j == 2 * k + 1 || j == 2 * k + 2
  }

  lemma FedStep(req: Bitmap, j: nat, k: nat)
    ensures FedBelow(req, j, k + 1) <==>
      FedBelow(req, j, k) || (j < 64 * |req| && !Has(req, j) && Has(req, k) && Succeeds(j, k))
  {
  }

  lemma FedAll(req: Bitmap, j: nat)
    ensures FedBelow(req, j, 64 * |req|) <==> InFrontier(req, j)
    ensures !FedBelow(req, j, 0)
  {
  }

  /** Offer the three successors of a covered block; None is the index out of range. */
  method OfferSuccessors(req: Bitmap, next: seq<Word>, k: nat) returns (r: Option<seq<Word>>)
    requires Has(req, k) && |next| == |req|
    ensures r.None? <==> FaultsAt(req, k)
    ensures r.Some? ==> |r.value| == |req| && forall j: nat ::
      Has(r.value, j) <==> Has(next, j) || (!Has(req, j) && Succeeds(j, k))
  {
    var left, right := LeftChild(k), RightChild(k);
    assert left == 2 * k + 1 && right == 2 * k + 2;
    if (k + 1) / 64 >= |req| || left / 64 >= |req| || right / 64 >= |req| {
      return None;
    }
    var r1 := Offer(req, next, k + 1);
    var r2 := Offer(req, r1, left);
    r := Some(Offer(req, r2, right));
  }

  /** The body of chooseBlock's first loop for block k. */
  method Visit(req: Bitmap, next: seq<Word>, k: nat) returns (r: Option<seq<Word>>)
    requires k < 64 * |req| == 64 * |next|
    requires forall j: nat :: Has(next, j) <==> FedBelow(req, j, k)
    ensures r.None? <==> FaultsAt(req, k)
    ensures r.Some? ==> |r.value| == |req| && forall j: nat :: Has(r.value, j) <==> FedBelow(req, j, k + 1)
  {
    r := Some(next);
    if Has(req, k) {
      r := OfferSuccessors(req, next, k);
    }
    forall j: nat {
      FedStep(req, j, k);
    }
  }

  /** chooseBlock's first loop as it is written (party.go:1106-1136); None is the panic. */
  method Frontier(req: Bitmap) returns (r: Option<seq<Word>>)
    ensures r.None? <==> FrontierFaults(req)
    ensures r.Some? ==> |r.value| == |req| && forall j: nat :: Has(r.value, j) <==> InFrontier(req, j)
  {
    var next := NoBlocks(|req|);
    var majorIdx := 0;
    while majorIdx < |req|
      invariant 0 <= majorIdx <= |req| == |next|
      invariant forall j: nat :: Has(next, j) <==> FedBelow(req, j, 64 * majorIdx)
      invariant forall k: nat :: k < 64 * majorIdx ==> !FaultsAt(req, k)
    {
      var minorIdx := 0;
      while minorIdx < 64
        invariant 0 <= minorIdx <= 64 && |req| == |next|
        invariant forall j: nat :: Has(next, j) <==> FedBelow(req, j, 64 * majorIdx + minorIdx)
        invariant forall k: nat :: k < 64 * majorIdx + minorIdx ==> !FaultsAt(req, k)
      {
        var visited := Visit(req, next, majorIdx * 64 + minorIdx);
        if visited.None? {
          return None;
        }
        next := visited.value;
        minorIdx := minorIdx + 1;
      }
      majorIdx := majorIdx + 1;
    }
    forall j: nat {
      FedAll(req, j);
    }
    return Some(next);
  }

  function OfferInRange(req: Bitmap, next: seq<Word>, child: nat): (r: seq<Word>)
    requires |req| == |next|
    ensures |r| == |next|
    ensures forall j: nat :: Has(r, j) <==> Has(next, j) || (j == child && child < 64 * |req| && !Has(req, child))
  {
    if child / 64 < |req| then Offer(req, next, child) else next
  }

  /** The same with successors past the end skipped. */
  method OfferGuarded(req: Bitmap, next: seq<Word>, k: nat) returns (r: seq<Word>)
    requires Has(req, k) && |next| == |req|
    ensures |r| == |req| && forall j: nat ::
      Has(r, j) <==> Has(next, j) || (j < 64 * |req| && !Has(req, j) && Succeeds(j, k))
  {
    var left, right := LeftChild(k), RightChild(k);
    assert left == 2 * k + 1 && right == 2 * k + 2;
    var r1 := OfferInRange(req, next, k + 1);
    var r2 := OfferInRange(req, r1, left);
    r := OfferInRange(req, r2, right);
  }

  /** The first loop with that guard: it never panics, and computes the
      same set whenever the loop as written does not panic. */
  method FrontierGuarded(req: Bitmap) returns (next: seq<Word>)
    ensures |next| == |req| && forall j: nat :: Has(next, j) <==> InFrontier(req, j)
  {
    next := NoBlocks(|req|);
    var k: nat := 0;
    while k < 64 * |req|
      invariant k <= 64 * |req| && |req| == |next|
      invariant forall j: nat :: Has(next, j) <==> FedBelow(req, j, k)
    {
      if Has(req, k) {
        next := OfferGuarded(req, next, k);
      }
      forall j: nat {
        FedStep(req, j, k);
      }
      k := k + 1;
    }
    forall j: nat {
      FedAll(req, j);
    }
  }

  method NoBlocks(n: nat) returns (c: seq<Word>)
    ensures |c| == n && IsEmpty(c)
  {
    c := seq(n, _ => 0);
    forall j: nat
      ensures !Has(c, j)
    {
      if j / 64 < |c| {
        ZeroBits(j % 64);
      }
    }
  }

  /** chooseBlock's second loop (party.go:1151-1160): the frontier blocks that the sender has,
      in ascending order; None is the panic on a request longer than its own coverage. */
  method Candidates(next: seq<Word>, own: seq<Word>) returns (r: Option<seq<nat>>)
    ensures r.None? <==> |next| > |own|
    ensures r.Some? ==> forall j: nat :: j in r.value <==> Has(next, j) && Has(own, j)
    ensures r.Some? ==> forall a, b :: 0 <= a < b < |r.value| ==> r.value[a] < r.value[b]
  {
    var indices: seq<nat> := [];
    var majorIdx := 0;
    while majorIdx < |next|
      invariant 0 <= majorIdx <= |next|
      invariant majorIdx <= |own|
      invariant forall j: nat :: j in indices <==> j < 64 * majorIdx && Has(next, j) && Has(own, j)
      invariant forall a, b :: 0 <= a < b < |indices| ==> indices[a] < indices[b]
    {
      if majorIdx >= |own| {
        return None;
      }
      var word := Mask(next[majorIdx], own[majorIdx]);
      var minorIdx := 0;
      while minorIdx < 64
        invariant 0 <= minorIdx <= 64
        invariant forall j: nat :: j in indices <==> j < 64 * majorIdx + minorIdx && Has(next, j) && Has(own, j)
        invariant forall a, b :: 0 <= a < b < |indices| ==> indices[a] < indices[b]
      {
        assert forall a :: 0 <= a < |indices| ==> indices[a] in indices;
        if Bit(word, minorIdx) {
          indices := indices + [majorIdx * 64 + minorIdx];
        }
        minorIdx := minorIdx + 1;
      }
      majorIdx := majorIdx + 1;
    }
    return Some(indices);
  }

  // ------------------------------------------------------------------ the block that is served

  /** Bytes at an offset, at most one buffer of them: an Open, a Seek and a Read. */
  function ReadAt(disk: seq<Byte>, at: nat): seq<Byte> {
    if |disk| <= at then []
    else if |disk| - at <= BUFFER_SIZE then disk[at..]
    else disk[at..at + BUFFER_SIZE]
  }

  /** The end of chooseBlock (party.go:1173-1214): block j as the sender can rebuild it. */
  function ServedBlock(h: Hasher, st: FileState, j: Word): (r: Option<Block>) {
    if j !in st.blockLookup || st.blockLookup[j] !in st.blockMap || Offset(j) >= TWO_TO_THE_63 then None
    else
      var block := st.blockMap[st.blockLookup[j]].ToBlock(ReadAt(st.disk, Offset(j)));
      if block.dataHash != h.data(block.data) then None else Some(block)
  }

  /** The blocks the random choice picks from, or block 0 when there are none. */
  ghost predicate MayChoose(own: seq<Word>, req: Bitmap, j: nat) {
    || (InFrontier(req, j) && Has(own, j))
    || (j == 0 && forall c: nat :: InFrontier(req, c) ==> !Has(own, c))
  }

  /** What a sender reads at a block it covers starts with the block's data, and is no more than
      that exactly if the block is a whole buffer or the copy is no longer than the source. */
  lemma ReadIsChunk(file: Contents, disk: seq<Byte>, j: nat)
    requires j <= Last(file) && Stored(file, disk, j)
    ensures ReadAt(disk, j * BUFFER_SIZE) == Chunk(file, j) <==>
      (j + 1) * BUFFER_SIZE <= |file| || |disk| <= |file|
  {
    var at, chunk, data := j * BUFFER_SIZE, Chunk(file, j), ReadAt(disk, j * BUFFER_SIZE);
    if |chunk| > 0 {
      assert SameByte(file, disk, at + |chunk| - 1);
    }
    assert |data| == |chunk| <==> (j + 1) * BUFFER_SIZE <= |file| || |disk| <= |file|;
    forall k | 0 <= k < |chunk|
      ensures data[k] == chunk[k]
    {
      assert SameByte(file, disk, at + k);
    }
  }

  /** A sender serves a block it covers, and serves it true, unless the block is short and the
      copy goes on after it. */
  lemma ServesTruth(h: Hasher, file: Contents, st: FileState, j: Word)
    requires GoodFile(h, file, st) && Has(st.coverage, j)
    ensures j <= Last(file)
    ensures ServedBlock(h, st, j) == Some(TrueBlock(h, file, j)) <==>
      (j + 1) * BUFFER_SIZE <= |file| || |st.disk| <= |file|
  {
    assert GoodBlock(h, file, st, j);
    LastFits(file, j);
    ReadIsChunk(file, st.disk, j);
    assert TrueInfo(h, file, j).ToBlock(Chunk(file, j)) == TrueBlock(h, file, j);
  }

  /** No sender, whatever it believes, sends data that does not have the hash it comes with: the
      bytes on its disk at the block's offset, under the info it looks up for the index. */
  lemma ServedHashMatches(h: Hasher, st: FileState, j: Word)
    ensures ServedBlock(h, st, j).Some? ==>
      var b, at := ServedBlock(h, st, j).value, BUFFER_SIZE * j % TWO_TO_THE_64;
      && b.dataHash == h.data(b.data) && |b.data| <= BUFFER_SIZE && at < TWO_TO_THE_63
      && Knows(st, j) && b.ToBlockInfo() == st.blockMap[st.blockLookup[j]]
      && (forall p :: 0 <= p < |b.data| ==> at + p < |st.disk| && b.data[p] == st.disk[at + p])
      && (|b.data| < BUFFER_SIZE ==> |st.disk| <= at + |b.data|)
  {
  }

  /** Two different byte strings with one hash. */
  ghost predicate DataCollides(h: Hasher, x: seq<Byte>, y: seq<Byte>) {
    x != y && h.data(x) == h.data(y)
  }

  /** What a good sender does with a block it covers: serve it true, or send nothing where the
      copy goes on after a short block, unless what it reads there collides with the data. */
  lemma ServesTruthOrNothing(h: Hasher, file: Contents, st: FileState, j: Word)
    requires GoodFile(h, file, st) && Has(st.coverage, j)
    ensures j <= Last(file)
    ensures var read := ReadAt(st.disk, j * BUFFER_SIZE);
      if (j + 1) * BUFFER_SIZE <= |file| || |st.disk| <= |file|
      then ServedBlock(h, st, j) == Some(TrueBlock(h, file, j))
      else ServedBlock(h, st, j).None? <==> !DataCollides(h, read, Chunk(file, j))
  {
    ServesTruth(h, file, st, j);
    assert GoodBlock(h, file, st, j);
    LastFits(file, j);
    ReadIsChunk(file, st.disk, j);
  }

  /** A sender that has something answers a request, whose coverage need not be anyone's. */
  ghost predicate Sends(h: Hasher, st: FileState, req: Bitmap, j: Word) {
    && !IsEmpty(st.coverage) && |req| <= |st.coverage| && MayChoose(st.coverage, req, j)
    && ServedBlock(h, st, j).Some?
  }

  /** Every info that is looked up describes the index it is looked up for. */
  ghost predicate InfosAtTheirIndex(st: FileState) {
    forall j: Word :: Knows(st, j) ==> st.blockMap[st.blockLookup[j]].index == j
  }

  /** So it is in every sender that knows only true things. */
  lemma TrueInfosAtTheirIndex(h: Hasher, file: Contents, st: FileState)
    requires KnowsTruth(h, file, st) && !ChainCollides(h, file)
    ensures InfosAtTheirIndex(st)
  {
    forall j: Word | Knows(st, j)
      ensures st.blockMap[st.blockLookup[j]].index == j
    {
      KnownInfo(h, file, st, j);
    }
  }

  /** A round of RequestSender ends the process: the frontier or the candidates are indexed out
      of range, or the request has no words and block 0 is sent and marked in it. */
  ghost predicate CrashesOn(h: Hasher, st: FileState, req: Bitmap) {
    || FrontierFaults(req) || |req| > |st.coverage|
    || (req == [] && !IsEmpty(st.coverage) && ServedBlock(h, st, 0).Some?)
  }

  // ------------------------------------------------------------------ progress

  /** The publisher, or a peer whose download is complete.  Its copy may go on after the source
      only if no block is short. */
  ghost predicate FullSender(h: Hasher, file: Contents, st: FileState) {
    && GoodFile(h, file, st) && (|file| % BUFFER_SIZE == 0 || |st.disk| <= |file|)
    && |st.coverage| == WordsFor(st.size) && IsFull(st.size, st.coverage)
  }

  /** A publisher's map, lookup and coverage come from calculateChain, buildBlockLookup and
      fullCoverage. */
  lemma PublisherIsFull(h: Hasher, file: Contents, st: FileState)
    requires !ChainCollides(h, file)
    requires st.size == |file| && st.disk == file && st.firstBlockHash == Link(h, file, 0)
    requires st.blockMap == InfosFrom(h, file, 0)
    requires forall i: Word :: i in st.blockLookup <==> i < Last(file) + 1
    requires forall i: Word {:trigger st.blockLookup[i]} :: i in st.blockLookup ==>
      st.blockLookup[i] == Follow(InfosFrom(h, file, 0), Link(h, file, 0), i)
    requires |st.coverage| == WordsFor(|file|) && IsFull(|file|, st.coverage)
    ensures FullSender(h, file, st)
  {
    forall i: Word | i in st.blockLookup
      ensures st.blockLookup[i] == Link(h, file, i)
    {
      ChainLinks(h, file, i);
    }
    forall j: nat | Has(st.coverage, j)
      ensures GoodBlock(h, file, st, j)
    {
      InfosFromAt(h, file, 0, j);
    }
  }

  /** A downloader that has been started, in any state it can reach, all of whose blocks are
      real ones. */
  ghost predicate Downloader(h: Hasher, file: Contents, st: FileState) {
    && GoodFile(h, file, st) && Linked(st) && |st.coverage| == WordsFor(|file|) < 0x1_0000_0000_0000
    && OnlyReal(|file|, st.coverage)
  }

  ghost predicate OnlyReal(size: nat, c: seq<Word>) {
    forall k: nat :: Has(c, k) ==> k < RealBlocks(size)
  }

  ghost function Missing(size: nat, c: seq<Word>): set<nat> {
    set j: nat | j < RealBlocks(size) && !Has(c, j)
  }

  /** The lowest missing block of a downloader that has some block is on its frontier. */
  lemma {:induction false} LowestMissing(c: Bitmap, size: nat, k: nat) returns (m: nat)
    requires |c| == WordsFor(size) && Has(c, 0)
    requires k < RealBlocks(size) && !Has(c, k)
    ensures m <= k && InFrontier(c, m)
    decreases k
  {
    if Has(c, k - 1) {
      m := k;
    } else {
      m := LowestMissing(c, size, k - 1);
    }
  }

  lemma FrontierHasParent(st: FileState, j: Word)
    requires |st.coverage| < 0x1_0000_0000_0000 && InFrontier(st.coverage, j)
    ensures HasParent(st, j)
  {
    assert TreeParent(j) == (j - 1) / 2;
  }

  lemma RealBlockFits(size: nat, j: nat)
    requires j < RealBlocks(size) && size < TWO_TO_THE_63
    ensures j / 64 < WordsFor(size) && j <= size / BUFFER_SIZE && j < TWO_TO_THE_64
    ensures Offset(j) == BUFFER_SIZE * j < TWO_TO_THE_63
  {
  }

  /** Whatever a full sender chooses for an unfinished downloader, the downloader lacks. */
  lemma ChoiceIsMissing(h: Hasher, file: Contents, snd: FileState, recv: FileState, j: Word)
    requires FullSender(h, file, snd) && Downloader(h, file, recv)
    requires !IsFull(|file|, recv.coverage) && MayChoose(snd.coverage, recv.coverage, j)
    ensures j < RealBlocks(|file|) && !Has(recv.coverage, j) && HasParent(recv, j)
  {
    var k: nat :| Has(recv.coverage, k) != (k < RealBlocks(|file|));
    if InFrontier(recv.coverage, j) && Has(snd.coverage, j) {
      FrontierHasParent(recv, j);
    } else if Has(recv.coverage, 0) {
      var m := LowestMissing(recv.coverage, |file|, k);
      assert false;
    }
  }

  /** chooseBlock and ProcessFulfillment agree: the blocks on the frontier of a request are exactly
      those after block 0 that the requester lacks and would accept true. */
  lemma FrontierExactly(h: Hasher, file: Contents, recv: FileState, j: Word)
    requires GoodFile(h, file, recv) && Linked(recv) && !ChainCollides(h, file)
    requires |recv.coverage| < 0x1_0000_0000_0000 && j <= Last(file)
    ensures InFrontier(recv.coverage, j) <==>
      && 1 <= j < 64 * |recv.coverage| && !Has(recv.coverage, j)
      && Accepts(h, recv, TrueBlock(h, file, j))
  {
    if j >= 1 {
      assert TreeParent(j) == (j - 1) / 2;
      if HasParent(recv, j) {
        TrueBlockAccepted(h, file, recv, j);
      }
      if Accepts(h, recv, TrueBlock(h, file, j)) {
        AcceptedHasParent(h, recv, TrueBlock(h, file, j));
      }
    }
  }

  /** Deliver a block and drain the writer, the operating system willing: the steps Fulfill
      and Write of Download.Step, on one file. */
  ghost function Deliver(h: Hasher, recv: FileState, block: Block): FileState {
    if Accepts(h, recv, block)
    then WriteVerified(recv, VerifiedBlock(0, block, h.block(block)), Wrote(|block.data|, true)).0
    else recv
  }

  ghost function OneFilePack(st: FileState, queue: seq<VerifiedBlock>): PackState {
    PackState(Active, [st], queue)
  }

  /** These are steps of a pack. */
  lemma DeliverIsSteps(h: Hasher, recv: FileState, block: Block)
    ensures var vb, io := VerifiedBlock(0, block, h.block(block)), Wrote(|block.data|, true);
      var p, p' := OneFilePack(recv, []), OneFilePack(Deliver(h, recv, block), []);
      if Accepts(h, recv, block)
      then Step(h, p, Fulfill(recv.hash, block), OneFilePack(recv, [vb]))
        && Step(h, OneFilePack(recv, [vb]), Event.Write(io), p')
      else Step(h, p, Fulfill(recv.hash, block), p) && p' == p
  {
    assert FindFile([recv], recv.hash) == Some(0);
    assert forall st: FileState :: [recv][0 := st] == [st];
  }

  lemma WriterKeepsDownloader(h: Hasher, file: Contents, st: FileState, vb: VerifiedBlock, io: Io)
    requires Downloader(h, file, st) && !ChainCollides(h, file)
    requires TrueQueued(h, file, vb) && HasParent(st, vb.block.index) && vb.block.index < RealBlocks(|file|)
    ensures Downloader(h, file, WriteVerified(st, vb, io).0)
  {
    WriteKeepsGood(h, file, st, vb, io);
    WriteKeepsLinked(st, vb, io);
    WriteMarks(st, vb, io);
  }

  lemma WriteMarks(st: FileState, vb: VerifiedBlock, io: Io)
    ensures var st' := WriteVerified(st, vb, io).0;
      |st'.coverage| == |st.coverage|
      && forall k: nat :: Has(st'.coverage, k) ==> Has(st.coverage, k) || k == vb.block.index
  {
  }

  lemma DeliverTrueBlock(h: Hasher, file: Contents, recv: FileState, j: Word)
    requires Downloader(h, file, recv) && !ChainCollides(h, file)
    requires j < RealBlocks(|file|) && !Has(recv.coverage, j) && HasParent(recv, j)
    ensures var recv' := Deliver(h, recv, TrueBlock(h, file, j));
      j / 64 < |recv.coverage| && Downloader(h, file, recv') && recv'.coverage == Mark(recv.coverage, j)
  {
    var block := TrueBlock(h, file, j);
    var vb, io := VerifiedBlock(0, block, h.block(block)), Wrote(|block.data|, true);
    RealBlockFits(|file|, j);
    TrueBlockAccepted(h, file, recv, j);
    assert TrueQueued(h, file, vb);
    WriterKeepsDownloader(h, file, recv, vb, io);
    MarksIt(recv, vb, io);
  }

  /** One turn of the sender and the requester together. */
  lemma OneTurn(h: Hasher, file: Contents, snd: FileState, recv: FileState, j: Word)
    requires FullSender(h, file, snd) && Downloader(h, file, recv) && !ChainCollides(h, file)
    requires !IsFull(|file|, recv.coverage) && MayChoose(snd.coverage, recv.coverage, j)
    ensures j in Missing(|file|, recv.coverage)
    ensures ServedBlock(h, snd, j).Some? && Accepts(h, recv, ServedBlock(h, snd, j).value)
    ensures var recv' := Deliver(h, recv, ServedBlock(h, snd, j).value);
      && j / 64 < |recv.coverage| && Downloader(h, file, recv') && recv'.coverage == Mark(recv.coverage, j)
      && Missing(|file|, recv'.coverage) == Missing(|file|, recv.coverage) - {j}
  {
    ChoiceIsMissing(h, file, snd, recv, j);
    ServesTruth(h, file, snd, j);
    TrueBlockAccepted(h, file, recv, j);
    DeliverTrueBlock(h, file, recv, j);
    MarkShrinksMissing(|file|, recv.coverage, j);
  }

  lemma MarkShrinksMissing(size: nat, c: seq<Word>, j: nat)
    requires j / 64 < |c| && j in Missing(size, c)
    ensures Missing(size, Mark(c, j)) == Missing(size, c) - {j}
  {
  }

  /** The sender's side of RequestSender on one request: it marks what it sends in the request
      and puts the request back, without hearing from the requester. */
  ghost predicate SendsInTurn(h: Hasher, snd: FileState, req: Bitmap, js: seq<Word>)
    decreases |js|
  {
    js == [] ||
    (&& MayChoose(snd.coverage, req, js[0]) && ServedBlock(h, snd, js[0]).Some?
     && js[0] / 64 < |req| && SendsInTurn(h, snd, Mark(req, js[0]), js[1..]))
  }

  /** The requester after the blocks have arrived in that order. */
  ghost function Received(h: Hasher, snd: FileState, recv: FileState, js: seq<Word>): FileState
    decreases |js|
  {
    if js == [] then recv
    else
      var served := ServedBlock(h, snd, js[0]);
      Received(h, snd, if served.Some? then Deliver(h, recv, served.value) else recv, js[1..])
  }

  ghost predicate DistinctIn(js: seq<Word>, s: set<nat>) {
    && (forall k :: 0 <= k < |js| ==> js[k] in s)
    && (forall k, l :: 0 <= k < l < |js| ==> js[k] != js[l])
  }

  ghost function Elements(js: seq<Word>): set<nat> {
    set j | j in js
  }

  lemma ConsDistinct(js: seq<Word>, s: set<nat>)
    requires js != [] && js[0] in s && DistinctIn(js[1..], s - {js[0]})
    ensures DistinctIn(js, s)
    ensures s - {js[0]} - Elements(js[1..]) == s - Elements(js)
    ensures |s - {js[0]}| == |s| - 1
  {
    assert forall k :: 0 < k < |js| ==> js[k] == js[1..][k - 1];
  }

  /** Progress.  A full sender that serves one request, starting from any coverage a
      downloader can have and knowing nothing but its own marks, sends missing blocks only,
      none twice; each is accepted and written; and once as many are sent as were missing
      the file is complete. */
  lemma {:induction false} Progress(h: Hasher, file: Contents, snd: FileState, recv: FileState, js: seq<Word>)
    requires FullSender(h, file, snd) && Downloader(h, file, recv) && !ChainCollides(h, file)
    requires SendsInTurn(h, snd, recv.coverage, js) && |js| <= |Missing(|file|, recv.coverage)|
    ensures DistinctIn(js, Missing(|file|, recv.coverage))
    ensures Downloader(h, file, Received(h, snd, recv, js))
    ensures Missing(|file|, Received(h, snd, recv, js).coverage) == Missing(|file|, recv.coverage) - Elements(js)
    ensures |js| == |Missing(|file|, recv.coverage)| ==>
      IsFull(|file|, Received(h, snd, recv, js).coverage) && Whole(file, Received(h, snd, recv, js).disk)
    decreases |js|
  {
    if js == [] {
      assert Missing(|file|, recv.coverage) - Elements(js) == Missing(|file|, recv.coverage);
      if Missing(|file|, recv.coverage) == {} {
        NoneMissing(|file|, recv.coverage);
        FullIsWhole(h, file, recv);
      }
    } else {
      SomeMissing(|file|, recv.coverage);
      OneTurn(h, file, snd, recv, js[0]);
      var next := Deliver(h, recv, ServedBlock(h, snd, js[0]).value);
      var missing := Missing(|file|, recv.coverage);
      assert |Missing(|file|, next.coverage)| == |missing| - 1;
      Progress(h, file, snd, next, js[1..]);
      assert Received(h, snd, recv, js) == Received(h, snd, next, js[1..]);
      ConsDistinct(js, missing);
    }
  }

  /** Such a run exists from every state: the sender is never stuck before the end. */
  lemma {:induction false} CanFinish(h: Hasher, file: Contents, snd: FileState, recv: FileState) returns (js: seq<Word>)
    requires FullSender(h, file, snd) && Downloader(h, file, recv) && !ChainCollides(h, file)
    ensures SendsInTurn(h, snd, recv.coverage, js) && |js| == |Missing(|file|, recv.coverage)|
    decreases |Missing(|file|, recv.coverage)|
  {
    var missing := Missing(|file|, recv.coverage);
    if missing == {} {
      js := [];
    } else {
      SomeMissing(|file|, recv.coverage);
      var j: Word := 0;
      if c: nat :| InFrontier(recv.coverage, c) && Has(snd.coverage, c) {
        RealBlockFits(|file|, c);
        j := c;
      }
      OneTurn(h, file, snd, recv, j);
      var next := Deliver(h, recv, ServedBlock(h, snd, j).value);
      assert |missing - {j}| == |missing| - 1;
      var rest := CanFinish(h, file, snd, next);
      js := [j] + rest;
      assert js[1..] == rest;
    }
  }

  lemma NoneMissing(size: nat, c: seq<Word>)
    requires Missing(size, c) == {} && OnlyReal(size, c)
    ensures IsFull(size, c)
  {
    forall j: nat | j < RealBlocks(size)
      ensures Has(c, j)
    {
      assert j !in Missing(size, c);
    }
  }

  lemma SomeMissing(size: nat, c: seq<Word>)
    requires |Missing(size, c)| > 0
    ensures !IsFull(size, c)
  {
    var j :| j in Missing(size, c);
  }

  // ------------------------------------------------------------------ the loop as written

  /** On a finished request the loop as written indexes past the coverage as soon as the file
      has 32 blocks; on up to 31 blocks it never does. */
  lemma WrittenFaultsFrom32(size: nat, req: Bitmap)
    requires |req| == WordsFor(size) && OnlyReal(size, req)
    ensures RealBlocks(size) <= 31 ==> !FrontierFaults(req)
    ensures IsFull(size, req) ==> (FrontierFaults(req) <==> RealBlocks(size) >= 32)
  {
    if IsFull(size, req) && RealBlocks(size) >= 32 {
      var k: nat := RealBlocks(size) - 1;
      assert Has(req, k);
      assert FaultsAt(req, k);
    }
  }

  /** From 33 blocks on it already does so while one block is missing, whichever that is. */
  lemma LastBlockFaults(size: nat, req: Bitmap, j: nat)
    requires |req| == WordsFor(size) && forall k: nat :: Has(req, k) <==> k < RealBlocks(size) && k != j
    ensures RealBlocks(size) >= 33 ==> FrontierFaults(req)
  {
    var r := RealBlocks(size);
    if r >= 33 {
      var k: nat := if j == r - 1 then r - 2 else r - 1;
      assert Has(req, k);
      assert FaultsAt(req, k);
    }
  }

  /** The requests that the loop as written can bring to their end. */
  predicate CanEnd(size: nat, req: Bitmap) {
    RealBlocks(size) <= 31 || (RealBlocks(size) == 32 && !Has(req, 31))
  }

  lemma CanEndRuns(size: nat, req: Bitmap)
    requires |req| == WordsFor(size) && OnlyReal(size, req) && CanEnd(size, req)
    ensures !FrontierFaults(req)
  {
  }

  /** SendsInTurn by the loop as written, which has to survive each request on the way. */
  ghost predicate SendsAsWritten(h: Hasher, snd: FileState, req: Bitmap, js: seq<Word>)
    decreases |js|
  {
    js == [] ||
    (&& !FrontierFaults(req) && MayChoose(snd.coverage, req, js[0]) && ServedBlock(h, snd, js[0]).Some?
     && js[0] / 64 < |req| && SendsAsWritten(h, snd, Mark(req, js[0]), js[1..]))
  }

  lemma {:induction false} WrittenIsInTurn(h: Hasher, snd: FileState, req: Bitmap, js: seq<Word>)
    requires SendsAsWritten(h, snd, req, js)
    ensures SendsInTurn(h, snd, req, js)
    decreases |js|
  {
    if js != [] {
      WrittenIsInTurn(h, snd, Mark(req, js[0]), js[1..]);
    }
  }

  /** A run of the loop as written that sends every block the requester lacks. */
  ghost predicate DeliversAsWritten(h: Hasher, size: nat, snd: FileState, req: Bitmap, js: seq<Word>) {
    SendsAsWritten(h, snd, req, js) && |js| == |Missing(size, req)|
  }

  /** Which block to send next so that block 31 comes last: the lowest that is lacking, unless
      only block 31 is. */
  lemma SendNext(h: Hasher, file: Contents, snd: FileState, recv: FileState) returns (j: Word)
    requires FullSender(h, file, snd) && Downloader(h, file, recv)
    requires Missing(|file|, recv.coverage) != {} && CanEnd(|file|, recv.coverage)
    ensures MayChoose(snd.coverage, recv.coverage, j)
    ensures j == 31 && RealBlocks(|file|) == 32 ==> Missing(|file|, recv.coverage) == {31}
  {
    j := 0;
    if !Has(recv.coverage, 0) {
      NothingWithoutRoot(recv);
    } else {
      var missing := Missing(|file|, recv.coverage);
      var k :| k in missing;
      if k == 31 && missing != {31} {
        k :| k in missing && k != 31;
      }
      j := LowestMissing(recv.coverage, |file|, k);
    }
  }

  /** A linked downloader without block 0 has nothing, and nothing is on its frontier. */
  lemma NothingWithoutRoot(st: FileState)
    requires Linked(st) && !Has(st.coverage, 0) && |st.coverage| < 0x1_0000_0000_0000
    ensures forall j: nat :: !InFrontier(st.coverage, j)
  {
    if j: nat :| InFrontier(st.coverage, j) {
      var path := PathToZero(st, if Has(st.coverage, j - 1) then j - 1 else (j - 1) / 2);
      assert false;
    }
  }

  lemma {:induction false} WrittenCanFinish(h: Hasher, file: Contents, snd: FileState, recv: FileState)
    returns (js: seq<Word>)
    requires FullSender(h, file, snd) && Downloader(h, file, recv) && !ChainCollides(h, file)
    requires Missing(|file|, recv.coverage) == {} || CanEnd(|file|, recv.coverage)
    ensures DeliversAsWritten(h, |file|, snd, recv.coverage, js)
    decreases |Missing(|file|, recv.coverage)|
  {
    var missing := Missing(|file|, recv.coverage);
    if missing == {} {
      js := [];
    } else {
      SomeMissing(|file|, recv.coverage);
      CanEndRuns(|file|, recv.coverage);
      var j := SendNext(h, file, snd, recv);
      OneTurn(h, file, snd, recv, j);
      var next := Deliver(h, recv, ServedBlock(h, snd, j).value);
      assert |missing - {j}| == |missing| - 1;
      var rest := WrittenCanFinish(h, file, snd, next);
      js := [j] + rest;
      assert js[1..] == rest;
    }
  }

  /** Conversely, a run that gets to the end starts from such a request: otherwise the loop
      panics at the latest when one block is left. */
  lemma {:induction false} WrittenMustEnd(h: Hasher, file: Contents, snd: FileState, recv: FileState, js: seq<Word>)
    requires FullSender(h, file, snd) && Downloader(h, file, recv) && !ChainCollides(h, file)
    requires Missing(|file|, recv.coverage) != {} && DeliversAsWritten(h, |file|, snd, recv.coverage, js)
    ensures CanEnd(|file|, recv.coverage)
    decreases |js|
  {
    SomeMissing(|file|, recv.coverage);
    var missing := Missing(|file|, recv.coverage);
    OneTurn(h, file, snd, recv, js[0]);
    assert |missing - {js[0]}| == |missing| - 1;
    if |js| == 1 {
      OneLeft(|file|, recv.coverage, js[0]);
    } else {
      WrittenMustEnd(h, file, snd, Deliver(h, recv, ServedBlock(h, snd, js[0]).value), js[1..]);
    }
  }

  lemma OneLeft(size: nat, c: Bitmap, j: nat)
    requires |c| == WordsFor(size) && OnlyReal(size, c) && !FrontierFaults(c)
    requires j in Missing(size, c) && |Missing(size, c)| == 1
    ensures CanEnd(size, c)
  {
    var rest := Missing(size, c) - {j};
    assert |rest| == 0;
    forall k: nat
      ensures Has(c, k) <==> k < RealBlocks(size) && k != j
    {
      assert k !in rest;
    }
    LastBlockFaults(size, c, j);
    assert RealBlocks(size) == 32 ==> !FaultsAt(c, 31);
  }

  /** When the loop as written delivers a file.  For a downloader that lacks something, a run
      that sends all it lacks exists exactly if the file has at most 31 blocks, or 32 of which
      block 31 is still lacking. */
  lemma WrittenDeliversExactly(h: Hasher, file: Contents, snd: FileState, recv: FileState)
    requires FullSender(h, file, snd) && Downloader(h, file, recv) && !ChainCollides(h, file)
    requires Missing(|file|, recv.coverage) != {}
    ensures (exists js :: DeliversAsWritten(h, |file|, snd, recv.coverage, js)) <==> CanEnd(|file|, recv.coverage)
  {
    if CanEnd(|file|, recv.coverage) {
      var js := WrittenCanFinish(h, file, snd, recv);
    }
    if js :| DeliversAsWritten(h, |file|, snd, recv.coverage, js) {
      WrittenMustEnd(h, file, snd, recv, js);
    }
  }

  /** The request as the sender puts it back after these blocks. */
  ghost function Requeued(req: Bitmap, js: seq<Word>): Bitmap
    decreases |js|
  {
    if js == [] || js[0] / 64 >= |req| then req else Requeued(Mark(req, js[0]), js[1..])
  }

  lemma {:induction false} RequeuedIsReceived(h: Hasher, file: Contents, snd: FileState, recv: FileState, js: seq<Word>)
    requires FullSender(h, file, snd) && Downloader(h, file, recv) && !ChainCollides(h, file)
    requires SendsInTurn(h, snd, recv.coverage, js) && |js| <= |Missing(|file|, recv.coverage)|
    ensures Requeued(recv.coverage, js) == Received(h, snd, recv, js).coverage
    decreases |js|
  {
    if js != [] {
      SomeMissing(|file|, recv.coverage);
      OneTurn(h, file, snd, recv, js[0]);
      var missing := Missing(|file|, recv.coverage);
      assert |missing - {js[0]}| == |missing| - 1;
      RequeuedIsReceived(h, file, snd, Deliver(h, recv, ServedBlock(h, snd, js[0]).value), js[1..]);
    }
  }

  /** After such a run the requester has the file, and the finished request, which the sender
      has put back for another round, is survived exactly on files of at most 31 blocks. */
  lemma WrittenRunEnds(h: Hasher, file: Contents, snd: FileState, recv: FileState, js: seq<Word>)
    requires FullSender(h, file, snd) && Downloader(h, file, recv) && !ChainCollides(h, file)
    requires DeliversAsWritten(h, |file|, snd, recv.coverage, js)
    ensures Whole(file, Received(h, snd, recv, js).disk)
    ensures IsFull(|file|, Requeued(recv.coverage, js))
    ensures !FrontierFaults(Requeued(recv.coverage, js)) <==> RealBlocks(|file|) <= 31
  {
    WrittenIsInTurn(h, snd, recv.coverage, js);
    Progress(h, file, snd, recv, js);
    RequeuedIsReceived(h, file, snd, recv, js);
    WrittenFaultsFrom32(|file|, Requeued(recv.coverage, js));
  }

  /** Whatever is drawn, the loop as written does not panic before everything lacking is sent. */
  ghost predicate NeverStopsShort(h: Hasher, size: nat, snd: FileState, req: Bitmap) {
    forall js :: SendsAsWritten(h, snd, req, js) && |js| < |Missing(size, req)| ==> !FrontierFaults(Requeued(req, js))
  }

  /** A run that the bounds-checked loop makes and the loop as written does not breaks off where
      a request makes it panic. */
  lemma {:induction false} BreaksOff(h: Hasher, snd: FileState, req: Bitmap, js: seq<Word>) returns (k: nat)
    requires SendsInTurn(h, snd, req, js) && !SendsAsWritten(h, snd, req, js)
    ensures k < |js| && SendsAsWritten(h, snd, req, js[..k]) && FrontierFaults(Requeued(req, js[..k]))
    decreases |js|
  {
    if FrontierFaults(req) {
      k := 0;
    } else {
      var l := BreaksOff(h, snd, Mark(req, js[0]), js[1..]);
      k := l + 1;
      assert js[..k][1..] == js[1..][..l];
    }
  }

  lemma MoreThan31(size: nat, c: Bitmap)
    requires RealBlocks(size) == 32 && !Has(c, 31) && Missing(size, c) != {31}
    ensures 31 in Missing(size, c) && |Missing(size, c)| > 1
    ensures |c| > 0 && !InFrontier(c, 31) ==> 30 in Missing(size, c) && 15 in Missing(size, c)
  {
    var rest := Missing(size, c) - {31};
    assert |Missing(size, c)| == |rest| + 1;
    assert rest == {} ==> Missing(size, c) == {31};
  }

  lemma SendsOne(h: Hasher, snd: FileState, req: Bitmap, j: Word)
    requires !FrontierFaults(req) && MayChoose(snd.coverage, req, j) && ServedBlock(h, snd, j).Some?
    requires j / 64 < |req|
    ensures SendsAsWritten(h, snd, req, [j]) && Requeued(req, [j]) == Mark(req, j)
  {
    assert [j][1..] == [];
  }

  lemma Faults31(size: nat, c: Bitmap)
    requires RealBlocks(size) == 32 && |c| == WordsFor(size)
    ensures |c| == 1 && FrontierFaults(Mark(c, 31))
  {
    assert FaultsAt(Mark(c, 31), 31);
  }

  /** Block 31 of 32 is sent: the next request makes the loop panic. */
  lemma Sends31(h: Hasher, file: Contents, snd: FileState, recv: FileState)
    requires FullSender(h, file, snd) && Downloader(h, file, recv) && !ChainCollides(h, file)
    requires RealBlocks(|file|) == 32 && InFrontier(recv.coverage, 31)
    ensures SendsAsWritten(h, snd, recv.coverage, [31]) && FrontierFaults(Requeued(recv.coverage, [31]))
  {
    assert 31 in Missing(|file|, recv.coverage);
    SomeMissing(|file|, recv.coverage);
    CanEndRuns(|file|, recv.coverage);
    OneTurn(h, file, snd, recv, 31);
    SendsOne(h, snd, recv.coverage, 31);
    Faults31(|file|, recv.coverage);
  }

  /** While block 31 is not on the frontier, its predecessor and its tree parent are lacking too:
      another block can be sent, and more than block 31 is lacking after that. */
  lemma SendsAnother(h: Hasher, file: Contents, snd: FileState, recv: FileState)
    returns (j: Word, next: FileState)
    requires FullSender(h, file, snd) && Downloader(h, file, recv) && !ChainCollides(h, file)
    requires RealBlocks(|file|) == 32 && !Has(recv.coverage, 31) && Missing(|file|, recv.coverage) != {31}
    requires !InFrontier(recv.coverage, 31)
    ensures !FrontierFaults(recv.coverage) && MayChoose(snd.coverage, recv.coverage, j)
    ensures ServedBlock(h, snd, j).Some? && j / 64 < |recv.coverage|
    ensures Downloader(h, file, next) && next.coverage == Mark(recv.coverage, j) && !Has(next.coverage, 31)
    ensures Missing(|file|, next.coverage) != {31}
    ensures |Missing(|file|, next.coverage)| == |Missing(|file|, recv.coverage)| - 1
  {
    var missing := Missing(|file|, recv.coverage);
    MoreThan31(|file|, recv.coverage);
    SomeMissing(|file|, recv.coverage);
    CanEndRuns(|file|, recv.coverage);
    j := SendNext(h, file, snd, recv);
    OneTurn(h, file, snd, recv, j);
    next := Deliver(h, recv, ServedBlock(h, snd, j).value);
    assert |missing - {j}| == |missing| - 1;
    assert 30 in missing - {j} || 15 in missing - {j};
  }

  /** A draw that sends block 31 of 32 when another is still lacking. */
  lemma {:induction false} SendsTooSoon(h: Hasher, file: Contents, snd: FileState, recv: FileState)
    returns (js: seq<Word>)
    requires FullSender(h, file, snd) && Downloader(h, file, recv) && !ChainCollides(h, file)
    requires RealBlocks(|file|) == 32 && !Has(recv.coverage, 31) && Missing(|file|, recv.coverage) != {31}
    ensures SendsAsWritten(h, snd, recv.coverage, js) && |js| < |Missing(|file|, recv.coverage)|
    ensures FrontierFaults(Requeued(recv.coverage, js))
    decreases |Missing(|file|, recv.coverage)|
  {
    if InFrontier(recv.coverage, 31) {
      MoreThan31(|file|, recv.coverage);
      js := [31];
      Sends31(h, file, snd, recv);
    } else {
      var j, next := SendsAnother(h, file, snd, recv);
      var rest := SendsTooSoon(h, file, snd, next);
      js := [j] + rest;
      assert js[1..] == rest;
    }
  }

  /** When the loop as written is sure to deliver.  For a downloader that lacks something, no draw
      can make it stop short exactly if the file has at most 31 blocks, or 32 of which only
      block 31 is lacking. */
  lemma WrittenDeliversSurely(h: Hasher, file: Contents, snd: FileState, recv: FileState)
    requires FullSender(h, file, snd) && Downloader(h, file, recv) && !ChainCollides(h, file)
    requires Missing(|file|, recv.coverage) != {}
    ensures NeverStopsShort(h, |file|, snd, recv.coverage) <==>
      RealBlocks(|file|) <= 31 || (RealBlocks(|file|) == 32 && Missing(|file|, recv.coverage) == {31})
  {
    if RealBlocks(|file|) <= 31 || (RealBlocks(|file|) == 32 && Missing(|file|, recv.coverage) == {31}) {
      forall js | SendsAsWritten(h, snd, recv.coverage, js) && |js| < |Missing(|file|, recv.coverage)|
        ensures !FrontierFaults(Requeued(recv.coverage, js))
      {
        SurvivesSoFar(h, file, snd, recv, js);
      }
    } else {
      var js := StopsShort(h, file, snd, recv);
    }
  }

  lemma StopsShort(h: Hasher, file: Contents, snd: FileState, recv: FileState) returns (js: seq<Word>)
    requires FullSender(h, file, snd) && Downloader(h, file, recv) && !ChainCollides(h, file)
    requires RealBlocks(|file|) >= 32 && Missing(|file|, recv.coverage) != {}
    requires RealBlocks(|file|) == 32 ==> Missing(|file|, recv.coverage) != {31}
    ensures SendsAsWritten(h, snd, recv.coverage, js) && |js| < |Missing(|file|, recv.coverage)|
    ensures FrontierFaults(Requeued(recv.coverage, js))
  {
    if CanEnd(|file|, recv.coverage) {
      js := SendsTooSoon(h, file, snd, recv);
    } else {
      js := CanFinish(h, file, snd, recv);
      if SendsAsWritten(h, snd, recv.coverage, js) {
        WrittenMustEnd(h, file, snd, recv, js);
      }
      var k := BreaksOff(h, snd, recv.coverage, js);
      js := js[..k];
    }
  }

  lemma SurvivesSoFar(h: Hasher, file: Contents, snd: FileState, recv: FileState, js: seq<Word>)
    requires FullSender(h, file, snd) && Downloader(h, file, recv) && !ChainCollides(h, file)
    requires RealBlocks(|file|) <= 31 || (RealBlocks(|file|) == 32 && Missing(|file|, recv.coverage) == {31})
    requires SendsAsWritten(h, snd, recv.coverage, js) && |js| < |Missing(|file|, recv.coverage)|
    ensures !FrontierFaults(Requeued(recv.coverage, js))
  {
    WrittenIsInTurn(h, snd, recv.coverage, js);
    Progress(h, file, snd, recv, js);
    RequeuedIsReceived(h, file, snd, recv, js);
    if RealBlocks(|file|) == 32 {
      assert js == [] && 31 in Missing(|file|, recv.coverage);
    }
    CanEndRuns(|file|, Requeued(recv.coverage, js));
  }

  /** The smallest such file: 32 blocks, a request for nothing more, block 31 covered. */
  lemma WrittenFaultExample(req: Bitmap)
    requires |req| == 1 && req[0] == 0x8000_0000
    ensures FrontierFaults(req) && FaultsAt(req, 31)
  {
    assert req[0] == Pow2(31) by {
      assert Pow2(8) == 0x100;
      Pow2Sum(8, 8);
      Pow2Sum(16, 8);
      assert Pow2(7) == 0x80;
      Pow2Sum(24, 7);
    }
    ShiftedOneBits(31, 31);
    assert FaultsAt(req, 31);
  }
}
