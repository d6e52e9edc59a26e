/** Verified block download of white-box/party.go on values: what one step makes of a
    pack, what every run keeps, and what completion means.  The classes in module Packs are
    proved to take these steps. */
module Download {
  import opened Words
  import opened Blocks
  import opened Coverage
  import opened Chain

  // ------------------------------------------------------------------ state

  /** PackFileInfo, with the bytes of the file at its path. */
  datatype FileState = FileState(
    hash: string,
    firstBlockHash: string,
    size: nat,
    blockMap: map<string, BlockInfo>,
    blockLookup: map<Word, string>,
    coverage: seq<Word>,
    disk: seq<Byte>)

  datatype Status = Available | Active | Complete

  /** An entry of VerifiedBlockChan; `file` is the position of its file in the pack. */
  datatype VerifiedBlock = VerifiedBlock(file: nat, block: Block, hash: string)

  datatype PackState = PackState(status: Status, files: seq<FileState>, queue: seq<VerifiedBlock>)

  // ------------------------------------------------------------------ verifying a fulfillment

  datatype Check = Disagree | Unverifiable | Expect(hash: string)

  /** checkBlockHash after the look at the previous block (party.go:1049-1058). */
  function NextLink(st: FileState, index: Word): string
    requires index >= 1
  {
    if index - 1 in st.blockLookup && st.blockLookup[index - 1] in st.blockMap
    then st.blockMap[st.blockLookup[index - 1]].nextBlockHash else ""
  }

  /** The link to `index` in its tree parent, if that is known (party.go:1060-1070). */
  function TreeLink(st: FileState, index: Word): Option<string>
    requires index >= 1
  {
    var t := TreeParent(index);
    if t in st.blockLookup && st.blockLookup[t] in st.blockMap then
      var info := st.blockMap[st.blockLookup[t]];
      Some(if index % 2 == 1 then info.leftBlockHash else info.rightBlockHash)
    else None
  }

  /** The hash that the known parents demand of the block at an index above 0. */
  function CheckHash(st: FileState, index: Word): Check
    requires index >= 1
  {
    var next, child := NextLink(st, index), TreeLink(st, index);
    if child.Some? && next != "" && next != child.value then Disagree
    else
      var demanded := child.GetOr(next);
      if demanded == "" then Unverifiable else Expect(demanded)
  }

  predicate Accepts(h: Hasher, st: FileState, block: Block) {
    && h.data(block.data) == block.dataHash
    && if block.index == 0 then h.block(block) == st.firstBlockHash
       else CheckHash(st, block.index) == Expect(h.block(block))
  }

  /** Block i is known, and links to the block at `index` by this hash. */
  ghost predicate LinksBy(st: FileState, i: Word, index: Word, hash: string) {
    Knows(st, i) && hash == LinkTo(st.blockMap[st.blockLookup[i]], i, index)
  }

  /** The link of a block's info to the next block or to a child. */
  function LinkTo(info: BlockInfo, i: Word, index: Word): string {
    if index == 2 * i + 1 then info.leftBlockHash
    else if index == 2 * i + 2 then info.rightBlockHash
    else info.nextBlockHash
  }

  /** Which blocks are accepted in any state, true or not: the data has its hash, and the block
      is the first by its hash, or some known parent links to it by its hash and no known
      parent by another.  An empty next link does not object; an empty child link does. */
  lemma AcceptsExactly(h: Hasher, st: FileState, block: Block)
    ensures Accepts(h, st, block) <==>
      && h.data(block.data) == block.dataHash
      && var i, hash := block.index, h.block(block);
         if i == 0 then hash == st.firstBlockHash
         else
           var prev, tree := i - 1, (i - 1) / 2;
           && (Knows(st, tree) ==> LinksBy(st, tree, i, hash))
           && (Knows(st, prev) ==>
                 var next := st.blockMap[st.blockLookup[prev]].nextBlockHash;
                 next == hash || (next == "" && Knows(st, tree)))
           && (Knows(st, prev) || Knows(st, tree))
  {
    if block.index > 0 {
      assert TreeParent(block.index) == (block.index - 1) / 2;
    }
  }

  ghost predicate Knows(st: FileState, i: Word) {
    i in st.blockLookup && st.blockLookup[i] in st.blockMap
  }

  /** GetFileInfo: the first file with that hash. */
  function FindFile(files: seq<FileState>, fileHash: string): (r: Option<nat>)
    ensures r.Some? ==> r.value < |files| && files[r.value].hash == fileHash
    ensures r.Some? ==> forall k :: 0 <= k < r.value ==> files[k].hash != fileHash
    ensures r.None? ==> forall k :: 0 <= k < |files| ==> files[k].hash != fileHash
  {
    if files == [] then None
    else if files[0].hash == fileHash then Some(0)
    else match FindFile(files[1..], fileHash)
      case None => None
      case Some(k) => Some(k + 1)
  }

  // ------------------------------------------------------------------ writing a verified block

  /** What the operating system does for one round of VerifiedBlockWriter: the file cannot
      be opened, or `count` bytes of the block are written and the file is or is not closed. */
  datatype Io = NoOpen | Wrote(count: nat, closed: bool)

  datatype Outcome = Panicked | Skipped | IoFailed | Written

  /** `BUFFER_SIZE * Index` in uint64 arithmetic. */
  function Offset(index: Word): Word { BUFFER_SIZE * index % TWO_TO_THE_64 }

  /** How many of n bytes get written. */
  function Count(n: nat, io: Io): nat
    requires io.Wrote?
  {
    if io.count < n then io.count else n
  }

  ghost function DiskAfter(disk: seq<Byte>, block: Block, io: Io): seq<Byte>
    requires io.Wrote?
  {
    Overwrite(disk, Offset(block.index), block.data[..Count(|block.data|, io)])
  }

  ghost function WriteVerified(st: FileState, vb: VerifiedBlock, io: Io): (r: (FileState, Outcome)) {
    var index := vb.block.index;
    if index / 64 >= |st.coverage| then (st, Panicked)
    else if Has(st.coverage, index) then (st, Skipped)
    else if io.NoOpen? || Offset(index) >= TWO_TO_THE_63 then (st, IoFailed)
    else
      var st' := st.(disk := DiskAfter(st.disk, vb.block, io));
      if Count(|vb.block.data|, io) < |vb.block.data| || !io.closed then (st', IoFailed)
      else (st'.(coverage := Mark(st.coverage, index),
                 blockMap := st.blockMap[vb.hash := vb.block.ToBlockInfo()],
                 blockLookup := st.blockLookup[index := vb.hash]), Written)
  }

  /** All bytes are written and the file is closed. */
  predicate Willing(io: Io, vb: VerifiedBlock) {
    io.Wrote? && io.count >= |vb.block.data| && io.closed
  }

  /** The bitmap has room for the block and does not have it, and its offset is an int64. */
  ghost predicate ToBeWritten(st: FileState, vb: VerifiedBlock) {
    var i := vb.block.index;
    i / 64 < |st.coverage| && !Has(st.coverage, i) && BUFFER_SIZE * i % TWO_TO_THE_64 < TWO_TO_THE_63
  }

  /** What a round of the writer leaves: the block is covered, looked up and described if all its
      bytes were written and the file was closed, and the maps stay as they were if not. */
  lemma WriteExactly(st: FileState, vb: VerifiedBlock, io: Io)
    ensures var st' := WriteVerified(st, vb, io).0;
      var i, written := vb.block.index, ToBeWritten(st, vb) && Willing(io, vb);
      && |st'.coverage| == |st.coverage|
      && (forall j: nat :: Has(st'.coverage, j) <==> Has(st.coverage, j) || (j == i && written))
      && st'.blockMap == (if written then st.blockMap[vb.hash := vb.block.ToBlockInfo()] else st.blockMap)
      && st'.blockLookup == (if written then st.blockLookup[i := vb.hash] else st.blockLookup)
      && (st'.hash, st'.firstBlockHash, st'.size) == (st.hash, st.firstBlockHash, st.size)
  {
  }

  /** And on disk: as many bytes of the block as were written, where it belongs, also when the
      round fails afterwards; nothing else changes. */
  lemma WriteOnDisk(st: FileState, vb: VerifiedBlock, io: Io)
    ensures var disk, disk', at := st.disk, WriteVerified(st, vb, io).0.disk, BUFFER_SIZE * vb.block.index;
      if !ToBeWritten(st, vb) || io.NoOpen? then disk' == disk
      else
        var at, count := at % TWO_TO_THE_64, if io.count < |vb.block.data| then io.count else |vb.block.data|;
        && (forall p :: at <= p < at + count ==> p < |disk'| && disk'[p] == vb.block.data[p - at])
        && (forall p :: 0 <= p < |disk| && !(at <= p < at + count) ==> p < |disk'| && disk'[p] == disk[p])
  {
  }

  // ------------------------------------------------------------------ steps of a pack

  datatype Event =
    | Start
    | Fulfill(fileHash: string, block: Block)
    | Write(io: Io)
    | Tick

  function Zeros(n: nat): seq<Byte> { seq(n, _ => 0) }

  ghost predicate IsStarted(st: FileState, st': FileState) {
    && |st'.coverage| == WordsFor(st.size) && IsEmpty(st'.coverage)
    && st' == st.(disk := Overwrite(st.disk, 0, Zeros(st.size)), coverage := st'.coverage)
  }

  /** The bytes on disk after a start: Size zeros, and after them what was there. */
  lemma StartedBytes(st: FileState, st': FileState)
    requires IsStarted(st, st')
    ensures |st'.disk| == if |st.disk| < st.size then st.size else |st.disk|
    ensures forall p :: 0 <= p < |st'.disk| ==> st'.disk[p] == if p < st.size then 0 else st.disk[p]
  {
    assert Zeros(st.size) == [] <==> st.size == 0;
  }

  /** Every file has the coverage that fullCoverage builds. */
  ghost predicate AllFull(files: seq<FileState>) {
    forall f :: 0 <= f < |files| ==>
      |files[f].coverage| == WordsFor(files[f].size) && IsFull(files[f].size, files[f].coverage)
  }

  ghost predicate Step(h: Hasher, p: PackState, ev: Event, p': PackState) {
    match ev
    case Start =>
      && p'.status == Active && p'.queue == p.queue && |p'.files| == |p.files|
      && forall f :: 0 <= f < |p.files| ==> IsStarted(p.files[f], p'.files[f])
    case Fulfill(fileHash, block) =>
      var f := FindFile(p.files, fileHash);
      p' == if p.status == Active && f.Some? && Accepts(h, p.files[f.value], block)
            then p.(queue := p.queue + [VerifiedBlock(f.value, block, h.block(block))])
            else p
    case Write(io) =>
      p' == if p.queue == [] || p.queue[0].file >= |p.files| then p
            else
              var vb := p.queue[0];
              p.(queue := p.queue[1..],
                 files := p.files[vb.file := WriteVerified(p.files[vb.file], vb, io).0])
    case Tick =>
      p' == if p.status == Active && AllFull(p.files) then p.(status := Complete) else p
  }

  /** A run: states joined by steps. */
  ghost predicate IsRun(h: Hasher, ps: seq<PackState>, evs: seq<Event>) {
    && |ps| == |evs| + 1
    && forall k: nat :: k < |evs| ==> StepAt(h, ps, evs, k)
  }

  ghost predicate StepAt(h: Hasher, ps: seq<PackState>, evs: seq<Event>, k: nat) {
    k < |evs| == |ps| - 1 && Step(h, ps[k], evs[k], ps[k + 1])
  }

  // ------------------------------------------------------------------ integrity

  type Sources = seq<Contents>

  /** A file after its start, before anything has been taken. */
  ghost predicate JustStarted(h: Hasher, file: Contents, st: FileState) {
    && st.size == |file| && st.firstBlockHash == Link(h, file, 0)
    && st.blockMap == map[] && st.blockLookup == map[]
    && |st.coverage| == WordsFor(|file|) && IsEmpty(st.coverage)
  }

  /** What the downloader knows of a file is true of it: its block map is part of the one
      calculateChain built, its lookup part of the true one. */
  ghost predicate KnowsTruth(h: Hasher, file: Contents, st: FileState) {
    && st.size == |file| && st.firstBlockHash == Link(h, file, 0)
    && (forall i: Word :: i in st.blockLookup ==> i <= Last(file) && st.blockLookup[i] == Link(h, file, i))
    && (forall s :: s in st.blockMap ==>
          s in InfosFrom(h, file, 0) && st.blockMap[s] == InfosFrom(h, file, 0)[s])
  }

  /** The byte at p, if the file has one, is in place on disk. */
  ghost predicate SameByte(file: Contents, disk: seq<Byte>, p: nat) {
    p < |file| ==> p < |disk| && disk[p] == file[p]
  }

  /** The bytes of block j are in place on disk. */
  ghost predicate Stored(file: Contents, disk: seq<Byte>, j: nat) {
    forall p: nat :: j * BUFFER_SIZE <= p < (j + 1) * BUFFER_SIZE ==> SameByte(file, disk, p)
  }

  /** A covered block is stored, and looked up and described as by calculateChain. */
  ghost predicate GoodBlock(h: Hasher, file: Contents, st: FileState, j: nat) {
    && j <= Last(file) && Stored(file, st.disk, j)
    && j in st.blockLookup && st.blockLookup[j] == Link(h, file, j)
    && Link(h, file, j) in st.blockMap && st.blockMap[Link(h, file, j)] == TrueInfo(h, file, j)
  }

  ghost predicate GoodFile(h: Hasher, file: Contents, st: FileState) {
    KnowsTruth(h, file, st) && forall j: nat :: Has(st.coverage, j) ==> GoodBlock(h, file, st, j)
  }

  ghost predicate TrueQueued(h: Hasher, file: Contents, vb: VerifiedBlock) {
    && vb.block.index <= Last(file) && vb.block == TrueBlock(h, file, vb.block.index)
    && vb.hash == Link(h, file, vb.block.index)
  }

  ghost predicate Whole(file: Contents, disk: seq<Byte>) {
    |file| <= |disk| && disk[..|file|] == file
  }

  ghost predicate GoodPack(h: Hasher, sources: Sources, p: PackState) {
    && |p.files| == |sources|
    && (forall f :: 0 <= f < |sources| ==> GoodFile(h, sources[f], p.files[f]))
    && (forall q :: 0 <= q < |p.queue| ==>
          p.queue[q].file < |sources| && TrueQueued(h, sources[p.queue[q].file], p.queue[q]))
    && (p.status == Complete ==> forall f :: 0 <= f < |sources| ==> Whole(sources[f], p.files[f].disk))
  }

  /** An advertised pack of the given sources (party.go:419-439): nothing downloaded, the
      disk as it happens to be. */
  ghost predicate Advertised(h: Hasher, sources: Sources, p: PackState) {
    && p.status == Available && p.queue == [] && |p.files| == |sources|
    && forall f :: 0 <= f < |sources| ==>
         var st := p.files[f];
         st.size == |sources[f]| && st.firstBlockHash == Link(h, sources[f], 0)
         && st.blockMap == map[] && st.blockLookup == map[] && st.coverage == []
  }

  /** Two different blocks with the same hash are at hand: both in a source, or one in a
      source and the other delivered during the run. */
  ghost predicate CollisionAtHand(h: Hasher, sources: Sources, evs: seq<Event>) {
    exists f: nat :: f < |sources| && FileCollisionAtHand(h, sources[f], evs)
  }

  ghost predicate FileCollisionAtHand(h: Hasher, file: Contents, evs: seq<Event>) {
    || ChainCollides(h, file)
    || exists k :: 0 <= k < |evs| && evs[k].Fulfill? && Collides(h, file, evs[k].block)
  }

  /** What a true state has stored for block i is the block calculateChain built. */
  lemma KnownInfo(h: Hasher, file: Contents, st: FileState, i: Word)
    requires KnowsTruth(h, file, st) && !ChainCollides(h, file)
    requires i in st.blockLookup && st.blockLookup[i] in st.blockMap
    ensures i <= Last(file) && st.blockMap[st.blockLookup[i]] == TrueInfo(h, file, i)
  {
    InfosFromAt(h, file, 0, i);
  }

  /** The parents that a true state knows demand the true hash of any index, and agree. */
  lemma TrueCheck(h: Hasher, file: Contents, st: FileState, index: Word)
    requires KnowsTruth(h, file, st) && !ChainCollides(h, file) && index >= 1
    ensures CheckHash(st, index) == Unverifiable
      || (index <= Last(file) && CheckHash(st, index) == Expect(Link(h, file, index)))
  {
    TrueNextLink(h, file, st, index);
    TrueTreeLink(h, file, st, index);
  }

  lemma TrueNextLink(h: Hasher, file: Contents, st: FileState, index: Word)
    requires KnowsTruth(h, file, st) && !ChainCollides(h, file) && index >= 1
    ensures NextLink(st, index) == if Knows(st, index - 1) then Link(h, file, index) else ""
  {
    if Knows(st, index - 1) {
      KnownInfo(h, file, st, index - 1);
    }
  }

  lemma TrueTreeLink(h: Hasher, file: Contents, st: FileState, index: Word)
    requires KnowsTruth(h, file, st) && !ChainCollides(h, file) && index >= 1
    ensures TreeLink(st, index) == if Knows(st, TreeParent(index)) then Some(Link(h, file, index)) else None
  {
    if Knows(st, TreeParent(index)) {
      KnownInfo(h, file, st, TreeParent(index));
    }
  }

  /** So the demand is the true hash as soon as either parent is known. */
  lemma TrueDemand(h: Hasher, file: Contents, st: FileState, index: Word)
    requires KnowsTruth(h, file, st) && !ChainCollides(h, file) && 1 <= index <= Last(file)
    requires Knows(st, index - 1) || Knows(st, TreeParent(index))
    ensures CheckHash(st, index) == Expect(Link(h, file, index))
  {
    TrueNextLink(h, file, st, index);
    TrueTreeLink(h, file, st, index);
    assert Link(h, file, index) != "";
  }

  /** An accepted block is the true block at its index. */
  lemma AcceptedIsTrue(h: Hasher, file: Contents, st: FileState, block: Block)
    requires KnowsTruth(h, file, st) && !ChainCollides(h, file) && !Collides(h, file, block)
    requires Accepts(h, st, block)
    ensures block.index <= Last(file) && block == TrueBlock(h, file, block.index)
    ensures h.block(block) == Link(h, file, block.index)
  {
    if block.index > 0 {
      TrueCheck(h, file, st, block.index);
    }
    if block != TrueBlock(h, file, block.index) {
      assert CollidesWith(h, file, block, block.index);
    }
  }

  /** Writing any part of a true block where it belongs leaves the other blocks in place. */
  lemma OverwriteKeeps(file: Contents, disk: seq<Byte>, i: nat, count: nat, j: nat)
    requires i <= Last(file) && count <= |Chunk(file, i)|
    requires Stored(file, disk, j)
    ensures Stored(file, Overwrite(disk, i * BUFFER_SIZE, Chunk(file, i)[..count]), j)
  {
    var at, data := i * BUFFER_SIZE, Chunk(file, i)[..count];
    forall p: nat | j * BUFFER_SIZE <= p < (j + 1) * BUFFER_SIZE
      ensures SameByte(file, Overwrite(disk, at, data), p)
    {
      assert SameByte(file, disk, p);
      if at <= p < at + count {
        assert Chunk(file, i)[p - at] == file[p];
      }
    }
  }

  lemma OverwriteStores(file: Contents, disk: seq<Byte>, i: nat)
    requires i <= Last(file)
    ensures Stored(file, Overwrite(disk, i * BUFFER_SIZE, Chunk(file, i)), i)
  {
    var at, data := i * BUFFER_SIZE, Chunk(file, i);
    forall p: nat | i * BUFFER_SIZE <= p < (i + 1) * BUFFER_SIZE
      ensures SameByte(file, Overwrite(disk, at, data), p)
    {
      if p < |file| {
        assert data[p - at] == file[p];
      }
    }
  }

  /** A file of which every real block is stored is whole. */
  lemma AllStoredIsWhole(file: Contents, disk: seq<Byte>)
    requires forall j: nat :: j < RealBlocks(|file|) ==> Stored(file, disk, j)
    ensures Whole(file, disk)
  {
    forall p: nat | p < |file|
      ensures SameByte(file, disk, p)
    {
      assert Stored(file, disk, p / BUFFER_SIZE);
    }
    if |file| > 0 {
      assert SameByte(file, disk, |file| - 1);
    }
    forall p | 0 <= p < |file|
      ensures disk[p] == file[p]
    {
      assert SameByte(file, disk, p);
    }
  }

  /** Whatever the operating system does, a write leaves every stored block stored; a full
      write stores its own block. */
  lemma DiskAfterStores(h: Hasher, file: Contents, disk: seq<Byte>, vb: VerifiedBlock, io: Io)
    requires TrueQueued(h, file, vb) && io.Wrote?
    ensures forall j: nat :: Stored(file, disk, j) ==> Stored(file, DiskAfter(disk, vb.block, io), j)
    ensures Count(|vb.block.data|, io) == |vb.block.data| ==>
      Stored(file, DiskAfter(disk, vb.block, io), vb.block.index)
  {
    var index, data := vb.block.index, vb.block.data;
    assert Offset(index) == index * BUFFER_SIZE;
    forall j: nat | Stored(file, disk, j)
      ensures Stored(file, DiskAfter(disk, vb.block, io), j)
    {
      OverwriteKeeps(file, disk, index, Count(|data|, io), j);
    }
    assert data[..|data|] == data;
    OverwriteStores(file, disk, index);
  }

  lemma WriteKeepsTruth(h: Hasher, file: Contents, st: FileState, vb: VerifiedBlock, io: Io)
    requires KnowsTruth(h, file, st) && TrueQueued(h, file, vb) && !ChainCollides(h, file)
    ensures KnowsTruth(h, file, WriteVerified(st, vb, io).0)
  {
    InfosFromAt(h, file, 0, vb.block.index);
  }

  /** A covered block stays good, whatever part of a true block is written. */
  lemma WriteKeepsBlock(h: Hasher, file: Contents, st: FileState, vb: VerifiedBlock, io: Io, j: nat)
    requires GoodBlock(h, file, st, j) && TrueQueued(h, file, vb) && !ChainCollides(h, file)
    ensures GoodBlock(h, file, WriteVerified(st, vb, io).0, j)
  {
    if io.Wrote? {
      DiskAfterStores(h, file, st.disk, vb, io);
    }
    if Link(h, file, j) == vb.hash {
      DistinctLinks(h, file, j, vb.block.index);
    }
  }

  /** And a block that gets covered is good. */
  lemma WriteMakesGood(h: Hasher, file: Contents, st: FileState, vb: VerifiedBlock, io: Io)
    requires TrueQueued(h, file, vb) && WriteVerified(st, vb, io).1 == Written
    ensures GoodBlock(h, file, WriteVerified(st, vb, io).0, vb.block.index)
  {
    DiskAfterStores(h, file, st.disk, vb, io);
  }

  /** One round of the writer keeps a file good. */
  lemma WriteKeepsGood(h: Hasher, file: Contents, st: FileState, vb: VerifiedBlock, io: Io)
    requires GoodFile(h, file, st) && TrueQueued(h, file, vb) && !ChainCollides(h, file)
    ensures GoodFile(h, file, WriteVerified(st, vb, io).0)
  {
    var (st', outcome) := WriteVerified(st, vb, io);
    WriteKeepsTruth(h, file, st, vb, io);
    forall j: nat | Has(st'.coverage, j)
      ensures GoodBlock(h, file, st', j)
    {
      if Has(st.coverage, j) {
        WriteKeepsBlock(h, file, st, vb, io, j);
      } else {
        WriteMakesGood(h, file, st, vb, io);
      }
    }
  }

  lemma WholeStores(file: Contents, disk: seq<Byte>, j: nat)
    requires Whole(file, disk)
    ensures Stored(file, disk, j)
  {
    forall p: nat | j * BUFFER_SIZE <= p < (j + 1) * BUFFER_SIZE
      ensures SameByte(file, disk, p)
    {
      assert p < |file| ==> disk[p] == disk[..|file|][p];
    }
  }

  lemma WriteKeepsWhole(h: Hasher, file: Contents, st: FileState, vb: VerifiedBlock, io: Io)
    requires TrueQueued(h, file, vb) && Whole(file, st.disk)
    ensures Whole(file, WriteVerified(st, vb, io).0.disk)
  {
    forall j: nat
      ensures Stored(file, st.disk, j)
    {
      WholeStores(file, st.disk, j);
    }
    if io.Wrote? {
      DiskAfterStores(h, file, st.disk, vb, io);
      AllStoredIsWhole(file, DiskAfter(st.disk, vb.block, io));
    }
  }

  // ------------------------------------------------------------------ every run

  lemma StartKeepsGood(h: Hasher, file: Contents, st: FileState, st': FileState)
    requires KnowsTruth(h, file, st) && IsStarted(st, st')
    ensures GoodFile(h, file, st')
  {
  }

  /** Full coverage means equality. */
  lemma FullIsWhole(h: Hasher, file: Contents, st: FileState)
    requires GoodFile(h, file, st) && IsFull(st.size, st.coverage)
    ensures Whole(file, st.disk)
  {
    forall j: nat | j < RealBlocks(|file|)
      ensures Stored(file, st.disk, j)
    {
      assert Has(st.coverage, j);
      assert GoodBlock(h, file, st, j);
    }
    AllStoredIsWhole(file, st.disk);
  }

  lemma StepKeepsGood(h: Hasher, sources: Sources, p: PackState, ev: Event, p': PackState)
    requires GoodPack(h, sources, p) && Step(h, p, ev, p')
    requires forall f :: 0 <= f < |sources| ==> !ChainCollides(h, sources[f])
    requires ev.Fulfill? ==> forall f :: 0 <= f < |sources| ==> !Collides(h, sources[f], ev.block)
    ensures GoodPack(h, sources, p')
  {
    match ev
    case Start =>
      forall f | 0 <= f < |sources|
        ensures GoodFile(h, sources[f], p'.files[f])
      {
        StartKeepsGood(h, sources[f], p.files[f], p'.files[f]);
      }
    case Fulfill(fileHash, block) =>
      var f := FindFile(p.files, fileHash);
      if p.status == Active && f.Some? && Accepts(h, p.files[f.value], block) {
        AcceptedIsTrue(h, sources[f.value], p.files[f.value], block);
      }
    case Write(io) =>
      if p.queue != [] {
        var vb := p.queue[0];
        WriteKeepsGood(h, sources[vb.file], p.files[vb.file], vb, io);
        if p.status == Complete {
          WriteKeepsWhole(h, sources[vb.file], p.files[vb.file], vb, io);
        }
      }
    case Tick =>
      if p.status == Active && AllFull(p.files) {
        forall f | 0 <= f < |sources|
          ensures Whole(sources[f], p.files[f].disk)
        {
          FullIsWhole(h, sources[f], p.files[f]);
        }
      }
  }

  lemma {:induction false} RunKeepsGood(h: Hasher, sources: Sources, ps: seq<PackState>, evs: seq<Event>, k: nat)
    requires IsRun(h, ps, evs) && GoodPack(h, sources, ps[0]) && k <= |evs|
    requires !CollisionAtHand(h, sources, evs)
    ensures GoodPack(h, sources, ps[k])
  {
    if k > 0 {
      assert StepAt(h, ps, evs, k - 1);
      RunKeepsGood(h, sources, ps, evs, k - 1);
      forall f: nat | f < |sources|
        ensures !ChainCollides(h, sources[f])
        ensures evs[k - 1].Fulfill? ==> !Collides(h, sources[f], evs[k - 1].block)
      {
        assert !FileCollisionAtHand(h, sources[f], evs);
      }
      StepKeepsGood(h, sources, ps[k - 1], evs[k - 1], ps[k]);
    }
  }

  /** Download integrity.  Start from an advertised pack and let starts, arbitrary
      fulfillments, rounds of the writer with arbitrary failures of the operating system, and
      checks for completion follow in any order.  In every state reached, every covered block
      of every file is on disk, looked up and described as in the publisher's copy, and a
      complete pack has every file whole -- or two different blocks with one hash are at
      hand, in the sources or among the blocks delivered. */
  lemma DownloadIntegrity(h: Hasher, sources: Sources, ps: seq<PackState>, evs: seq<Event>, k: nat)
    requires IsRun(h, ps, evs) && Advertised(h, sources, ps[0]) && k <= |evs|
    ensures CollisionAtHand(h, sources, evs) ||
      (|ps[k].files| == |sources| && forall f :: 0 <= f < |sources| ==>
        && (forall j: nat :: Has(ps[k].files[f].coverage, j) ==> GoodBlock(h, sources[f], ps[k].files[f], j))
        && (ps[k].status == Complete ==> Whole(sources[f], ps[k].files[f].disk)))
  {
    if !CollisionAtHand(h, sources, evs) {
      RunKeepsGood(h, sources, ps, evs, k);
    }
  }

  lemma WriteKeepsShort(h: Hasher, file: Contents, st: FileState, vb: VerifiedBlock, io: Io)
    requires TrueQueued(h, file, vb) && |st.disk| <= |file|
    ensures |WriteVerified(st, vb, io).0.disk| <= |file|
  {
    assert Offset(vb.block.index) + |vb.block.data| <= |file|;
  }

  lemma StepKeepsShort(h: Hasher, sources: Sources, p: PackState, ev: Event, p': PackState, f: nat)
    requires GoodPack(h, sources, p) && Step(h, p, ev, p') && f < |sources|
    requires |p.files[f].disk| <= |sources[f]|
    ensures |p'.files[f].disk| <= |sources[f]|
  {
    if ev.Start? {
      assert IsStarted(p.files[f], p'.files[f]);
    } else if ev.Write? && p.queue != [] && p.queue[0].file == f {
      WriteKeepsShort(h, sources[f], p.files[f], p.queue[0], ev.io);
    }
  }

  lemma {:induction false} RunKeepsShort(h: Hasher, sources: Sources, ps: seq<PackState>, evs: seq<Event>,
                                         k: nat, f: nat)
    requires IsRun(h, ps, evs) && GoodPack(h, sources, ps[0]) && k <= |evs| && f < |sources|
    requires |ps[0].files[f].disk| <= |sources[f]| && !CollisionAtHand(h, sources, evs)
    ensures |ps[k].files| == |sources| && |ps[k].files[f].disk| <= |sources[f]|
  {
    RunKeepsGood(h, sources, ps, evs, k);
    if k > 0 {
      assert StepAt(h, ps, evs, k - 1);
      RunKeepsShort(h, sources, ps, evs, k - 1, f);
      RunKeepsGood(h, sources, ps, evs, k - 1);
      StepKeepsShort(h, sources, ps[k - 1], evs[k - 1], ps[k], f);
    }
  }

  lemma StepGrows(h: Hasher, p: PackState, ev: Event, p': PackState, f: nat)
    requires Step(h, p, ev, p') && f < |p.files|
    ensures |p'.files| == |p.files| && p'.files[f].size == p.files[f].size
    ensures |p.files[f].disk| <= |p'.files[f].disk|
    ensures !ev.Start? ==> forall j: nat :: Has(p.files[f].coverage, j) ==> Has(p'.files[f].coverage, j)
  {
    if ev.Start? {
      assert IsStarted(p.files[f], p'.files[f]);
    }
  }

  /** No step shortens a file. */
  lemma {:induction false} RunGrows(h: Hasher, ps: seq<PackState>, evs: seq<Event>, k: nat, f: nat)
    requires IsRun(h, ps, evs) && k <= |evs| && f < |ps[0].files|
    ensures |ps[k].files| == |ps[0].files| && |ps[0].files[f].disk| <= |ps[k].files[f].disk|
  {
    if k > 0 {
      assert StepAt(h, ps, evs, k - 1);
      RunGrows(h, ps, evs, k - 1, f);
      StepGrows(h, ps[k - 1], evs[k - 1], ps[k], f);
    }
  }

  /** A complete file is the source and nothing else exactly if its path held no more than Size
      bytes at the start: writeZeroFile does not truncate, so a longer file keeps its tail, and
      then Whole speaks of the first Size bytes. */
  lemma CompleteIsEqual(h: Hasher, sources: Sources, ps: seq<PackState>, evs: seq<Event>, k: nat, f: nat)
    requires IsRun(h, ps, evs) && Advertised(h, sources, ps[0]) && k <= |evs| && f < |sources|
    requires ps[k].status == Complete && !CollisionAtHand(h, sources, evs)
    ensures |ps[k].files| == |sources|
    ensures ps[k].files[f].disk == sources[f] <==> |ps[0].files[f].disk| <= |sources[f]|
  {
    RunKeepsGood(h, sources, ps, evs, k);
    RunGrows(h, ps, evs, k, f);
    if |ps[0].files[f].disk| <= |sources[f]| {
      RunKeepsShort(h, sources, ps, evs, k, f);
    }
  }

  /** Once started, the coverage of every file has the length that isFullCoverage compares it
      with, so that its panic is out of reach. */
  ghost predicate Sized(p: PackState) {
    p.status != Available ==>
      forall f :: 0 <= f < |p.files| ==> |p.files[f].coverage| == WordsFor(p.files[f].size)
  }

  lemma {:induction false} RunKeepsSized(h: Hasher, ps: seq<PackState>, evs: seq<Event>, k: nat)
    requires IsRun(h, ps, evs) && Sized(ps[0]) && k <= |evs|
    ensures Sized(ps[k])
  {
    if k > 0 {
      assert StepAt(h, ps, evs, k - 1);
      RunKeepsSized(h, ps, evs, k - 1);
      StepKeepsSized(h, ps[k - 1], evs[k - 1], ps[k]);
    }
  }

  lemma StepKeepsSized(h: Hasher, p: PackState, ev: Event, p': PackState)
    requires Step(h, p, ev, p') && Sized(p)
    ensures Sized(p')
  {
    if ev.Start? {
      assert forall f :: 0 <= f < |p.files| ==> IsStarted(p.files[f], p'.files[f]);
    }
  }

  // ------------------------------------------------------------------ the verifier

  /** In a good state no index makes the parents disagree, an index past the end of the chain
      is never accepted, and the offset of an accepted block fits an int64. */
  lemma VerifierIsConsistent(h: Hasher, file: Contents, st: FileState, block: Block)
    requires GoodFile(h, file, st) && !ChainCollides(h, file)
    ensures block.index >= 1 ==> CheckHash(st, block.index) != Disagree
    ensures Accepts(h, st, block) ==> block.index <= Last(file)
    ensures Accepts(h, st, block) ==> Offset(block.index) == BUFFER_SIZE * block.index < TWO_TO_THE_63
  {
    if block.index >= 1 {
      TrueCheck(h, file, st, block.index);
    }
  }

  // ------------------------------------------------------------------ the extra empty block

  /** The writer indexes the coverage out of range on exactly one true block: the empty one
      at the end of a chain whose data fills its coverage words to the last bit. */
  lemma WriterPanics(h: Hasher, file: Contents, st: FileState, vb: VerifiedBlock, io: Io)
    requires KnowsTruth(h, file, st) && |st.coverage| == WordsFor(st.size) && TrueQueued(h, file, vb)
    ensures WriteVerified(st, vb, io).1 == Panicked <==>
      vb.block.index == Last(file) && |file| % (64 * BUFFER_SIZE) == 0
  {
    PastTheWords(|file|, vb.block.index);
    assert WriteVerified(st, vb, io).1 == Panicked <==> vb.block.index / 64 >= |st.coverage|;
  }

  lemma PastTheWords(size: nat, index: nat)
    requires index <= size / BUFFER_SIZE
    ensures index / 64 >= WordsFor(size) <==> index == size / BUFFER_SIZE && size % (64 * BUFFER_SIZE) == 0
  {
  }

  /** isFullCoverage compares bitmaps for equality, so it holds when every real block is
      covered and the empty block past them is not. */
  lemma FullExactly(h: Hasher, file: Contents, st: FileState)
    requires GoodFile(h, file, st)
    ensures IsFull(st.size, st.coverage) <==>
      (forall j: nat :: j < RealBlocks(|file|) ==> Has(st.coverage, j)) && !Has(st.coverage, RealBlocks(|file|))
  {
    forall j: nat | Has(st.coverage, j)
      ensures j <= RealBlocks(|file|)
    {
      assert GoodBlock(h, file, st, j);
    }
  }

  // ------------------------------------------------------------------ reachability

  /** Coverage and lookup name the same blocks, each with its info, and each block above 0
      has its predecessor or its tree parent among them. */
  ghost predicate Linked(st: FileState) {
    && (forall j: nat :: Has(st.coverage, j) ==> j < TWO_TO_THE_64)
    && (forall j: Word :: j in st.blockLookup <==> Has(st.coverage, j))
    && (forall j: Word :: j in st.blockLookup ==> st.blockLookup[j] in st.blockMap)
    && (forall j: Word {:trigger HasParent(st, j)} :: j in st.blockLookup ==> HasParent(st, j))
  }

  ghost predicate HasParent(st: FileState, j: Word) {
    j == 0 || Has(st.coverage, j - 1) || Has(st.coverage, TreeParent(j))
  }

  ghost predicate LinkedPack(p: PackState) {
    && (forall f :: 0 <= f < |p.files| ==> Linked(p.files[f]))
    && (forall q :: 0 <= q < |p.queue| ==>
          p.queue[q].file < |p.files| && HasParent(p.files[p.queue[q].file], p.queue[q].block.index))
  }

  lemma AcceptedHasParent(h: Hasher, st: FileState, block: Block)
    requires Linked(st) && Accepts(h, st, block)
    ensures HasParent(st, block.index)
  {
  }

  lemma WriteKeepsLinked(st: FileState, vb: VerifiedBlock, io: Io)
    requires Linked(st) && HasParent(st, vb.block.index)
    ensures Linked(WriteVerified(st, vb, io).0)
    ensures forall j: nat :: Has(st.coverage, j) ==> Has(WriteVerified(st, vb, io).0.coverage, j)
  {
    var st' := WriteVerified(st, vb, io).0;
    forall j: Word | j in st'.blockLookup
      ensures HasParent(st', j)
    {
      assert HasParent(st, j);
    }
  }

  /** No assumption on hashes or blocks is needed here: whatever is delivered, only a block
      with a known parent is taken. */
  lemma StepKeepsLinked(h: Hasher, p: PackState, ev: Event, p': PackState)
    requires LinkedPack(p) && Step(h, p, ev, p') && !ev.Start?
    ensures LinkedPack(p')
  {
    if ev.Fulfill? {
      var f := FindFile(p.files, ev.fileHash);
      if p.status == Active && f.Some? && Accepts(h, p.files[f.value], ev.block) {
        AcceptedHasParent(h, p.files[f.value], ev.block);
      }
    } else if ev.Write? && p.queue != [] {
      WriteKeepsLinked(p.files[p.queue[0].file], p.queue[0], ev.io);
      forall q | 0 <= q < |p'.queue|
        ensures p'.queue[q].file < |p'.files| && HasParent(p'.files[p'.queue[q].file], p'.queue[q].block.index)
      {
        assert p'.queue[q] == p.queue[q + 1];
        assert HasParent(p.files[p.queue[q + 1].file], p.queue[q + 1].block.index);
      }
    }
  }

  lemma StartIsLinked(h: Hasher, sources: Sources, p: PackState, p': PackState)
    requires Advertised(h, sources, p) && Step(h, p, Start, p')
    ensures LinkedPack(p')
  {
    forall f | 0 <= f < |p'.files|
      ensures Linked(p'.files[f])
    {
      assert IsStarted(p.files[f], p'.files[f]);
    }
  }

  ghost predicate StartsAtMostOnce(evs: seq<Event>) {
    forall i, j :: 0 <= i < j < |evs| ==> !(evs[i].Start? && evs[j].Start?)
  }

  ghost predicate NoStartBefore(evs: seq<Event>, k: nat) {
    forall i :: 0 <= i < k && i < |evs| ==> !evs[i].Start?
  }

  /** Closure over every run: from an advertised pack, with at most one start anywhere among
      deliveries, writes and checks, every covered block of every state is linked to a covered
      parent.  Before the start nothing happens at all. */
  lemma {:induction false} RunIsLinked(h: Hasher, sources: Sources, ps: seq<PackState>, evs: seq<Event>, k: nat)
    requires IsRun(h, ps, evs) && Advertised(h, sources, ps[0]) && StartsAtMostOnce(evs) && k <= |evs|
    ensures LinkedPack(ps[k])
    ensures NoStartBefore(evs, k) ==> ps[k] == ps[0]
  {
    if k > 0 {
      assert StepAt(h, ps, evs, k - 1);
      RunIsLinked(h, sources, ps, evs, k - 1);
      if evs[k - 1].Start? {
        StartIsLinked(h, sources, ps[k - 1], ps[k]);
      } else {
        StepKeepsLinked(h, ps[k - 1], evs[k - 1], ps[k]);
      }
    }
  }

  /** A second start keeps the linkage exactly if there is nothing to lose: coverage is emptied
      and the lookup is not. */
  lemma RestartUnlinks(st: FileState, st': FileState)
    requires Linked(st) && IsStarted(st, st')
    ensures Linked(st') <==> IsEmpty(st.coverage)
  {
    if j: nat :| Has(st.coverage, j) {
      assert j in st'.blockLookup && !Has(st'.coverage, j);
    } else {
      forall j: Word
        ensures j !in st.blockLookup
      {
        assert !Has(st.coverage, j);
      }
    }
  }

  /** From a covered block a path of predecessors and tree parents, all covered, leads to
      block 0. */
  lemma {:induction false} PathToZero(st: FileState, k: Word) returns (path: seq<Word>)
    requires Linked(st) && Has(st.coverage, k)
    ensures |path| > 0 && path[0] == k && path[|path| - 1] == 0
    ensures forall i :: 0 <= i < |path| ==> Has(st.coverage, path[i])
    ensures forall i :: 0 <= i < |path| - 1 ==>
      path[i] > 0 && (path[i + 1] == path[i] - 1 || path[i + 1] == TreeParent(path[i]))
    decreases k
  {
    if k == 0 {
      path := [0];
    } else {
      assert HasParent(st, k);
      var parent: Word := if Has(st.coverage, k - 1) then k - 1 else TreeParent(k);
      var rest := PathToZero(st, parent);
      path := [k] + rest;
    }
  }

  /** A partial downloader can always serve block 0: its hash and its info are there. */
  lemma FallbackIsThere(st: FileState)
    requires Linked(st) && !IsEmpty(st.coverage)
    ensures 0 in st.blockLookup && st.blockLookup[0] in st.blockMap
  {
    var j: nat :| Has(st.coverage, j);
    var path := PathToZero(st, j);
    assert Has(st.coverage, path[|path| - 1]);
  }

  // ------------------------------------------------------------------ runs into the empty block

  lemma LinkedKnows(st: FileState, i: Word)
    requires Linked(st) && Has(st.coverage, i)
    ensures Knows(st, i)
  {
  }

  /** A true block is accepted as soon as a covered parent vouches for it. */
  lemma TrueBlockAccepted(h: Hasher, file: Contents, st: FileState, j: Word)
    requires KnowsTruth(h, file, st) && Linked(st) && !ChainCollides(h, file)
    requires j <= Last(file) && HasParent(st, j)
    ensures Accepts(h, st, TrueBlock(h, file, j))
  {
    if j > 0 {
      LinkedKnows(st, if Has(st.coverage, j - 1) then j - 1 else TreeParent(j));
      TrueDemand(h, file, st, j);
    }
  }

  /** Whatever is delivered is a block of the file. */
  ghost predicate TrueDeliveries(h: Hasher, file: Contents, evs: seq<Event>) {
    forall k :: 0 <= k < |evs| ==> DeliversTruth(h, file, evs[k])
  }

  ghost predicate DeliversTruth(h: Hasher, file: Contents, ev: Event) {
    ev.Fulfill? ==> ev.block.index <= Last(file) && ev.block == TrueBlock(h, file, ev.block.index)
  }

  lemma TrueDeliveriesAreGood(h: Hasher, file: Contents, ps: seq<PackState>, evs: seq<Event>)
    requires IsRun(h, ps, evs) && Advertised(h, [file], ps[0])
    requires TrueDeliveries(h, file, evs) && !ChainCollides(h, file)
    ensures !CollisionAtHand(h, [file], evs)
    ensures GoodPack(h, [file], ps[|evs|]) && Sized(ps[|evs|])
  {
    forall k | 0 <= k < |evs| && evs[k].Fulfill?
      ensures !Collides(h, file, evs[k].block)
    {
      assert DeliversTruth(h, file, evs[k]);
    }
    RunKeepsGood(h, [file], ps, evs, |evs|);
    RunKeepsSized(h, ps, evs, |evs|);
  }

  /** An active pack of one file, of which exactly the first k blocks are covered. */
  ghost predicate HasFirst(h: Hasher, file: Contents, p: PackState, k: nat) {
    p.status == Active && p.queue == [] && |p.files| == 1 && CoversFirst(h, file, p.files[0], k)
  }

  ghost predicate CoversFirst(h: Hasher, file: Contents, st: FileState, k: nat) {
    && GoodFile(h, file, st) && Linked(st) && |st.coverage| == WordsFor(|file|)
    && forall j: nat :: Has(st.coverage, j) <==> j < k
  }

  ghost function Queued(h: Hasher, file: Contents, k: nat): VerifiedBlock
    requires k <= Last(file)
  {
    VerifiedBlock(0, TrueBlock(h, file, k), Link(h, file, k))
  }

  /** The next block of the chain is accepted. */
  lemma NextIsAccepted(h: Hasher, file: Contents, st: FileState, k: nat)
    requires CoversFirst(h, file, st, k) && !ChainCollides(h, file) && k <= Last(file)
    ensures HasParent(st, k) && Accepts(h, st, TrueBlock(h, file, k))
  {
    assert k == 0 || Has(st.coverage, k - 1);
    TrueBlockAccepted(h, file, st, k);
  }

  lemma NextIsQueued(h: Hasher, file: Contents, p: PackState, k: nat)
    requires p.status == Active && p.queue == [] && |p.files| == 1
    requires k <= Last(file) && Accepts(h, p.files[0], TrueBlock(h, file, k))
    ensures Step(h, p, Fulfill(p.files[0].hash, TrueBlock(h, file, k)), p.(queue := [Queued(h, file, k)]))
  {
    assert FindFile(p.files, p.files[0].hash) == Some(0);
    assert Link(h, file, k) == h.block(TrueBlock(h, file, k));
  }

  lemma NextIsCovered(h: Hasher, file: Contents, st: FileState, k: nat)
    requires CoversFirst(h, file, st, k) && !ChainCollides(h, file) && k <= Last(file)
    requires HasParent(st, k) && k / 64 < WordsFor(|file|)
    ensures CoversFirst(h, file, WriteVerified(st, Queued(h, file, k), Wrote(|Chunk(file, k)|, true)).0, k + 1)
  {
    var vb, io := Queued(h, file, k), Wrote(|Chunk(file, k)|, true);
    LastFits(file, k);
    MarkedFirst(st, vb, io, k);
    assert GoodFile(h, file, WriteVerified(st, vb, io).0) by {
      WriteKeepsGood(h, file, st, vb, io);
    }
    assert Linked(WriteVerified(st, vb, io).0) by {
      WriteKeepsLinked(st, vb, io);
    }
  }

  lemma LastFits(file: Contents, k: nat)
    requires k <= Last(file)
    ensures k < TWO_TO_THE_64 && Offset(k) == BUFFER_SIZE * k < TWO_TO_THE_63
  {
  }

  lemma MarkedFirst(st: FileState, vb: VerifiedBlock, io: Io, k: nat)
    requires vb.block.index == k && k / 64 < |st.coverage| && forall j: nat :: Has(st.coverage, j) <==> j < k
    requires io.Wrote? && io.count >= |vb.block.data| && io.closed && Offset(k) < TWO_TO_THE_63
    ensures var c := WriteVerified(st, vb, io).0.coverage;
      |c| == |st.coverage| && forall j: nat :: Has(c, j) <==> j < k + 1
  {
    MarksIt(st, vb, io);
  }

  lemma MarksIt(st: FileState, vb: VerifiedBlock, io: Io)
    requires vb.block.index / 64 < |st.coverage| && !Has(st.coverage, vb.block.index)
    requires io.Wrote? && io.count >= |vb.block.data| && io.closed && Offset(vb.block.index) < TWO_TO_THE_63
    ensures WriteVerified(st, vb, io).0.coverage == Mark(st.coverage, vb.block.index)
    ensures WriteVerified(st, vb, io).1 == Written
  {
  }

  ghost function WrittenNext(h: Hasher, file: Contents, p: PackState, k: nat): PackState
    requires |p.files| == 1 && k <= Last(file)
  {
    p.(files := [WriteVerified(p.files[0], Queued(h, file, k), Wrote(|Chunk(file, k)|, true)).0])
  }

  lemma NextIsWritten(h: Hasher, file: Contents, p: PackState, k: nat)
    requires |p.files| == 1 && p.queue == [] && k <= Last(file)
    ensures Step(h, p.(queue := [Queued(h, file, k)]), Write(Wrote(|Chunk(file, k)|, true)), WrittenNext(h, file, p, k))
  {
    assert forall st :: p.files[0 := st] == [st];
  }

  lemma NextIsTaken(h: Hasher, file: Contents, p: PackState, k: nat)
    returns (queued: PackState, p': PackState, ev: Event, ev': Event)
    requires HasFirst(h, file, p, k) && !ChainCollides(h, file) && k <= Last(file) && k / 64 < WordsFor(|file|)
    ensures Step(h, p, ev, queued) && Step(h, queued, ev', p')
    ensures !ev.Start? && !ev'.Start? && DeliversTruth(h, file, ev) && DeliversTruth(h, file, ev')
    ensures HasFirst(h, file, p', k + 1)
  {
    NextIsAccepted(h, file, p.files[0], k);
    NextIsQueued(h, file, p, k);
    NextIsWritten(h, file, p, k);
    NextIsCovered(h, file, p.files[0], k);
    queued, p' := p.(queue := [Queued(h, file, k)]), WrittenNext(h, file, p, k);
    ev, ev' := Fulfill(p.files[0].hash, TrueBlock(h, file, k)), Write(Wrote(|Chunk(file, k)|, true));
  }

  /** A run that delivers and writes the blocks from the k-th up to and without the n-th. */
  lemma {:induction false} InOrder(h: Hasher, file: Contents, p: PackState, k: nat, n: nat)
    returns (ps: seq<PackState>, evs: seq<Event>)
    requires HasFirst(h, file, p, k) && !ChainCollides(h, file)
    requires k <= n <= Last(file) + 1 && forall j :: k <= j < n ==> j / 64 < WordsFor(|file|)
    ensures IsRun(h, ps, evs) && ps[0] == p && HasFirst(h, file, ps[|evs|], n)
    ensures NoStartBefore(evs, |evs|) && TrueDeliveries(h, file, evs)
    decreases n - k
  {
    if k == n {
      ps, evs := [p], [];
    } else {
      var queued, p', ev, ev' := NextIsTaken(h, file, p, k);
      var rest, more := InOrder(h, file, p', k + 1, n);
      ps, evs := Before(h, file, queued, ev', rest, more);
      ps, evs := Before(h, file, p, ev, ps, evs);
    }
  }

  /** A run with one more step before it. */
  lemma Before(h: Hasher, file: Contents, p: PackState, ev: Event, ps: seq<PackState>, evs: seq<Event>)
    returns (ps': seq<PackState>, evs': seq<Event>)
    requires IsRun(h, ps, evs) && Step(h, p, ev, ps[0])
    ensures IsRun(h, ps', evs') && ps' == [p] + ps && evs' == [ev] + evs && ps'[|evs'|] == ps[|evs|]
    ensures !ev.Start? && NoStartBefore(evs, |evs|) ==> NoStartBefore(evs', |evs'|)
    ensures DeliversTruth(h, file, ev) && TrueDeliveries(h, file, evs) ==> TrueDeliveries(h, file, evs')
  {
    ps', evs' := [p] + ps, [ev] + evs;
    forall k: nat | k < |evs'|
      ensures StepAt(h, ps', evs', k)
    {
      if k > 0 {
        assert StepAt(h, ps, evs, k - 1);
        assert ps'[k] == ps[k - 1] && evs'[k] == evs[k - 1] && ps'[k + 1] == ps[k];
      }
    }
  }

  /** StartPack can always be called. */
  lemma CanStart(h: Hasher, p: PackState) returns (p': PackState)
    requires |p.files| == 1
    ensures Step(h, p, Start, p')
  {
    var st := p.files[0];
    var coverage := seq(WordsFor(st.size), _ => 0);
    forall j: nat
      ensures !Has(coverage, j)
    {
      ZeroBits(j % 64);
    }
    var st' := st.(disk := Overwrite(st.disk, 0, Zeros(st.size)), coverage := coverage);
    assert IsStarted(st, st');
    p' := p.(status := Active, files := [st']);
  }

  /** From an advertised pack of one file: start, and take the first n blocks in order. */
  lemma StartInOrder(h: Hasher, file: Contents, p: PackState, n: nat) returns (ps: seq<PackState>, evs: seq<Event>)
    requires Advertised(h, [file], p) && !ChainCollides(h, file)
    requires n <= Last(file) + 1 && forall j: nat :: j < n ==> j / 64 < WordsFor(|file|)
    ensures IsRun(h, ps, evs) && ps[0] == p && evs != [] && evs[0] == Start
    ensures StartsAtMostOnce(evs) && TrueDeliveries(h, file, evs) && HasFirst(h, file, ps[|evs|], n)
  {
    var p' := CanStart(h, p);
    assert IsStarted(p.files[0], p'.files[0]);
    StartIsLinked(h, [file], p, p');
    assert GoodFile(h, file, p'.files[0]);
    var rest, more := InOrder(h, file, p', 0, n);
    ps, evs := Before(h, file, p, Start, rest, more);
  }

  /** A pack some file of which covers the empty block never becomes complete, whatever comes,
      unless it is started again. */
  lemma {:induction false} NeverComplete(h: Hasher, ps: seq<PackState>, evs: seq<Event>, k: nat, f: nat)
    requires IsRun(h, ps, evs) && NoStartBefore(evs, |evs|) && k <= |evs|
    requires ps[0].status != Complete && f < |ps[0].files|
    requires Has(ps[0].files[f].coverage, RealBlocks(ps[0].files[f].size))
    ensures ps[k].status != Complete && f < |ps[k].files|
    ensures Has(ps[k].files[f].coverage, RealBlocks(ps[k].files[f].size))
  {
    if k > 0 {
      assert StepAt(h, ps, evs, k - 1);
      NeverComplete(h, ps, evs, k - 1, f);
      StepGrows(h, ps[k - 1], evs[k - 1], ps[k], f);
    }
  }

  /** A run in which the publisher's own blocks are all that is delivered. */
  ghost predicate TrueRun(h: Hasher, file: Contents, p: PackState, ps: seq<PackState>, evs: seq<Event>) {
    IsRun(h, ps, evs) && ps[0] == p && StartsAtMostOnce(evs) && TrueDeliveries(h, file, evs)
  }

  /** Covers the empty block of its first file, before being complete. */
  ghost predicate Stuck(p: PackState) {
    p.status != Complete && |p.files| > 0 && Has(p.files[0].coverage, RealBlocks(p.files[0].size))
  }

  ghost predicate GetsStuck(h: Hasher, file: Contents, p: PackState, ps: seq<PackState>, evs: seq<Event>) {
    TrueRun(h, file, p, ps, evs) && Stuck(ps[|evs|])
  }

  lemma StuckRun(h: Hasher, file: Contents, p: PackState) returns (ps: seq<PackState>, evs: seq<Event>)
    requires Advertised(h, [file], p) && !ChainCollides(h, file)
    requires |file| % BUFFER_SIZE == 0 && |file| % (64 * BUFFER_SIZE) != 0
    ensures GetsStuck(h, file, p, ps, evs)
  {
    forall j: nat | j < Last(file) + 1
      ensures j / 64 < WordsFor(|file|)
    {
      PastTheWords(|file|, j);
    }
    ps, evs := StartInOrder(h, file, p, Last(file) + 1);
  }

  lemma StuckOnly(h: Hasher, file: Contents, st: FileState)
    requires GoodFile(h, file, st) && (st.coverage == [] || |st.coverage| == WordsFor(|file|))
    requires Has(st.coverage, RealBlocks(|file|))
    ensures |file| % BUFFER_SIZE == 0 && |file| % (64 * BUFFER_SIZE) != 0
  {
    assert GoodBlock(h, file, st, RealBlocks(|file|));
    PastTheWords(|file|, RealBlocks(|file|));
  }

  /** Exactly the files whose size is a multiple of the block size, but not of 64 blocks, can
      get stuck so, on nothing but their own blocks. */
  lemma StuckExactly(h: Hasher, file: Contents, p: PackState)
    requires Advertised(h, [file], p) && !ChainCollides(h, file)
    ensures (exists ps, evs :: GetsStuck(h, file, p, ps, evs)) <==>
      |file| % BUFFER_SIZE == 0 && |file| % (64 * BUFFER_SIZE) != 0
  {
    if |file| % BUFFER_SIZE == 0 && |file| % (64 * BUFFER_SIZE) != 0 {
      var ps, evs := StuckRun(h, file, p);
    }
    if ps: seq<PackState>, evs: seq<Event> :| GetsStuck(h, file, p, ps, evs) {
      TrueDeliveriesAreGood(h, file, ps, evs);
      AvailableIsEmpty(h, [file], ps, evs, |evs|);
      StuckOnly(h, file, ps[|evs|].files[0]);
    }
  }

  /** A pack that is still available has not been started. */
  lemma {:induction false} AvailableIsEmpty(h: Hasher, sources: Sources, ps: seq<PackState>, evs: seq<Event>, k: nat)
    requires IsRun(h, ps, evs) && Advertised(h, sources, ps[0]) && k <= |evs|
    ensures ps[k].status == Available ==> ps[k] == ps[0]
  {
    if k > 0 {
      assert StepAt(h, ps, evs, k - 1);
      AvailableIsEmpty(h, sources, ps, evs, k - 1);
    }
  }

  /** The writer's next block would make it panic, whatever the operating system does. */
  ghost predicate AboutToPanic(p: PackState) {
    && p.queue != [] && p.queue[0].file < |p.files|
    && forall io :: WriteVerified(p.files[p.queue[0].file], p.queue[0], io).1 == Panicked
  }

  ghost predicate GetsToPanic(h: Hasher, file: Contents, p: PackState, ps: seq<PackState>, evs: seq<Event>) {
    TrueRun(h, file, p, ps, evs) && AboutToPanic(ps[|evs|])
  }

  lemma PanicRun(h: Hasher, file: Contents, p: PackState) returns (ps: seq<PackState>, evs: seq<Event>)
    requires Advertised(h, [file], p) && !ChainCollides(h, file) && |file| % (64 * BUFFER_SIZE) == 0
    ensures GetsToPanic(h, file, p, ps, evs)
  {
    var n := Last(file);
    forall j: nat | j < n
      ensures j / 64 < WordsFor(|file|)
    {
      PastTheWords(|file|, j);
    }
    ps, evs := StartInOrder(h, file, p, n);
    var ev, q := LastIsQueued(h, file, ps[|evs|]);
    ps, evs := After(h, file, ps, evs, ev, q);
  }

  /** Exactly the files of a multiple of 64 blocks, the empty file among them, can bring the
      writer to its panic on nothing but their own blocks. */
  lemma PanicExactly(h: Hasher, file: Contents, p: PackState)
    requires Advertised(h, [file], p) && !ChainCollides(h, file)
    ensures (exists ps, evs :: GetsToPanic(h, file, p, ps, evs)) <==> |file| % (64 * BUFFER_SIZE) == 0
  {
    if |file| % (64 * BUFFER_SIZE) == 0 {
      var ps, evs := PanicRun(h, file, p);
    }
    if ps: seq<PackState>, evs: seq<Event> :| GetsToPanic(h, file, p, ps, evs) {
      var q := ps[|evs|];
      TrueDeliveriesAreGood(h, file, ps, evs);
      AvailableIsEmpty(h, [file], ps, evs, |evs|);
      assert q.status != Available;
      assert WriteVerified(q.files[0], q.queue[0], NoOpen).1 == Panicked;
      WriterPanics(h, file, q.files[0], q.queue[0], NoOpen);
    }
  }

  /** Every file can be completed, and whether it then equals the source is up to what its path
      held: here is the run that shows a longer file keeping its tail. */
  lemma CompleteRun(h: Hasher, file: Contents, p: PackState) returns (ps: seq<PackState>, evs: seq<Event>)
    requires Advertised(h, [file], p) && !ChainCollides(h, file)
    ensures TrueRun(h, file, p, ps, evs) && ps[|evs|].status == Complete && |ps[|evs|].files| == 1
    ensures ps[|evs|].files[0].disk == file <==> |p.files[0].disk| <= |file|
  {
    ps, evs := StartInOrder(h, file, p, RealBlocks(|file|));
    var q := ps[|evs|];
    assert AllFull(q.files);
    ps, evs := After(h, file, ps, evs, Tick, q.(status := Complete));
    TrueDeliveriesAreGood(h, file, ps, evs);
    CompleteIsEqual(h, [file], ps, evs, |evs|, 0);
  }

  /** And a file that is not empty can be started again after its first block: then block 0 is
      looked up but not covered. */
  lemma RestartRun(h: Hasher, file: Contents, p: PackState) returns (ps: seq<PackState>, evs: seq<Event>)
    requires Advertised(h, [file], p) && !ChainCollides(h, file) && |file| > 0
    ensures IsRun(h, ps, evs) && ps[0] == p && TrueDeliveries(h, file, evs) && !LinkedPack(ps[|evs|])
  {
    ps, evs := StartInOrder(h, file, p, 1);
    var st := ps[|evs|].files[0];
    assert Has(st.coverage, 0);
    var q := CanStart(h, ps[|evs|]);
    assert IsStarted(st, q.files[0]);
    RestartUnlinks(st, q.files[0]);
    ps, evs := After(h, file, ps, evs, Start, q);
  }

  lemma LastIsQueued(h: Hasher, file: Contents, p: PackState) returns (ev: Event, q: PackState)
    requires HasFirst(h, file, p, Last(file)) && !ChainCollides(h, file) && |file| % (64 * BUFFER_SIZE) == 0
    ensures Step(h, p, ev, q) && !ev.Start? && DeliversTruth(h, file, ev) && AboutToPanic(q)
  {
    var n := Last(file);
    NextIsAccepted(h, file, p.files[0], n);
    NextIsQueued(h, file, p, n);
    PastTheWords(|file|, n);
    ev, q := Fulfill(p.files[0].hash, TrueBlock(h, file, n)), p.(queue := [Queued(h, file, n)]);
  }

  /** The same at the end of a run. */
  lemma After(h: Hasher, file: Contents, ps: seq<PackState>, evs: seq<Event>, ev: Event, p: PackState)
    returns (ps': seq<PackState>, evs': seq<Event>)
    requires IsRun(h, ps, evs) && Step(h, ps[|evs|], ev, p)
    ensures IsRun(h, ps', evs') && ps' == ps + [p] && evs' == evs + [ev]
    ensures !ev.Start? && StartsAtMostOnce(evs) ==> StartsAtMostOnce(evs')
    ensures DeliversTruth(h, file, ev) && TrueDeliveries(h, file, evs) ==> TrueDeliveries(h, file, evs')
  {
    ps', evs' := ps + [p], evs + [ev];
    forall k: nat | k < |evs'|
      ensures StepAt(h, ps', evs', k)
    {
      if k < |evs| {
        assert StepAt(h, ps, evs, k);
      }
    }
  }
}
