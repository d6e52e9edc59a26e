/** The objects of white-box/party.go that a download updates in place; each method is
    proved to take the step of module Download or Sender that it stands for. */
module Packs {
  import opened Words
  import opened Blocks
  import opened Coverage
  import opened Chain
  import opened Download
  import opened Sender

  /** What chooseBlock does: index out of range, return nil, or return a block. */
  datatype Choice = Fault | Nothing | Chosen(block: Block)

  /** One round of RequestSender on a request: the process ends, the request is dropped, or a
      block is sent and the request goes back into the channel with that block marked. */
  datatype Turn = Crashed | Dropped | Sent(block: Block, requeued: Bitmap)

  lemma OverwriteTwice(c: seq<Byte>, a: seq<Byte>, b: seq<Byte>)
    ensures Overwrite(Overwrite(c, 0, a), |a|, b) == Overwrite(c, 0, a + b)
  {
    var l, r := Overwrite(Overwrite(c, 0, a), |a|, b), Overwrite(c, 0, a + b);
    if a + b == [] {
      assert a == [] && b == [];
    } else {
      assert |l| == |r|;
      assert forall p :: 0 <= p < |l| ==> l[p] == r[p];
    }
  }

  /** writeZeroFile: zeros from the start, in pieces; the file is not truncated. */
  method WriteZeroFile(f: TargetFile, size: nat)
    requires f.pos == 0
    modifies f
    ensures f.contents == Overwrite(old(f.contents), 0, Zeros(size))
  {
    var mb100 := 102400000;
    var remaining := size;
    assert Zeros(0) == [];
    while remaining > mb100
      invariant 0 <= remaining <= size && f.pos == size - remaining
      invariant f.contents == Overwrite(old(f.contents), 0, Zeros(size - remaining))
    {
      f.Write(Zeros(mb100));
      OverwriteTwice(old(f.contents), Zeros(size - remaining), Zeros(mb100));
      remaining := remaining - mb100;
      assert Zeros(size - remaining - mb100) + Zeros(mb100) == Zeros(size - remaining);
    }
    if remaining > 0 {
      f.Write(Zeros(remaining));
      OverwriteTwice(old(f.contents), Zeros(size - remaining), Zeros(remaining));
      assert Zeros(size - remaining) + Zeros(remaining) == Zeros(size);
    }
  }

  class PackFileInfo {
    var hash: string
    var firstBlockHash: string
    var size: nat
    var blockMap: map<string, BlockInfo>
    var blockLookup: map<Word, string>
    var coverage: seq<Word>
    /** The bytes of the file at Path. */
    var disk: seq<Byte>

    ghost function State(): FileState
      reads this
    {
      FileState(hash, firstBlockHash, size, blockMap, blockLookup, coverage, disk)
    }

    /** A file of an advertised pack (party.go:431-437), over whatever is at its path. */
    constructor Advertised(hash: string, firstBlockHash: string, size: nat, disk: seq<Byte>)
      ensures State() == FileState(hash, firstBlockHash, size, map[], map[], [], disk)
    {
      this.hash, this.firstBlockHash, this.size, this.disk := hash, firstBlockHash, size, disk;
      this.blockMap, this.blockLookup, this.coverage := map[], map[], [];
    }

    /** A file of an own pack (files.go:557-574), when no two of its blocks collide. */
    constructor Published(h: Hasher, f: TargetFile, hash: string)
      requires |f.contents| < TWO_TO_THE_63 && f.pos == 0 && !ChainCollides(h, f.contents)
      modifies f`pos
      ensures FullSender(h, f.contents, State()) && this.hash == hash
    {
      var chain := CalculateChain(h, f, |f.contents|);
      ChainEnds(h, f.contents);
      var lookup := BuildBlockLookup(chain.blockMap, chain.firstBlockHash, Last(f.contents) + 1);
      var full := FullCoverage(|f.contents|);
      this.hash, this.firstBlockHash, this.size, this.disk := hash, chain.firstBlockHash, |f.contents|, f.contents;
      this.blockMap, this.blockLookup, this.coverage := chain.blockMap, lookup, full;
      new;
      PublisherIsFull(h, f.contents, State());
    }

    /** The part of StartPack that concerns one file. */
    method Start()
      modifies this
      ensures IsStarted(old(State()), State())
    {
      var f := new TargetFile(disk);
      WriteZeroFile(f, size);
      disk := f.contents;
      coverage := EmptyCoverage(size);
    }

    /** The checks of ProcessFulfillment on a block (party.go:1035-1090): the hash under which
        the block is queued, or None. */
    method Verify(h: Hasher, block: Block) returns (r: Option<string>)
      ensures r == if Accepts(h, State(), block) then Some(h.block(block)) else None
    {
      var dataHash := h.data(block.data);
      if dataHash != block.dataHash {
        return None;
      }
      var blockHash := h.block(block);
      if block.index == 0 {
        if blockHash != firstBlockHash {
          return None;
        }
      } else {
        var checkBlockHash := "";
        var prevIndex := block.index - 1;
        if prevIndex in blockLookup {
          var prevBlockHash := blockLookup[prevIndex];
          if prevBlockHash in blockMap {
            checkBlockHash := blockMap[prevBlockHash].nextBlockHash;
          }
        }
        assert checkBlockHash == NextLink(State(), block.index);
        var treeIndex := TreeParent(block.index);
        if treeIndex in blockLookup {
          var treeBlockHash := blockLookup[treeIndex];
          if treeBlockHash in blockMap {
            var treeParentBlock := blockMap[treeBlockHash];
            var childBlockHash := "";
            if block.index % 2 == 1 {
              childBlockHash := treeParentBlock.leftBlockHash;
            } else {
              childBlockHash := treeParentBlock.rightBlockHash;
            }
            if checkBlockHash != "" && checkBlockHash != childBlockHash {
              return None;
            }
            checkBlockHash := childBlockHash;
          }
        }
        if checkBlockHash == "" {
          return None;
        }
        if checkBlockHash != blockHash {
          return None;
        }
      }
      return Some(blockHash);
    }

    /** haveBlock; None is the index out of range. */
    method HaveBlock(index: Word) returns (r: Option<bool>)
      ensures r == if index / 64 < |coverage| then Some(Has(coverage, index)) else None
    {
      if index / 64 >= |coverage| {
        return None;
      }
      return Some(Bit(coverage[index / 64], index % 64));
    }

    method SetBlockWritten(vb: VerifiedBlock)
      requires vb.block.index / 64 < |coverage|
      modifies this`coverage, this`blockMap, this`blockLookup
      ensures State() == old(State()).(
        coverage := Mark(old(coverage), vb.block.index),
        blockMap := old(blockMap)[vb.hash := vb.block.ToBlockInfo()],
        blockLookup := old(blockLookup)[vb.block.index := vb.hash])
    {
      coverage := Mark(coverage, vb.block.index);
      blockMap := blockMap[vb.hash := vb.block.ToBlockInfo()];
      blockLookup := blockLookup[vb.block.index := vb.hash];
    }

    /** The body of VerifiedBlockWriter's loop for a block of this file. */
    method WriteBlock(vb: VerifiedBlock, io: Io) returns (outcome: Outcome)
      modifies this
      ensures (State(), outcome) == WriteVerified(old(State()), vb, io)
    {
      var have := HaveBlock(vb.block.index);
      if have.None? {
        return Panicked;
      }
      if have.value {
        return Skipped;
      }
      if io.NoOpen? {
        return IoFailed;
      }
      var f := new TargetFile(disk);
      var offset := BUFFER_SIZE * vb.block.index % TWO_TO_THE_64;
      // int64(offset) is negative from 2^63 on, and the seek fails
      if offset >= TWO_TO_THE_63 {
        return IoFailed;
      }
      var ok := f.SeekFrom(0, offset);
      var count := Count(|vb.block.data|, io);
      f.Write(vb.block.data[..count]);
      disk := f.contents;
      if count != |vb.block.data| || !io.closed {
        return IoFailed;
      }
      SetBlockWritten(vb);
      return Written;
    }

    /** chooseBlock as it is written; `random` stands for the draw of mrand.  The ghost
        result is the index of the block. */
    method ChooseBlock(h: Hasher, req: Bitmap, random: nat) returns (r: Choice, ghost choice: Word)
      ensures r.Fault? <==> FrontierFaults(req) || |req| > |coverage|
      ensures !r.Fault? ==> (IsEmpty(coverage) ==> r == Nothing)
      ensures !r.Fault? && !IsEmpty(coverage) ==>
        && MayChoose(coverage, req, choice)
        && r == match ServedBlock(h, State(), choice) case None => Nothing case Some(block) => Chosen(block)
    {
      choice := 0;
      var nextBlocks := Frontier(req);
      if nextBlocks.None? {
        return Fault, 0;
      }
      var candidates := Candidates(nextBlocks.value, coverage);
      if candidates.None? {
        return Fault, 0;
      }
      var blockIndices := candidates.value;
      var empty := IsEmptyCoverage(coverage);
      if empty {
        return Nothing, 0;
      }
      var blockIdx: Word := 0;
      if |blockIndices| > 0 {
        var drawn := blockIndices[random % |blockIndices|];
        assert drawn in blockIndices && Has(nextBlocks.value, drawn);
        blockIdx := drawn;
      } else {
        assert forall c: nat :: InFrontier(req, c) && Has(coverage, c) ==> c in blockIndices;
      }
      choice := blockIdx;
      var block := ReadBlock(h, blockIdx);
      r := if block.None? then Nothing else Chosen(block.value);
    }

    /** RequestSender from chooseBlock on (party.go:1269-1284). */
    method ServeRequest(h: Hasher, req: Bitmap, random: nat) returns (r: Turn, ghost choice: Word)
      ensures InfosAtTheirIndex(State()) ==> (r.Crashed? <==> CrashesOn(h, State(), req))
      ensures r.Crashed? <==>
        (FrontierFaults(req) || |req| > |coverage|
         || (Sends(h, State(), req, choice) && ServedBlock(h, State(), choice).value.index / 64 >= |req|))
      ensures r.Sent? ==>
        && Sends(h, State(), req, choice) && ServedBlock(h, State(), choice) == Some(r.block)
        && r.block.index / 64 < |req| && r.requeued == Mark(req, r.block.index)
      ensures r.Dropped? ==>
        IsEmpty(coverage) || (MayChoose(coverage, req, choice) && ServedBlock(h, State(), choice).None?)
    {
      var chosen;
      chosen, choice := ChooseBlock(h, req, random);
      if chosen.Fault? {
        return Crashed, choice;
      }
      if chosen.Nothing? {
        return Dropped, choice;
      }
      var block := chosen.block;
      if block.index / 64 >= |req| {
        return Crashed, choice;
      }
      return Sent(block, Mark(req, block.index)), choice;
    }

    /** The end of chooseBlock (party.go:1173-1214). */
    method ReadBlock(h: Hasher, blockIdx: Word) returns (r: Option<Block>)
      ensures r == ServedBlock(h, State(), blockIdx)
    {
      if blockIdx !in blockLookup {
        return None;
      }
      var blockHash := blockLookup[blockIdx];
      if blockHash !in blockMap {
        return None;
      }
      var f := new TargetFile(disk);
      if Offset(blockIdx) >= TWO_TO_THE_63 {
        return None;
      }
      var ok := f.SeekFrom(0, Offset(blockIdx));
      var buffer, eof := f.Read(BUFFER_SIZE);
      assert buffer == ReadAt(disk, Offset(blockIdx));
      var block := blockMap[blockHash].ToBlock(buffer);
      if block.dataHash != h.data(block.data) {
        return None;
      }
      return Some(block);
    }
  }

  lemma {:induction false} FirstIsFound(files: seq<FileState>, fileHash: string, i: nat)
    requires i < |files| && files[i].hash == fileHash
    requires forall k :: 0 <= k < i ==> files[k].hash != fileHash
    ensures FindFile(files, fileHash) == Some(i)
  {
    if i > 0 {
      assert files[0].hash != fileHash;
      FirstIsFound(files[1..], fileHash, i - 1);
    }
  }

  ghost predicate Ascend(s: seq<nat>) {
    forall a, b :: 0 <= a < b < |s| ==> s[a] < s[b]
  }

  lemma AppendAscends(s: seq<nat>, n: nat)
    requires Ascend(s) && forall f :: f in s ==> f < n
    ensures Ascend(s + [n])
  {
    assert forall a :: 0 <= a < |s| ==> s[a] in s;
  }

  /** A pack of a party, the hashes in use, and the part of VerifiedBlockChan that is for it. */
  class Pack {
    const h: Hasher
    var status: Status
    var files: seq<PackFileInfo>
    var verifiedBlocks: seq<VerifiedBlock>

    ghost predicate Valid()
      reads this
    {
      && (forall i, j :: 0 <= i < j < |files| ==> files[i] != files[j])
      && (forall q :: 0 <= q < |verifiedBlocks| ==> verifiedBlocks[q].file < |files|)
    }

    ghost function FileStates(): (r: seq<FileState>)
      reads this, files
      ensures |r| == |files| && forall i :: 0 <= i < |files| ==> r[i] == files[i].State()
    {
      seq(|files|, i requires 0 <= i < |files| reads this, files => files[i].State())
    }

    ghost function State(): PackState
      reads this, files
    {
      PackState(status, FileStates(), verifiedBlocks)
    }

    constructor (h: Hasher, files: seq<PackFileInfo>)
      requires forall i, j :: 0 <= i < j < |files| ==> files[i] != files[j]
      ensures Valid() && this.h == h && this.files == files && status == Available && verifiedBlocks == []
    {
      this.h, this.status, this.files, this.verifiedBlocks := h, Available, files, [];
    }

    /** GetFileInfo: the position of the first file with that hash. */
    method GetFileInfo(fileHash: string) returns (r: Option<nat>)
      ensures r == FindFile(FileStates(), fileHash)
    {
      var i := 0;
      while i < |files|
        invariant 0 <= i <= |files|
        invariant forall k :: 0 <= k < i ==> files[k].hash != fileHash
      {
        if files[i].hash == fileHash {
          FirstIsFound(FileStates(), fileHash, i);
          return Some(i);
        }
        i := i + 1;
      }
      return None;
    }

    method StartPack()
      requires Valid()
      modifies this, files
      ensures Valid() && files == old(files) && Step(h, old(State()), Start, State())
    {
      var i := 0;
      while i < |files|
        invariant 0 <= i <= |files| && files == old(files)
        invariant status == old(status) && verifiedBlocks == old(verifiedBlocks)
        invariant forall k :: 0 <= k < i ==> IsStarted(old(files[k].State()), files[k].State())
        invariant forall k :: i <= k < |files| ==> files[k].State() == old(files[k].State())
      {
        files[i].Start();
        i := i + 1;
      }
      status := Active;
    }

    /** ProcessFulfillment after the signature has been checked. */
    method ProcessFulfillment(fileHash: string, block: Block)
      requires Valid()
      modifies this`verifiedBlocks
      ensures Valid() && Step(h, old(State()), Fulfill(fileHash, block), State())
    {
      if status != Active {
        return;
      }
      var file := GetFileInfo(fileHash);
      if file.None? {
        return;
      }
      var blockHash := files[file.value].Verify(h, block);
      if blockHash.None? {
        return;
      }
      verifiedBlocks := verifiedBlocks + [VerifiedBlock(file.value, block, blockHash.value)];
    }

    /** One round of VerifiedBlockWriter; with nothing queued it would wait. */
    method WriteNext(io: Io)
      requires Valid()
      modifies this`verifiedBlocks, files
      ensures Valid() && files == old(files) && Step(h, old(State()), Write(io), State())
    {
      if verifiedBlocks == [] {
        return;
      }
      var vb := verifiedBlocks[0];
      verifiedBlocks := verifiedBlocks[1..];
      var outcome := files[vb.file].WriteBlock(vb, io);
      assert FileStates() == old(FileStates())[vb.file := files[vb.file].State()];
    }

    /** SendRequests, called on active packs only: the files to ask for, and the move to
        Complete when there are none.  `panicked` is the panic of isFullCoverage. */
    method SendRequests() returns (requested: seq<nat>, panicked: bool)
      requires Valid() && status == Active
      modifies this`status
      ensures Valid() && Step(h, old(State()), Tick, State())
      ensures panicked <==> exists f :: 0 <= f < |files| && |files[f].coverage| != WordsFor(files[f].size)
      ensures !panicked ==> forall f: nat ::
        f in requested <==> f < |files| && !IsFull(files[f].size, files[f].coverage)
      ensures Ascend(requested)
    {
      requested, panicked := [], false;
      var complete := true;
      var i := 0;
      while i < |files|
        invariant 0 <= i <= |files| && status == Active
        invariant forall f :: 0 <= f < i ==> |files[f].coverage| == WordsFor(files[f].size)
        invariant forall f: nat :: f in requested <==> f < i && !IsFull(files[f].size, files[f].coverage)
        invariant complete <==> requested == []
        invariant Ascend(requested)
      {
        var answer := IsFullCoverage(files[i].size, Some(files[i].coverage));
        if answer == Answer.Panic {
          assert |FileStates()[i].coverage| != WordsFor(FileStates()[i].size);
          return requested, true;
        }
        if answer != Answer.Answer(true) {
          AppendAscends(requested, i);
          requested := requested + [i];
          complete := false;
        }
        i := i + 1;
      }
      if complete {
        status := Complete;
      } else {
        assert requested[0] in requested;
        assert !IsFull(FileStates()[requested[0]].size, FileStates()[requested[0]].coverage);
      }
    }
  }
}
