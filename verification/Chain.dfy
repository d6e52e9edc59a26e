/** calculateChain and buildBlockLookup of white-box/files.go, against the hash chain
    they are meant to build. */
module Chain {
  import opened Words
  import opened Blocks

  // ------------------------------------------------------------------ specification

  /** A file that fits an int64 size. */
  type Contents = s: seq<Byte> | |s| < TWO_TO_THE_63

  /** The index of the last block.  When the size is a multiple of BUFFER_SIZE that block
      holds no data. */
  function Last(file: Contents): nat { |file| / BUFFER_SIZE }

  function Chunk(file: Contents, i: nat): (c: seq<Byte>)
    requires i <= Last(file)
    ensures |c| <= BUFFER_SIZE
  {
    if (i + 1) * BUFFER_SIZE <= |file| then file[i * BUFFER_SIZE..(i + 1) * BUFFER_SIZE]
    else file[i * BUFFER_SIZE..]
  }

  /** Block i of the chain: linked to block i+1 and to its two children in the tree. */
  ghost function TrueBlock(h: Hasher, file: Contents, i: nat): (b: Block)
    requires i <= Last(file)
    decreases Last(file) + 1 - i, 0
  {
    Block(i, Link(h, file, i + 1), Link(h, file, 2 * i + 1), Link(h, file, 2 * i + 2),
          Chunk(file, i), h.data(Chunk(file, i)))
  }

  /** The hash that a link to block i holds: empty past the end of the chain. */
  ghost function Link(h: Hasher, file: Contents, i: nat): string
    decreases Last(file) + 1 - i, 1
  {
    if i <= Last(file) then h.block(TrueBlock(h, file, i)) else ""
  }

  ghost function TrueInfo(h: Hasher, file: Contents, i: nat): BlockInfo
    requires i <= Last(file)
  {
    TrueBlock(h, file, i).ToBlockInfo()
  }

  /** b is not a block of the file, or is another one, yet hashes like block i. */
  ghost predicate CollidesWith(h: Hasher, file: Contents, b: Block, i: nat)
    requires i <= Last(file)
  {
    b != TrueBlock(h, file, i) && h.block(b) == h.block(TrueBlock(h, file, i))
  }

  /** b and some block of the file are two different blocks with the same hash. */
  ghost predicate Collides(h: Hasher, file: Contents, b: Block) {
    exists i: nat :: i <= Last(file) && CollidesWith(h, file, b, i)
  }

  /** Two different blocks of the file itself have the same hash. */
  ghost predicate ChainCollides(h: Hasher, file: Contents) {
    exists j: nat :: j <= Last(file) && Collides(h, file, TrueBlock(h, file, j))
  }

  /** The block map over blocks i and up, entered from the last block down to block i. */
  ghost function InfosFrom(h: Hasher, file: Contents, i: nat): map<string, BlockInfo>
    decreases Last(file) + 1 - i
  {
    if i > Last(file) then map[]
    else InfosFrom(h, file, i + 1)[Link(h, file, i) := TrueInfo(h, file, i)]
  }

  ghost function BlocksFrom(h: Hasher, file: Contents, i: nat): map<string, Block>
    decreases Last(file) + 1 - i
  {
    if i > Last(file) then map[]
    else BlocksFrom(h, file, i + 1)[Link(h, file, i) := TrueBlock(h, file, i)]
  }

  /** What links[i], links[i+1], ... hold while the file is read backward. */
  ghost predicate LinksFrom(h: Hasher, file: Contents, i: nat, skips: map<Word, string>) {
    forall j: Word :: (j in skips <==> i <= j <= Last(file)) && (j in skips ==> skips[j] == Link(h, file, j))
  }

  /** Absent a collision within the file, distinct blocks have distinct hashes. */
  lemma DistinctLinks(h: Hasher, file: Contents, i: nat, j: nat)
    requires !ChainCollides(h, file)
    requires i <= Last(file) && j <= Last(file) && Link(h, file, i) == Link(h, file, j)
    ensures i == j
  {
    if i != j {
      assert TrueBlock(h, file, i).index != TrueBlock(h, file, j).index;
      assert CollidesWith(h, file, TrueBlock(h, file, i), j);
      assert Collides(h, file, TrueBlock(h, file, i));
    }
  }

  /** The block map holds exactly the blocks of the chain under their own hashes. */
  lemma {:induction false} InfosFromAt(h: Hasher, file: Contents, i: nat, j: nat)
    requires !ChainCollides(h, file)
    requires i <= j <= Last(file)
    ensures Link(h, file, j) in InfosFrom(h, file, i)
    ensures InfosFrom(h, file, i)[Link(h, file, j)] == TrueInfo(h, file, j)
    ensures Link(h, file, j) in BlocksFrom(h, file, i)
    ensures BlocksFrom(h, file, i)[Link(h, file, j)] == TrueBlock(h, file, j)
    decreases Last(file) - i
  {
    if i < j {
      InfosFromAt(h, file, i + 1, j);
      if Link(h, file, i) == Link(h, file, j) {
        DistinctLinks(h, file, i, j);
      }
    }
  }

  lemma {:induction false} InfosFromKeys(h: Hasher, file: Contents, i: nat, s: string) returns (j: nat)
    requires s in InfosFrom(h, file, i)
    ensures i <= j <= Last(file) && s == Link(h, file, j)
    decreases Last(file) + 1 - i
  {
    if s == Link(h, file, i) {
      j := i;
    } else {
      j := InfosFromKeys(h, file, i + 1, s);
    }
  }

  // ------------------------------------------------------------------ the file with its cursor

  class TargetFile {
    var contents: seq<Byte>
    var pos: nat

    /** os.Open: the cursor is at the start. */
    constructor (contents: seq<Byte>)
      ensures this.contents == contents && pos == 0
    {
      this.contents := contents;
      this.pos := 0;
    }

    /** Seek relative to `base`: a negative target fails and leaves the cursor alone. */
    method SeekFrom(base: int, offset: int) returns (ok: bool)
      modifies this`pos
      ensures ok <==> base + offset >= 0
      ensures pos == if ok then base + offset else old(pos)
    {
      ok := base + offset >= 0;
      if ok {
        pos := base + offset;
      }
    }

    /** Read up to n bytes; end of file is reported only when none are left. */
    method Read(n: nat) returns (bytes: seq<Byte>, eof: bool)
      requires n > 0
      modifies this`pos
      ensures var rest := if old(pos) <= |contents| then contents[old(pos)..] else [];
        bytes == if |rest| <= n then rest else rest[..n]
      ensures eof <==> bytes == []
      ensures pos == old(pos) + |bytes|
    {
      var rest := if pos <= |contents| then contents[pos..] else [];
      bytes := if |rest| <= n then rest else rest[..n];
      eof := bytes == [];
      pos := pos + |bytes|;
    }

    /** Write at the cursor, growing the file as needed. */
    method Write(bytes: seq<Byte>)
      modifies this
      ensures contents == Overwrite(old(contents), old(pos), bytes)
      ensures pos == old(pos) + |bytes|
    {
      if bytes != [] {
        var padded := if |contents| < pos then contents + seq(pos - |contents|, _ => 0) else contents;
        contents := padded[..pos] + bytes
          + if pos + |bytes| <= |padded| then padded[pos + |bytes|..] else [];
      }
      pos := pos + |bytes|;
    }
  }

  /** The contents after writing `bytes` at `at`: a gap before `at` reads as zeros. */
  ghost function Overwrite(contents: seq<Byte>, at: nat, bytes: seq<Byte>): (r: seq<Byte>)
    ensures bytes == [] ==> r == contents
    ensures bytes != [] ==> |r| == if at + |bytes| <= |contents| then |contents| else at + |bytes|
    ensures |contents| <= |r|
    ensures forall p :: at <= p < at + |bytes| ==> r[p] == bytes[p - at]
    ensures forall p :: 0 <= p < |contents| && !(at <= p < at + |bytes|) ==> r[p] == contents[p]
  {
    if bytes == [] then contents
    else
      var size := if at + |bytes| <= |contents| then |contents| else at + |bytes|;
      seq(size, p requires 0 <= p < size =>
        if at <= p < at + |bytes| then bytes[p - at] else if p < |contents| then contents[p] else 0)
  }

  // ------------------------------------------------------------------ calculateChain

  /** NilBlock is the nil dereference at files.go:407. */
  datatype ChainError = NegativeSize | SeekFailed | NilBlock | VerifyFailed

  datatype ChainResult =
    | Built(firstBlockHash: string, blockMap: map<string, BlockInfo>)
    | Failed(error: ChainError)

  lemma ChunkFromEnd(file: Contents, i: nat)
    requires i <= Last(file)
    ensures var rest := file[i * BUFFER_SIZE..];
      Chunk(file, i) == if |rest| <= BUFFER_SIZE then rest else rest[..BUFFER_SIZE]
  {
  }

  /** What the loop of the backward pass makes of the bytes that it has read. */
  method LinkBlock(h: Hasher, ghost file: Contents, index: Word, data: seq<Byte>, prev: Option<Block>,
                   skips: map<Word, string>)
    returns (curr: Block)
    requires index <= Last(file) && data == Chunk(file, index)
    requires HashOrNil(h, prev) == Link(h, file, index + 1)
    requires LinksFrom(h, file, index + 1, skips)
    ensures curr == TrueBlock(h, file, index)
  {
    var left, right := LeftChild(index), RightChild(index);
    curr := Block(
      index,
      HashOrNil(h, prev),
      if left in skips then skips[left] else "",
      if right in skips then skips[right] else "",
      data,
      h.data(data));
  }

  /** One round of the backward pass: read a block, link it, and seek to the one before.  On
      block 0 that seek targets a negative offset; it fails and leaves the cursor. */
  method BackwardRound(h: Hasher, f: TargetFile, index: Word, prev: Option<Block>, skips: map<Word, string>)
    returns (curr: Block)
    requires |f.contents| < TWO_TO_THE_63
    requires index <= Last(f.contents) && f.pos == index * BUFFER_SIZE
    requires HashOrNil(h, prev) == Link(h, f.contents, index + 1)
    requires LinksFrom(h, f.contents, index + 1, skips)
    modifies f`pos
    ensures curr == TrueBlock(h, f.contents, index)
    ensures index > 0 ==> f.pos == (index - 1) * BUFFER_SIZE
  {
    ChunkFromEnd(f.contents, index);
    var data, eof := f.Read(BUFFER_SIZE);
    curr := LinkBlock(h, f.contents, index, data, prev, skips);
    var ok := f.SeekFrom(f.pos, -(|data| + BUFFER_SIZE));
  }

  /** The backward pass of calculateChain (files.go:349-378), from the start of the last
      block. */
  method ReadBackward(h: Hasher, f: TargetFile)
    returns (prev: Option<Block>, blocks: map<string, Block>, blockMap: map<string, BlockInfo>)
    requires |f.contents| < TWO_TO_THE_63
    requires f.pos == Last(f.contents) * BUFFER_SIZE
    modifies f`pos
    ensures HashOrNil(h, prev) == Link(h, f.contents, 0)
    ensures blocks == BlocksFrom(h, f.contents, 0) && blockMap == InfosFrom(h, f.contents, 0)
  {
    ghost var file: Contents := f.contents;
    var index := |f.contents| / BUFFER_SIZE;
    var skips: map<Word, string> := map[];
    prev, blocks, blockMap := None, map[], map[];
    while index > -1
      invariant -1 <= index <= Last(file)
      invariant index >= 0 ==> f.pos == index * BUFFER_SIZE
      invariant HashOrNil(h, prev) == Link(h, file, index + 1)
      invariant LinksFrom(h, file, index + 1, skips)
      invariant blockMap == InfosFrom(h, file, index + 1)
      invariant blocks == BlocksFrom(h, file, index + 1)
    {
      var curr := BackwardRound(h, f, index, prev, skips);
      var blockHash := h.block(curr);
      blocks := blocks[blockHash := curr];
      blockMap := blockMap[blockHash := curr.ToBlockInfo()];
      prev := Some(curr);
      skips := skips[curr.index := blockHash];
      index := index - 1;
    }
  }

  /** The hash reached from `start` by n next links of these blocks. */
  function Reached(blocks: map<string, Block>, start: string, n: nat): string {
    if n == 0 then start
    else
      var s := Reached(blocks, start, n - 1);
      if s in blocks then blocks[s].nextBlockHash else ""
  }

  /** The block that links lead to at index i hashes to its own key when its data is read again. */
  predicate ReadsBack(h: Hasher, file: Contents, blocks: map<string, Block>, start: string, i: nat)
    requires i <= Last(file)
  {
    var s := Reached(blocks, start, i);
    s in blocks && h.block(Reread(h, file, blocks[s], i)) == s
  }

  function Reread(h: Hasher, file: Contents, known: Block, i: nat): Block
    requires i <= Last(file)
  {
    Block(i, known.nextBlockHash, known.leftBlockHash, known.rightBlockHash, Chunk(file, i), h.data(Chunk(file, i)))
  }

  /** Every block that has data reads back. */
  ghost predicate AllReadBack(h: Hasher, file: Contents, blocks: map<string, Block>, start: string) {
    forall i: nat :: i * BUFFER_SIZE < |file| ==> ReadsBack(h, file, blocks, start, i)
  }

  /** The forward check of calculateChain (files.go:387-419), from the start of the file.
      It ends before an empty last block, which it does not look at. */
  method CheckForward(h: Hasher, f: TargetFile, blocks: map<string, Block>, firstBlockHash: string)
    returns (failure: Option<ChainError>)
    requires |f.contents| < TWO_TO_THE_63 && f.pos == 0
    requires blocks == BlocksFrom(h, f.contents, 0) && firstBlockHash == Link(h, f.contents, 0)
    modifies f`pos
    ensures failure.None? <==> AllReadBack(h, f.contents, blocks, firstBlockHash)
    ensures failure.Some? ==> ChainCollides(h, f.contents)
  {
    ghost var file: Contents := f.contents;
    var currBlockHash := firstBlockHash;
    var index: Word := 0;
    while true
      invariant index <= Last(file) + 1
      invariant f.pos == if index * BUFFER_SIZE <= |file| then index * BUFFER_SIZE else |file|
      invariant currBlockHash == Reached(blocks, firstBlockHash, index)
      invariant forall i: nat :: i < index ==> ReadsBack(h, file, blocks, firstBlockHash, i)
      invariant ChainCollides(h, file) || currBlockHash == Link(h, file, index)
      decreases |file| - f.pos
    {
      if index <= Last(file) {
        ChunkFromEnd(file, index);
      }
      var data, eof := f.Read(BUFFER_SIZE);
      if eof {
        return None;
      }
      assert ReadsBack(h, file, blocks, firstBlockHash, index) ==> currBlockHash in blocks;
      if !ChainCollides(h, file) {
        InfosFromAt(h, file, 0, index);
      }
      if currBlockHash !in blocks {
        return Some(NilBlock);
      }
      var known := blocks[currBlockHash];
      var curr := Block(index, known.nextBlockHash, known.leftBlockHash, known.rightBlockHash, data, h.data(data));
      if h.block(curr) != currBlockHash {
        return Some(VerifyFailed);
      }
      currBlockHash := curr.nextBlockHash;
      index := index + 1;
    }
  }

  method CalculateChain(h: Hasher, f: TargetFile, size: int) returns (r: ChainResult)
    requires |f.contents| < TWO_TO_THE_63
    requires size >= 0 ==> |f.contents| == size
    modifies f`pos
    ensures size < 0 ==> r == Failed(NegativeSize)
    ensures size >= 0 && r.Built? ==>
      r == Built(Link(h, f.contents, 0), InfosFrom(h, f.contents, 0))
    ensures size >= 0 ==>
      (r.Built? <==> AllReadBack(h, f.contents, BlocksFrom(h, f.contents, 0), Link(h, f.contents, 0)))
    ensures size >= 0 && r.Failed? ==> ChainCollides(h, f.contents)
  {
    if size < 0 {
      return Failed(NegativeSize);
    }
    var ok := f.SeekFrom(|f.contents|, -(size % BUFFER_SIZE));
    if !ok {
      return Failed(SeekFailed);
    }
    var prev, blocks, blockMap := ReadBackward(h, f);
    ok := f.SeekFrom(0, 0);
    var failure := CheckForward(h, f, blocks, HashOrNil(h, prev));
    if failure.Some? {
      return Failed(failure.value);
    }
    return Built(HashOrNil(h, prev), blockMap);
  }

  // ------------------------------------------------------------------ buildBlockLookup

  /** The hash reached from `start` by following n links; a hash that is not in the map
      has no next block, as Go's zero value makes it. */
  function Follow(blockMap: map<string, BlockInfo>, start: string, n: nat): string {
    if n == 0 then start
    else
      var s := Follow(blockMap, start, n - 1);
      if s in blockMap then blockMap[s].nextBlockHash else ""
  }

  /** The loop of buildBlockLookup ends after exactly n rounds. */
  ghost predicate EndsAfter(blockMap: map<string, BlockInfo>, start: string, n: nat) {
    Follow(blockMap, start, n) == "" && forall k: nat :: k < n ==> Follow(blockMap, start, k) != ""
  }

  /** The source loops for ever when the links of the map form a cycle; the ghost
      parameter is the number of rounds after which they end. */
  method BuildBlockLookup(blockMap: map<string, BlockInfo>, firstBlockHash: string, ghost rounds: nat)
    returns (blockLookup: map<Word, string>)
    requires EndsAfter(blockMap, firstBlockHash, rounds) && rounds < TWO_TO_THE_64
    ensures forall i: Word :: i in blockLookup <==> i < rounds
    ensures forall i: Word {:trigger blockLookup[i]} :: i in blockLookup ==>
      blockLookup[i] == Follow(blockMap, firstBlockHash, i)
  {
    var currBlockHash := firstBlockHash;
    var idx: Word := 0;
    blockLookup := map[];
    while currBlockHash != ""
      invariant idx <= rounds && currBlockHash == Follow(blockMap, firstBlockHash, idx)
      invariant forall i: Word :: i in blockLookup <==> i < idx
      invariant forall i: Word {:trigger blockLookup[i]} :: i in blockLookup ==>
        blockLookup[i] == Follow(blockMap, firstBlockHash, i)
      decreases rounds - idx
    {
      assert idx < rounds;
      blockLookup := blockLookup[idx := currBlockHash];
      currBlockHash := if currBlockHash in blockMap then blockMap[currBlockHash].nextBlockHash else "";
      assert currBlockHash == Follow(blockMap, firstBlockHash, idx + 1);
      idx := idx + 1;
    }
  }

  /** On a map built by calculateChain the links run through the whole chain, in order,
      and end: buildBlockLookup maps exactly 0..Size/BUFFER_SIZE to the true hashes. */
  lemma {:induction false} ChainLinks(h: Hasher, file: Contents, n: nat)
    requires !ChainCollides(h, file) && n <= Last(file) + 1
    ensures Follow(InfosFrom(h, file, 0), Link(h, file, 0), n) == Link(h, file, n)
  {
    if n > 0 {
      ChainLinks(h, file, n - 1);
      InfosFromAt(h, file, 0, n - 1);
    }
  }

  lemma ChainEnds(h: Hasher, file: Contents)
    requires !ChainCollides(h, file)
    ensures EndsAfter(InfosFrom(h, file, 0), Link(h, file, 0), Last(file) + 1)
  {
    ChainLinks(h, file, Last(file) + 1);
    forall k: nat | k < Last(file) + 1
      ensures Follow(InfosFrom(h, file, 0), Link(h, file, 0), k) != ""
    {
      ChainLinks(h, file, k);
    }
  }

  // ------------------------------------------------------------------ the chunks

  ghost function ChunksFrom(file: Contents, i: nat): seq<Byte>
    decreases Last(file) + 1 - i
  {
    if i > Last(file) then [] else Chunk(file, i) + ChunksFrom(file, i + 1)
  }

  lemma {:induction false} ChunksFromAreTheRest(file: Contents, i: nat)
    requires i <= Last(file)
    ensures ChunksFrom(file, i) == file[i * BUFFER_SIZE..]
    decreases Last(file) - i
  {
    if i < Last(file) {
      ChunksFromAreTheRest(file, i + 1);
    }
  }

  /** The data of the chain's blocks, put together, is the file. */
  lemma ChunksMakeTheFile(file: Contents)
    ensures ChunksFrom(file, 0) == file
  {
    ChunksFromAreTheRest(file, 0);
  }
}
