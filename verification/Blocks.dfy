/** The records of white-box/files.go and the uninterpreted hash. */
module Blocks {
  import opened Words

  const BUFFER_SIZE: nat := 10240
  const TWO_TO_THE_63: nat := 0x8000_0000_0000_0000

  newtype Byte = b: int | 0 <= b < 256

  datatype Option<+T> = None | Some(value: T) {
    function GetOr(default: T): T {
      if None? then default else value
    }
  }

  datatype Block = Block(
    index: Word,
    nextBlockHash: string,
    leftBlockHash: string,
    rightBlockHash: string,
    data: seq<Byte>,
    dataHash: string)
  {
    function ToBlockInfo(): BlockInfo {
      BlockInfo(index, nextBlockHash, leftBlockHash, rightBlockHash, dataHash)
    }
  }

  datatype BlockInfo = BlockInfo(
    index: Word,
    nextBlockHash: string,
    leftBlockHash: string,
    rightBlockHash: string,
    dataHash: string)
  {
    function ToBlock(data: seq<Byte>): (block: Block)
      ensures block.ToBlockInfo() == this && block.data == data
    {
      Block(index, nextBlockHash, leftBlockHash, rightBlockHash, data, dataHash)
    }
  }

  /** The two hashes, left uninterpreted: `data` stands for sha256Bytes and `block`
      for sha256Block of a block that is not nil.  All that is known of them is that
      a digest is not the empty string, which the source uses for "no block". */
  datatype Hashes = Hashes(data: seq<Byte> -> string, block: Block -> string)

  ghost predicate NeverEmpty(h: Hashes) {
    forall b: Block :: h.block(b) != ""
  }

  type Hasher = h: Hashes | NeverEmpty(h)
    ghost witness Hashes(_ => "0", _ => "0")

  /** sha256Block, nil included */
  function HashOrNil(h: Hasher, block: Option<Block>): string {
    if block.None? then "" else h.block(block.value)
  }

  // ------------------------------------------------------------------ tree indices

  function LeftChild(i: Word): Word { (2 * i + 1) % TWO_TO_THE_64 }

  function RightChild(i: Word): Word { (2 * i + 2) % TWO_TO_THE_64 }

  function LeftParent(i: Word): Word
    requires i >= 1
  {
    (i - 1) / 2
  }

  function RightParent(i: Word): Word
    requires i >= 2
  {
    (i - 2) / 2
  }

  function TreeParent(i: Word): Word
    requires i >= 1
  {
    if i % 2 == 1 then LeftParent(i) else RightParent(i)
  }

  /** The two children of a node and the parent of a node are inverse to each other as
      long as the child index has not wrapped around; LeftParent alone computes the
      parent for both kinds of child. */
  lemma TreeIndices(p: Word, i: Word)
    requires i >= 1 && 2 * p + 2 < TWO_TO_THE_64
    ensures TreeParent(i) == p <==> i == LeftChild(p) || i == RightChild(p)
    ensures i == LeftChild(p) ==> i % 2 == 1
    ensures i == RightChild(p) ==> i % 2 == 0
    ensures TreeParent(i) == LeftParent(i) < i
  {
  }
}
