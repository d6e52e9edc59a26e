/** What sha256Block of white-box/files.go hashes: the fields of a block one after the other, with
    nothing between them.  If that sum is all that block hashes are, an accepted block has the
    true index, and its fields concatenate to those of the true block; where they are cut is
    another question. */
module Preimages {
  import opened Words
  import opened Blocks
  import opened Chain
  import opened Download

  /** strconv.FormatUint(n, 10) */
  function Decimal(n: nat): string {
    if n < 10 then ["0123456789"[n]] else Decimal(n / 10) + ["0123456789"[n % 10]]
  }

  function Chars(data: seq<Byte>): (s: string)
    ensures |s| == |data| && forall i :: 0 <= i < |s| ==> s[i] == data[i] as char
  {
    seq(|data|, i requires 0 <= i < |data| => data[i] as char)
  }

  lemma CharsInjective(a: seq<Byte>, b: seq<Byte>)
    requires Chars(a) == Chars(b)
    ensures a == b
  {
    forall i | 0 <= i < |a|
      ensures a[i] == b[i]
    {
      assert Chars(a)[i] == Chars(b)[i];
    }
  }

  function Links(b: Block): string {
    b.nextBlockHash + b.leftBlockHash + b.rightBlockHash
  }

  /** What is hashed after the index. */
  function Tail(b: Block): string {
    Links(b) + (b.dataHash + Chars(b.data))
  }

  function Preimage(b: Block): string {
    Decimal(b.index) + Tail(b)
  }

  /** Both hashes are one sum of a string of bytes. */
  ghost predicate SumsBytes(h: Hasher, sum: string -> string) {
    && (forall b: Block :: h.block(b) == sum(Preimage(b)))
    && (forall data: seq<Byte> :: h.data(data) == sum(Chars(data)))
  }

  /** Two different strings with one sum. */
  ghost predicate SumsCollide(sum: string -> string, x: string, y: string) {
    x != y && sum(x) == sum(y)
  }

  predicate EndsWith(s: string, end: string) {
    |end| <= |s| && s[|s| - |end|..] == end
  }

  lemma SamePrefix(p: string, x: string, y: string)
    requires p + x == p + y
    ensures x == y
  {
    assert x == (p + x)[|p|..];
    assert y == (p + y)[|p|..];
  }

  lemma CutAtEnd(a: string, x: string, b: string, y: string)
    requires a + x == b + y && |x| == |y|
    ensures a == b && x == y
  {
    assert a == (a + x)[..|a|] && x == (a + x)[|a|..];
    assert b == (b + y)[..|b|] && y == (b + y)[|b|..];
  }

  /** An accepted block is in the file at its index, and after the index the same bytes were
      hashed as for the true block, or the sum of two strings at hand collides. */
  lemma AcceptedTail(h: Hasher, sum: string -> string, file: Contents, st: FileState, b: Block)
    requires SumsBytes(h, sum) && KnowsTruth(h, file, st) && !ChainCollides(h, file) && Accepts(h, st, b)
    ensures b.index <= Last(file)
    ensures var t := TrueBlock(h, file, b.index);
      Tail(b) == Tail(t) || SumsCollide(sum, Preimage(b), Preimage(t))
  {
    if b.index > 0 {
      TrueCheck(h, file, st, b.index);
    }
    var t := TrueBlock(h, file, b.index);
    assert h.block(b) == h.block(t);
    if Preimage(b) == Preimage(t) {
      SamePrefix(Decimal(b.index), Tail(b), Tail(t));
    }
  }

  /** Two blocks of equally much data, each with its digest. */
  lemma SameTailSameData(h: Hasher, b: Block, t: Block)
    requires Tail(b) == Tail(t) && |b.data| == |t.data|
    requires b.dataHash == h.data(b.data) && t.dataHash == h.data(t.data)
    ensures b.data == t.data && b.dataHash == t.dataHash && Links(b) == Links(t)
  {
    assert (Links(b) + b.dataHash) + Chars(b.data) == Tail(b);
    assert (Links(t) + t.dataHash) + Chars(t.data) == Tail(t);
    CutAtEnd(Links(b) + b.dataHash, Chars(b.data), Links(t) + t.dataHash, Chars(t.data));
    CharsInjective(b.data, t.data);
    CutAtEnd(Links(b), b.dataHash, Links(t), t.dataHash);
  }

  /** It has the true data exactly if it has as much data, which a downloader can tell from Size
      and the index.  Then its three links concatenate to the true ones as well: only where they
      are cut may differ. */
  lemma AcceptedData(h: Hasher, sum: string -> string, file: Contents, st: FileState, b: Block)
    requires SumsBytes(h, sum) && KnowsTruth(h, file, st) && !ChainCollides(h, file) && Accepts(h, st, b)
    ensures b.index <= Last(file)
    ensures var t := TrueBlock(h, file, b.index);
      || SumsCollide(sum, Preimage(b), Preimage(t))
      || ((b.data == t.data <==> |b.data| == DataLength(|file|, b.index))
          && (b.data == t.data ==> b.dataHash == t.dataHash && Links(b) == Links(t)))
  {
    AcceptedTail(h, sum, file, st, b);
    var t := TrueBlock(h, file, b.index);
    if Tail(b) == Tail(t) && |b.data| == |t.data| {
      SameTailSameData(h, b, t);
    }
  }

  /** How much data the block at an index has. */
  function DataLength(size: nat, i: nat): nat
    requires i <= size / BUFFER_SIZE
  {
    if (i + 1) * BUFFER_SIZE <= size then BUFFER_SIZE else size - i * BUFFER_SIZE
  }

  /** The state demands a hash of the block at that index. */
  ghost predicate Demands(st: FileState, i: Word) {
    i == 0 || Knows(st, i - 1) || Knows(st, TreeParent(i))
  }

  ghost predicate Takes(h: Hasher, st: FileState, i: Word, data: seq<Byte>, b: Block) {
    b.index == i && b.data == data && Accepts(h, st, b)
  }

  /** Which data can pass for a block, wherever a hash is demanded.  Without a collision of the
      sum, some block with that data is accepted exactly if what is hashed of the true block ends
      with the data and its digest before it: the true data does, and so does any ending of the
      file's own bytes that follows its own digest. */
  lemma TakesExactly(h: Hasher, sum: string -> string, file: Contents, st: FileState, i: Word, data: seq<Byte>)
    requires SumsBytes(h, sum) && KnowsTruth(h, file, st) && !ChainCollides(h, file)
    requires i <= Last(file) && Demands(st, i)
    ensures var t := TrueBlock(h, file, i);
      (exists b :: Takes(h, st, i, data, b) && !SumsCollide(sum, Preimage(b), Preimage(t)))
      <==> EndsWith(Tail(t), h.data(data) + Chars(data))
  {
    var t := TrueBlock(h, file, i);
    var end := h.data(data) + Chars(data);
    if EndsWith(Tail(t), end) {
      var b := CutBefore(h, Tail(t), i, data);
      SameTailIsAccepted(h, sum, file, st, b);
      assert Takes(h, st, i, data, b) && Preimage(b) == Preimage(t);
    }
    if b :| Takes(h, st, i, data, b) && !SumsCollide(sum, Preimage(b), Preimage(t)) {
      AcceptedTail(h, sum, file, st, b);
      assert Tail(b) == Links(b) + end;
    }
  }

  /** The block with that data whose fields concatenate to those of another. */
  ghost function CutBefore(h: Hasher, tail: string, i: Word, data: seq<Byte>): (b: Block)
    requires EndsWith(tail, h.data(data) + Chars(data))
    ensures Tail(b) == tail && b.index == i && b.data == data && b.dataHash == h.data(data)
  {
    var end := h.data(data) + Chars(data);
    var b := Block(i, tail[..|tail| - |end|], "", "", data, h.data(data));
    assert Tail(b) == tail[..|tail| - |end|] + end;
    b
  }

  lemma SameTailIsAccepted(h: Hasher, sum: string -> string, file: Contents, st: FileState, b: Block)
    requires SumsBytes(h, sum) && KnowsTruth(h, file, st) && !ChainCollides(h, file)
    requires b.index <= Last(file) && Demands(st, b.index)
    requires b.dataHash == h.data(b.data) && Tail(b) == Tail(TrueBlock(h, file, b.index))
    ensures Accepts(h, st, b)
  {
    assert h.block(b) == Link(h, file, b.index);
    if b.index > 0 {
      TrueDemand(h, file, st, b.index);
    }
  }

  /** The true data is taken. */
  lemma TrueDataIsTaken(h: Hasher, file: Contents, i: nat)
    requires i <= Last(file)
    ensures EndsWith(Tail(TrueBlock(h, file, i)), h.data(Chunk(file, i)) + Chars(Chunk(file, i)))
  {
  }

  lemma EndOfEnd(a: string, s: string, end: string)
    requires EndsWith(s, end)
    ensures EndsWith(a + s, end)
  {
    assert (a + s)[|a + s| - |end|..] == s[|s| - |end|..];
  }

  /** A block of the file whose bytes end with some shorter data after its digest: that data is
      taken for it as well, by a downloader that has a parent of the block. */
  lemma EndingIsTaken(h: Hasher, sum: string -> string, file: Contents, st: FileState, i: Word, data: seq<Byte>)
    requires SumsBytes(h, sum) && KnowsTruth(h, file, st) && !ChainCollides(h, file)
    requires i <= Last(file) && Demands(st, i)
    requires |data| < |Chunk(file, i)| && EndsWith(Chars(Chunk(file, i)), h.data(data) + Chars(data))
    ensures exists b :: Takes(h, st, i, data, b) && b.data != Chunk(file, i)
  {
    var t := TrueBlock(h, file, i);
    EndOfEnd(Links(t) + t.dataHash, Chars(t.data), h.data(data) + Chars(data));
    assert (Links(t) + t.dataHash) + Chars(t.data) == Tail(t);
    var b := CutBefore(h, Tail(t), i, data);
    SameTailIsAccepted(h, sum, file, st, b);
    assert Takes(h, st, i, data, b);
  }

  /** The bytes of a string. */
  function Bytes(s: string): (data: seq<Byte>)
    requires forall i :: 0 <= i < |s| ==> s[i] as int < 256
    ensures Chars(data) == s
  {
    seq(|s|, i requires 0 <= i < |s| => s[i] as int as Byte)
  }

  /** Such files are there: the digest of any data, then the data, in one block.  A downloader
      that has just started takes the data alone for the whole file. */
  lemma DigestThenData(h: Hasher, sum: string -> string, data: seq<Byte>) returns (file: Contents)
    requires SumsBytes(h, sum) && h.data(data) != "" && |h.data(data)| + |data| <= BUFFER_SIZE
    requires forall i :: 0 <= i < |h.data(data)| ==> h.data(data)[i] as int < 256
    ensures file == Bytes(h.data(data)) + data
    ensures forall st :: JustStarted(h, file, st) ==>
      exists b :: Takes(h, st, 0, data, b) && b.data != Chunk(file, 0)
  {
    file := Bytes(h.data(data)) + data;
    assert Chars(file) == h.data(data) + Chars(data);
    var t := TrueBlock(h, file, 0);
    assert t.data == file;
    EndOfEnd(Links(t) + t.dataHash, Chars(file), h.data(data) + Chars(data));
    assert (Links(t) + t.dataHash) + Chars(file) == Tail(t);
    var b := CutBefore(h, Tail(t), 0, data);
    assert h.block(b) == h.block(t);
    forall st | JustStarted(h, file, st)
      ensures exists b :: Takes(h, st, 0, data, b) && b.data != Chunk(file, 0)
    {
      assert Takes(h, st, 0, data, b);
    }
  }
}
