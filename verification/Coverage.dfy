/** Coverage bitmaps of white-box/files.go and party.go: a slice of 64-bit words, one
    bit a block. */
module Coverage {
  import opened Words
  import opened Blocks

  /** `(c[j/64] >> (j%64)) & 1 == 1`, false past the end of the slice */
  predicate Has(c: seq<Word>, j: nat) {
    j / 64 < |c| && Bit(c[j / 64], j % 64)
  }

  /** The blocks that hold data: the index of the extra empty block that the chain has
      when size is a multiple of BUFFER_SIZE is not among them. */
  function RealBlocks(size: nat): nat {
    (size + BUFFER_SIZE - 1) / BUFFER_SIZE
  }

  function WordsFor(size: nat): nat {
    (size + 64 * BUFFER_SIZE - 1) / (64 * BUFFER_SIZE)
  }

  ghost predicate IsFull(size: nat, c: seq<Word>) {
    forall j: nat :: Has(c, j) <==> j < RealBlocks(size)
  }

  ghost predicate IsEmpty(c: seq<Word>) {
    forall j: nat :: !Has(c, j)
  }

  /** `c[j/64] |= 1 << (j%64)` */
  function Mark(c: seq<Word>, j: nat): (r: seq<Word>)
    requires j / 64 < |c|
    ensures |r| == |c|
    ensures forall k: nat :: Has(r, k) <==> k == j || Has(c, k)
  {
    var r := c[j / 64 := SetBit(c[j / 64], j % 64)];
    assert forall k: nat :: Has(r, k) <==> k == j || Has(c, k) by {
      forall k: nat
        ensures Has(r, k) <==> k == j || Has(c, k)
      {
        assert k == 64 * (k / 64) + k % 64;
        assert j == 64 * (j / 64) + j % 64;
      }
    }
    r
  }

  /** A bitmap is determined by its length and the set of blocks it has. */
  lemma SameCoverage(a: seq<Word>, b: seq<Word>)
    requires |a| == |b|
    requires forall j: nat :: Has(a, j) == Has(b, j)
    ensures a == b
  {
    forall w | 0 <= w < |a|
      ensures a[w] == b[w]
    {
      forall i: nat | i < 64
        ensures Bit(a[w], i) == Bit(b[w], i)
      {
        assert Has(a, 64 * w + i) == Has(b, 64 * w + i);
      }
      SameWord(a[w], b[w]);
    }
  }

  method EmptyCoverage(size: nat) returns (coverage: seq<Word>)
    ensures |coverage| == WordsFor(size)
    ensures IsEmpty(coverage)
  {
    var count := size / (BUFFER_SIZE * 64);
    if size % (BUFFER_SIZE * 64) != 0 {
      count := count + 1;
    }
    coverage := seq(count, _ => 0);
    forall j: nat
      ensures !Has(coverage, j)
    {
      if j / 64 < |coverage| {
        ZeroBits(j % 64);
      }
    }
  }

  method FullCoverage(size: nat) returns (coverage: seq<Word>)
    ensures |coverage| == WordsFor(size)
    ensures IsFull(size, coverage)
  {
    coverage := [];
    var curr: Word := 0;
    var i := 0;
    forall b: nat
      ensures !Bit(curr, b)
    {
      ZeroBits(b);
    }
    while i * BUFFER_SIZE < size
      invariant i <= RealBlocks(size)
      invariant |coverage| == i / 64
      invariant forall w, b: nat :: 0 <= w < |coverage| && b < 64 ==> Bit(coverage[w], b)
      invariant forall b: nat :: b < 64 ==> (Bit(curr, b) <==> b < i % 64)
    {
      curr := SetBit(curr, i % 64);
      if (i + 1) % 64 == 0 {
        coverage := coverage + [curr];
        curr := 0;
        forall b: nat
          ensures !Bit(curr, b)
        {
          ZeroBits(b);
        }
      }
      i := i + 1;
    }
    if curr != 0 {
      ghost var b := NonzeroWordBit(curr);
      coverage := coverage + [curr];
    } else {
      ZeroBits(0);
      assert Bit(curr, 0) <==> 0 < i % 64;
    }
  }

  /** What isFullCoverage answers, or that it panics. */
  datatype Answer = Panic | Answer(yes: bool)

  /** None is the nil slice, which panics also where a full coverage has no words. */
  method IsFullCoverage(size: nat, coverage: Option<seq<Word>>) returns (r: Answer)
    ensures r == Panic <==> coverage.None? || |coverage.value| != WordsFor(size)
    ensures r == Answer(true) <==> coverage.Some? && |coverage.value| == WordsFor(size) && IsFull(size, coverage.value)
  {
    var compare := FullCoverage(size);
    if coverage.None? {
      return Panic;
    }
    var words := coverage.value;
    if |words| != |compare| {
      return Panic;
    }
    var i := 0;
    while i < |words|
      invariant 0 <= i <= |words|
      invariant words[..i] == compare[..i]
    {
      if words[i] != compare[i] {
        if IsFull(size, words) {
          SameCoverage(words, compare);
        }
        return Answer(false);
      }
      i := i + 1;
    }
    assert words == compare;
    return Answer(true);
  }

  method IsEmptyCoverage(coverage: seq<Word>) returns (empty: bool)
    ensures empty <==> IsEmpty(coverage)
  {
    var i := 0;
    while i < |coverage|
      invariant 0 <= i <= |coverage|
      invariant forall w :: 0 <= w < i ==> coverage[w] == 0
    {
      if coverage[i] != 0 {
        ghost var b := NonzeroWordBit(coverage[i]);
        assert Has(coverage, 64 * i + b);
        return false;
      }
      i := i + 1;
    }
    forall j: nat
      ensures !Has(coverage, j)
    {
      if j / 64 < |coverage| {
        ZeroBits(j % 64);
      }
    }
    return true;
  }
}
