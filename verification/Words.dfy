/** Go's unsigned 64-bit integers as natural numbers below 2^64, with the bit
    operators that the coverage bitmaps use.  Each operator works on the binary
    digits, least significant first; the lemmas give its meaning bit by bit. */
module Words {

  const TWO_TO_THE_64: nat := 0x1_0000_0000_0000_0000

  type Word = w: nat | w < TWO_TO_THE_64

  /** `(w >> i) & 1 == 1` */
  predicate Bit(w: nat, i: nat) {
    if i == 0 then w % 2 == 1 else Bit(w / 2, i - 1)
  }

  /** `1 << i`, before it is cut to 64 bits */
  function Pow2(i: nat): (p: nat)
    ensures p > 0
  {
    if i == 0 then 1 else 2 * Pow2(i - 1)
  }

  /** `a | b` */
  function Or(a: nat, b: nat): nat {
    if a == 0 && b == 0 then 0
    else (if a % 2 == 1 || b % 2 == 1 then 1 else 0) + 2 * Or(a / 2, b / 2)
  }

  /** `a & b` */
  function And(a: nat, b: nat): nat {
    if a == 0 || b == 0 then 0
    else (if a % 2 == 1 && b % 2 == 1 then 1 else 0) + 2 * And(a / 2, b / 2)
  }

  lemma {:induction false} ZeroBits(i: nat)
    ensures !Bit(0, i)
  {
    if i > 0 {
      ZeroBits(i - 1);
    }
  }

  lemma {:induction false} OrBits(a: nat, b: nat, i: nat)
    ensures Bit(Or(a, b), i) <==> Bit(a, i) || Bit(b, i)
    decreases i
  {
    if a == 0 && b == 0 {
      ZeroBits(i);
    } else if i > 0 {
      OrBits(a / 2, b / 2, i - 1);
    }
  }

  lemma {:induction false} AndBits(a: nat, b: nat, i: nat)
    ensures Bit(And(a, b), i) <==> Bit(a, i) && Bit(b, i)
    decreases i
  {
    if a == 0 || b == 0 {
      ZeroBits(i);
    } else if i > 0 {
      AndBits(a / 2, b / 2, i - 1);
    }
  }

  lemma {:induction false} ShiftedOneBits(i: nat, j: nat)
    ensures Bit(Pow2(i), j) <==> i == j
    decreases i
  {
    if i == 0 && j > 0 {
      ZeroBits(j - 1);
    } else if i > 0 && j > 0 {
      ShiftedOneBits(i - 1, j - 1);
    }
  }

  /** Two numbers of at most k binary digits that agree on the first k bits are equal. */
  lemma {:induction false} SameBits(a: nat, b: nat, k: nat)
    requires a < Pow2(k) && b < Pow2(k)
    requires forall i: nat :: i < k ==> Bit(a, i) == Bit(b, i)
    ensures a == b
    decreases k
  {
    if k > 0 {
      assert Bit(a, 0) == Bit(b, 0);
      forall i: nat | i < k - 1
        ensures Bit(a / 2, i) == Bit(b / 2, i)
      {
        assert Bit(a, i + 1) == Bit(b, i + 1);
      }
      SameBits(a / 2, b / 2, k - 1);
    }
  }

  lemma {:induction false} OrFits(a: nat, b: nat, k: nat)
    requires a < Pow2(k) && b < Pow2(k)
    ensures Or(a, b) < Pow2(k)
    decreases k
  {
    if k > 0 && !(a == 0 && b == 0) {
      OrFits(a / 2, b / 2, k - 1);
    }
  }

  lemma {:induction false} AndFits(a: nat, b: nat, k: nat)
    requires a < Pow2(k)
    ensures And(a, b) < Pow2(k)
    decreases k
  {
    if k > 0 && a != 0 && b != 0 {
      AndFits(a / 2, b / 2, k - 1);
    }
  }

  lemma {:induction false} Pow2Monotone(i: nat, k: nat)
    requires i <= k
    ensures Pow2(i) <= Pow2(k)
    decreases k - i
  {
    if i < k {
      Pow2Monotone(i + 1, k);
    }
  }

  lemma Pow2At64()
    ensures Pow2(64) == TWO_TO_THE_64
  {
    Pow2At32();
    Pow2Sum(32, 32);
  }

  lemma Pow2At32()
    ensures Pow2(32) == 0x1_0000_0000
  {
    assert Pow2(4) == 16;
    Pow2Sum(4, 4);
    Pow2Sum(8, 8);
    Pow2Sum(16, 16);
  }

  lemma {:induction false} Pow2Sum(i: nat, j: nat)
    ensures Pow2(i + j) == Pow2(i) * Pow2(j)
    decreases j
  {
    if j > 0 {
      Pow2Sum(i, j - 1);
    }
  }

  /** `w | (1 << i)` on a 64-bit word sets bit i and no other. */
  function SetBit(w: Word, i: nat): (r: Word)
    requires i < 64
    ensures forall j: nat :: j < 64 ==> (Bit(r, j) <==> i == j || Bit(w, j))
  {
    SetBitFacts(w, i);
    Or(w, Pow2(i))
  }

  lemma SetBitFacts(w: Word, i: nat)
    requires i < 64
    ensures Or(w, Pow2(i)) < TWO_TO_THE_64
    ensures forall j: nat :: Bit(Or(w, Pow2(i)), j) <==> i == j || Bit(w, j)
  {
    Pow2At64();
    Pow2Monotone(i + 1, 64);
    OrFits(w, Pow2(i), 64);
    forall j: nat
      ensures Bit(Or(w, Pow2(i)), j) <==> i == j || Bit(w, j)
    {
      OrBits(w, Pow2(i), j);
      ShiftedOneBits(i, j);
    }
  }

  /** `a & b` on 64-bit words */
  function Mask(a: Word, b: Word): (r: Word)
    ensures forall j: nat :: j < 64 ==> (Bit(r, j) <==> Bit(a, j) && Bit(b, j))
  {
    MaskFacts(a, b);
    And(a, b)
  }

  lemma MaskFacts(a: Word, b: Word)
    ensures And(a, b) < TWO_TO_THE_64
    ensures forall j: nat :: Bit(And(a, b), j) <==> Bit(a, j) && Bit(b, j)
  {
    Pow2At64();
    AndFits(a, b, 64);
    forall j: nat
      ensures Bit(And(a, b), j) <==> Bit(a, j) && Bit(b, j)
    {
      AndBits(a, b, j);
    }
  }

  lemma SameWord(a: Word, b: Word)
    requires forall i: nat :: i < 64 ==> Bit(a, i) == Bit(b, i)
    ensures a == b
  {
    Pow2At64();
    SameBits(a, b, 64);
  }

  /** A word other than zero has a bit set. */
  lemma NonzeroWordBit(w: Word) returns (i: nat)
    requires w != 0
    ensures i < 64 && Bit(w, i)
  {
    if forall j: nat | j < 64 :: Bit(w, j) == Bit(0, j) {
      SameWord(w, 0);
      assert false;
    }
    i :| i < 64 && Bit(w, i) != Bit(0, i);
    ZeroBits(i);
  }
}
