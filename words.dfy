/** Bits of the unsigned 32-bit words that make up a planner state.

  Bit `k` of a word is read by shifting it right `k` times and looking at
  the lowest bit, which is how the state iterator walks a word.  The
  source's masks `1 << j` and shifts `w >> n` are tied to that reading by
  the lemmas below.
*/
module Words {

  /** One shift to the right. */
  function Half(w: bv32): bv32 {
    w >> 1
  }

  /** The lowest bit is set. */
  predicate Odd(w: bv32) {
    w & 1 == 1
  }

  /** Bit `k` of `w` is set (always false from bit 32 on). */
  predicate BitAt(w: bv32, k: nat)
    decreases k
  {
    if k == 0 then Odd(w) else BitAt(Half(w), k - 1)
  }

  /** `w` shifted right `n` times. */
  function ShiftN(w: bv32, n: nat): bv32
    decreases n
  {
    if n == 0 then w else Half(ShiftN(w, n - 1))
  }

  /** The bit-vector of a count up to 32. */
  function Low(r: nat): bv32
    decreases r
  {
    if r == 0 then 0 else Low(r - 1) + 1
  }

  lemma {:induction false} LowValue(r: nat)
    requires r <= 32
    ensures Low(r) as int == r
    decreases r
  {
    if r > 0 {
      LowValue(r - 1);
    }
  }

  /** The source's mask `1 << j`. */
  function Mask(j: nat): bv32
    requires j < 32
  {
    LowValue(j);
    1 << Low(j)
  }

  /** `m` has exactly bit `j` set. */
  predicate IsMask(m: bv32, j: nat)
    decreases j
  {
    if j == 0 then m == 1 else !Odd(m) && IsMask(Half(m), j - 1)
  }

  function One(): bv32 {
    1
  }

  lemma ShiftedOne(m: bv32)
    requires m < 31
    ensures Half(One() << (m + 1)) == One() << m && !Odd(One() << (m + 1))
  {
  }

  lemma {:induction false} MaskIsMask(j: nat)
    requires j < 32
    ensures IsMask(Mask(j), j)
    decreases j
  {
    if j > 0 {
      MaskIsMask(j - 1);
      LowValue(j - 1);
      LowValue(j);
      ShiftedOne(Low(j - 1));
    }
  }

  lemma {:induction false} ZeroBit(k: nat)
    ensures !BitAt(0, k)
    decreases k
  {
    if k > 0 {
      assert Half(0) == 0;
      ZeroBit(k - 1);
    }
  }

  lemma {:induction false} IsMaskBit(m: bv32, j: nat, k: nat)
    requires IsMask(m, j)
    ensures BitAt(m, k) == (k == j)
    decreases k
  {
    if k > 0 {
      if j == 0 {
        assert Half(m) == 0;
        ZeroBit(k - 1);
      } else {
        IsMaskBit(Half(m), j - 1, k - 1);
      }
    }
  }


  lemma OrStep(w: bv32, v: bv32)
    ensures Half(w | v) == Half(w) | Half(v)
    ensures Odd(w | v) == (Odd(w) || Odd(v))
  {
  }

  lemma {:induction false} OrBit(w: bv32, v: bv32, k: nat)
    ensures BitAt(w | v, k) == (BitAt(w, k) || BitAt(v, k))
    decreases k
  {
    OrStep(w, v);
    if k > 0 {
      OrBit(Half(w), Half(v), k - 1);
    }
  }

  lemma AndStep(w: bv32, v: bv32)
    ensures Half(w & v) == Half(w) & Half(v)
    ensures Odd(w & v) == (Odd(w) && Odd(v))
  {
  }

  lemma {:induction false} AndBit(w: bv32, v: bv32, k: nat)
    ensures BitAt(w & v, k) == (BitAt(w, k) && BitAt(v, k))
    decreases k
  {
    AndStep(w, v);
    if k > 0 {
      AndBit(Half(w), Half(v), k - 1);
    }
  }

  lemma XorStep(w: bv32, v: bv32)
    ensures Half(w ^ v) == Half(w) ^ Half(v)
    ensures Odd(w ^ v) == (Odd(w) != Odd(v))
  {
  }

  lemma {:induction false} XorBit(w: bv32, v: bv32, k: nat)
    ensures BitAt(w ^ v, k) == (BitAt(w, k) != BitAt(v, k))
    decreases k
  {
    XorStep(w, v);
    if k > 0 {
      XorBit(Half(w), Half(v), k - 1);
    }
  }

  lemma AndNotBit(w: bv32, m: bv32, k: nat)
    ensures BitAt(w & !m, k) == (BitAt(w, k) && !BitAt(m, k))
  {
    var c := w & m;
    assert w & !m == w ^ c;
    XorAndBit(w, m, k);
  }

  lemma XorAndBit(w: bv32, m: bv32, k: nat)
    ensures BitAt(w ^ (w & m), k) == (BitAt(w, k) && !BitAt(m, k))
  {
    AndBit(w, m, k);
    XorBit(w, w & m, k);
    XorAndLogic(w, m, k);
  }

  lemma XorAndLogic(w: bv32, m: bv32, k: nat)
    requires BitAt(w & m, k) == (BitAt(w, k) && BitAt(m, k))
    requires BitAt(w ^ (w & m), k) == (BitAt(w, k) != BitAt(w & m, k))
    ensures BitAt(w ^ (w & m), k) == (BitAt(w, k) && !BitAt(m, k))
  {
  }

  /** Or-ing in a mask of bit `j` sets bit `j` and leaves the others. */
  lemma SetBit(w: bv32, m: bv32, j: nat, k: nat)
    requires IsMask(m, j)
    ensures BitAt(w | m, k) == (k == j || BitAt(w, k))
  {
    IsMaskBit(m, j, k);
    OrBit(w, m, k);
  }

  /** And-ing with the complement of a mask of bit `j` clears bit `j` and
      leaves the others. */
  lemma ClearBit(w: bv32, m: bv32, j: nat, k: nat)
    requires IsMask(m, j)
    ensures BitAt(w & !m, k) == (k != j && BitAt(w, k))
  {
    IsMaskBit(m, j, k);
    AndNotBit(w, m, k);
  }

  /** Shifting right `n` times moves bit `k + n` down to `k`. */
  lemma {:induction false} ShiftBit(w: bv32, n: nat, k: nat)
    ensures BitAt(ShiftN(w, n), k) == BitAt(w, k + n)
    decreases n
  {
    if n > 0 {
      ShiftBit(w, n - 1, k + 1);
      assert BitAt(ShiftN(w, n - 1), k + 1) == BitAt(Half(ShiftN(w, n - 1)), k);
    }
  }

  lemma {:induction false} ShiftNHalf(w: bv32, n: nat)
    ensures ShiftN(Half(w), n) == ShiftN(w, n + 1)
    decreases n
  {
    if n > 0 {
      ShiftNHalf(w, n - 1);
    }
  }

  lemma ShiftSucc(w: bv32, m: bv32)
    requires m < 32
    ensures (w >> m) >> 1 == w >> (m + 1)
  {
  }

  /** The source's shift `w >> n` is `n` single shifts. */
  lemma {:induction false} ShiftNIsShift(w: bv32, n: nat)
    requires n <= 32
    ensures Low(n) <= 32 && ShiftN(w, n) == w >> Low(n)
    decreases n
  {
    LowValue(n);
    if n > 0 {
      ShiftNIsShift(w, n - 1);
      LowValue(n - 1);
      ShiftSucc(w, Low(n - 1));
    }
  }

  lemma ShiftOut(w: bv32)
    ensures ShiftN(w, 32) == 0
  {
    ShiftNIsShift(w, 32);
    LowValue(32);
    assert Low(32) == 32;
  }

  /** A word has no bit from 32 on. */
  lemma HighBit(w: bv32, k: nat)
    requires k >= 32
    ensures !BitAt(w, k)
  {
    ShiftBit(w, 32, k - 32);
    ShiftOut(w);
    ZeroBit(k - 32);
  }

  lemma Recompose(w: bv32, v: bv32)
    requires Half(w) == Half(v) && Odd(w) == Odd(v)
    ensures w == v
  {
  }

  /** `w` and `v` agree on their bits below `n`. */
  predicate AgreeBelow(w: bv32, v: bv32, n: nat) {
    forall k: nat :: k < n ==> BitAt(w, k) == BitAt(v, k)
  }

  lemma {:induction false} AgreeAndShift(w: bv32, v: bv32, n: nat)
    requires AgreeBelow(w, v, n)
    requires ShiftN(w, n) == ShiftN(v, n)
    ensures w == v
    decreases n
  {
    if n > 0 {
      forall k: nat | k < n - 1
        ensures BitAt(Half(w), k) == BitAt(Half(v), k)
      {
        assert BitAt(w, k + 1) == BitAt(v, k + 1);
      }
      ShiftNHalf(w, n - 1);
      ShiftNHalf(v, n - 1);
      AgreeAndShift(Half(w), Half(v), n - 1);
      assert BitAt(w, 0) == BitAt(v, 0);
      Recompose(w, v);
    }
  }

  /** A word is determined by its 32 bits. */
  lemma WordExt(w: bv32, v: bv32)
    requires AgreeBelow(w, v, 32)
    ensures w == v
  {
    ShiftOut(w);
    ShiftOut(v);
    AgreeAndShift(w, v, 32);
  }

  /** No bit of `w` below 32 is set. */
  predicate NoBits(w: bv32) {
    forall k: nat :: k < 32 ==> !BitAt(w, k)
  }

  /** The source's test `w == 0`: no bit is set. */
  lemma ZeroWord(w: bv32)
    ensures w == 0 <==> NoBits(w)
  {
    forall k: nat
      ensures !BitAt(0, k)
    {
      ZeroBit(k);
    }
    if NoBits(w) {
      assert AgreeBelow(w, 0, 32);
      WordExt(w, 0);
    }
  }

  /** The source's test `w % 2 == 0` reads the lowest bit. */
  lemma EvenIsNotOdd(w: bv32)
    ensures (w % 2 == 0) == !Odd(w)
  {
  }

  lemma MaskedBit(w: bv32, m: bv32, j: nat, k: nat)
    requires IsMask(m, j)
    ensures BitAt(w & m, k) == (k == j && BitAt(w, k))
  {
    AndBit(w, m, k);
    IsMaskBit(m, j, k);
    MaskedLogic(w, m, j, k);
  }

  lemma MaskedLogic(w: bv32, m: bv32, j: nat, k: nat)
    requires BitAt(w & m, k) == (BitAt(w, k) && BitAt(m, k))
    requires BitAt(m, k) == (k == j)
    ensures BitAt(w & m, k) == (k == j && BitAt(w, k))
  {
  }

  lemma TestMaskBits(w: bv32, m: bv32, j: nat)
    requires IsMask(m, j) && j < 32
    ensures NoBits(w & m) == !BitAt(w, j)
  {
    forall k: nat | k < 32
      ensures BitAt(w & m, k) == (k == j && BitAt(w, k))
    {
      MaskedBit(w, m, j, k);
    }
    assert BitAt(w & m, j) == BitAt(w, j);
  }

  /** The source's test `w & (1 << j)` reads bit `j`. */
  lemma TestMask(w: bv32, m: bv32, j: nat)
    requires IsMask(m, j) && j < 32
    ensures (w & m != 0) == BitAt(w, j)
  {
    TestMaskBits(w, m, j);
    ZeroWord(w & m);
  }
}
