/** Single bits of machine words, taken as numbers. */
module WordBits {

  function Pow2(n: nat): (r: nat)
    ensures r > 0
  {
    if n == 0 then 1 else 2 * Pow2(n - 1)
  }

  const ALL_ONES: nat := 0xFFFF_FFFF_FFFF_FFFF

  predicate Bit(w: nat, i: nat) { if i == 0 then w % 2 == 1 else Bit(w / 2, i - 1) }

  /** `w & !(1 << i)`. */
  function ClearBit(w: nat, i: nat): nat { if i == 0 then w - w % 2 else 2 * ClearBit(w / 2, i - 1) + w % 2 }

  /** `w | (1 << i)`. */
  function SetBit(w: nat, i: nat): nat { if i == 0 then w - w % 2 + 1 else 2 * SetBit(w / 2, i - 1) + w % 2 }

  lemma {:induction false} ClearedBit(w: nat, i: nat, j: nat)
    ensures Bit(ClearBit(w, i), j) <==> j != i && Bit(w, j)
    ensures ClearBit(w, i) <= w
  {
    if i > 0 {
      var c := ClearBit(w / 2, i - 1);
      assert (2 * c + w % 2) / 2 == c;
      ClearedBit(w / 2, i - 1, if j > 0 then j - 1 else 0);
    }
  }

  lemma {:induction false} SettledBit(w: nat, i: nat, j: nat, n: nat)
    requires i < n && w < Pow2(n)
    ensures Bit(SetBit(w, i), j) <==> j == i || Bit(w, j)
    ensures SetBit(w, i) < Pow2(n)
  {
    if i > 0 {
      var c := SetBit(w / 2, i - 1);
      assert (2 * c + w % 2) / 2 == c;
      SettledBit(w / 2, i - 1, if j > 0 then j - 1 else 0, n - 1);
    }
  }

  lemma {:induction false} ZeroBits(i: nat)
    ensures !Bit(0, i)
  {
    if i > 0 {
      ZeroBits(i - 1);
    }
  }

  /** The word `(1 << k) - 1` has exactly the bits below `k`. */
  lemma {:induction false} LowOnes(k: nat, i: nat)
    ensures Bit(LowMask(k), i) <==> i < k
  {
    if k == 0 {
      ZeroBits(i);
    } else if i > 0 {
      assert (Pow2(k) - 1) / 2 == Pow2(k - 1) - 1;
      LowOnes(k - 1, i - 1);
    }
  }

  lemma {:induction false} EveryBitSet(w: nat, n: nat)
    requires w < Pow2(n) && forall i | 0 <= i < n :: Bit(w, i)
    ensures w == Pow2(n) - 1
  {
    if n > 0 {
      forall i | 0 <= i < n - 1 ensures Bit(w / 2, i) {
        assert Bit(w, i + 1);
      }
      EveryBitSet(w / 2, n - 1);
      assert Bit(w, 0);
    }
  }

  lemma Pow2Of8()
    ensures Pow2(8) == 256
  {
    assert Pow2(4) == 16;
  }

  lemma WordLimit()
    ensures Pow2(64) == ALL_ONES + 1
  {
    Pow2Of8();
    hide Pow2;
    Pow2Sum(8, 8);
    Pow2Sum(16, 16);
    Pow2Sum(32, 32);
  }

  lemma {:induction false} Pow2Sum(a: nat, b: nat)
    ensures Pow2(a + b) == Pow2(a) * Pow2(b)
  {
    if a > 0 {
      Pow2Sum(a - 1, b);
    }
  }

  // ---- 64-bit words ----

  lemma SetIn64(w: nat, i: nat, j: nat)
    requires i < 64 && w <= ALL_ONES
    ensures Bit(SetBit(w, i), j) <==> j == i || Bit(w, j)
    ensures SetBit(w, i) <= ALL_ONES
  {
    hide Pow2, Bit, SetBit;
    WordLimit();
    SettledBit(w, i, j, 64);
  }

  lemma AllOnesBits(i: nat)
    requires i < 64
    ensures Bit(ALL_ONES, i)
  {
    hide Pow2, Bit;
    WordLimit();
    LowOnes(64, i);
  }

  lemma AllBitsOfWord(w: nat)
    requires w <= ALL_ONES && forall i | 0 <= i < 64 :: Bit(w, i)
    ensures w == ALL_ONES
  {
    hide Pow2, Bit;
    WordLimit();
    EveryBitSet(w, 64);
  }

  lemma {:induction false} Pow2Grows(k: nat, n: nat)
    requires k <= n
    ensures Pow2(k) <= Pow2(n)
  {
    if k < n {
      Pow2Grows(k, n - 1);
    }
  }

  /** The word `(1 << k) - 1`. */
  function LowMask(k: nat): nat { Pow2(k) - 1 }

  lemma LowMaskIn64(k: nat)
    requires k < 64
    ensures LowMask(k) <= ALL_ONES
  {
    WordLimit();
    Pow2Grows(k, 64);
  }
}
