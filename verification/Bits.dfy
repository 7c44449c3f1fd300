/** Machine words as natural numbers below 2^64, their bits, and the two bit scans
    of the allocator in their portable form. */
module Bits {

  const WORD: nat := 0x1_0000_0000_0000_0000

  function Pow2(k: nat): (p: nat)
    ensures p > 0
  {
    if k == 0 then 1 else 2 * Pow2(k - 1)
  }

  predicate Bit(w: nat, k: nat) {
    if k == 0 then w % 2 == 1 else Bit(w / 2, k - 1)
  }

  /** `w >> k`. */
  function Shr(w: nat, k: nat): nat {
    if k == 0 then w else Shr(w / 2, k - 1)
  }

  /** `w | (1 << k)`. */
  function SetBit(w: nat, k: nat): nat {
    if k == 0 then w / 2 * 2 + 1 else SetBit(w / 2, k - 1) * 2 + w % 2
  }

  /** `w & ~(1 << k)`. */
  function ClearBit(w: nat, k: nat): nat {
    if k == 0 then w / 2 * 2 else ClearBit(w / 2, k - 1) * 2 + w % 2
  }

  function HighBit(w: nat): nat
    requires w > 0
  {
    if w == 1 then 0 else 1 + HighBit(w / 2)
  }

  function LowBit(w: nat): nat
    requires w > 0
  {
    if w % 2 == 1 then 0 else 1 + LowBit(w / 2)
  }

  lemma {:induction false} SetBitSpec(w: nat, k: nat, j: nat)
    ensures Bit(SetBit(w, k), j) <==> j == k || Bit(w, j)
  {
    if k > 0 && j > 0 {
      SetBitSpec(w / 2, k - 1, j - 1);
    } else if k == 0 && j > 0 {
      assert SetBit(w, k) / 2 == w / 2;
    }
  }

  lemma {:induction false} ClearBitSpec(w: nat, k: nat, j: nat)
    ensures Bit(ClearBit(w, k), j) <==> j != k && Bit(w, j)
  {
    if k > 0 && j > 0 {
      ClearBitSpec(w / 2, k - 1, j - 1);
    } else if k == 0 && j > 0 {
      assert ClearBit(w, k) / 2 == w / 2;
    }
  }

  lemma {:induction false} ShrSpec(w: nat, k: nat, j: nat)
    ensures Bit(Shr(w, k), j) <==> Bit(w, k + j)
  {
    if k > 0 {
      ShrSpec(w / 2, k - 1, j);
    }
  }

  /** A word with no bit set is zero. */
  lemma {:induction false} NonzeroHasBit(w: nat)
    requires w > 0
    ensures Bit(w, LowBit(w))
    ensures forall j :: 0 <= j < LowBit(w) ==> !Bit(w, j)
  {
    if w % 2 == 0 {
      NonzeroHasBit(w / 2);
    }
  }

  lemma {:induction false} ZeroHasNoBit(j: nat)
    ensures !Bit(0, j)
  {
    if j > 0 {
      ZeroHasNoBit(j - 1);
    }
  }

  /** The high bit is the position of the leading one. */
  lemma {:induction false} HighBitBounds(w: nat)
    requires w > 0
    ensures Pow2(HighBit(w)) <= w < 2 * Pow2(HighBit(w))
  {
    if w > 1 {
      HighBitBounds(w / 2);
    }
  }

  lemma {:induction false} HighBitIs(w: nat, k: nat)
    requires Pow2(k) <= w < Pow2(k + 1)
    ensures w > 0 && HighBit(w) == k
  {
    if k > 0 {
      HighBitIs(w / 2, k - 1);
    }
  }

  lemma {:induction false} Pow2Monotone(i: nat, j: nat)
    requires i <= j
    ensures Pow2(i) <= Pow2(j)
    decreases j
  {
    if i < j {
      Pow2Monotone(i, j - 1);
    }
  }

  lemma {:induction false} Pow2Add(i: nat, j: nat)
    ensures Pow2(i + j) == Pow2(i) * Pow2(j)
  {
    if i > 0 {
      Pow2Add(i - 1, j);
    }
  }

  lemma Pow2Of64()
    ensures Pow2(63) == 0x8000_0000_0000_0000
    ensures Pow2(64) == WORD
  {
    assert Pow2(8) == 256;
    Pow2Add(8, 8);
    Pow2Add(16, 16);
    Pow2Add(32, 32);
  }

  /** A word below 2^64 has its high bit below 64. */
  lemma HighBitOfWord(w: nat)
    requires 0 < w < WORD
    ensures HighBit(w) < 64
  {
    HighBitBounds(w);
    if HighBit(w) >= 64 {
      Pow2Of64();
      Pow2Monotone(64, HighBit(w));
    }
  }

  lemma {:induction false} HighBitMonotone(v: nat, w: nat)
    requires 0 < v <= w
    ensures HighBit(v) <= HighBit(w)
  {
    if v > 1 {
      HighBitMonotone(v / 2, w / 2);
    }
  }

  /** The shift loop of zend_mm_high_bit. */
  method ZendMmHighBit(size: nat) returns (n: nat)
    requires 0 < size < WORD
    ensures n == HighBit(size)
    ensures n < 64 && Pow2(n) <= size < Pow2(n + 1)
  {
    var s := size;
    var count := 0;
    while s != 0
      invariant s >= 0
      invariant s > 0 ==> HighBit(size) == count + HighBit(s)
      invariant s == 0 ==> HighBit(size) + 1 == count
      decreases s
    {
      s := s / 2;
      count := count + 1;
    }
    n := count - 1;
    HighBitBounds(size);
    HighBitOfWord(size);
  }

  const OFFSET: seq<nat> := [4, 0, 1, 0, 2, 0, 1, 0, 3, 0, 1, 0, 2, 0, 1, 0]

  /** The table holds the position of the lowest one of a nibble, 4 when there is none. */
  lemma NibbleScan(s: nat)
    requires s > 0
    ensures OFFSET[s % 16] != 4 ==> LowBit(s) == OFFSET[s % 16]
    ensures OFFSET[s % 16] == 4 ==> s / 16 > 0 && LowBit(s) == 4 + LowBit(s / 16)
  {
    var b0, s1 := s % 2, s / 2;
    var b1, s2 := s1 % 2, s1 / 2;
    var b2, s3 := s2 % 2, s2 / 2;
    var b3, s4 := s3 % 2, s3 / 2;
    assert s == 16 * s4 + (8 * b3 + 4 * b2 + 2 * b1 + b0);
    DivMod16(s, s4, 8 * b3 + 4 * b2 + 2 * b1 + b0);
    if b0 == 0 {
      assert LowBit(s) == 1 + LowBit(s1);
      if b1 == 0 {
        assert LowBit(s1) == 1 + LowBit(s2);
        if b2 == 0 {
          assert LowBit(s2) == 1 + LowBit(s3);
        }
      }
    }
  }

  lemma DivMod16(s: nat, q: nat, r: nat)
    requires s == 16 * q + r && r < 16
    ensures s / 16 == q && s % 16 == r
  {
  }

  /** The nibble-table loop of zend_mm_low_bit. */
  method ZendMmLowBit(size: nat) returns (n: nat)
    requires 0 < size
    ensures n == LowBit(size)
    ensures Bit(size, n) && forall j :: 0 <= j < n ==> !Bit(size, j)
  {
    var s := size;
    var index := 0;
    n := OFFSET[s % 16];
    NibbleScan(s);
    while n == 4
      invariant s > 0 && n == OFFSET[s % 16]
      invariant LowBit(size) == index + LowBit(s)
      invariant n != 4 ==> LowBit(s) == n
      invariant n == 4 ==> s / 16 > 0 && LowBit(s) == 4 + LowBit(s / 16)
      decreases s
    {
      s := s / 16;
      index := index + n;
      n := OFFSET[s % 16];
      NibbleScan(s);
    }
    n := index + n;
    NonzeroHasBit(size);
  }
}
