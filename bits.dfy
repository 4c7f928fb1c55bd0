/** Bit arithmetic on basis-state indices. The runtime works with `1ULL << k`,
    `i & mask`, `i | bit` and `i ^ bit` on size_t; the model uses unbounded
    naturals, with bit k of i defined by repeated halving. */
module Bits {

  /** 2^k, the source's `1ULL << k`. */
  function Pow2(k: nat): (r: nat)
    ensures r >= 1
  {
    if k == 0 then 1 else 2 * Pow2(k - 1)
  }

  /** Bit k of i, the source's `(i & (1ULL << k)) != 0`. */
  predicate Bit(i: nat, k: nat) {
    if k == 0 then i % 2 == 1 else Bit(i / 2, k - 1)
  }

  /** i with bit k flipped, the source's `i ^ (1ULL << k)`. When bit k is
      clear this is also `i | (1ULL << k)`. */
  function Flip(i: nat, k: nat): nat {
    if Bit(i, k) then BitSetAtLeast(i, k); i - Pow2(k) else i + Pow2(k)
  }

  /** i with bits a and b exchanged, the source's `i ^ bit1 ^ bit2` when the two bits differ. */
  function SwapBits(i: nat, a: nat, b: nat): nat {
    if Bit(i, a) != Bit(i, b) then Flip(Flip(i, a), b) else i
  }

  lemma Pow2Add(a: nat, b: nat)
    ensures Pow2(a + b) == Pow2(a) * Pow2(b)
    decreases a
  {
    if a > 0 {
      Pow2Add(a - 1, b);
      assert Pow2(a + b) == 2 * Pow2(a - 1 + b);
    }
  }

  lemma Pow2Monotone(a: nat, b: nat)
    requires a <= b
    ensures Pow2(a) <= Pow2(b)
    decreases b
  {
    if a < b { Pow2Monotone(a, b - 1); }
  }

  lemma BitSetAtLeast(i: nat, k: nat)
    requires Bit(i, k)
    ensures Pow2(k) <= i
  {
    if k > 0 { BitSetAtLeast(i / 2, k - 1); }
  }

  /** Indices below 2^n have no bit at position n or above. */
  lemma {:induction false} HighBitClear(i: nat, n: nat, k: nat)
    requires i < Pow2(n) && n <= k
    ensures !Bit(i, k)
    decreases k
  {
    if k == 0 {
      assert i == 0;
    } else if n == 0 {
      assert i == 0;
      HighBitClear(0, 0, k - 1);
    } else {
      HighBitClear(i / 2, n - 1, k - 1);
    }
  }

  /** Setting a clear bit: bit k becomes 1 and no other bit changes. */
  lemma {:induction false} SetBit(i: nat, k: nat, j: nat)
    requires !Bit(i, k)
    ensures Bit(i + Pow2(k), k)
    ensures j != k ==> Bit(i + Pow2(k), j) == Bit(i, j)
    decreases k
  {
    if k == 0 {
      if j != 0 {
        assert (i + 1) / 2 == i / 2;
      }
    } else {
      var p := Pow2(k - 1);
      assert (i + Pow2(k)) / 2 == i / 2 + p;
      assert (i + Pow2(k)) % 2 == i % 2;
      if j == 0 {
      } else {
        SetBit(i / 2, k - 1, j - 1);
      }
      SetBit(i / 2, k - 1, k - 1);
    }
  }

  /** Clearing a set bit: bit k becomes 0 and no other bit changes. */
  lemma {:induction false} ClearBit(i: nat, k: nat, j: nat)
    requires Bit(i, k)
    ensures Pow2(k) <= i && !Bit(i - Pow2(k), k)
    ensures j != k ==> Bit(i - Pow2(k), j) == Bit(i, j)
    decreases k
  {
    BitSetAtLeast(i, k);
    if k == 0 {
      if j != 0 {
        assert (i - 1) / 2 == i / 2;
      }
    } else {
      var p := Pow2(k - 1);
      BitSetAtLeast(i / 2, k - 1);
      assert (i - Pow2(k)) / 2 == i / 2 - p;
      assert (i - Pow2(k)) % 2 == i % 2;
      if j == 0 {
      } else {
        ClearBit(i / 2, k - 1, j - 1);
      }
      ClearBit(i / 2, k - 1, k - 1);
    }
  }

  /** xor with 2^k flips exactly bit k. */
  lemma FlipBit(i: nat, k: nat, j: nat)
    ensures Bit(Flip(i, k), j) == if j == k then !Bit(i, k) else Bit(i, j)
  {
    if Bit(i, k) { ClearBit(i, k, j); } else { SetBit(i, k, j); }
  }

  /** xor with 2^k is an involution. */
  lemma FlipFlip(i: nat, k: nat)
    ensures Flip(Flip(i, k), k) == i
  {
    FlipBit(i, k, k);
  }

  lemma FlipNe(i: nat, k: nat)
    ensures Flip(i, k) != i
  {
    FlipBit(i, k, k);
  }

  /** Flips of two different bits commute. */
  lemma FlipCommute(i: nat, a: nat, b: nat)
    ensures Flip(Flip(i, a), b) == Flip(Flip(i, b), a)
  {
    if a != b {
      FlipBit(i, a, b);
      FlipBit(i, b, a);
    }
  }

  /** Setting a clear bit below n keeps an index below 2^n. */
  lemma {:induction false} SetBitBound(i: nat, k: nat, n: nat)
    requires i < Pow2(n) && k < n && !Bit(i, k)
    ensures i + Pow2(k) < Pow2(n)
    decreases k
  {
    if k == 0 {
      assert Pow2(n) == 2 * Pow2(n - 1);
    } else {
      assert Pow2(n) == 2 * Pow2(n - 1);
      assert i / 2 < Pow2(n - 1);
      SetBitBound(i / 2, k - 1, n - 1);
    }
  }

  /** xor with a bit below n maps [0, 2^n) into itself. */
  lemma FlipBound(i: nat, k: nat, n: nat)
    requires i < Pow2(n) && k < n
    ensures Flip(i, k) < Pow2(n)
  {
    if !Bit(i, k) { SetBitBound(i, k, n); }
  }

  lemma FlipBitOfOther(i: nat, k: nat, j: nat)
    requires j != k
    ensures Bit(Flip(i, k), j) == Bit(i, j)
  {
    FlipBit(i, k, j);
  }

  /** Bit j of SwapBits(i, a, b). */
  lemma SwapBitsBit(i: nat, a: nat, b: nat, j: nat)
    ensures Bit(SwapBits(i, a, b), j) ==
            if j == a then Bit(i, b) else if j == b then Bit(i, a) else Bit(i, j)
  {
    if Bit(i, a) != Bit(i, b) {
      FlipBit(i, a, j);
      FlipBit(Flip(i, a), b, j);
      FlipBit(i, a, b);
    }
  }

  /** Exchanging two bits twice gives the index back. */
  lemma SwapBitsInvolution(i: nat, a: nat, b: nat)
    ensures SwapBits(SwapBits(i, a, b), a, b) == i
  {
    if Bit(i, a) != Bit(i, b) {
      var j := SwapBits(i, a, b);
      SwapBitsBit(i, a, b, a);
      SwapBitsBit(i, a, b, b);
      assert Bit(j, a) != Bit(j, b);
      FlipCommute(Flip(i, a), a, b);
      FlipFlip(i, a);
      FlipCommute(i, a, b);
      calc {
        SwapBits(j, a, b);
        Flip(Flip(Flip(Flip(i, a), b), a), b);
        { FlipCommute(Flip(i, a), b, a); }
        Flip(Flip(Flip(Flip(i, a), a), b), b);
        { FlipFlip(i, a); }
        Flip(Flip(i, b), b);
        { FlipFlip(i, b); }
        i;
      }
    }
  }

  lemma SwapBitsBound(i: nat, a: nat, b: nat, n: nat)
    requires i < Pow2(n) && a < n && b < n
    ensures SwapBits(i, a, b) < Pow2(n)
  {
    if Bit(i, a) != Bit(i, b) {
      FlipBound(i, a, n);
      FlipBound(Flip(i, a), b, n);
    }
  }

  /** i with bit k set, the source's `i | (1ULL << k)`. */
  function Set(i: nat, k: nat): nat {
    if Bit(i, k) then i else i + Pow2(k)
  }

  /** 2^n - 1 has exactly the bits below n set. */
  lemma {:induction false} AllOnes(n: nat, j: nat)
    ensures Bit(Pow2(n) - 1, j) == (j < n)
    decreases n
  {
    if n == 0 {
      HighBitClear(0, 0, j);
    } else if j > 0 {
      assert (Pow2(n) - 1) / 2 == Pow2(n - 1) - 1;
      AllOnes(n - 1, j - 1);
    }
  }

  /** Two indices below 2^m with the same bits below m are equal. */
  lemma {:induction false} BitsDetermine(x: nat, y: nat, m: nat)
    requires x < Pow2(m) && y < Pow2(m)
    requires forall j :: 0 <= j < m ==> Bit(x, j) == Bit(y, j)
    ensures x == y
    decreases m
  {
    if m > 0 {
      forall j | 0 <= j < m - 1
        ensures Bit(x / 2, j) == Bit(y / 2, j)
      {
        assert Bit(x, j + 1) == Bit(y, j + 1);
      }
      BitsDetermine(x / 2, y / 2, m - 1);
      assert Bit(x, 0) == Bit(y, 0);
    }
  }
}
