/** Unsigned bit masks, read digit by digit: `m & (1 << i)`, `m | (1 << i)` and `(1 << n) - 1`. */
module Bits {

  function Pow2(n: nat): (p: nat)
    ensures p > 0
  {
    if n == 0 then 1 else 2 * Pow2(n - 1)
  }

  lemma Pow2Of32()
    ensures Pow2(32) == 0x1_0000_0000
  {
    assert Pow2(8) == 0x100;
    assert Pow2(16) == 0x1_0000;
    assert Pow2(24) == 0x100_0000;
  }

  /** `m & (1 << i) != 0` */
  predicate HasBit(m: nat, i: nat) {
    if i == 0 then m % 2 == 1 else HasBit(m / 2, i - 1)
  }

  /** `m | (1 << i)` */
  function SetBit(m: nat, i: nat): nat {
    if i == 0 then (if m % 2 == 1 then m else m + 1) else m % 2 + 2 * SetBit(m / 2, i - 1)
  }

  lemma {:induction false} SetBitBits(m: nat, i: nat, j: nat)
    ensures HasBit(SetBit(m, i), j) <==> i == j || HasBit(m, j)
  {
    if i > 0 && j > 0 {
      assert SetBit(m, i) / 2 == SetBit(m / 2, i - 1);
      SetBitBits(m / 2, i - 1, j - 1);
    } else if j > 0 {
      assert SetBit(m, 0) / 2 == m / 2;
    }
  }

  lemma {:induction false} SetBitBound(m: nat, i: nat, n: nat)
    requires m < Pow2(n) && i < n
    ensures 0 < SetBit(m, i) < Pow2(n)
  {
    if i > 0 {
      SetBitBound(m / 2, i - 1, n - 1);
    }
  }

  lemma {:induction false} NoHighBits(m: nat, n: nat, i: nat)
    requires m < Pow2(n) && n <= i
    ensures !HasBit(m, i)
  {
    if n > 0 {
      NoHighBits(m / 2, n - 1, i - 1);
    } else if i > 0 {
      NoHighBits(0, 0, i - 1);
    }
  }

  lemma {:induction false} FullMaskBits(n: nat, i: nat)
    ensures HasBit(Pow2(n) - 1, i) <==> i < n
  {
    if n == 0 {
      NoHighBits(0, 0, i);
    } else if i > 0 {
      assert (Pow2(n) - 1) / 2 == Pow2(n - 1) - 1;
      FullMaskBits(n - 1, i - 1);
    }
  }

  /** A mask below 2^n with all of its low n bits set is the full mask. */
  lemma {:induction false} AllBitsFull(m: nat, n: nat)
    requires m < Pow2(n)
    requires forall i: nat :: i < n ==> HasBit(m, i)
    ensures m == Pow2(n) - 1
  {
    if n > 0 {
      assert HasBit(m, 0);
      forall i: nat | i < n - 1 ensures HasBit(m / 2, i) { assert HasBit(m, i + 1); }
      AllBitsFull(m / 2, n - 1);
    }
  }

  // ---- Bitwise and ----

  /** `a & b` */
  function And(a: nat, b: nat): nat {
    if a == 0 || b == 0 then 0 else (if a % 2 == 1 && b % 2 == 1 then 1 else 0) + 2 * And(a / 2, b / 2)
  }

  lemma {:induction false} AndBits(a: nat, b: nat, i: nat)
    ensures HasBit(And(a, b), i) <==> HasBit(a, i) && HasBit(b, i)
    decreases i
  {
    if a == 0 || b == 0 {
      NoHighBits(0, 0, i);
    } else if i > 0 {
      assert And(a, b) / 2 == And(a / 2, b / 2);
      AndBits(a / 2, b / 2, i - 1);
    }
  }

  /** Bits n and above of two numbers agree. */
  ghost predicate SameFrom(a: nat, b: nat, n: nat) { forall i: nat :: n <= i ==> (HasBit(a, i) <==> HasBit(b, i)) }

  lemma {:induction false} SameBitsEqual(a: nat, b: nat)
    requires SameFrom(a, b, 0)
    ensures a == b
    decreases a + b
  {
    assert HasBit(a, 0) <==> HasBit(b, 0);
    if a > 0 || b > 0 {
      forall i: nat ensures HasBit(a / 2, i) <==> HasBit(b / 2, i) {
        assert HasBit(a, i + 1) <==> HasBit(b, i + 1);
      }
      SameBitsEqual(a / 2, b / 2);
    }
  }

  lemma {:induction false} AndFull(x: nat, w: nat)
    requires x < Pow2(w)
    ensures And(x, Pow2(w) - 1) == x
  {
    if w > 0 {
      AndFull(x / 2, w - 1);
      assert (Pow2(w) - 1) / 2 == Pow2(w - 1) - 1;
    }
  }

  lemma {:induction false} PowerGrows(n: nat, w: nat)
    requires n <= w
    ensures Pow2(n) <= Pow2(w) && (n < w ==> 2 * Pow2(n) <= Pow2(w))
  {
    if n < w {
      PowerGrows(n, w - 1);
    }
  }

  lemma SameFromHalves(x: nat, y: nat, n: nat)
    requires n > 0
    ensures SameFrom(x, y, n) <==> SameFrom(x / 2, y / 2, n - 1)
  {
    if SameFrom(x, y, n) {
      forall i: nat | n - 1 <= i ensures HasBit(x / 2, i) <==> HasBit(y / 2, i) {
        assert HasBit(x, i + 1) <==> HasBit(y, i + 1);
      }
    }
    if SameFrom(x / 2, y / 2, n - 1) {
      forall i: nat | n <= i ensures HasBit(x, i) <==> HasBit(y, i) {
        assert HasBit(x / 2, i - 1) <==> HasBit(y / 2, i - 1);
      }
    }
  }

  /** Under the mask of bits n to w - 1, two numbers of w bits look alike exactly when those bits agree. */
  lemma {:induction false} HighMaskCompares(x: nat, y: nat, n: nat, w: nat)
    requires x < Pow2(w) && y < Pow2(w) && n <= w
    ensures Pow2(n) <= Pow2(w)
    ensures And(x, Pow2(w) - Pow2(n)) == And(y, Pow2(w) - Pow2(n)) <==> SameFrom(x, y, n)
  {
    hide HasBit, And;
    PowerGrows(n, w);
    if n == 0 {
      AndFull(x, w);
      AndFull(y, w);
      if SameFrom(x, y, 0) {
        SameBitsEqual(x, y);
      }
    } else {
      var m := Pow2(w) - Pow2(n);
      assert m % 2 == 0 && m / 2 == Pow2(w - 1) - Pow2(n - 1);
      HighMaskCompares(x / 2, y / 2, n - 1, w - 1);
      AndEven(x, m);
      AndEven(y, m);
      SameFromHalves(x, y, n);
    }
  }

  lemma AndEven(x: nat, m: nat)
    requires m % 2 == 0
    ensures And(x, m) == 2 * And(x / 2, m / 2)
  {
  }
}
