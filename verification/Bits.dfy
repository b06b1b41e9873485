/** Unsigned bit arithmetic on natural numbers: left shifts are repeated doublings, and `|` and
    `^` are defined bit by bit.  Nothing here knows about streams or messages. */
module Bits {

  function Pow2(n: nat): (r: nat)
    ensures r > 0
  {
    if n == 0 then 1 else 2 * Pow2(n - 1)
  }

  /** The C operator `<<` before truncation: `n` doublings. */
  function Shl(x: nat, n: nat): (r: nat)
    ensures r >= x
  {
    if n == 0 then x else 2 * Shl(x, n - 1)
  }

  /** The C operator `|` on unsigned operands of any width. */
  function BitOr(x: nat, y: nat): (r: nat) {
    if x == 0 && y == 0 then 0
    else 2 * BitOr(x / 2, y / 2) + (if x % 2 == 1 || y % 2 == 1 then 1 else 0)
  }

  /** The C operator `^` on unsigned operands of any width. */
  function BitXor(x: nat, y: nat): (r: nat) {
    if x == 0 && y == 0 then 0
    else 2 * BitXor(x / 2, y / 2) + (if x % 2 != y % 2 then 1 else 0)
  }

  predicate TestBit(x: nat, i: nat) {
    if i == 0 then x % 2 == 1 else TestBit(x / 2, i - 1)
  }

  /** Combining a k-bit number with bits from position k upwards is an addition. */
  lemma {:induction false} DisjointOr(a: nat, b: nat, k: nat)
    requires a < Pow2(k)
    ensures BitOr(a, Shl(b, k)) == a + Shl(b, k)
  {
    if k == 0 {
      OrZero(b);
    } else {
      DisjointOr(a / 2, b, k - 1);
      OrStep(a, Shl(b, k - 1));
    }
  }

  lemma OrStep(a: nat, y: nat)
    ensures BitOr(a, 2 * y) == 2 * BitOr(a / 2, y) + a % 2
  {
    assert 2 * y / 2 == y && 2 * y % 2 == 0;
  }

  lemma {:induction false} OrZero(b: nat)
    ensures BitOr(0, b) == b
  {
    if b == 0 {
    } else {
      OrZero(b / 2);
    }
  }

  /** Exclusive-or with bits that lie above a k-bit number is an addition too. */
  lemma {:induction false} DisjointXor(a: nat, b: nat, k: nat)
    requires a < Pow2(k)
    ensures BitXor(a, Shl(b, k)) == a + Shl(b, k)
  {
    if k == 0 {
      XorZero(b);
    } else {
      DisjointXor(a / 2, b, k - 1);
      XorStep(a, Shl(b, k - 1));
    }
  }

  lemma XorStep(a: nat, y: nat)
    ensures BitXor(a, 2 * y) == 2 * BitXor(a / 2, y) + a % 2
  {
    assert 2 * y / 2 == y && 2 * y % 2 == 0;
  }

  lemma {:induction false} XorZero(b: nat)
    ensures BitXor(0, b) == b
  {
    if b == 0 {
    } else {
      XorZero(b / 2);
    }
  }

  lemma {:induction false} OrBit(x: nat, y: nat, i: nat)
    ensures TestBit(BitOr(x, y), i) <==> TestBit(x, i) || TestBit(y, i)
  {
    if x == 0 && y == 0 {
      ZeroBit(i);
    } else if i > 0 {
      OrBit(x / 2, y / 2, i - 1);
    }
  }

  lemma {:induction false} ZeroBit(i: nat)
    ensures !TestBit(0, i)
  {
    if i == 0 {
    } else {
      ZeroBit(i - 1);
    }
  }

  lemma {:induction false} Pow2Bit(k: nat, i: nat)
    ensures TestBit(Pow2(k), i) <==> i == k
  {
    if k == 0 {
      if i > 0 { ZeroBit(i - 1); }
    } else if i > 0 {
      Pow2Bit(k - 1, i - 1);
    }
  }

  lemma {:induction false} OrBound(x: nat, y: nat, k: nat)
    requires x < Pow2(k) && y < Pow2(k)
    ensures BitOr(x, y) < Pow2(k)
  {
    if k == 0 {
    } else {
      OrBound(x / 2, y / 2, k - 1);
    }
  }

  /** A number whose set bits all lie below k is a run of k ones exactly when none of them is missing. */
  lemma {:induction false} AllOnes(x: nat, k: nat)
    requires forall i: nat :: TestBit(x, i) ==> i < k
    ensures x == Pow2(k) - 1 <==> forall i: nat :: i < k ==> TestBit(x, i)
  {
    if k == 0 {
      NoBits(x);
    } else {
      forall i: nat ensures TestBit(x / 2, i) <==> TestBit(x, i + 1) {}
      AllOnes(x / 2, k - 1);
      assert x == 2 * (x / 2) + (if TestBit(x, 0) then 1 else 0);
      if x == Pow2(k) - 1 {
        forall i: nat | i < k ensures TestBit(x, i) {
          if i > 0 { assert TestBit(x / 2, i - 1) <==> TestBit(x, i); }
        }
      } else if TestBit(x, 0) {
        var i: nat :| i < k - 1 && !TestBit(x / 2, i);
        assert !TestBit(x, i + 1);
      }
    }
  }

  lemma {:induction false} NoBits(x: nat)
    requires forall i: nat :: !TestBit(x, i)
    ensures x == 0
  {
    if x == 0 {
    } else {
      assert !TestBit(x, 0);
      forall i: nat ensures !TestBit(x / 2, i) {
        assert !TestBit(x, i + 1);
      }
      NoBits(x / 2);
    }
  }

  /** The C operator `>>` on unsigned operands: `n` halvings. */
  function Shr(x: nat, n: nat): nat {
    if n == 0 then x else Shr(x / 2, n - 1)
  }

  lemma {:induction false} ShrOnes(n: nat, k: nat)
    ensures Shr(Pow2(n + k) - 1, n) == Pow2(k) - 1
  {
    if n == 0 {
    } else {
      assert (Pow2(n + k) - 1) / 2 == Pow2(n - 1 + k) - 1;
      ShrOnes(n - 1, k);
    }
  }
}
