/**
 * Bitwise exclusive-or on non-negative integers, defined one binary digit
 * at a time, and the facts about it that the nim-sum rests on. Heap
 * counts are plain integers, so the nim-sum is the exclusive-or of
 * integers, not of a fixed-width machine word.
 */
module BitwiseXor {

  /** `2` to the power `k`. */
  function Pow2(k: nat): (r: nat)
    ensures r >= 1
  {
    if k == 0 then 1 else 2 * Pow2(k - 1)
  }

  /** Exponents add when powers of two multiply. */
  lemma {:induction false} Pow2Add(a: nat, b: nat)
    ensures Pow2(a + b) == Pow2(a) * Pow2(b)
  {
    if a > 0 {
      Pow2Add(a - 1, b);
      assert Pow2(a + b) == 2 * Pow2(a - 1 + b);
    }
  }

  /** `2^8` is 256. */
  lemma Pow2Of8()
    ensures Pow2(8) == 256
  {
    assert Pow2(2) == 4;
    assert Pow2(4) == 16;
    assert Pow2(6) == 64;
  }

  /** `2^64`, the number of values of a 64-bit word. */
  lemma Pow2Of64()
    ensures Pow2(64) == 0x1_0000_0000_0000_0000
  {
    Pow2Of8();
    Pow2Add(8, 8);
    assert Pow2(16) == 0x1_0000;
    Pow2Add(16, 16);
    assert Pow2(32) == 0x1_0000_0000;
    Pow2Add(32, 32);
  }

  /** The exclusive-or of `a` and `b`: the lowest digit is the parity of the two lowest digits. */
  function Xor(a: nat, b: nat): nat
    decreases a + b
  {
    if a == 0 then b
    else if b == 0 then a
    else 2 * Xor(a / 2, b / 2) + (a + b) % 2
  }

  /** Binary digit `k` of `x` is 1. */
  predicate Bit(x: nat, k: nat)
  {
    if k == 0 then x % 2 == 1 else Bit(x / 2, k - 1)
  }

  /** The digit-by-digit rule holds for every pair, zeros included. */
  lemma XorDigits(a: nat, b: nat)
    ensures Xor(a, b) == 2 * Xor(a / 2, b / 2) + (a + b) % 2
  {
  }

  /** Toggling 1 into a single digit flips it. */
  lemma XorOne(a: nat)
    requires a <= 1
    ensures Xor(a, 1) == 1 - a
  {
  }

  /** 0 is the identity of exclusive-or. */
  lemma XorZero(a: nat)
    ensures Xor(a, 0) == a && Xor(0, a) == a
  {
  }

  /** Exclusive-or is commutative. */
  lemma {:induction false} XorComm(a: nat, b: nat)
    ensures Xor(a, b) == Xor(b, a)
    decreases a + b
  {
    if a != 0 && b != 0 {
      XorComm(a / 2, b / 2);
    }
  }

  /** Every value is its own inverse. */
  lemma {:induction false} XorSelf(a: nat)
    ensures Xor(a, a) == 0
  {
    if a != 0 {
      XorSelf(a / 2);
    }
  }

  /** Halving `2q + r` for a digit `r` gives back `q` and `r`. */
  lemma Halves(q: nat, r: nat)
    requires r < 2
    ensures (2 * q + r) / 2 == q && (2 * q + r) % 2 == r
  {
  }

  /** The high digits of an exclusive-or are the exclusive-or of the high digits; the low digit is the parity. */
  lemma XorHalf(a: nat, b: nat)
    ensures Xor(a, b) / 2 == Xor(a / 2, b / 2) && Xor(a, b) % 2 == (a + b) % 2
  {
    XorDigits(a, b);
    Halves(Xor(a / 2, b / 2), (a + b) % 2);
  }

  /** Exclusive-or is associative. */
  lemma {:induction false} XorAssoc(a: nat, b: nat, c: nat)
    ensures Xor(Xor(a, b), c) == Xor(a, Xor(b, c))
    decreases a + b + c
  {
    if a + b + c > 0 {
      var ab, bc := Xor(a, b), Xor(b, c);
      XorAssoc(a / 2, b / 2, c / 2);
      XorHalf(a, b);
      XorHalf(b, c);
      XorDigits(ab, c);
      XorDigits(a, bc);
      Parity(ab, bc, a, b, c);
    }
  }

  /** The low digit of `(a ^ b) ^ c` and of `a ^ (b ^ c)` agree. */
  lemma Parity(ab: nat, bc: nat, a: nat, b: nat, c: nat)
    requires ab % 2 == (a + b) % 2 && bc % 2 == (b + c) % 2
    ensures (ab + c) % 2 == (a + bc) % 2
  {
  }

  /** Toggling the same value twice restores the start. */
  lemma XorCancel(a: nat, b: nat)
    ensures Xor(Xor(a, b), b) == a
  {
    XorAssoc(a, b, b);
    XorSelf(b);
    XorZero(a);
  }

  /** The last two values toggled may be swapped. */
  lemma XorSwap(a: nat, b: nat, c: nat)
    ensures Xor(Xor(a, b), c) == Xor(Xor(a, c), b)
  {
    XorAssoc(a, b, c);
    XorComm(b, c);
    XorAssoc(a, c, b);
  }

  /** Toggling `s` into `s ^ b` leaves `b`. */
  lemma XorUndo(s: nat, b: nat)
    ensures Xor(Xor(s, b), s) == b
  {
    XorComm(s, b);
    XorCancel(b, s);
  }

  /** Toggling `b` then `c` into `s` changes it unless `b == c`. */
  lemma XorChanges(s: nat, b: nat, c: nat)
    ensures Xor(Xor(s, b), c) == s <==> b == c
  {
    XorCancel(s, b);
    if Xor(Xor(s, b), c) == s {
      XorCancel(Xor(s, b), c);
      XorUndo(s, b);
      XorUndo(s, c);
    }
  }

  /** Two values below `2^k` have an exclusive-or below `2^k`. */
  lemma {:induction false} XorBelow(a: nat, b: nat, k: nat)
    requires a < Pow2(k) && b < Pow2(k)
    ensures Xor(a, b) < Pow2(k)
  {
    if k > 0 && a != 0 && b != 0 {
      XorBelow(a / 2, b / 2, k - 1);
    }
  }

  /** Digit `k` of an exclusive-or is set exactly when it is set in one operand but not both. */
  lemma {:induction false} XorBit(a: nat, b: nat, k: nat)
    ensures Bit(Xor(a, b), k) <==> Bit(a, k) != Bit(b, k)
  {
    var x := Xor(a, b);
    XorHalf(a, b);
    if k == 0 {
      OddSum(x, a, b);
    } else {
      assert Bit(x, k) == Bit(x / 2, k - 1);
      XorBit(a / 2, b / 2, k - 1);
    }
  }

  /** A value with the parity of `a + b` is odd exactly when one of `a`, `b` is. */
  lemma OddSum(x: nat, a: nat, b: nat)
    requires x % 2 == (a + b) % 2
    ensures x % 2 == 1 <==> (a % 2 == 1) != (b % 2 == 1)
  {
  }

  /** 0 has no set digit. */
  lemma {:induction false} ZeroHasNoBit(k: nat)
    ensures !Bit(0, k)
  {
    if k > 0 {
      ZeroHasNoBit(k - 1);
    }
  }

  /** The position of the highest set digit of a positive value. */
  function HighBit(s: nat): (k: nat)
    requires s > 0
    ensures Bit(s, k) && s < Pow2(k + 1)
  {
    if s < 2 then 0 else HighBit(s / 2) + 1
  }

  /**
   * Toggling `s` into a value `x` that holds `s`'s highest digit clears
   * that digit and changes only lower ones, so the value decreases.
   */
  lemma {:induction false} XorTopBitDecreases(x: nat, s: nat, k: nat)
    requires Bit(x, k) && Bit(s, k) && s < Pow2(k + 1)
    ensures Xor(x, s) < x
  {
    XorDigits(x, s);
    if k > 0 {
      XorTopBitDecreases(x / 2, s / 2, k - 1);
    }
  }

  /** `2^m - 1` has exactly its lowest `m` digits set. */
  lemma {:induction false} AllOnes(m: nat, k: nat)
    ensures Bit(Pow2(m) - 1, k) <==> k < m
  {
    if m == 0 {
      ZeroHasNoBit(k);
    } else if k > 0 {
      assert (Pow2(m) - 1) / 2 == Pow2(m - 1) - 1;
      AllOnes(m - 1, k - 1);
    }
  }

  /** The lowest `m` binary digits of `x` are all set. */
  predicate LowDigitsSet(x: nat, m: nat)
  {
    forall k: nat :: k < m ==> Bit(x, k)
  }

  /** A value below `2^m` has its lowest `m` digits all set exactly when it is `2^m - 1`. */
  lemma {:induction false} OnlyAllOnes(m: nat, x: nat)
    requires x < Pow2(m)
    ensures LowDigitsSet(x, m) <==> x == Pow2(m) - 1
  {
    if x == Pow2(m) - 1 {
      forall k: nat | k < m
        ensures Bit(x, k)
      {
        AllOnes(m, k);
      }
    } else if m > 0 && LowDigitsSet(x, m) {
      assert Bit(x, 0);
      forall k: nat | k < m - 1
        ensures Bit(x / 2, k)
      {
        assert Bit(x, k + 1);
      }
      OnlyAllOnes(m - 1, x / 2);
    }
  }
}
