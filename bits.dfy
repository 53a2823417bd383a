/** Bitwise exclusive or on non-negative integers, as Java's `^` acts on the
  * encoder's byte-valued ints, with the laws the field arithmetic needs. */
module Bits {
  /** Bitwise exclusive or of two non-negative integers. The definition is
    * split in two so that a proof sees the case analysis of XorStep only
    * where it unfolds Xor on purpose; elsewhere Xor(a, b) stays a single term. */
  function Xor(a: nat, b: nat): nat
    decreases a, 1
  {
    XorStep(a, b)
  }

  /** One step of Xor: the lowest bits, then the rest shifted down. */
  function XorStep(a: nat, b: nat): nat
    decreases a, 0
  {
    if a == 0 then b else if b == 0 then a else 2 * Xor(a / 2, b / 2) + (a + b) % 2
  }

  /** `x >> k` for a non-negative x. */
  function Shr(x: nat, k: nat): nat
  {
    if k == 0 then x else Shr(x / 2, k - 1)
  }

  lemma {:induction false} TwiceHalf(h: nat, r: nat)
    requires r < 2
    ensures (2 * h + r) % 2 == r && (2 * h + r) / 2 == h
  {
  }

  /** The lowest bit of a ^ b is the parity of the lowest bits; the rest is the xor of the rest. */
  lemma {:induction false} XorBits(a: nat, b: nat)
    ensures Xor(a, b) % 2 == (a + b) % 2 && Xor(a, b) / 2 == Xor(a / 2, b / 2)
  {
    if a != 0 && b != 0 {
      var h := Xor(a / 2, b / 2);
      assert Xor(a, b) == 2 * h + (a + b) % 2;
      TwiceHalf(h, (a + b) % 2);
    }
  }

  lemma {:induction false} SameHalves(x: nat, y: nat)
    requires x % 2 == y % 2 && x / 2 == y / 2
    ensures x == y
  {
  }

  lemma {:induction false} XorZero(a: nat)
    ensures Xor(a, 0) == a && Xor(0, a) == a
  {
  }

  lemma {:induction false} XorSelf(a: nat)
    ensures Xor(a, a) == 0
    decreases a
  {
    if a != 0 {
      XorSelf(a / 2);
    }
  }

  lemma {:induction false} XorCommutes(a: nat, b: nat)
    ensures Xor(a, b) == Xor(b, a)
    decreases a
  {
    if a != 0 && b != 0 {
      XorCommutes(a / 2, b / 2);
      XorBits(a, b);
      XorBits(b, a);
      SameHalves(Xor(a, b), Xor(b, a));
    }
  }

  lemma {:induction false} ParityOfSum(a: nat, b: nat, c: nat, ab: nat, bc: nat)
    requires ab % 2 == (a + b) % 2 && bc % 2 == (b + c) % 2
    ensures (ab + c) % 2 == (a + bc) % 2
  {
  }

  lemma {:induction false} XorAssociatesStep(a: nat, b: nat, c: nat, ab: nat, bc: nat, l: nat, r: nat)
    requires ab == Xor(a, b) && bc == Xor(b, c) && l == Xor(ab, c) && r == Xor(a, bc)
    requires Xor(Xor(a / 2, b / 2), c / 2) == Xor(a / 2, Xor(b / 2, c / 2))
    ensures l == r
  {
    XorBits(a, b);
    XorBits(b, c);
    XorBits(ab, c);
    XorBits(a, bc);
    ParityOfSum(a, b, c, ab, bc);
    SameHalves(l, r);
  }

  lemma {:induction false} XorAssociates(a: nat, b: nat, c: nat)
    ensures Xor(Xor(a, b), c) == Xor(a, Xor(b, c))
    decreases a
  {
    if a != 0 {
      XorAssociates(a / 2, b / 2, c / 2);
      XorAssociatesStep(a, b, c, Xor(a, b), Xor(b, c), Xor(Xor(a, b), c), Xor(a, Xor(b, c)));
    }
  }

  /** Exchanging the middle operands of a four-way xor. */
  lemma {:induction false} XorSwapMiddle(a: nat, b: nat, c: nat, d: nat)
    ensures Xor(Xor(a, b), Xor(c, d)) == Xor(Xor(a, c), Xor(b, d))
  {
    XorAssociates(a, b, Xor(c, d));
    XorAssociates(b, c, d);
    XorCommutes(b, c);
    XorAssociates(c, b, d);
    XorAssociates(a, c, Xor(b, d));
  }

  /** Xoring the same value in twice cancels it. */
  lemma {:induction false} XorCancel(a: nat, b: nat)
    ensures Xor(Xor(a, b), b) == a
  {
    XorAssociates(a, b, b);
    XorSelf(b);
    XorZero(a);
  }

  lemma {:induction false} XorZeroMeansEqual(a: nat, b: nat)
    ensures Xor(a, b) == 0 <==> a == b
  {
    if a == b {
      XorSelf(a);
    } else if Xor(a, b) == 0 {
      XorCancel(a, b);
      XorZero(b);
      XorCommutes(a, b);
      assert false;
    }
  }

  lemma {:induction false} XorShr(a: nat, b: nat, k: nat)
    ensures Shr(Xor(a, b), k) == Xor(Shr(a, k), Shr(b, k))
    decreases k
  {
    if k > 0 {
      XorBits(a, b);
      XorShr(a / 2, b / 2, k - 1);
    }
  }

  lemma {:induction false} Shr8(x: nat)
    ensures Shr(x, 8) == x / 256
  {
    assert Shr(x, 8) == Shr(x / 2, 7);
    assert Shr(x / 2, 7) == Shr(x / 2 / 2, 6);
    assert Shr(x / 2 / 2, 6) == Shr(x / 2 / 2 / 2, 5);
    assert Shr(x / 2 / 2 / 2, 5) == Shr(x / 2 / 2 / 2 / 2, 4);
    assert Shr(x / 2 / 2 / 2 / 2, 4) == Shr(x / 2 / 2 / 2 / 2 / 2, 3);
    assert Shr(x / 2 / 2 / 2 / 2 / 2, 3) == Shr(x / 2 / 2 / 2 / 2 / 2 / 2, 2);
    assert Shr(x / 2 / 2 / 2 / 2 / 2 / 2, 2) == Shr(x / 2 / 2 / 2 / 2 / 2 / 2 / 2, 1);
    assert Shr(x / 2 / 2 / 2 / 2 / 2 / 2 / 2, 1) == Shr(x / 2 / 2 / 2 / 2 / 2 / 2 / 2 / 2, 0);
  }

  lemma {:induction false} Shr7(x: nat)
    ensures Shr(x, 7) == x / 128
  {
    assert Shr(x, 7) == Shr(x / 2, 6);
    assert Shr(x / 2, 6) == Shr(x / 2 / 2, 5);
    assert Shr(x / 2 / 2, 5) == Shr(x / 2 / 2 / 2, 4);
    assert Shr(x / 2 / 2 / 2, 4) == Shr(x / 2 / 2 / 2 / 2, 3);
    assert Shr(x / 2 / 2 / 2 / 2, 3) == Shr(x / 2 / 2 / 2 / 2 / 2, 2);
    assert Shr(x / 2 / 2 / 2 / 2 / 2, 2) == Shr(x / 2 / 2 / 2 / 2 / 2 / 2, 1);
    assert Shr(x / 2 / 2 / 2 / 2 / 2 / 2, 1) == Shr(x / 2 / 2 / 2 / 2 / 2 / 2 / 2, 0);
  }

  /** Bytes are closed under xor. */
  lemma {:induction false} XorByte(a: nat, b: nat)
    requires a < 256 && b < 256
    ensures Xor(a, b) < 256
  {
    XorShr(a, b, 8);
    Shr8(a);
    Shr8(b);
    Shr8(Xor(a, b));
  }

  /** The top bit of a byte xor is set exactly when the operands' top bits differ. */
  lemma {:induction false} XorTopBit(a: nat, b: nat)
    requires a < 256 && b < 256
    ensures Xor(a, b) < 128 <==> (a < 128 <==> b < 128)
  {
    XorShr(a, b, 7);
    Shr7(a);
    Shr7(b);
    Shr7(Xor(a, b));
    XorByte(a, b);
  }

  /** Bit nine of a nine-bit xor: used to clear the overflow bit of a doubled byte. */
  lemma {:induction false} XorNinthBit(a: nat, b: nat)
    requires 256 <= a < 512 && 256 <= b < 512
    ensures Xor(a, b) < 256
  {
    XorShr(a, b, 8);
    Shr8(a);
    Shr8(b);
    Shr8(Xor(a, b));
    XorSelf(1);
  }

  /** Shifting both operands left by one shifts the xor. */
  lemma {:induction false} XorDouble(a: nat, b: nat)
    ensures Xor(2 * a, 2 * b) == 2 * Xor(a, b)
  {
    var p, q, h := 2 * a, 2 * b, Xor(a, b);
    TwiceHalf(a, 0);
    TwiceHalf(b, 0);
    TwiceHalf(a + b, 0);
    XorBits(p, q);
    TwiceHalf(h, 0);
    SameHalves(Xor(p, q), 2 * h);
  }

  function Pow2(k: nat): (r: nat)
    ensures r > 0
  {
    if k == 0 then 1 else 2 * Pow2(k - 1)
  }

  lemma {:induction false} Pow2Of8()
    ensures Pow2(8) == 256
  {
    assert Pow2(2) == 4;
    assert Pow2(4) == 16;
    assert Pow2(6) == 64;
  }

  lemma {:induction false} Pow2Of5()
    ensures Pow2(5) == 32
  {
    assert Pow2(2) == 4;
  }

  /** The lowest k bits of n are zero. */
  ghost predicate LowBitsZero(n: nat, k: nat)
  {
    k == 0 || (n % 2 == 0 && LowBitsZero(n / 2, k - 1))
  }

  lemma {:induction false} LowBitsZeroDouble(n: nat, k: nat)
    requires LowBitsZero(n, k)
    ensures LowBitsZero(2 * n, k + 1)
  {
    assert (2 * n) / 2 == n;
  }

  lemma {:induction false} LowBitsZero32(q: nat)
    ensures LowBitsZero(32 * q, 5)
  {
    LowBitsZeroDouble(q, 0);
    LowBitsZeroDouble(2 * q, 1);
    LowBitsZeroDouble(4 * q, 2);
    LowBitsZeroDouble(8 * q, 3);
    LowBitsZeroDouble(16 * q, 4);
  }

  lemma {:induction false} LowBitsZero256()
    ensures LowBitsZero(256, 8)
  {
    LowBitsZeroDouble(1, 0);
    LowBitsZeroDouble(2, 1);
    LowBitsZeroDouble(4, 2);
    LowBitsZeroDouble(8, 3);
    LowBitsZeroDouble(16, 4);
    LowBitsZeroDouble(32, 5);
    LowBitsZeroDouble(64, 6);
    LowBitsZeroDouble(128, 7);
  }

  /** Xor of values with no bit in common is their sum. */
  lemma {:induction false} XorDisjoint(n: nat, r: nat, k: nat)
    requires LowBitsZero(n, k) && r < Pow2(k)
    ensures Xor(n, r) == n + r
  {
    if k == 0 {
      XorZero(n);
    } else {
      XorDisjoint(n / 2, r / 2, k - 1);
      XorBits(n, r);
      SameHalves(Xor(n, r), n + r);
    }
  }

  lemma {:induction false} XorBelowPow2(a: nat, b: nat, k: nat)
    requires a < Pow2(k) && b < Pow2(k)
    ensures Xor(a, b) < Pow2(k)
  {
    if k > 0 {
      XorBelowPow2(a / 2, b / 2, k - 1);
      XorBits(a, b);
    } else {
      XorZero(0);
    }
  }
}
