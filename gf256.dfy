/** The Galois field GF(256) of QR codes (primitive polynomial x^8+x^4+x^3+x^2+1,
  * generator 2, generator base 0), as exp/log tables the way the encoder reads them. */
module GF256 {
  import opened Bits

  /** A field element: a byte value held in an int. */
  type Byte = x: int | 0 <= x < 256

  /** x^8 + x^4 + x^3 + x^2 + 1. */
  const PRIMITIVE: nat := 0x011D
  const GENERATOR_BASE: nat := 0

  /** Field addition (and subtraction): xor. */
  function Add(a: Byte, b: Byte): (r: Byte)
  {
    XorByte(a, b);
    Xor(a, b)
  }

  /** One step of the table construction: multiply by the generator 2 and
    * reduce by the primitive polynomial when the product leaves the byte range. */
  function XTime(x: Byte): (r: Byte)
  {
    if 2 * x < 256 then 2 * x
    else
      XorNinthBit(2 * x, PRIMITIVE);
      Xor(2 * x, PRIMITIVE)
  }

  /** The exp and log tables of a field. */
  datatype Field = Field(expTable: seq<Byte>, logTable: seq<int>)

  ghost predicate HasTableSizes(f: Field)
  {
    |f.expTable| == 256 && |f.logTable| == 256
  }

  /** exp[i + 1] is exp[i] times the generator. */
  ghost predicate ExpChainAt(f: Field, i: int)
    requires HasTableSizes(f) && 0 <= i < 255
  {
    f.expTable[i + 1] == XTime(f.expTable[i])
  }

  ghost predicate ExpNonZeroAt(f: Field, i: int)
    requires HasTableSizes(f) && 0 <= i < 256
  {
    f.expTable[i] != 0
  }

  /** log undoes exp below 255. */
  ghost predicate LogOfExpAt(f: Field, i: int)
    requires HasTableSizes(f) && 0 <= i < 255
  {
    f.logTable[f.expTable[i]] == i
  }

  /** log[v] is an exponent below 255 that exp maps back to v. */
  ghost predicate ExpOfLogAt(f: Field, v: int)
    requires HasTableSizes(f) && 0 < v < 256
  {
    0 <= f.logTable[v] < 255 && f.expTable[f.logTable[v]] == v
  }

  /** What the table construction guarantees: exp[i] = 2^i, log inverts exp on
    * the non-zero elements, and log[0] keeps the array's default 0. Each
    * quantified fact sits behind a predicate of its own, so that it is used
    * only where a proof names it. */
  ghost predicate Valid(f: Field)
  {
    && HasTableSizes(f)
    && f.expTable[0] == 1 && f.expTable[255] == 1 && f.logTable[0] == 0
    && (forall i :: 0 <= i < 255 ==> ExpChainAt(f, i))
    && (forall i :: 0 <= i < 256 ==> ExpNonZeroAt(f, i))
    && (forall i :: 0 <= i < 255 ==> LogOfExpAt(f, i))
    && (forall v :: 0 < v < 256 ==> ExpOfLogAt(f, v))
  }

  /** expTable[i]. */
  function Exp(f: Field, i: int): (r: Byte)
    requires Valid(f) && 0 <= i < 256
    ensures r != 0
    ensures i < 255 ==> f.logTable[r] == i
  {
    assert ExpNonZeroAt(f, i);
    assert i < 255 ==> LogOfExpAt(f, i);
    f.expTable[i]
  }

  /** logTable[a]. */
  function Log(f: Field, a: Byte): (r: int)
    requires Valid(f)
    ensures 0 <= r < 255
    ensures a != 0 ==> f.expTable[r] == a
  {
    assert a != 0 ==> ExpOfLogAt(f, a);
    f.logTable[a]
  }

  /** Multiplication by adding logarithms. */
  function Mul(f: Field, a: Byte, b: Byte): (r: Byte)
    requires Valid(f)
  {
    if a == 0 || b == 0 then 0 else Exp(f, (Log(f, a) + Log(f, b)) % 255)
  }

  function Inverse(f: Field, a: Byte): (r: Byte)
    requires Valid(f) && a != 0
  {
    Exp(f, 255 - Log(f, a))
  }

  lemma {:induction false} ExpSucc(f: Field, j: int)
    requires Valid(f) && 0 <= j < 255
    ensures Exp(f, (j + 1) % 255) == XTime(Exp(f, j))
  {
    assert ExpChainAt(f, j);
  }

  lemma {:induction false} XTimeDouble(a: Byte, b: Byte)
    ensures Xor(2 * a, 2 * b) == 2 * Xor(a, b)
  {
    XorDouble(a, b);
  }

  lemma {:induction false} XTimeLinear(a: Byte, b: Byte)
    ensures XTime(Add(a, b)) == Add(XTime(a), XTime(b))
  {
    var s := Add(a, b);
    XorDouble(a, b);
    XorTopBit(a, b);
    if 2 * a < 256 && 2 * b >= 256 {
      XorAssociates(2 * a, 2 * b, PRIMITIVE);
    } else if 2 * a >= 256 && 2 * b < 256 {
      XorAssociates(2 * a, PRIMITIVE, 2 * b);
      XorCommutes(PRIMITIVE, 2 * b);
      XorAssociates(2 * a, 2 * b, PRIMITIVE);
    } else if 2 * a >= 256 && 2 * b >= 256 {
      XorSwapMiddle(2 * a, PRIMITIVE, 2 * b, PRIMITIVE);
      XorSelf(PRIMITIVE);
      XorZero(Xor(2 * a, 2 * b));
    }
  }

  lemma {:induction false} MulZero(f: Field, a: Byte, b: Byte)
    requires Valid(f)
    ensures Mul(f, a, b) == 0 <==> a == 0 || b == 0
  {
  }

  lemma {:induction false} MulCommutes(f: Field, a: Byte, b: Byte)
    requires Valid(f)
    ensures Mul(f, a, b) == Mul(f, b, a)
  {
  }

  lemma {:induction false} MulOne(f: Field, a: Byte)
    requires Valid(f)
    ensures Mul(f, 1, a) == a && Mul(f, a, 1) == a
  {
    assert Log(f, Exp(f, 0)) == 0;
  }

  lemma {:induction false} ModSum3(x: int, y: int, z: int)
    ensures ((x + y) % 255 + z) % 255 == (x + (y + z) % 255) % 255
  {
  }

  lemma {:induction false} MulAssociates(f: Field, a: Byte, b: Byte, c: Byte)
    requires Valid(f)
    ensures Mul(f, Mul(f, a, b), c) == Mul(f, a, Mul(f, b, c))
  {
    if a != 0 && b != 0 && c != 0 {
      ModSum3(Log(f, a), Log(f, b), Log(f, c));
    }
  }

  lemma {:induction false} ModSucc(k: int, l: int)
    requires 0 < k
    ensures ((k - 1 + l) % 255 + 1) % 255 == (k + l) % 255
  {
  }

  lemma {:induction false} MulStep(f: Field, k: int, x: Byte)
    requires Valid(f) && 0 < k < 255
    ensures Mul(f, Exp(f, k), x) == XTime(Mul(f, Exp(f, k - 1), x))
  {
    if x != 0 {
      var l := Log(f, x);
      ExpSucc(f, (k - 1 + l) % 255);
      ModSucc(k, l);
    }
  }

  lemma {:induction false} DistributesStep(f: Field, k: int, b: Byte, c: Byte)
    requires Valid(f) && 0 < k < 255
    requires Mul(f, Exp(f, k - 1), Add(b, c)) == Add(Mul(f, Exp(f, k - 1), b), Mul(f, Exp(f, k - 1), c))
    ensures Mul(f, Exp(f, k), Add(b, c)) == Add(Mul(f, Exp(f, k), b), Mul(f, Exp(f, k), c))
  {
    MulStep(f, k, Add(b, c));
    MulStep(f, k, b);
    MulStep(f, k, c);
    XTimeLinear(Mul(f, Exp(f, k - 1), b), Mul(f, Exp(f, k - 1), c));
  }

  lemma {:induction false} MulAlphaPowDistributes(f: Field, k: int, b: Byte, c: Byte)
    requires Valid(f) && 0 <= k < 255
    ensures Mul(f, Exp(f, k), Add(b, c)) == Add(Mul(f, Exp(f, k), b), Mul(f, Exp(f, k), c))
  {
    if k == 0 {
      MulOne(f, Add(b, c));
      MulOne(f, b);
      MulOne(f, c);
    } else {
      MulAlphaPowDistributes(f, k - 1, b, c);
      DistributesStep(f, k, b, c);
    }
  }

  lemma {:induction false} MulDistributes(f: Field, a: Byte, b: Byte, c: Byte)
    requires Valid(f)
    ensures Mul(f, a, Add(b, c)) == Add(Mul(f, a, b), Mul(f, a, c))
  {
    if a == 0 {
      XorZero(0);
    } else {
      MulAlphaPowDistributes(f, Log(f, a), b, c);
    }
  }

  lemma {:induction false} MulInverse(f: Field, a: Byte)
    requires Valid(f) && a != 0
    ensures Mul(f, a, Inverse(f, a)) == 1
  {
    var l := Log(f, a);
    if l != 0 {
      assert Log(f, Inverse(f, a)) == 255 - l;
    }
  }

  lemma {:induction false} AddCommutes(a: Byte, b: Byte)
    ensures Add(a, b) == Add(b, a)
  {
    XorCommutes(a, b);
  }

  lemma {:induction false} AddAssociates(a: Byte, b: Byte, c: Byte)
    ensures Add(Add(a, b), c) == Add(a, Add(b, c))
  {
    XorAssociates(a, b, c);
  }

  lemma {:induction false} AddSelf(a: Byte)
    ensures Add(a, a) == 0
  {
    XorSelf(a);
  }

  lemma {:induction false} AddZero(a: Byte)
    ensures Add(a, 0) == a && Add(0, a) == a
  {
    XorZero(a);
  }

  /** Adding the same element twice cancels: subtraction is addition. */
  lemma {:induction false} AddCancel(a: Byte, b: Byte)
    ensures Add(Add(a, b), b) == a
  {
    XorCancel(a, b);
  }

  lemma {:induction false} AddZeroMeansEqual(a: Byte, b: Byte)
    ensures Add(a, b) == 0 <==> a == b
  {
    XorZeroMeansEqual(a, b);
  }

  /** (a + b) + (c + d) == (a + c) + (b + d). */
  lemma {:induction false} AddSwapMiddle(a: Byte, b: Byte, c: Byte, d: Byte)
    ensures Add(Add(a, b), Add(c, d)) == Add(Add(a, c), Add(b, d))
  {
    XorSwapMiddle(a, b, c, d);
  }

  lemma {:induction false} MulDistributesRight(f: Field, a: Byte, b: Byte, c: Byte)
    requires Valid(f)
    ensures Mul(f, Add(a, b), c) == Add(Mul(f, a, c), Mul(f, b, c))
  {
    MulDistributes(f, c, a, b);
  }

  /** Exponents add under multiplication. */
  lemma {:induction false} MulExp(f: Field, i: int, j: int)
    requires Valid(f) && 0 <= i < 255 && 0 <= j < 255
    ensures Mul(f, Exp(f, i), Exp(f, j)) == Exp(f, (i + j) % 255)
  {
  }

  /** x raised to the power m. */
  function Pow(f: Field, x: Byte, m: nat): Byte
    requires Valid(f)
  {
    if m == 0 then 1 else Mul(f, x, Pow(f, x, m - 1))
  }

  lemma {:induction false} PowAdd(f: Field, x: Byte, m: nat, l: nat)
    requires Valid(f)
    ensures Pow(f, x, m + l) == Mul(f, Pow(f, x, m), Pow(f, x, l))
  {
    if m == 0 {
      MulOne(f, Pow(f, x, l));
    } else {
      PowAdd(f, x, m - 1, l);
      MulAssociates(f, x, Pow(f, x, m - 1), Pow(f, x, l));
    }
  }

  lemma {:induction false} ModShift(i: int, j: int)
    requires 0 <= i && 0 <= j
    ensures (i + j % 255) % 255 == (i + j) % 255
  {
  }

  /** (2^i)^m == 2^(i*m mod 255): the exponent arithmetic the encoder does on logarithms. */
  lemma {:induction false} PowOfExp(f: Field, i: int, m: nat)
    requires Valid(f) && 0 <= i < 255
    ensures Pow(f, Exp(f, i), m) == Exp(f, (i * m) % 255)
  {
    if m > 0 {
      PowOfExp(f, i, m - 1);
      var j, k := i * (m - 1), i * m;
      TimesPred(i, m);
      PowOfExpStep(f, i, j, k);
    }
  }

  lemma TimesPred(i: int, m: nat)
    requires m > 0
    ensures i * m == i + i * (m - 1)
  {
  }

  lemma {:induction false} PowOfExpStep(f: Field, i: int, j: nat, k: nat)
    requires Valid(f) && 0 <= i < 255 && k == i + j
    ensures Mul(f, Exp(f, i), Exp(f, j % 255)) == Exp(f, k % 255)
  {
    MulExp(f, i, j % 255);
    ModShift(i, j);
  }

  /** The encoder's division idiom exp[(255 + log a - log d) % 255], kept
    * as written: for a == 0 the encoder keeps 0, and a zero divisor reads
    * log[0] == 0 and so divides by 1. */
  function Quot(f: Field, a: Byte, d: Byte): Byte
    requires Valid(f)
  {
    if a == 0 then 0 else Exp(f, (255 + Log(f, a) - Log(f, d)) % 255)
  }

  /** For a non-zero divisor the idiom is field division. */
  lemma {:induction false} QuotMul(f: Field, a: Byte, d: Byte)
    requires Valid(f) && d != 0
    ensures Mul(f, Quot(f, a, d), d) == a
  {
    if a != 0 {
      var la, ld := Log(f, a), Log(f, d);
      var e := (255 + la - ld) % 255;
      LogDifference(la, ld);
      assert Log(f, Exp(f, e)) == e;
      assert Exp(f, la) == a;
    }
  }

  lemma LogDifference(la: int, ld: int)
    requires 0 <= la < 255 && 0 <= ld < 255
    ensures 0 <= (255 + la - ld) % 255 < 255
    ensures ((255 + la - ld) % 255 + ld) % 255 == la
  {
    if la >= ld {
      assert (255 + la - ld) % 255 == la - ld;
    } else {
      assert (255 + la - ld) % 255 == 255 + la - ld;
    }
  }

  /** ... and the only element that gives a back when multiplied by d. */
  lemma {:induction false} QuotUnique(f: Field, a: Byte, d: Byte, x: Byte)
    requires Valid(f) && d != 0 && Mul(f, x, d) == a
    ensures x == Quot(f, a, d)
  {
    if a != 0 {
      var e := (255 + Log(f, a) - Log(f, d)) % 255;
      assert (Log(f, x) + Log(f, d)) % 255 == Log(f, a);
      assert Log(f, x) == e;
    }
  }
}
