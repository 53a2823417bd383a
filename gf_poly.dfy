/** Polynomials over GF(256) as the Reed-Solomon encoder uses them
  * (GenericGFPoly): coefficient sequences, highest degree first. Their meaning
  * is `Eval`, the value at a point, and each operation is proved to act on
  * that value as addition, scaling, shifting, multiplication and division do. */
module GFPoly {
  import opened GF256

  /** Coefficients, highest degree first. */
  type Poly = seq<Byte>

  function Zeros(n: nat): (z: seq<Byte>)
    ensures |z| == n && forall i :: 0 <= i < n ==> z[i] == 0
  {
    seq(n, _ => 0)
  }

  /** The form GenericGFPoly keeps: at least one coefficient, and no leading
    * zero unless the polynomial is the constant 0. */
  predicate IsNormal(p: Poly)
  {
    |p| >= 1 && (|p| > 1 ==> p[0] != 0)
  }

  function Degree(p: Poly): int
  {
    |p| - 1
  }

  predicate IsZero(p: Poly)
    requires |p| >= 1
  {
    p[0] == 0
  }

  /** The coefficient of x^degree. */
  function Coefficient(p: Poly, degree: int): Byte
    requires 0 <= degree < |p|
  {
    p[|p| - 1 - degree]
  }

  /** The value of p at x: the sum of p[j] * x^(|p| - 1 - j). */
  function Eval(f: Field, p: seq<Byte>, x: Byte): Byte
    requires Valid(f)
    decreases |p|
  {
    if |p| == 0 then 0 else Add(Mul(f, p[0], Pow(f, x, |p| - 1)), Eval(f, p[1..], x))
  }

  /** Drops leading zero coefficients, keeping one coefficient for the zero polynomial. */
  function Normalize(c: seq<Byte>): (p: Poly)
    requires |c| > 0
    ensures IsNormal(p) && |p| <= |c|
    ensures p == c[|c| - |p|..]
    ensures forall i :: 0 <= i < |c| - |p| ==> c[i] == 0
    decreases |c|
  {
    if |c| > 1 && c[0] == 0 then Normalize(c[1..]) else c
  }

  /** The sum of two coefficient sequences aligned at their lowest degree; the
    * longer one's extra leading coefficients are copied. */
  function AddAligned(larger: seq<Byte>, smaller: seq<Byte>): (s: seq<Byte>)
    requires |larger| >= |smaller|
    ensures |s| == |larger|
  {
    var d := |larger| - |smaller|;
    seq(|larger|, i requires 0 <= i < |larger| => if i < d then larger[i] else Add(smaller[i - d], larger[i]))
  }

  /** GenericGFPoly.addOrSubtract. */
  function AddOrSubtract(p: Poly, q: Poly): (r: Poly)
    requires IsNormal(p) && IsNormal(q)
    ensures IsNormal(r)
  {
    if IsZero(p) then q
    else if IsZero(q) then p
    else if |p| > |q| then Normalize(AddAligned(p, q))
    else Normalize(AddAligned(q, p))
  }

  /** Every coefficient multiplied by c. */
  function Scale(f: Field, p: seq<Byte>, c: Byte): (s: seq<Byte>)
    requires Valid(f)
    ensures |s| == |p|
  {
    seq(|p|, i requires 0 <= i < |p| => Mul(f, c, p[i]))
  }

  /** GenericGFPoly.multiplyByMonomial: p * coefficient * x^degree. */
  function MultiplyByMonomial(f: Field, p: Poly, degree: nat, coefficient: Byte): (r: Poly)
    requires Valid(f) && IsNormal(p)
    ensures IsNormal(r)
  {
    if coefficient == 0 then [0] else Normalize(Scale(f, p, coefficient) + Zeros(degree))
  }

  /** GenericGF.buildMonomial: coefficient * x^degree. */
  function BuildMonomial(degree: nat, coefficient: Byte): (r: Poly)
    ensures IsNormal(r)
  {
    if coefficient == 0 then [0] else [coefficient] + Zeros(degree)
  }

  /** The product's coefficients before normalization. */
  function RawMultiply(f: Field, p: seq<Byte>, q: seq<Byte>): (r: seq<Byte>)
    requires Valid(f) && |p| >= 1 && |q| >= 1
    ensures |r| == |p| + |q| - 1 && r[0] == Mul(f, p[0], q[0])
    decreases |p|
  {
    if |p| == 1 then Scale(f, q, p[0])
    else AddAligned(Scale(f, q, p[0]) + Zeros(|p| - 1), RawMultiply(f, p[1..], q))
  }

  /** GenericGFPoly.multiply. */
  function Multiply(f: Field, p: Poly, q: Poly): (r: Poly)
    requires Valid(f) && IsNormal(p) && IsNormal(q)
    ensures IsNormal(r)
  {
    if IsZero(p) || IsZero(q) then [0] else Normalize(RawMultiply(f, p, q))
  }

  /** The measure the division loop decreases: 0 once the remainder is zero. */
  function Size(p: Poly): nat
    requires IsNormal(p)
  {
    if IsZero(p) then 0 else |p|
  }

  /** Whether the division loop runs another step. */
  predicate DivisionContinues(g: Poly, remainder: Poly)
    requires |remainder| >= 1
  {
    Degree(remainder) >= Degree(g) && !IsZero(remainder)
  }

  /** One step of long division: the remainder's leading term cancels against
    * a multiple of the divisor, and that multiple joins the quotient. */
  function DivisionStep(f: Field, g: Poly, quotient: Poly, remainder: Poly): (qr: (Poly, Poly))
    requires Valid(f) && IsNormal(g) && !IsZero(g) && IsNormal(quotient) && IsNormal(remainder)
    requires DivisionContinues(g, remainder)
    ensures IsNormal(qr.0) && IsNormal(qr.1) && Size(qr.1) < Size(remainder)
  {
    var degreeDifference := Degree(remainder) - Degree(g);
    var scale := StepScale(f, g, remainder);
    DivisionStepShrinks(f, g, remainder, scale, MultiplyByMonomial(f, g, degreeDifference, scale));
    (AddOrSubtract(quotient, BuildMonomial(degreeDifference, scale)),
     AddOrSubtract(remainder, MultiplyByMonomial(f, g, degreeDifference, scale)))
  }

  /** The multiplier that cancels the remainder's leading term. */
  function StepScale(f: Field, g: Poly, remainder: Poly): Byte
    requires Valid(f) && IsNormal(g) && !IsZero(g) && IsNormal(remainder)
  {
    Mul(f, Coefficient(remainder, Degree(remainder)), Inverse(f, Coefficient(g, Degree(g))))
  }

  /** The division loop from a given quotient and remainder. */
  function DivideFrom(f: Field, g: Poly, quotient: Poly, remainder: Poly): (qr: (Poly, Poly))
    requires Valid(f) && IsNormal(g) && !IsZero(g) && IsNormal(quotient) && IsNormal(remainder)
    ensures IsNormal(qr.0) && IsNormal(qr.1)
    ensures IsZero(qr.1) || Degree(qr.1) < Degree(g)
    decreases Size(remainder)
  {
    if DivisionContinues(g, remainder) then
      var next := DivisionStep(f, g, quotient, remainder);
      DivideFrom(f, g, next.0, next.1)
    else
      (quotient, remainder)
  }

  /** GenericGFPoly.divide: (quotient, remainder). */
  function Divide(f: Field, p: Poly, g: Poly): (qr: (Poly, Poly))
    requires Valid(f) && IsNormal(p) && IsNormal(g) && !IsZero(g)
    ensures IsNormal(qr.0) && IsNormal(qr.1)
    ensures IsZero(qr.1) || Degree(qr.1) < Degree(g)
  {
    DivideFrom(f, g, [0], p)
  }

  // ---------------------------------------------------------------------
  // Shape facts

  lemma {:induction false} NormalizeNormal(c: seq<Byte>)
    requires IsNormal(c)
    ensures Normalize(c) == c
  {
  }

  /** A leading coefficient of zero makes the normalized form shorter, or zero. */
  lemma {:induction false} NormalizeDropsLeadingZero(c: seq<Byte>)
    requires |c| > 0 && c[0] == 0
    ensures |Normalize(c)| < |c| || IsZero(Normalize(c))
  {
  }

  lemma {:induction false} MultiplyByMonomialShape(f: Field, g: Poly, degree: nat, coefficient: Byte)
    requires Valid(f) && IsNormal(g) && !IsZero(g) && coefficient != 0
    ensures |MultiplyByMonomial(f, g, degree, coefficient)| == |g| + degree
    ensures MultiplyByMonomial(f, g, degree, coefficient)[0] == Mul(f, coefficient, g[0])
  {
    var c := Scale(f, g, coefficient) + Zeros(degree);
    MulZero(f, coefficient, g[0]);
    NormalizeNormal(c);
  }

  /** The step of `DivideFrom` cancels the remainder's leading coefficient. */
  lemma {:induction false} DivisionStepShrinks(f: Field, g: Poly, remainder: Poly, scale: Byte, term: Poly)
    requires Valid(f) && IsNormal(g) && !IsZero(g) && IsNormal(remainder) && !IsZero(remainder)
    requires Degree(remainder) >= Degree(g)
    requires scale == StepScale(f, g, remainder)
    requires term == MultiplyByMonomial(f, g, Degree(remainder) - Degree(g), scale)
    ensures Size(AddOrSubtract(remainder, term)) < Size(remainder)
  {
    LeadingTermCancels(f, remainder[0], g[0]);
    MultiplyByMonomialShape(f, g, Degree(remainder) - Degree(g), scale);
    SameLeadShrinks(remainder, term);
  }

  /** (lead / g0) * g0 == lead, and the multiplier is not zero. */
  lemma {:induction false} LeadingTermCancels(f: Field, lead: Byte, g0: Byte)
    requires Valid(f) && lead != 0 && g0 != 0
    ensures Mul(f, lead, Inverse(f, g0)) != 0
    ensures Mul(f, Mul(f, lead, Inverse(f, g0)), g0) == lead
  {
    var inv := Inverse(f, g0);
    MulZero(f, lead, inv);
    MulInverse(f, g0);
    MulAssociates(f, lead, inv, g0);
    MulCommutes(f, inv, g0);
    MulOne(f, lead);
  }

  /** Subtracting a polynomial of the same degree and leading coefficient lowers the degree. */
  lemma {:induction false} SameLeadShrinks(r: Poly, t: Poly)
    requires IsNormal(r) && IsNormal(t) && !IsZero(r) && |r| == |t| && r[0] == t[0]
    ensures Size(AddOrSubtract(r, t)) < Size(r)
  {
    var s := AddAligned(t, r);
    AddSelf(r[0]);
    assert s[0] == 0;
    NormalizeDropsLeadingZero(s);
  }

  lemma {:induction false} MultiplyShape(f: Field, p: Poly, q: Poly)
    requires Valid(f) && IsNormal(p) && IsNormal(q) && !IsZero(p) && !IsZero(q)
    ensures |Multiply(f, p, q)| == |p| + |q| - 1
    ensures Multiply(f, p, q)[0] == Mul(f, p[0], q[0])
  {
    MulZero(f, p[0], q[0]);
    NormalizeNormal(RawMultiply(f, p, q));
  }

  // ---------------------------------------------------------------------
  // Evaluation: each operation does to values what its name says

  lemma {:induction false} EvalZeros(f: Field, n: nat, x: Byte)
    requires Valid(f)
    ensures Eval(f, Zeros(n), x) == 0
    decreases n
  {
    if n > 0 {
      assert Zeros(n)[1..] == Zeros(n - 1);
      EvalZeros(f, n - 1, x);
      MulZero(f, 0, Pow(f, x, n - 1));
      AddZero(0);
    }
  }

  lemma {:induction false} EvalNormalize(f: Field, c: seq<Byte>, x: Byte)
    requires Valid(f) && |c| > 0
    ensures Eval(f, Normalize(c), x) == Eval(f, c, x)
    decreases |c|
  {
    if |c| > 1 && c[0] == 0 {
      EvalNormalize(f, c[1..], x);
      MulZero(f, 0, Pow(f, x, |c| - 1));
      AddZero(Eval(f, c[1..], x));
    }
  }

  lemma {:induction false} EvalAddAligned(f: Field, p: seq<Byte>, q: seq<Byte>, x: Byte)
    requires Valid(f) && |p| >= |q|
    ensures Eval(f, AddAligned(p, q), x) == Add(Eval(f, p, x), Eval(f, q, x))
    decreases |p|
  {
    var s := AddAligned(p, q);
    if |p| == 0 {
      AddZero(0);
    } else if |p| > |q| {
      assert s[1..] == AddAligned(p[1..], q);
      EvalAddAligned(f, p[1..], q, x);
      AddAssociates(Mul(f, p[0], Pow(f, x, |p| - 1)), Eval(f, p[1..], x), Eval(f, q, x));
    } else {
      assert s[1..] == AddAligned(p[1..], q[1..]);
      EvalAddAligned(f, p[1..], q[1..], x);
      var w := Pow(f, x, |p| - 1);
      AddCommutes(q[0], p[0]);
      MulDistributesRight(f, p[0], q[0], w);
      AddSwapMiddle(Mul(f, p[0], w), Mul(f, q[0], w), Eval(f, p[1..], x), Eval(f, q[1..], x));
    }
  }

  lemma {:induction false} EvalZeroPoly(f: Field, p: Poly, x: Byte)
    requires Valid(f) && IsNormal(p) && IsZero(p)
    ensures Eval(f, p, x) == 0
  {
    assert p == [0];
    MulZero(f, 0, Pow(f, x, 0));
    AddZero(0);
  }

  lemma {:induction false} EvalAddOrSubtract(f: Field, p: Poly, q: Poly, x: Byte)
    requires Valid(f) && IsNormal(p) && IsNormal(q)
    ensures Eval(f, AddOrSubtract(p, q), x) == Add(Eval(f, p, x), Eval(f, q, x))
  {
    if IsZero(p) {
      EvalZeroPoly(f, p, x);
      AddZero(Eval(f, q, x));
    } else if IsZero(q) {
      EvalZeroPoly(f, q, x);
      AddZero(Eval(f, p, x));
    } else if |p| > |q| {
      EvalNormalize(f, AddAligned(p, q), x);
      EvalAddAligned(f, p, q, x);
    } else {
      EvalNormalize(f, AddAligned(q, p), x);
      EvalAddAligned(f, q, p, x);
      AddCommutes(Eval(f, q, x), Eval(f, p, x));
    }
  }

  lemma {:induction false} EvalScale(f: Field, p: seq<Byte>, c: Byte, x: Byte)
    requires Valid(f)
    ensures Eval(f, Scale(f, p, c), x) == Mul(f, c, Eval(f, p, x))
    decreases |p|
  {
    if |p| == 0 {
      MulZero(f, c, 0);
    } else {
      var s := Scale(f, p, c);
      assert s[1..] == Scale(f, p[1..], c);
      EvalScale(f, p[1..], c, x);
      var w := Pow(f, x, |p| - 1);
      MulAssociates(f, c, p[0], w);
      MulDistributes(f, c, Mul(f, p[0], w), Eval(f, p[1..], x));
    }
  }

  /** Appending d zero coefficients multiplies by x^d. */
  lemma {:induction false} EvalShift(f: Field, p: seq<Byte>, d: nat, x: Byte)
    requires Valid(f)
    ensures Eval(f, p + Zeros(d), x) == Mul(f, Eval(f, p, x), Pow(f, x, d))
    decreases |p|
  {
    var w := Pow(f, x, d);
    if |p| == 0 {
      assert p + Zeros(d) == Zeros(d);
      EvalZeros(f, d, x);
      MulZero(f, 0, w);
    } else {
      var s := p + Zeros(d);
      assert s[1..] == p[1..] + Zeros(d);
      EvalShift(f, p[1..], d, x);
      var v := Pow(f, x, |p| - 1);
      PowAdd(f, x, |p| - 1, d);
      MulAssociates(f, p[0], v, w);
      MulDistributesRight(f, Mul(f, p[0], v), Eval(f, p[1..], x), w);
    }
  }

  /** Concatenation: p's coefficients move up by |q| places, then q is added. */
  lemma {:induction false} EvalConcat(f: Field, p: seq<Byte>, q: seq<Byte>, x: Byte)
    requires Valid(f)
    ensures Eval(f, p + q, x) == Add(Mul(f, Eval(f, p, x), Pow(f, x, |q|)), Eval(f, q, x))
  {
    var shifted := p + Zeros(|q|);
    assert AddAligned(shifted, q) == p + q by {
      forall i | 0 <= i < |p| + |q|
        ensures AddAligned(shifted, q)[i] == (p + q)[i]
      {
        if i >= |p| {
          AddZero(q[i - |p|]);
        }
      }
    }
    EvalAddAligned(f, shifted, q, x);
    EvalShift(f, p, |q|, x);
  }

  lemma {:induction false} EvalMultiplyByMonomial(f: Field, p: Poly, degree: nat, coefficient: Byte, x: Byte)
    requires Valid(f) && IsNormal(p)
    ensures Eval(f, MultiplyByMonomial(f, p, degree, coefficient), x)
         == Mul(f, Eval(f, p, x), Mul(f, coefficient, Pow(f, x, degree)))
  {
    var e, w := Eval(f, p, x), Pow(f, x, degree);
    if coefficient == 0 {
      EvalZeroPoly(f, [0], x);
      MulZero(f, 0, w);
      MulZero(f, e, 0);
    } else {
      var c := Scale(f, p, coefficient);
      EvalNormalize(f, c + Zeros(degree), x);
      EvalShift(f, c, degree, x);
      EvalScale(f, p, coefficient, x);
      MulCommutes(f, coefficient, e);
      MulAssociates(f, e, coefficient, w);
    }
  }

  lemma {:induction false} EvalBuildMonomial(f: Field, degree: nat, coefficient: Byte, x: Byte)
    requires Valid(f)
    ensures Eval(f, BuildMonomial(degree, coefficient), x) == Mul(f, coefficient, Pow(f, x, degree))
  {
    if coefficient == 0 {
      EvalZeroPoly(f, [0], x);
      MulZero(f, 0, Pow(f, x, degree));
    } else {
      var m := BuildMonomial(degree, coefficient);
      assert m[1..] == Zeros(degree);
      EvalZeros(f, degree, x);
      AddZero(Mul(f, coefficient, Pow(f, x, degree)));
    }
  }

  lemma {:induction false} EvalRawMultiply(f: Field, p: seq<Byte>, q: seq<Byte>, x: Byte)
    requires Valid(f) && |p| >= 1 && |q| >= 1
    ensures Eval(f, RawMultiply(f, p, q), x) == Mul(f, Eval(f, p, x), Eval(f, q, x))
    decreases |p|
  {
    if |p| == 1 {
      EvalScaleByConstant(f, p, q, x);
    } else {
      EvalRawMultiply(f, p[1..], q, x);
      EvalRawMultiplyStep(f, p, q, x);
    }
  }

  lemma {:induction false} EvalScaleByConstant(f: Field, p: seq<Byte>, q: seq<Byte>, x: Byte)
    requires Valid(f) && |p| == 1 && |q| >= 1
    ensures Eval(f, RawMultiply(f, p, q), x) == Mul(f, Eval(f, p, x), Eval(f, q, x))
  {
    EvalScale(f, q, p[0], x);
    assert p[1..] == [];
    MulOne(f, p[0]);
    AddZero(p[0]);
    assert Eval(f, p, x) == p[0];
  }

  lemma {:induction false} EvalRawMultiplyStep(f: Field, p: seq<Byte>, q: seq<Byte>, x: Byte)
    requires Valid(f) && |p| > 1 && |q| >= 1
    requires Eval(f, RawMultiply(f, p[1..], q), x) == Mul(f, Eval(f, p[1..], x), Eval(f, q, x))
    ensures Eval(f, RawMultiply(f, p, q), x) == Mul(f, Eval(f, p, x), Eval(f, q, x))
  {
    var eq := Eval(f, q, x);
    var w := Pow(f, x, |p| - 1);
    var s := Scale(f, q, p[0]);
    var a := s + Zeros(|p| - 1);
    var r1 := RawMultiply(f, p[1..], q);
    var e1 := Eval(f, p[1..], x);
    EvalScale(f, q, p[0], x);
    EvalAddAligned(f, a, r1, x);
    EvalShift(f, s, |p| - 1, x);
    ProductStep(f, p[0], w, e1, eq);
  }

  /** (p0 * q) * w + e1 * q == (p0 * w + e1) * q. */
  lemma {:induction false} ProductStep(f: Field, p0: Byte, w: Byte, e1: Byte, q: Byte)
    requires Valid(f)
    ensures Add(Mul(f, Mul(f, p0, q), w), Mul(f, e1, q)) == Mul(f, Add(Mul(f, p0, w), e1), q)
  {
    MulAssociates(f, p0, q, w);
    MulCommutes(f, q, w);
    MulAssociates(f, p0, w, q);
    MulDistributesRight(f, Mul(f, p0, w), e1, q);
  }

  lemma {:induction false} EvalMultiply(f: Field, p: Poly, q: Poly, x: Byte)
    requires Valid(f) && IsNormal(p) && IsNormal(q)
    ensures Eval(f, Multiply(f, p, q), x) == Mul(f, Eval(f, p, x), Eval(f, q, x))
  {
    if IsZero(p) {
      EvalZeroPoly(f, p, x);
      EvalZeroPoly(f, [0], x);
      MulZero(f, 0, Eval(f, q, x));
    } else if IsZero(q) {
      EvalZeroPoly(f, q, x);
      EvalZeroPoly(f, [0], x);
      MulZero(f, Eval(f, p, x), 0);
    } else {
      EvalNormalize(f, RawMultiply(f, p, q), x);
      EvalRawMultiply(f, p, q, x);
    }
  }

  /** Long division: at every point, p == quotient * g + remainder. */
  lemma {:induction false} DivisionIdentity(f: Field, p: Poly, g: Poly, x: Byte)
    requires Valid(f) && IsNormal(p) && IsNormal(g) && !IsZero(g)
    ensures var qr := Divide(f, p, g);
            Eval(f, p, x) == Add(Mul(f, Eval(f, qr.0, x), Eval(f, g, x)), Eval(f, qr.1, x))
  {
    EvalZeroPoly(f, [0], x);
    MulZero(f, 0, Eval(f, g, x));
    AddZero(Eval(f, p, x));
    DivideFromIdentity(f, g, [0], p, x);
  }

  /** Every step of `DivideFrom` keeps quotient * g + remainder. */
  lemma {:induction false} DivideFromIdentity(f: Field, g: Poly, quotient: Poly, remainder: Poly, x: Byte)
    requires Valid(f) && IsNormal(g) && !IsZero(g) && IsNormal(quotient) && IsNormal(remainder)
    ensures var qr := DivideFrom(f, g, quotient, remainder);
            Add(Mul(f, Eval(f, quotient, x), Eval(f, g, x)), Eval(f, remainder, x))
            == Add(Mul(f, Eval(f, qr.0, x), Eval(f, g, x)), Eval(f, qr.1, x))
    decreases Size(remainder)
  {
    if DivisionContinues(g, remainder) {
      var next := DivisionStep(f, g, quotient, remainder);
      DivideFromIdentity(f, g, next.0, next.1, x);
      DivisionStepIdentity(f, g, quotient, remainder, x);
    }
  }

  /** One step keeps quotient * g + remainder. */
  lemma {:induction false} DivisionStepIdentity(f: Field, g: Poly, quotient: Poly, remainder: Poly, x: Byte)
    requires Valid(f) && IsNormal(g) && !IsZero(g) && IsNormal(quotient) && IsNormal(remainder)
    requires DivisionContinues(g, remainder)
    ensures var next := DivisionStep(f, g, quotient, remainder);
            Add(Mul(f, Eval(f, quotient, x), Eval(f, g, x)), Eval(f, remainder, x))
            == Add(Mul(f, Eval(f, next.0, x), Eval(f, g, x)), Eval(f, next.1, x))
  {
    var degreeDifference := Degree(remainder) - Degree(g);
    var scale := StepScale(f, g, remainder);
    var term := MultiplyByMonomial(f, g, degreeDifference, scale);
    var iterationQuotient := BuildMonomial(degreeDifference, scale);
    StepIdentity(f, g, quotient, remainder, degreeDifference, scale, term, iterationQuotient, x);
  }

  /** The division step's algebra, on the step's named terms. */
  lemma {:induction false} StepIdentity(f: Field, g: Poly, quotient: Poly, remainder: Poly,
                                        degreeDifference: nat, scale: Byte, term: Poly,
                                        iterationQuotient: Poly, x: Byte)
    requires Valid(f) && IsNormal(g) && IsNormal(quotient) && IsNormal(remainder)
    requires term == MultiplyByMonomial(f, g, degreeDifference, scale)
    requires iterationQuotient == BuildMonomial(degreeDifference, scale)
    ensures Add(Mul(f, Eval(f, quotient, x), Eval(f, g, x)), Eval(f, remainder, x))
            == Add(Mul(f, Eval(f, AddOrSubtract(quotient, iterationQuotient), x), Eval(f, g, x)),
                   Eval(f, AddOrSubtract(remainder, term), x))
  {
    var m := Mul(f, scale, Pow(f, x, degreeDifference));
    EvalAddOrSubtract(f, quotient, iterationQuotient, x);
    EvalAddOrSubtract(f, remainder, term, x);
    EvalBuildMonomial(f, degreeDifference, scale, x);
    EvalMultiplyByMonomial(f, g, degreeDifference, scale, x);
    MulCommutes(f, Eval(f, g, x), m);
    DivisionStepKeeps(f, Eval(f, quotient, x), Eval(f, remainder, x), Eval(f, g, x), m);
  }

  /** (q + m) * g + (r + m * g) == q * g + r. */
  lemma {:induction false} DivisionStepKeeps(f: Field, q: Byte, r: Byte, g: Byte, m: Byte)
    requires Valid(f)
    ensures Add(Mul(f, Add(q, m), g), Add(r, Mul(f, m, g))) == Add(Mul(f, q, g), r)
  {
    var qg, mg := Mul(f, q, g), Mul(f, m, g);
    MulDistributesRight(f, q, m, g);
    AddSwapMiddle(qg, mg, r, mg);
    AddSelf(mg);
    AddZero(Add(qg, r));
  }
}
