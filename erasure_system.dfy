/** The linear system behind the erasure-fill encoder. A codeword c of
  * length n has some positions fixed by the caller and the others free; the
  * free ones are chosen so that c passes the n - k parity checks
  *   sum over p of c[p] * alpha^(i * (n - 1 - p)) == 0,   0 <= i < n - k,
  * i.e. c(alpha^i) == 0. Moving the fixed terms to the right-hand side gives a
  * square system in the free bytes. */
module ErasureSystem {
  import opened GF256
  import opened GFPoly
  import opened LinearSystem

  /** The positions p of flag with flag[p] == want, in ascending order. */
  function Positions(flag: seq<bool>, want: bool): (ps: seq<nat>)
    ensures |ps| <= |flag|
    ensures forall j :: 0 <= j < |ps| ==> ps[j] < |flag| && flag[ps[j]] == want
    ensures forall j1, j2 :: 0 <= j1 < j2 < |ps| ==> ps[j1] < ps[j2]
    decreases |flag|
  {
    if |flag| == 0 then []
    else
      var last := |flag| - 1;
      var before := Positions(flag[..last], want);
      if flag[last] == want then before + [last] else before
  }

  /** One more flag scanned: its position joins the list when it matches. */
  lemma PositionsStep(flag: seq<bool>, t: nat, want: bool)
    requires t < |flag|
    ensures Positions(flag[..t + 1], want)
         == Positions(flag[..t], want) + (if flag[t] == want then [t] else [])
  {
    assert flag[..t + 1][..t] == flag[..t];
  }

  /** Scanning more flags only appends positions. */
  lemma {:induction false} PositionsPrefix(flag: seq<bool>, t: nat, u: nat, want: bool)
    requires t <= u <= |flag|
    ensures Positions(flag[..t], want) <= Positions(flag[..u], want)
    decreases u - t
  {
    if t < u {
      PositionsPrefix(flag, t + 1, u, want);
      PositionsStep(flag, t, want);
    }
  }

  /** Every position is either fixed or free. */
  lemma {:induction false} PositionsPartition(flag: seq<bool>)
    ensures |Positions(flag, true)| + |Positions(flag, false)| == |flag|
    decreases |flag|
  {
    if |flag| > 0 {
      PositionsPartition(flag[..|flag| - 1]);
    }
  }

  /** Among the first t + 1 flags, a free position t is the free position of rank |Positions(flag[..t], false)|. */
  lemma PositionRank(flag: seq<bool>, t: nat, want: bool)
    requires t < |flag| && flag[t] == want
    ensures |Positions(flag[..t], want)| < |Positions(flag, want)|
    ensures Positions(flag, want)[|Positions(flag[..t], want)|] == t
  {
    PositionsStep(flag, t, want);
    PositionsPrefix(flag, t + 1, |flag|, want);
    assert flag[..|flag|] == flag;
  }

  // ---------------------------------------------------------------------
  // The codeword and its parity checks

  /** The exponent of position p in parity check i: p is the coefficient of
    * x^(n - 1 - p), and check i evaluates at alpha^i. */
  function Exponent(n: nat, i: nat, p: nat): nat
    requires p < n
  {
    i * (n - 1 - p)
  }

  /** The weight alpha^(Exponent mod 255) of position p in parity check i. */
  function Weight(f: Field, n: nat, i: nat, p: nat): Byte
    requires Valid(f) && p < n
  {
    Exp(f, Exponent(n, i, p) % 255)
  }

  /** Parity check i over the first t positions of c. */
  function ParityPrefix(f: Field, c: seq<Byte>, i: nat, t: nat): Byte
    requires Valid(f) && t <= |c|
  {
    if t == 0 then 0 else Add(ParityPrefix(f, c, i, t - 1), Mul(f, c[t - 1], Weight(f, |c|, i, t - 1)))
  }

  /** Parity check i of a codeword: the sum of c[p] * alpha^(i * (n - 1 - p)). */
  function ParityCheck(f: Field, c: seq<Byte>, i: nat): Byte
    requires Valid(f)
  {
    ParityPrefix(f, c, i, |c|)
  }

  /** The codeword with the free positions filled from x, in ascending order. */
  function Fill(code: seq<Byte>, flag: seq<bool>, x: seq<Byte>): (c: seq<Byte>)
    requires |flag| == |code| && |x| + |Positions(flag, true)| == |code|
    ensures |c| == |code|
  {
    seq(|code|, p requires 0 <= p < |code| =>
      if flag[p] then code[p]
      else
        // the rank is always below |x| (PositionRank); the guard keeps Fill total
        var rank := |Positions(flag[..p], false)|;
        if rank < |x| then x[rank] else 0)
  }

  // ---------------------------------------------------------------------
  // The system the encoder builds

  /** Row i of the coefficient matrix: column j weighs the j-th free position. */
  function CoefficientRow(f: Field, free: seq<nat>, n: nat, i: nat): (row: seq<Byte>)
    requires Valid(f) && forall j :: 0 <= j < |free| ==> free[j] < n
    ensures |row| == |free|
  {
    seq(|free|, j requires 0 <= j < |free| => Weight(f, n, i, free[j]))
  }

  /** Right-hand side i over the first j fixed positions: the fixed terms, each
    * computed from the log table as the encoder does, zero bytes skipped. */
  function RhsPrefix(f: Field, code: seq<Byte>, fixed: seq<nat>, i: nat, j: nat): Byte
    requires Valid(f) && j <= |fixed| && forall t :: 0 <= t < |fixed| ==> fixed[t] < |code|
  {
    if j == 0 then 0
    else
      var before := RhsPrefix(f, code, fixed, i, j - 1);
      var p := fixed[j - 1];
      if code[p] != 0 then Add(before, Exp(f, (Log(f, code[p]) + Exponent(|code|, i, p)) % 255)) else before
  }

  /** The augmented system: n - k rows of n - k coefficients and a right-hand side. */
  function SystemMatrix(f: Field, code: seq<Byte>, flag: seq<bool>, k: nat): (a: Matrix)
    requires Valid(f) && |flag| == |code| && k <= |code|
    requires |Positions(flag, true)| == k
    ensures Shaped(a, |code| - k)
  {
    var free, fixed := Positions(flag, false), Positions(flag, true);
    PositionsPartition(flag);
    seq(|code| - k, i requires 0 <= i < |code| - k =>
      CoefficientRow(f, free, |code|, i) + [RhsPrefix(f, code, fixed, i, k)])
  }

  // ---------------------------------------------------------------------
  // Solutions of the system are exactly the fillings that pass the checks

  /** A fixed term as the encoder computes it, exp[(log b + e) mod 255] for a
    * non-zero byte b, is b times alpha^(e mod 255). */
  lemma {:induction false} RhsTerm(f: Field, b: Byte, e: nat)
    requires Valid(f)
    ensures (if b != 0 then Exp(f, (Log(f, b) + e) % 255) else 0) == Mul(f, b, Exp(f, e % 255))
  {
    if b != 0 {
      assert Log(f, Exp(f, e % 255)) == e % 255;
      ModShift(Log(f, b), e);
    }
  }

  /** Row i of the system, dotted with x + [1], is parity check i of the filled codeword. */
  lemma {:induction false} SystemRowIsParity(f: Field, code: seq<Byte>, flag: seq<bool>, k: nat, x: seq<Byte>, i: nat)
    requires Valid(f) && |flag| == |code| && k <= |code| && |Positions(flag, true)| == k
    requires |x| == |code| - k && i < |code| - k
    ensures DotRange(f, SystemMatrix(f, code, flag, k)[i], x + [1], 0, |x| + 1)
         == ParityCheck(f, Fill(code, flag, x), i)
  {
    PositionsPartition(flag);
    var n, m := |code|, |code| - k;
    var row := SystemMatrix(f, code, flag, k)[i];
    var c := Fill(code, flag, x);
    var free, fixed := Positions(flag, false), Positions(flag, true);
    var coefficients := CoefficientRow(f, free, n, i);
    assert row == coefficients + [RhsPrefix(f, code, fixed, i, k)];
    ParityByScan(f, code, flag, x, i, n);
    assert flag[..n] == flag;
    DotSplit(f, row, x + [1], 0, m, m + 1);
    DotFrame(f, row, x + [1], coefficients, x, 0, m);
    MulOne(f, row[m]);
    AddZero(row[m]);
  }

  /** Scanning at most all flags finds at most all positions. */
  lemma PositionsCountBound(flag: seq<bool>, t: nat, want: bool)
    requires t <= |flag|
    ensures |Positions(flag[..t], want)| <= |Positions(flag, want)|
  {
    PositionsPrefix(flag, t, |flag|, want);
    assert flag[..|flag|] == flag;
  }

  /** What the scan behind SystemRowIsParity keeps: after t positions, the
    * parity prefix is the free terms seen so far plus the fixed terms seen so far. */
  ghost predicate ScanInvariant(f: Field, code: seq<Byte>, flag: seq<bool>, x: seq<Byte>, i: nat, t: nat)
    requires Valid(f) && |flag| == |code| && |x| + |Positions(flag, true)| == |code| && t <= |code|
  {
    var free, fixed := Positions(flag, false), Positions(flag, true);
    var cf, cx := |Positions(flag[..t], false)|, |Positions(flag[..t], true)|;
    cf <= |free| && cf <= |x| && cx <= |fixed| &&
    ParityPrefix(f, Fill(code, flag, x), i, t)
    == Add(DotRange(f, CoefficientRow(f, free, |code|, i), x, 0, cf), RhsPrefix(f, code, fixed, i, cx))
  }

  lemma {:induction false} ParityByScan(f: Field, code: seq<Byte>, flag: seq<bool>, x: seq<Byte>, i: nat, t: nat)
    requires Valid(f) && |flag| == |code| && |x| + |Positions(flag, true)| == |code| && t <= |code|
    ensures ScanInvariant(f, code, flag, x, i, t)
    decreases t
  {
    if t == 0 {
      PositionsPartition(flag);
      AddZero(0);
    } else {
      ParityByScan(f, code, flag, x, i, t - 1);
      if flag[t - 1] {
        ScanFixedStep(f, code, flag, x, i, t - 1);
      } else {
        ScanFreeStep(f, code, flag, x, i, t - 1);
      }
    }
  }

  /** One more fixed position, in the form the encoder computes it. */
  lemma RhsPrefixUnfold(f: Field, code: seq<Byte>, fixed: seq<nat>, i: nat, j: nat)
    requires Valid(f) && 0 < j <= |fixed| && forall t :: 0 <= t < |fixed| ==> fixed[t] < |code|
    ensures var p := fixed[j - 1];
            RhsPrefix(f, code, fixed, i, j)
              == if code[p] != 0
                 then Add(RhsPrefix(f, code, fixed, i, j - 1), Exp(f, (Log(f, code[p]) + Exponent(|code|, i, p)) % 255))
                 else RhsPrefix(f, code, fixed, i, j - 1)
  {
  }

  lemma {:induction false} RhsPrefixStep(f: Field, code: seq<Byte>, fixed: seq<nat>, i: nat, j: nat)
    requires Valid(f) && j < |fixed| && forall t :: 0 <= t < |fixed| ==> fixed[t] < |code|
    ensures RhsPrefix(f, code, fixed, i, j + 1)
         == Add(RhsPrefix(f, code, fixed, i, j), Mul(f, code[fixed[j]], Weight(f, |code|, i, fixed[j])))
  {
    var p := fixed[j];
    RhsTerm(f, code[p], Exponent(|code|, i, p));
    AddZero(RhsPrefix(f, code, fixed, i, j));
  }

  lemma {:induction false} ScanFixedStep(f: Field, code: seq<Byte>, flag: seq<bool>, x: seq<Byte>, i: nat, p: nat)
    requires Valid(f) && |flag| == |code| && |x| + |Positions(flag, true)| == |code| && p < |code| && flag[p]
    requires ScanInvariant(f, code, flag, x, i, p)
    ensures ScanInvariant(f, code, flag, x, i, p + 1)
  {
    PositionsPartition(flag);
    var free, fixed := Positions(flag, false), Positions(flag, true);
    var cf, cx := |Positions(flag[..p], false)|, |Positions(flag[..p], true)|;
    PositionsStep(flag, p, false);
    PositionsStep(flag, p, true);
    PositionRank(flag, p, true);
    RhsPrefixStep(f, code, fixed, i, cx);
    var d := DotRange(f, CoefficientRow(f, free, |code|, i), x, 0, cf);
    var r := RhsPrefix(f, code, fixed, i, cx);
    var c := Fill(code, flag, x);
    assert c[p] == code[p];
    AddAssociates(d, r, Mul(f, code[p], Weight(f, |code|, i, p)));
  }

  lemma {:induction false} ScanFreeStep(f: Field, code: seq<Byte>, flag: seq<bool>, x: seq<Byte>, i: nat, p: nat)
    requires Valid(f) && |flag| == |code| && |x| + |Positions(flag, true)| == |code| && p < |code| && !flag[p]
    requires ScanInvariant(f, code, flag, x, i, p)
    ensures ScanInvariant(f, code, flag, x, i, p + 1)
  {
    PositionsPartition(flag);
    var free, fixed := Positions(flag, false), Positions(flag, true);
    var cf, cx := |Positions(flag[..p], false)|, |Positions(flag[..p], true)|;
    PositionsStep(flag, p, false);
    PositionsStep(flag, p, true);
    PositionRank(flag, p, false);
    var row := CoefficientRow(f, free, |code|, i);
    var d := DotRange(f, row, x, 0, cf);
    var r := RhsPrefix(f, code, fixed, i, cx);
    var c := Fill(code, flag, x);
    var w := Weight(f, |code|, i, p);
    assert c[p] == x[cf];
    assert row[cf] == w;
    FreeTermSwap(f, ParityPrefix(f, c, i, p), d, r, w, x[cf]);
  }

  /** The algebra of a free step: with pp == d + r, pp + x w == (d + w x) + r. */
  lemma {:induction false} FreeTermSwap(f: Field, pp: Byte, d: Byte, r: Byte, w: Byte, xv: Byte)
    requires Valid(f) && pp == Add(d, r)
    ensures Add(pp, Mul(f, xv, w)) == Add(Add(d, Mul(f, w, xv)), r)
  {
    var t := Mul(f, xv, w);
    MulCommutes(f, w, xv);
    AddAssociates(d, r, t);
    AddCommutes(r, t);
    AddAssociates(d, t, r);
  }

  /** Hence x solves the system exactly when the filled codeword passes every check. */
  lemma {:induction false} SolutionsPassParity(f: Field, code: seq<Byte>, flag: seq<bool>, k: nat, x: seq<Byte>)
    requires Valid(f) && |flag| == |code| && k <= |code| && |Positions(flag, true)| == k && |x| == |code| - k
    ensures Null(f, SystemMatrix(f, code, flag, k), |code| - k, x + [1])
        <==> forall i :: 0 <= i < |code| - k ==> ParityCheck(f, Fill(code, flag, x), i) == 0
  {
    forall i | 0 <= i < |code| - k
      ensures DotRange(f, SystemMatrix(f, code, flag, k)[i], x + [1], 0, |code| - k + 1)
           == ParityCheck(f, Fill(code, flag, x), i)
    {
      SystemRowIsParity(f, code, flag, k, x, i);
    }
  }

  // ---------------------------------------------------------------------
  // The parity checks are evaluations at the powers of alpha

  lemma ModMulLeft(i: nat, m: nat)
    ensures ((i % 255) * m) % 255 == (i * m) % 255
  {
    var q, r := i / 255, i % 255;
    assert i * m == 255 * (q * m) + r * m by {
      assert i == 255 * q + r;
    }
  }

  /** alpha^(i * e mod 255) is (alpha^(i mod 255))^e. */
  lemma {:induction false} WeightIsPower(f: Field, n: nat, i: nat, p: nat)
    requires Valid(f) && p < n
    ensures Weight(f, n, i, p) == Pow(f, Exp(f, i % 255), n - 1 - p)
  {
    PowOfExp(f, i % 255, n - 1 - p);
    ModMulLeft(i, n - 1 - p);
  }

  /** The prefix of a check is the prefix polynomial evaluated and shifted up. */
  lemma {:induction false} ParityPrefixIsEval(f: Field, c: seq<Byte>, i: nat, t: nat)
    requires Valid(f) && t <= |c|
    ensures ParityPrefix(f, c, i, t) == Mul(f, Eval(f, c[..t], Exp(f, i % 255)), Pow(f, Exp(f, i % 255), |c| - t))
    decreases t
  {
    var x := Exp(f, i % 255);
    if t == 0 {
      assert c[..0] == [];
      MulZero(f, 0, Pow(f, x, |c|));
    } else {
      var p := t - 1;
      ParityPrefixIsEval(f, c, i, p);
      ParityPrefixStep(f, c, i, t);
      HornerStep(f, ParityPrefix(f, c, i, p), Eval(f, c[..p], x), c[p], x, |c| - t, |c| - p);
    }
  }

  /** One position more, on both sides of ParityPrefixIsEval. */
  lemma {:induction false} ParityPrefixStep(f: Field, c: seq<Byte>, i: nat, t: nat)
    requires Valid(f) && 0 < t <= |c|
    ensures var x := Exp(f, i % 255);
            ParityPrefix(f, c, i, t) == Add(ParityPrefix(f, c, i, t - 1), Mul(f, c[t - 1], Pow(f, x, |c| - t)))
            && Eval(f, c[..t], x) == Add(Mul(f, Eval(f, c[..t - 1], x), x), c[t - 1])
  {
    WeightIsPower(f, |c|, i, t - 1);
    assert c[..t] == c[..t - 1] + [c[t - 1]];
    EvalAppend(f, c[..t - 1], c[t - 1], Exp(f, i % 255));
  }

  /** Evaluating with one more coefficient appended: Horner's rule. */
  lemma {:induction false} EvalAppend(f: Field, p: seq<Byte>, b: Byte, x: Byte)
    requires Valid(f)
    ensures Eval(f, p + [b], x) == Add(Mul(f, Eval(f, p, x), x), b)
  {
    EvalConcat(f, p, [b], x);
    assert [b][1..] == [];
    MulOne(f, b);
    AddZero(b);
    MulOne(f, x);
  }

  /** With pp == e * x^s1 and s1 == s + 1: pp + b * x^s == (e * x + b) * x^s. */
  lemma {:induction false} HornerStep(f: Field, pp: Byte, e: Byte, b: Byte, x: Byte, s: nat, s1: nat)
    requires Valid(f) && s1 == s + 1 && pp == Mul(f, e, Pow(f, x, s1))
    ensures Add(pp, Mul(f, b, Pow(f, x, s))) == Mul(f, Add(Mul(f, e, x), b), Pow(f, x, s))
  {
    var w := Pow(f, x, s);
    assert Pow(f, x, s1) == Mul(f, x, w);
    MulAssociates(f, e, x, w);
    MulDistributesRight(f, Mul(f, e, x), b, w);
  }

  /** Parity check i is the codeword polynomial evaluated at alpha^i. */
  lemma {:induction false} ParityIsEval(f: Field, c: seq<Byte>, i: nat)
    requires Valid(f)
    ensures ParityCheck(f, c, i) == Eval(f, c, Exp(f, i % 255))
  {
    ParityPrefixIsEval(f, c, i, |c|);
    assert c[..|c|] == c;
    MulOne(f, Eval(f, c, Exp(f, i % 255)));
  }

  // ---------------------------------------------------------------------
  // Solving the system

  /** A triangular system with the solutions of the encoder's system, back-solved into x:
    * when the encoder's system is nonsingular, x solves it, and filling the free positions
    * with x gives a word whose first n - k parity checks are all zero. */
  lemma {:induction false} SolvedSystemPassesParity(f: Field, code: seq<Byte>, flag: seq<bool>, k: nat, m: nat, t: Matrix, x: seq<Byte>)
    requires Valid(f) && |flag| == |code| && k <= |code| && |Positions(flag, true)| == k && m == |code| - k
    requires Shaped(t, m) && UpperTriangular(t, m) && SameNull(f, t, SystemMatrix(f, code, flag, k), m)
    requires |x| == m && forall i :: 0 <= i < m ==> BackSolvedAt(f, t, m, x, i)
    requires Nonsingular(f, SystemMatrix(f, code, flag, k), m)
    ensures Null(f, SystemMatrix(f, code, flag, k), m, x + [1])
    ensures forall i :: 0 <= i < m ==> ParityCheck(f, Fill(code, flag, x), i) == 0
  {
    var a := SystemMatrix(f, code, flag, k);
    SameNullNonsingular(f, t, a, m);
    NonsingularDiagonal(f, t, m);
    BackSolvedSolves(f, t, m, x);
    assert Null(f, t, m, x + [1]);
    SolutionsPassParity(f, code, flag, k, x);
  }
}
