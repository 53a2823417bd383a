/** Square linear systems over GF(256), written as augmented matrices:
  * m rows of m + 1 entries, the last entry of a row being its right-hand side.
  * Because addition in GF(256) is its own inverse, row i of a system holds
  * for a vector z of m + 1 entries when the full row dotted with z is 0; the
  * inhomogeneous system A x = b is then the case z = x + [1], and the
  * homogeneous one the case z[m] == 0. */
module LinearSystem {
  import opened GF256

  type Matrix = seq<seq<Byte>>

  /** Sum of row[j] * z[j] for lo <= j < hi, accumulated left to right. */
  function DotRange(f: Field, row: seq<Byte>, z: seq<Byte>, lo: nat, hi: nat): Byte
    requires Valid(f) && lo <= hi <= |row| && hi <= |z|
    decreases hi
  {
    if hi == lo then 0 else Add(DotRange(f, row, z, lo, hi - 1), Mul(f, row[hi - 1], z[hi - 1]))
  }

  /** m rows of m + 1 entries each. */
  ghost predicate Shaped(a: Matrix, m: nat)
  {
    |a| == m && forall i :: 0 <= i < m ==> |a[i]| == m + 1
  }

  /** Every row of a, dotted with z, gives 0. */
  ghost predicate Null(f: Field, a: Matrix, m: nat, z: seq<Byte>)
    requires Valid(f) && Shaped(a, m) && |z| == m + 1
  {
    forall i :: 0 <= i < m ==> DotRange(f, a[i], z, 0, m + 1) == 0
  }

  /** a and b have the same solutions. */
  ghost predicate SameNull(f: Field, a: Matrix, b: Matrix, m: nat)
    requires Valid(f) && Shaped(a, m) && Shaped(b, m)
  {
    forall z: seq<Byte> :: |z| == m + 1 ==> (Null(f, a, m, z) <==> Null(f, b, m, z))
  }

  predicate IsZeroVector(z: seq<Byte>)
  {
    forall j :: 0 <= j < |z| ==> z[j] == 0
  }

  /** The homogeneous system has only the trivial solution. */
  ghost predicate Nonsingular(f: Field, a: Matrix, m: nat)
    requires Valid(f) && Shaped(a, m)
  {
    forall z: seq<Byte> :: |z| == m + 1 && z[m] == 0 && Null(f, a, m, z) ==> IsZeroVector(z)
  }

  /** Zero below the diagonal. */
  ghost predicate UpperTriangular(a: Matrix, m: nat)
    requires Shaped(a, m)
  {
    forall i, j :: 0 <= j < i < m ==> a[i][j] == 0
  }

  /** Elimination has reached column k: in every column before k, the entries below the diagonal are zero. */
  ghost predicate ClearedBefore(a: Matrix, m: nat, k: nat)
    requires Shaped(a, m)
  {
    forall r, j :: 0 <= j < k && j < r < m ==> a[r][j] == 0
  }

  /** Row r plus c times row p. */
  function AddScaledRow(f: Field, r: seq<Byte>, c: Byte, p: seq<Byte>): (s: seq<Byte>)
    requires Valid(f) && |r| == |p|
    ensures |s| == |r|
  {
    seq(|r|, j requires 0 <= j < |r| => Add(r[j], Mul(f, c, p[j])))
  }

  /** The right-hand-side column. */
  function Column(a: Matrix, m: nat): (x: seq<Byte>)
    requires forall i :: 0 <= i < |a| ==> |a[i]| > m
    ensures |x| == |a|
  {
    seq(|a|, i requires 0 <= i < |a| => a[i][m])
  }

  // ---------------------------------------------------------------------
  // Dot products

  lemma {:induction false} DotSplit(f: Field, row: seq<Byte>, z: seq<Byte>, lo: nat, mid: nat, hi: nat)
    requires Valid(f) && lo <= mid <= hi <= |row| && hi <= |z|
    ensures DotRange(f, row, z, lo, hi) == Add(DotRange(f, row, z, lo, mid), DotRange(f, row, z, mid, hi))
    decreases hi
  {
    if hi == mid {
      AddZero(DotRange(f, row, z, lo, mid));
    } else {
      DotSplit(f, row, z, lo, mid, hi - 1);
      AddAssociates(DotRange(f, row, z, lo, mid), DotRange(f, row, z, mid, hi - 1), Mul(f, row[hi - 1], z[hi - 1]));
    }
  }

  /** The dot product only sees the entries in its range. */
  lemma {:induction false} DotFrame(f: Field, row: seq<Byte>, z: seq<Byte>, row': seq<Byte>, z': seq<Byte>, lo: nat, hi: nat)
    requires Valid(f) && lo <= hi <= |row| && hi <= |z| && hi <= |row'| && hi <= |z'|
    requires forall j :: lo <= j < hi ==> row[j] == row'[j] && z[j] == z'[j]
    ensures DotRange(f, row, z, lo, hi) == DotRange(f, row', z', lo, hi)
    decreases hi
  {
    if hi > lo {
      DotFrame(f, row, z, row', z', lo, hi - 1);
    }
  }

  /** Terms whose coefficient is zero contribute nothing. */
  lemma {:induction false} DotOfZeros(f: Field, row: seq<Byte>, z: seq<Byte>, lo: nat, hi: nat)
    requires Valid(f) && lo <= hi <= |row| && hi <= |z|
    requires forall j :: lo <= j < hi ==> row[j] == 0 || z[j] == 0
    ensures DotRange(f, row, z, lo, hi) == 0
    decreases hi
  {
    if hi > lo {
      DotOfZeros(f, row, z, lo, hi - 1);
      MulZero(f, row[hi - 1], z[hi - 1]);
      AddZero(0);
    }
  }

  /** The dot product is linear in the row: s is r plus c times p on lo..hi. */
  lemma {:induction false} DotAddScaled(f: Field, s: seq<Byte>, r: seq<Byte>, c: Byte, p: seq<Byte>, z: seq<Byte>, lo: nat, hi: nat)
    requires Valid(f) && lo <= hi <= |r| && hi <= |z| && hi <= |p| && hi <= |s|
    requires forall j :: lo <= j < hi ==> s[j] == Add(r[j], Mul(f, c, p[j]))
    ensures DotRange(f, s, z, lo, hi) == Add(DotRange(f, r, z, lo, hi), Mul(f, c, DotRange(f, p, z, lo, hi)))
    decreases hi
  {
    if hi == lo {
      MulZero(f, c, 0);
      AddZero(0);
    } else {
      DotAddScaled(f, s, r, c, p, z, lo, hi - 1);
      var j := hi - 1;
      ScaledTermStep(f, DotRange(f, r, z, lo, j), DotRange(f, p, z, lo, j), r[j], p[j], z[j], c);
    }
  }

  /** (R + c P) + (r + c p) z == (R + r z) + c (P + p z). */
  lemma {:induction false} ScaledTermStep(f: Field, rr: Byte, pp: Byte, r: Byte, p: Byte, z: Byte, c: Byte)
    requires Valid(f)
    ensures Add(Add(rr, Mul(f, c, pp)), Mul(f, Add(r, Mul(f, c, p)), z))
         == Add(Add(rr, Mul(f, r, z)), Mul(f, c, Add(pp, Mul(f, p, z))))
  {
    MulDistributesRight(f, r, Mul(f, c, p), z);
    MulAssociates(f, c, p, z);
    MulDistributes(f, c, pp, Mul(f, p, z));
    AddSwapMiddle(rr, Mul(f, c, pp), Mul(f, r, z), Mul(f, c, Mul(f, p, z)));
  }

  // ---------------------------------------------------------------------
  // Row operations keep the solutions

  /** Proof helper: having the same solutions is transitive. */
  lemma SameNullTransitive(f: Field, a: Matrix, b: Matrix, c: Matrix, m: nat)
    requires Valid(f) && Shaped(a, m) && Shaped(b, m) && Shaped(c, m)
    requires SameNull(f, a, b, m) && SameNull(f, b, c, m)
    ensures SameNull(f, a, c, m)
  {
  }

  /** Exchanging two rows keeps the solutions. */
  lemma {:induction false} SwapKeepsNull(f: Field, a: Matrix, m: nat, r1: nat, r2: nat)
    requires Valid(f) && Shaped(a, m) && r1 < m && r2 < m
    ensures Shaped(a[r1 := a[r2]][r2 := a[r1]], m)
    ensures SameNull(f, a[r1 := a[r2]][r2 := a[r1]], a, m)
  {
    var b := a[r1 := a[r2]][r2 := a[r1]];
    forall z: seq<Byte> | |z| == m + 1
      ensures Null(f, b, m, z) <==> Null(f, a, m, z)
    {
      if Null(f, b, m, z) {
        forall i | 0 <= i < m
          ensures DotRange(f, a[i], z, 0, m + 1) == 0
        {
          var k := if i == r1 then r2 else if i == r2 then r1 else i;
          assert b[k] == a[i];
        }
      }
      if Null(f, a, m, z) {
        forall i | 0 <= i < m
          ensures DotRange(f, b[i], z, 0, m + 1) == 0
        {
          var k := if i == r1 then r2 else if i == r2 then r1 else i;
          assert b[i] == a[k];
        }
      }
    }
  }

  /** Adding a multiple of row k to another row i keeps the solutions. */
  lemma {:induction false} RowUpdateKeepsNull(f: Field, a: Matrix, m: nat, i: nat, k: nat, c: Byte)
    requires Valid(f) && Shaped(a, m) && i < m && k < m && i != k
    ensures Shaped(a[i := AddScaledRow(f, a[i], c, a[k])], m)
    ensures SameNull(f, a[i := AddScaledRow(f, a[i], c, a[k])], a, m)
  {
    var b := a[i := AddScaledRow(f, a[i], c, a[k])];
    forall z: seq<Byte> | |z| == m + 1
      ensures Null(f, b, m, z) <==> Null(f, a, m, z)
    {
      var di, dk := DotRange(f, a[i], z, 0, m + 1), DotRange(f, a[k], z, 0, m + 1);
      DotAddScaled(f, b[i], a[i], c, a[k], z, 0, m + 1);
      assert DotRange(f, b[i], z, 0, m + 1) == Add(di, Mul(f, c, dk));
      if Null(f, b, m, z) {
        assert b[k] == a[k];
        assert dk == 0;
        MulZero(f, c, 0);
        AddZero(di);
        forall r | 0 <= r < m
          ensures DotRange(f, a[r], z, 0, m + 1) == 0
        {
          if r != i {
            assert b[r] == a[r];
          }
        }
      }
      if Null(f, a, m, z) {
        assert di == 0 && dk == 0;
        MulZero(f, c, 0);
        AddZero(0);
        forall r | 0 <= r < m
          ensures DotRange(f, b[r], z, 0, m + 1) == 0
        {
          if r != i {
            assert b[r] == a[r];
          }
        }
      }
    }
  }

  // ---------------------------------------------------------------------
  // A zero on the diagonal of a triangular system gives a non-trivial
  // solution of the homogeneous system.

  /** Candidate kernel vector: 1 at k, zero above k, back-solved for rows j..k-1. */
  function KernelFrom(f: Field, t: Matrix, m: nat, k: nat, j: nat): (z: seq<Byte>)
    requires Valid(f) && Shaped(t, m) && j <= k < m
    ensures |z| == m + 1
    decreases k - j
  {
    if j == k then seq(m + 1, l requires 0 <= l <= m => if l == k then 1 else 0)
    else
      var z := KernelFrom(f, t, m, k, j + 1);
      z[j := Quot(f, DotRange(f, t[j], z, j + 1, m + 1), t[j][j])]
  }

  lemma {:induction false} KernelFromShape(f: Field, t: Matrix, m: nat, k: nat, j: nat)
    requires Valid(f) && Shaped(t, m) && j <= k < m
    ensures var z := KernelFrom(f, t, m, k, j);
            z[k] == 1 && z[m] == 0 && (forall l :: k < l <= m ==> z[l] == 0) && (forall l :: 0 <= l < j ==> z[l] == 0)
    decreases k - j
  {
    if j < k {
      KernelFromShape(f, t, m, k, j + 1);
    }
  }

  /** Rows j..m-1 of a triangular t whose diagonal is non-zero before k and zero at k vanish on KernelFrom(j). */
  lemma {:induction false} KernelFromSolves(f: Field, t: Matrix, m: nat, k: nat, j: nat)
    requires Valid(f) && Shaped(t, m) && UpperTriangular(t, m) && j <= k < m
    requires t[k][k] == 0 && forall i :: j <= i < k ==> t[i][i] != 0
    ensures forall r :: j <= r < m ==> DotRange(f, t[r], KernelFrom(f, t, m, k, j), 0, m + 1) == 0
    decreases k - j
  {
    if j == k {
      KernelBaseSolves(f, t, m, k);
    } else {
      var y := KernelFrom(f, t, m, k, j + 1);
      KernelFromShape(f, t, m, k, j + 1);
      KernelFromSolves(f, t, m, k, j + 1);
      var z := y[j := Quot(f, DotRange(f, t[j], y, j + 1, m + 1), t[j][j])];
      assert KernelFrom(f, t, m, k, j) == z;
      forall r | j < r < m
        ensures DotRange(f, t[r], z, 0, m + 1) == 0
      {
        KernelRowKept(f, t[r], y, z, m, r, j);
      }
      KernelRowSolved(f, t[j], y, z, m, j);
    }
  }

  /** Rows k..m-1 vanish on the starting vector, which is 1 at k and 0 elsewhere. */
  lemma {:induction false} KernelBaseSolves(f: Field, t: Matrix, m: nat, k: nat)
    requires Valid(f) && Shaped(t, m) && UpperTriangular(t, m) && k < m && t[k][k] == 0
    ensures forall r :: k <= r < m ==> DotRange(f, t[r], KernelFrom(f, t, m, k, k), 0, m + 1) == 0
  {
    var z := KernelFrom(f, t, m, k, k);
    forall r | k <= r < m
      ensures DotRange(f, t[r], z, 0, m + 1) == 0
    {
      forall l | 0 <= l < m + 1
        ensures t[r][l] == 0 || z[l] == 0
      {
        if l < r {
          assert t[r][l] == 0;
        }
      }
      DotOfZeros(f, t[r], z, 0, m + 1);
    }
  }

  /** Changing z at j, where row r (r > j) of a triangular system is zero, keeps row r's dot product. */
  lemma {:induction false} KernelRowKept(f: Field, row: seq<Byte>, y: seq<Byte>, z: seq<Byte>, m: nat, r: nat, j: nat)
    requires Valid(f) && |row| == m + 1 && |y| == m + 1 && j < r < m
    requires forall l :: 0 <= l < r ==> row[l] == 0
    requires |z| == m + 1 && forall l :: 0 <= l < m + 1 && l != j ==> z[l] == y[l]
    requires DotRange(f, row, y, 0, m + 1) == 0
    ensures DotRange(f, row, z, 0, m + 1) == 0
  {
    DotSplit(f, row, z, 0, r, m + 1);
    DotSplit(f, row, y, 0, r, m + 1);
    DotFrame(f, row, z, row, y, r, m + 1);
    DotOfZeros(f, row, z, 0, r);
    DotOfZeros(f, row, y, 0, r);
  }

  /** Setting z[j] to the back-solved value makes row j vanish. */
  lemma {:induction false} KernelRowSolved(f: Field, row: seq<Byte>, y: seq<Byte>, z: seq<Byte>, m: nat, j: nat)
    requires Valid(f) && |row| == m + 1 && |y| == m + 1 && j < m && row[j] != 0
    requires forall l :: 0 <= l < j ==> row[l] == 0
    requires z == y[j := Quot(f, DotRange(f, row, y, j + 1, m + 1), row[j])]
    ensures DotRange(f, row, z, 0, m + 1) == 0
  {
    var rest := DotRange(f, row, y, j + 1, m + 1);
    DotSplit(f, row, z, 0, j, m + 1);
    DotOfZeros(f, row, z, 0, j);
    DotSplit(f, row, z, j, j + 1, m + 1);
    DotFrame(f, row, z, row, y, j + 1, m + 1);
    assert DotRange(f, row, z, j, j + 1) == Add(0, Mul(f, row[j], z[j]));
    QuotMul(f, rest, row[j]);
    MulCommutes(f, row[j], z[j]);
    AddZero(Mul(f, row[j], z[j]));
    AddSelf(rest);
    AddZero(0);
  }

  /** In a triangular system with only the trivial homogeneous solution,
    * every diagonal entry is non-zero. */
  lemma {:induction false} NonsingularDiagonal(f: Field, t: Matrix, m: nat)
    requires Valid(f) && Shaped(t, m) && UpperTriangular(t, m) && Nonsingular(f, t, m)
    ensures forall i :: 0 <= i < m ==> t[i][i] != 0
  {
    NonzeroDiagonalFrom(f, t, m, 0);
  }

  lemma {:induction false} NonzeroDiagonalFrom(f: Field, t: Matrix, m: nat, j: nat)
    requires Valid(f) && Shaped(t, m) && UpperTriangular(t, m) && Nonsingular(f, t, m) && j <= m
    requires forall i :: 0 <= i < j ==> t[i][i] != 0
    ensures forall i :: 0 <= i < m ==> t[i][i] != 0
    decreases m - j
  {
    if j < m {
      if t[j][j] == 0 {
        var z := KernelFrom(f, t, m, j, 0);
        KernelFromShape(f, t, m, j, 0);
        KernelFromSolves(f, t, m, j, 0);
        assert Null(f, t, m, z);
        assert false;
      }
      NonzeroDiagonalFrom(f, t, m, j + 1);
    }
  }

  /** Same solutions and one side nonsingular: so is the other. */
  lemma SameNullNonsingular(f: Field, a: Matrix, b: Matrix, m: nat)
    requires Valid(f) && Shaped(a, m) && Shaped(b, m) && SameNull(f, a, b, m) && Nonsingular(f, b, m)
    ensures Nonsingular(f, a, m)
  {
  }

  // ---------------------------------------------------------------------
  // Back-substitution

  /** x[i] is the value back-substitution computes for row i of t, given x[i+1..]. */
  ghost predicate BackSolvedAt(f: Field, t: Matrix, m: nat, x: seq<Byte>, i: nat)
    requires Valid(f) && Shaped(t, m) && |x| == m && i < m
  {
    x[i] == Quot(f, Add(t[i][m], DotRange(f, t[i], x, i + 1, m)), t[i][i])
  }

  /** When the diagonal is non-zero, the back-solved vector solves the triangular system. */
  lemma {:induction false} BackSolvedSolves(f: Field, t: Matrix, m: nat, x: seq<Byte>)
    requires Valid(f) && Shaped(t, m) && UpperTriangular(t, m) && |x| == m
    requires forall i :: 0 <= i < m ==> t[i][i] != 0 && BackSolvedAt(f, t, m, x, i)
    ensures Null(f, t, m, x + [1])
  {
    var z := x + [1];
    forall i | 0 <= i < m
      ensures DotRange(f, t[i], z, 0, m + 1) == 0
    {
      assert BackSolvedAt(f, t, m, x, i);
      BackSolvedRow(f, t[i], x, z, m, i);
    }
  }

  lemma {:induction false} BackSolvedRow(f: Field, row: seq<Byte>, x: seq<Byte>, z: seq<Byte>, m: nat, i: nat)
    requires Valid(f) && |row| == m + 1 && |x| == m && i < m && row[i] != 0 && z == x + [1]
    requires forall l :: 0 <= l < i ==> row[l] == 0
    requires x[i] == Quot(f, Add(row[m], DotRange(f, row, x, i + 1, m)), row[i])
    ensures DotRange(f, row, z, 0, m + 1) == 0
  {
    var rest := DotRange(f, row, x, i + 1, m);
    var v := Add(row[m], rest);
    DotSplit(f, row, z, 0, i, m + 1);
    DotOfZeros(f, row, z, 0, i);
    DotSplit(f, row, z, i, i + 1, m + 1);
    DotFrame(f, row, z, row, x, i + 1, m);
    assert DotRange(f, row, z, i, i + 1) == Add(0, Mul(f, row[i], z[i]));
    assert DotRange(f, row, z, i + 1, m + 1) == Add(rest, Mul(f, row[m], 1));
    QuotMul(f, v, row[i]);
    MulCommutes(f, row[i], x[i]);
    MulOne(f, row[m]);
    AddZero(v);
    AddZero(Mul(f, row[i], z[i]));
    AddCommutes(rest, row[m]);
    AddSelf(v);
    AddZero(0);
  }

  /** Back-solving row i reads only x[i..]: a vector agreeing there is back-solved at i as well. */
  lemma BackSolvedAtFrame(f: Field, t: Matrix, m: nat, x: seq<Byte>, x': seq<Byte>, i: nat)
    requires Valid(f) && Shaped(t, m) && |x| == m && |x'| == m && i < m
    requires forall j :: i <= j < m ==> x[j] == x'[j]
    requires BackSolvedAt(f, t, m, x, i)
    ensures BackSolvedAt(f, t, m, x', i)
  {
    DotFrame(f, t[i], x, t[i], x', i + 1, m);
  }

  /** The encoder's scaled pivot entry: with dltExp = (255 + log v - log d) mod 255, the byte
    * exp[(log p + dltExp) mod 255] it adds for a non-zero pivot entry p, and nothing for p == 0,
    * is (v / d) * p. */
  lemma {:induction false} EliminationTerm(f: Field, v: Byte, d: Byte, p: Byte)
    requires Valid(f) && v != 0
    ensures var dltExp := (255 + Log(f, v) - Log(f, d)) % 255;
            (if p != 0 then Exp(f, (Log(f, p) + dltExp) % 255) else 0) == Mul(f, Quot(f, v, d), p)
  {
    var dltExp := (255 + Log(f, v) - Log(f, d)) % 255;
    LogDifference(Log(f, v), Log(f, d));
    var c := Exp(f, dltExp);
    assert c == Quot(f, v, d);
    if p != 0 {
      assert Log(f, c) == dltExp;
      assert Mul(f, c, p) == Exp(f, (dltExp + Log(f, p)) % 255);
    }
  }

  /** One step of back-substitution: row i of the working matrix `before` has the
    * coefficients of t and t's right-hand side, rows below it are solved; `after`
    * replaces row i's right-hand side by the value back-substitution defines. Then
    * rows i and below are solved in `after`. */
  lemma BackSubstitutedRow(f: Field, t: Matrix, before: Matrix, after: Matrix, m: nat, i: nat, v: Byte)
    requires Valid(f) && Shaped(t, m) && Shaped(before, m) && Shaped(after, m) && i + 1 < m
    requires before[i] == t[i]
    requires forall r :: 0 <= r < m ==> before[r][..m] == t[r][..m]
    requires forall r :: i < r < m ==> BackSolvedAt(f, t, m, Column(before, m), r)
    requires v == Quot(f, Add(t[i][m], DotRange(f, before[i], Column(before, m), i + 1, m)), t[i][i])
    requires after[i][..m] == t[i][..m] && after[i][m] == v && forall r :: 0 <= r < m && r != i ==> after[r] == before[r]
    ensures forall r :: i <= r < m ==> BackSolvedAt(f, t, m, Column(after, m), r)
  {
    var x, x' := Column(before, m), Column(after, m);
    forall r | i < r < m
      ensures BackSolvedAt(f, t, m, x', r)
    {
      BackSolvedAtFrame(f, t, m, x, x', r);
    }
    DotFrame(f, before[i], x, t[i], x', i + 1, m);
  }
}
