/** The Reed-Solomon encoder of the QR code writer (ReedSolomonEncoder): the
  * generator polynomials and their cache, systematic encoding, and the
  * erasure-fill encoding that solves for the free bytes of a codeword. */
module ReedSolomon {
  import opened GF256
  import opened GFPoly
  import opened LinearSystem
  import opened ErasureSystem
  import opened Outcomes

  /** The generator of degree d: the product of (x + alpha^(j + base)) for j < d,
    * built one factor at a time as the cache is. */
  function Generator(f: Field, d: nat): (g: Poly)
    requires Valid(f) && d <= 256
    ensures IsNormal(g)
  {
    if d == 0 then [1] else Multiply(f, Generator(f, d - 1), [1, Exp(f, d - 1 + GENERATOR_BASE)])
  }

  /** The generator of degree d is monic with d + 1 coefficients. */
  lemma {:induction false} GeneratorShape(f: Field, d: nat)
    requires Valid(f) && d <= 256
    ensures |Generator(f, d)| == d + 1 && Generator(f, d)[0] == 1
  {
    if d > 0 {
      GeneratorShape(f, d - 1);
      MultiplyShape(f, Generator(f, d - 1), [1, Exp(f, d - 1 + GENERATOR_BASE)]);
      MulOne(f, 1);
    }
  }

  /** alpha^(j + base) is a root of the generator of degree d for every j < d. */
  lemma {:induction false} GeneratorRoots(f: Field, d: nat, j: nat)
    requires Valid(f) && d <= 256 && j < d
    ensures Eval(f, Generator(f, d), Exp(f, j + GENERATOR_BASE)) == 0
  {
    var x := Exp(f, j + GENERATOR_BASE);
    var previous, factor := Generator(f, d - 1), [1, Exp(f, d - 1 + GENERATOR_BASE)];
    EvalMultiply(f, previous, factor, x);
    if j < d - 1 {
      GeneratorRoots(f, d - 1, j);
      MulZero(f, 0, Eval(f, factor, x));
    } else {
      FactorRoot(f, Exp(f, d - 1 + GENERATOR_BASE));
      MulZero(f, Eval(f, previous, x), 0);
    }
  }

  /** e is the root of x + e. */
  lemma {:induction false} FactorRoot(f: Field, e: Byte)
    requires Valid(f)
    ensures Eval(f, [1, e], e) == 0
  {
    assert [1, e][1..] == [e];
    assert [e][1..] == [];
    assert Pow(f, e, 1) == Mul(f, e, 1);
    MulOne(f, e);
    assert Eval(f, [e], e) == Add(Mul(f, e, 1), 0);
    AddZero(e);
    assert Eval(f, [1, e], e) == Add(Mul(f, 1, Pow(f, e, 1)), Eval(f, [e], e));
    AddSelf(e);
  }

  // ---------------------------------------------------------------------
  // Systematic encoding

  /** The remainder of data * x^ecBytes divided by the generator of degree ecBytes. */
  function Remainder(f: Field, data: seq<Byte>, ecBytes: nat): (r: Poly)
    requires Valid(f) && |data| >= 1 && 1 <= ecBytes <= 256
    ensures IsNormal(r) && |r| <= ecBytes
  {
    GeneratorShape(f, ecBytes);
    Divide(f, MultiplyByMonomial(f, Normalize(data), ecBytes, 1), Generator(f, ecBytes)).1
  }

  /** r preceded by enough zeros to make width bytes, as encode writes its remainder. */
  function LeftPad(r: seq<Byte>, width: nat): (padded: seq<Byte>)
    requires |r| <= width
    ensures |padded| == width && padded[width - |r|..] == r
    ensures forall i :: 0 <= i < width - |r| ==> padded[i] == 0
  {
    Zeros(width - |r|) + r
  }

  /** The error correction bytes: the remainder, left-padded with zeros to ecBytes bytes. */
  function EcBytes(f: Field, data: seq<Byte>, ecBytes: nat): (ec: seq<Byte>)
    requires Valid(f) && |data| >= 1 && 1 <= ecBytes <= 256
    ensures |ec| == ecBytes
  {
    LeftPad(Remainder(f, data, ecBytes), ecBytes)
  }

  /** At a root of the generator, the remainder takes the value of data * x^ecBytes. */
  lemma {:induction false} RemainderAtRoot(f: Field, data: seq<Byte>, ecBytes: nat, j: nat)
    requires Valid(f) && |data| >= 1 && 1 <= ecBytes <= 256 && j < ecBytes
    ensures var x := Exp(f, j + GENERATOR_BASE);
            Eval(f, Remainder(f, data, ecBytes), x) == Mul(f, Eval(f, data, x), Pow(f, x, ecBytes))
  {
    var x := Exp(f, j + GENERATOR_BASE);
    var g := Generator(f, ecBytes);
    var info := MultiplyByMonomial(f, Normalize(data), ecBytes, 1);
    GeneratorShape(f, ecBytes);
    var qr := Divide(f, info, g);
    GeneratorRoots(f, ecBytes, j);
    DivisionIdentity(f, info, g, x);
    MulZero(f, Eval(f, qr.0, x), 0);
    AddZero(Eval(f, qr.1, x));
    EvalMultiplyByMonomial(f, Normalize(data), ecBytes, 1, x);
    MulOne(f, Pow(f, x, ecBytes));
    EvalNormalize(f, data, x);
  }

  /** Leading zeros do not change a value. */
  lemma {:induction false} EvalPadded(f: Field, z: nat, r: seq<Byte>, padded: seq<Byte>, x: Byte)
    requires Valid(f) && padded == Zeros(z) + r
    ensures Eval(f, padded, x) == Eval(f, r, x)
  {
    EvalConcat(f, Zeros(z), r, x);
    EvalZeros(f, z, x);
    MulZero(f, 0, Pow(f, x, |r|));
    AddZero(Eval(f, r, x));
  }

  /** At a root of the generator, the error correction bytes take the value of data * x^ecBytes. */
  lemma {:induction false} EcBytesAtRoot(f: Field, data: seq<Byte>, ecBytes: nat, j: nat)
    requires Valid(f) && |data| >= 1 && 1 <= ecBytes <= 256 && j < ecBytes
    ensures var x := Exp(f, j + GENERATOR_BASE);
            Eval(f, EcBytes(f, data, ecBytes), x) == Mul(f, Eval(f, data, x), Pow(f, x, ecBytes))
  {
    var r := Remainder(f, data, ecBytes);
    EvalPadded(f, ecBytes - |r|, r, EcBytes(f, data, ecBytes), Exp(f, j + GENERATOR_BASE));
    RemainderAtRoot(f, data, ecBytes, j);
  }

  /** The systematic codeword, data followed by its error correction bytes,
    * vanishes at alpha^(j + base) for every j < ecBytes: it is a multiple of the generator. */
  lemma {:induction false} CodewordRoots(f: Field, data: seq<Byte>, ecBytes: nat, j: nat)
    requires Valid(f) && |data| >= 1 && 1 <= ecBytes <= 256 && j < ecBytes
    ensures Eval(f, data + EcBytes(f, data, ecBytes), Exp(f, j + GENERATOR_BASE)) == 0
  {
    var x := Exp(f, j + GENERATOR_BASE);
    var ec := EcBytes(f, data, ecBytes);
    EvalConcat(f, data, ec, x);
    EcBytesAtRoot(f, data, ecBytes, j);
    AddSelf(Eval(f, ec, x));
  }

  /** Hence the systematic codeword passes the first ecBytes parity checks. */
  lemma {:induction false} CodewordParity(f: Field, data: seq<Byte>, ecBytes: nat, i: nat)
    requires Valid(f) && |data| >= 1 && 1 <= ecBytes <= 256 && i < ecBytes
    ensures ParityCheck(f, data + EcBytes(f, data, ecBytes), i) == 0
  {
    CodewordRoots(f, data, ecBytes, i);
    ParityIsEval(f, data + EcBytes(f, data, ecBytes), i);
    SameRoot(f, i);
  }

  /** What the cache holds: the generators of degree 0, 1, ... in order. */
  ghost predicate GeneratorsUpTo(f: Field, cache: seq<Poly>)
    requires Valid(f) && |cache| <= 257
  {
    forall d :: 0 <= d < |cache| ==> CachedAt(f, cache, d)
  }

  ghost predicate CachedAt(f: Field, cache: seq<Poly>, d: nat)
    requires Valid(f) && d < |cache| <= 257
  {
    cache[d] == Generator(f, d)
  }

  /** Appending the next generator keeps the cache in that form. */
  lemma CacheExtends(f: Field, cache: seq<Poly>, next: Poly)
    requires Valid(f) && |cache| <= 256 && GeneratorsUpTo(f, cache) && next == Generator(f, |cache|)
    ensures GeneratorsUpTo(f, cache + [next])
  {
    var extended := cache + [next];
    forall d | 0 <= d < |extended|
      ensures CachedAt(f, extended, d)
    {
      if d < |cache| {
        assert CachedAt(f, cache, d) && extended[d] == cache[d];
      } else {
        assert extended[d] == next;
      }
    }
  }

  /** The cache's content is determined by its length: a shorter cache is a prefix of a longer one. */
  lemma CacheAgrees(f: Field, shorter: seq<Poly>, longer: seq<Poly>)
    requires Valid(f) && |shorter| <= |longer| <= 257
    requires GeneratorsUpTo(f, shorter) && GeneratorsUpTo(f, longer)
    ensures shorter <= longer
  {
    forall d | 0 <= d < |shorter|
      ensures shorter[d] == longer[d]
    {
      assert CachedAt(f, shorter, d) && CachedAt(f, longer, d);
    }
  }

  /** alpha^255 == alpha^0: for the exponents of the generator's roots,
    * reducing modulo 255 gives the same element. */
  lemma SameRoot(f: Field, i: nat)
    requires Valid(f) && i + GENERATOR_BASE < 256
    ensures Exp(f, i + GENERATOR_BASE) == Exp(f, i % 255)
  {
  }

  class ReedSolomonEncoder {
    const field: Field
    /** cachedGenerators[d] is the generator of degree d. */
    var cachedGenerators: seq<Poly>

    ghost predicate Valid()
      reads this
    {
      && GF256.Valid(field)
      && 1 <= |cachedGenerators| <= 257
      && GeneratorsUpTo(field, cachedGenerators)
    }

    constructor (f: Field)
      requires GF256.Valid(f)
      ensures Valid() && field == f && cachedGenerators == [[1]]
    {
      field := f;
      cachedGenerators := [[1]];
    }

    /** The generator of the given degree, extending the cache up to it. */
    method BuildGenerator(degree: nat) returns (generator: Poly)
      requires Valid() && degree <= 256
      modifies this
      ensures Valid() && generator == Generator(field, degree)
      ensures old(cachedGenerators) <= cachedGenerators
      ensures |cachedGenerators| == if degree < |old(cachedGenerators)| then |old(cachedGenerators)| else degree + 1
    {
      if degree >= |cachedGenerators| {
        var lastGenerator := cachedGenerators[|cachedGenerators| - 1];
        assert CachedAt(field, cachedGenerators, |cachedGenerators| - 1);
        var d := |cachedGenerators|;
        while d <= degree
          invariant 1 <= d <= degree + 1 && |cachedGenerators| == d
          invariant GeneratorsUpTo(field, cachedGenerators)
          invariant lastGenerator == Generator(field, d - 1)
        {
          var nextGenerator := Multiply(field, lastGenerator, [1, Exp(field, d - 1 + GENERATOR_BASE)]);
          assert nextGenerator == Generator(field, d);
          CacheExtends(field, cachedGenerators, nextGenerator);
          cachedGenerators := cachedGenerators + [nextGenerator];
          lastGenerator := nextGenerator;
          d := d + 1;
        }
      }
      CacheAgrees(field, old(cachedGenerators), cachedGenerators);
      generator := cachedGenerators[degree];
      assert CachedAt(field, cachedGenerators, degree);
    }

    /** The success path of encode: divides the shifted data by the generator and writes the padded remainder. */
    method AppendEcBytes(toEncode: array<Byte>, ecBytes: nat)
      requires Valid() && 0 < ecBytes < toEncode.Length && ecBytes <= 256
      modifies this, toEncode
      ensures Valid() && old(cachedGenerators) <= cachedGenerators
      ensures toEncode[..] == old(toEncode[..toEncode.Length - ecBytes]) + EcBytes(field, old(toEncode[..toEncode.Length - ecBytes]), ecBytes)
    {
      var dataBytes := toEncode.Length - ecBytes;
      var infoCoefficients := toEncode[..dataBytes];
      var generator := BuildGenerator(ecBytes);
      ghost var cache := cachedGenerators;
      var remainder := DivideByGenerator(infoCoefficients, ecBytes, generator);
      WritePadded(toEncode, dataBytes, remainder);
      assert toEncode[..] == infoCoefficients + EcBytes(field, infoCoefficients, ecBytes);
      assert cachedGenerators == cache;
    }

    /** The polynomial steps of encode: the data as a normalized polynomial, shifted up by ecBytes places and
      * divided by the generator; the remainder gives the error correction bytes. */
    method DivideByGenerator(infoCoefficients: seq<Byte>, ecBytes: nat, generator: Poly) returns (remainder: Poly)
      requires GF256.Valid(field) && |infoCoefficients| >= 1 && 1 <= ecBytes <= 256
      requires generator == Generator(field, ecBytes)
      ensures remainder == Remainder(field, infoCoefficients, ecBytes)
      ensures LeftPad(remainder, ecBytes) == EcBytes(field, infoCoefficients, ecBytes)
    {
      GeneratorShape(field, ecBytes);
      var info := Normalize(infoCoefficients);
      info := MultiplyByMonomial(field, info, ecBytes, 1);
      remainder := Divide(field, info, generator).1;
    }

    /** The tail of encode: zeros, then the coefficients, filling toEncode from dataBytes on. */
    method WritePadded(toEncode: array<Byte>, dataBytes: nat, coefficients: seq<Byte>)
      requires dataBytes + |coefficients| <= toEncode.Length
      modifies toEncode
      ensures toEncode[..] == old(toEncode[..dataBytes]) + LeftPad(coefficients, toEncode.Length - dataBytes)
    {
      var numZeroCoefficients := toEncode.Length - dataBytes - |coefficients|;
      for i := 0 to numZeroCoefficients
        invariant toEncode[..dataBytes] == old(toEncode[..dataBytes])
        invariant forall j :: dataBytes <= j < dataBytes + i ==> toEncode[j] == 0
      {
        toEncode[dataBytes + i] := 0;
      }
      for i := 0 to |coefficients|
        invariant toEncode[..dataBytes] == old(toEncode[..dataBytes])
        invariant forall j :: dataBytes <= j < dataBytes + numZeroCoefficients ==> toEncode[j] == 0
        invariant forall j :: 0 <= j < i ==> toEncode[dataBytes + numZeroCoefficients + j] == coefficients[j]
      {
        toEncode[dataBytes + numZeroCoefficients + i] := coefficients[i];
      }
      assert toEncode[..] == old(toEncode[..dataBytes]) + Zeros(numZeroCoefficients) + coefficients;
    }

    /** Replaces the last ecBytes entries of toEncode with the error correction
      * bytes of the entries before them. */
    method Encode(toEncode: array<Byte>, ecBytes: nat) returns (result: Result<()>)
      requires Valid() && ecBytes <= 256
      modifies this, toEncode
      ensures Valid() && old(cachedGenerators) <= cachedGenerators
      ensures ecBytes == 0 ==> result == Failure(IllegalArgument("No error correction bytes"))
      ensures ecBytes != 0 && toEncode.Length <= ecBytes ==> result == Failure(IllegalArgument("No data bytes provided"))
      ensures result.Success? <==> 0 < ecBytes < toEncode.Length
      ensures result.Failure? ==> toEncode[..] == old(toEncode[..]) && cachedGenerators == old(cachedGenerators)
      ensures result.Success? ==>
                toEncode[..] == old(toEncode[..toEncode.Length - ecBytes]) + EcBytes(field, old(toEncode[..toEncode.Length - ecBytes]), ecBytes)
    {
      if ecBytes == 0 {
        return Failure(IllegalArgument("No error correction bytes"));
      }
      var dataBytes := toEncode.Length - ecBytes;
      if dataBytes <= 0 {
        return Failure(IllegalArgument("No data bytes provided"));
      }
      AppendEcBytes(toEncode, ecBytes);
      return Success(());
    }

    // -------------------------------------------------------------------
    // Erasure-fill encoding: the free bytes of a codeword are solved for

    /** getMatrix: row i, column j of the coefficient block is alpha^(i * (n - 1 - c_j)),
      * c_j being the j-th free position; the last column is left alone. */
    method BuildMatrix(a: array<seq<Byte>>, flag: array<bool>, n: nat, k: nat)
      requires GF256.Valid(field) && flag.Length == n && k <= n && |Positions(flag[..], false)| == n - k
      requires a.Length == n - k && forall i :: 0 <= i < a.Length ==> |a[i]| == n - k + 1
      modifies a
      ensures forall i :: 0 <= i < n - k ==>
                a[i] == CoefficientRow(field, Positions(flag[..], false), n, i) + [old(a[i])[n - k]]
    {
      var ci := CollectPositions(flag, false, n - k);
      ghost var free := Positions(flag[..], false);
      for i := 0 to n - k
        invariant ci[..] == free
        invariant forall r :: 0 <= r < i ==> a[r] == CoefficientRow(field, free, n, r) + [old(a[r])[n - k]]
        invariant forall r :: i <= r < n - k ==> a[r] == old(a[r])
      {
        FillCoefficientRow(a, i, ci, n);
      }
    }

    /** The inner loop of getMatrix: row i of the coefficient block. */
    method FillCoefficientRow(a: array<seq<Byte>>, i: nat, ci: array<nat>, n: nat)
      requires GF256.Valid(field) && i < a.Length && |a[i]| == ci.Length + 1
      requires forall j :: 0 <= j < ci.Length ==> ci[j] < n
      modifies a
      ensures a[..] == old(a[..])[i := CoefficientRow(field, ci[..], n, i) + [old(a[i])[ci.Length]]]
    {
      for j := 0 to ci.Length
        invariant a[..] == old(a[..])[i := a[i]]
        invariant |a[i]| == ci.Length + 1 && a[i][ci.Length] == old(a[i])[ci.Length]
        invariant forall l :: 0 <= l < j ==> a[i][l] == Weight(field, n, i, ci[l])
      {
        a[i] := a[i][j := Exp(field, Exponent(n, i, ci[j]) % 255)];
      }
      assert a[i] == CoefficientRow(field, ci[..], n, i) + [old(a[i])[ci.Length]];
    }

    /** getY: entry i of the right-hand side sums, over the fixed positions p with a
      * non-zero byte, exp[(log code[p] + i * (n - 1 - p)) mod 255]. */
    method BuildRightHandSide(y: array<Byte>, code: array<Byte>, flag: array<bool>, n: nat, k: nat)
      requires GF256.Valid(field) && code.Length == n && flag.Length == n && k <= n
      requires |Positions(flag[..], true)| == k && y.Length == n - k && y != code
      modifies y
      ensures forall i :: 0 <= i < n - k ==> y[i] == RhsPrefix(field, code[..], Positions(flag[..], true), i, k)
    {
      var ci := CollectPositions(flag, true, k);
      ghost var fixed := Positions(flag[..], true);
      for i := 0 to n - k
        invariant ci[..] == fixed
        invariant forall r :: 0 <= r < i ==> y[r] == RhsPrefix(field, code[..], fixed, r, k)
      {
        AccumulateRightHandSide(y, i, code, ci);
      }
    }

    /** The inner loop of getY: entry i of the right-hand side, accumulated in place. */
    method AccumulateRightHandSide(y: array<Byte>, i: nat, code: array<Byte>, ci: array<nat>)
      requires GF256.Valid(field) && i < y.Length && y != code
      requires forall j :: 0 <= j < ci.Length ==> ci[j] < code.Length
      modifies y
      ensures y[..] == old(y[..])[i := RhsPrefix(field, code[..], ci[..], i, ci.Length)]
    {
      y[i] := 0;
      for j := 0 to ci.Length
        invariant y[..] == old(y[..])[i := y[i]]
        invariant y[i] == RhsPrefix(field, code[..], ci[..], i, j)
      {
        if code[ci[j]] != 0 {
          var exp := (Log(field, code[ci[j]]) + Exponent(code.Length, i, ci[j])) % 255;
          y[i] := Add(y[i], Exp(field, exp));
        }
        RhsPrefixUnfold(field, code[..], ci[..], i, j + 1);
      }
    }

    /** exchange_hang: swaps two rows. */
    method ExchangeRows(a: array<seq<Byte>>, r1: nat, r2: nat)
      requires r1 < a.Length && r2 < a.Length
      modifies a
      ensures a[..] == old(a[..])[r1 := old(a[r2])][r2 := old(a[r1])]
    {
      var tmp := a[r1];
      a[r1] := a[r2];
      a[r2] := tmp;
    }

    /** The pivot search of the elimination: the first row at or below k holding the
      * largest entry of column k, the bytes being compared as integers. */
    method PivotRow(a: array<seq<Byte>>, k: nat, row: nat) returns (maxi: nat)
      requires k < row <= a.Length && forall i :: k <= i < row ==> |a[i]| > k
      ensures k <= maxi < row
      ensures forall i :: k <= i < row ==> a[i][k] <= a[maxi][k]
      ensures forall i :: k <= i < maxi ==> a[i][k] < a[maxi][k]
    {
      maxi := k;
      for i := k to row
        invariant k <= maxi < row && (maxi == k || maxi < i)
        invariant forall l :: k <= l < i ==> a[l][k] <= a[maxi][k]
        invariant forall l :: k <= l < maxi ==> a[l][k] < a[maxi][k]
      {
        if a[i][k] > a[maxi][k] {
          maxi := i;
        }
      }
    }

    /** The innermost loop of the elimination: adds (a[i][k] / a[k][k]) times pivot row k
      * to row i, the factor being taken through the logarithm dltExp and the pivot row's
      * zero entries being skipped. Row i then has a zero in column k. */
    method AddScaledPivotRow(a: array<seq<Byte>>, i: nat, k: nat, row: nat, dltExp: int)
      requires GF256.Valid(field) && i < a.Length && k < a.Length && i != k && k < row
      requires |a[i]| == row + 1 && |a[k]| == row + 1 && a[i][k] != 0 && a[k][k] != 0
      requires dltExp == (255 + Log(field, a[i][k]) - Log(field, a[k][k])) % 255
      requires forall j :: 0 <= j < k ==> a[k][j] == 0
      modifies a
      ensures a[..] == old(a[..])[i := AddScaledRow(field, old(a[i]), Quot(field, old(a[i][k]), old(a[k][k])), old(a[k]))]
      ensures a[i][k] == 0
      ensures forall j :: 0 <= j < k ==> a[i][j] == old(a[i][j])
    {
      ghost var c := Quot(field, a[i][k], a[k][k]);
      ghost var target := AddScaledRow(field, a[i], c, a[k]);
      for j := k to row + 1
        invariant a[..] == old(a[..])[i := a[i]] && |a[i]| == row + 1
        invariant forall l :: 0 <= l < row + 1 ==> a[i][l] == if k <= l < j then target[l] else old(a[i][l])
      {
        EliminationTerm(field, old(a[i][k]), a[k][k], a[k][j]);
        if a[k][j] != 0 {
          a[i] := a[i][j := Add(a[i][j], Exp(field, (Log(field, a[k][j]) + dltExp) % 255))];
        } else {
          AddZero(a[i][j]);
        }
      }
      forall l | 0 <= l < k
        ensures target[l] == old(a[i][l])
      {
        MulZero(field, c, 0);
        AddZero(old(a[i][l]));
      }
      assert a[i] == target;
      QuotMul(field, old(a[i][k]), a[k][k]);
      AddSelf(old(a[i][k]));
    }

    /** The middle loop of the elimination: clears column k below a non-zero pivot,
      * skipping the rows whose entry there is already zero. */
    method EliminateBelowPivot(a: array<seq<Byte>>, k: nat, row: nat)
      requires GF256.Valid(field) && Shaped(a[..], row) && k < row && a[k][k] != 0
      requires ClearedBefore(a[..], row, k)
      modifies a
      ensures Shaped(a[..], row) && SameNull(field, a[..], old(a[..]), row)
      ensures ClearedBefore(a[..], row, k + 1)
      ensures forall r :: 0 <= r <= k ==> a[r] == old(a[r])
    {
      for i := k + 1 to row
        invariant Shaped(a[..], row) && SameNull(field, a[..], old(a[..]), row)
        invariant ClearedBefore(a[..], row, k)
        invariant forall r :: k < r < i ==> a[r][k] == 0
        invariant forall r :: 0 <= r <= k ==> a[r] == old(a[r])
      {
        if a[i][k] != 0 {
          ghost var before := a[..];
          ClearBelowPivot(a, i, k, row);
          SameNullTransitive(field, a[..], before, old(a[..]), row);
        }
      }
    }

    /** The body of the middle loop for a row i with a non-zero entry in column k:
      * the log difference dltExp, then the row update. Only row i changes, its
      * entries left of k stay, and the system keeps its solutions. */
    method ClearBelowPivot(a: array<seq<Byte>>, i: nat, k: nat, row: nat)
      requires GF256.Valid(field) && Shaped(a[..], row) && k < i < row
      requires a[k][k] != 0 && a[i][k] != 0 && forall j :: 0 <= j < k ==> a[k][j] == 0
      modifies a
      ensures Shaped(a[..], row) && SameNull(field, a[..], old(a[..]), row)
      ensures forall r :: 0 <= r < row && r != i ==> a[r] == old(a[r])
      ensures a[i][k] == 0 && forall j :: 0 <= j < k ==> a[i][j] == old(a[i][j])
    {
      var dltExp := (255 + Log(field, a[i][k]) - Log(field, a[k][k])) % 255;
      ghost var before := a[..];
      AddScaledPivotRow(a, i, k, row, dltExp);
      RowUpdateKeepsNull(field, before, row, i, k, Quot(field, before[i][k], before[k][k]));
    }

    /** gauss_row_xiaoqu: Gaussian elimination on the augmented matrix, with the pivot
      * search above and a column skipped when it has no non-zero entry left. The result
      * is upper triangular and has the solutions the input had. */
    method Eliminate(a: array<seq<Byte>>, row: nat)
      requires GF256.Valid(field) && Shaped(a[..], row)
      modifies a
      ensures Shaped(a[..], row) && UpperTriangular(a[..], row)
      ensures SameNull(field, a[..], old(a[..]), row)
    {
      var k := 0;
      while k + 1 < row
        invariant k <= row
        invariant Shaped(a[..], row) && SameNull(field, a[..], old(a[..]), row)
        invariant ClearedBefore(a[..], row, k)
      {
        ghost var before := a[..];
        EliminateColumn(a, k, row);
        SameNullTransitive(field, a[..], before, old(a[..]), row);
        k := k + 1;
      }
    }

    /** One pass of gauss_row_xiaoqu's outer loop: the pivot search, the column skipped
      * when its largest entry is zero, the row exchange, and the clearing below. */
    method EliminateColumn(a: array<seq<Byte>>, k: nat, row: nat)
      requires GF256.Valid(field) && Shaped(a[..], row) && k < row
      requires ClearedBefore(a[..], row, k)
      modifies a
      ensures Shaped(a[..], row) && SameNull(field, a[..], old(a[..]), row)
      ensures ClearedBefore(a[..], row, k + 1)
    {
      var maxi := PivotRow(a, k, row);
      if a[maxi][k] == 0 {
        return;
      }
      if maxi != k {
        ghost var before := a[..];
        ExchangeRows(a, k, maxi);
        SwapKeepsNull(field, before, row, k, maxi);
      }
      ghost var before := a[..];
      EliminateBelowPivot(a, k, row);
      SameNullTransitive(field, a[..], before, old(a[..]), row);
    }

    /** The inner loop of gauss_calculate: row i's coefficients right of the diagonal
      * dotted with the values already solved for. */
    method SolvedTermsSum(a: array<seq<Byte>>, i: nat, row: nat) returns (sumAx: Byte)
      requires GF256.Valid(field) && Shaped(a[..], row) && i < row
      ensures sumAx == DotRange(field, a[i], Column(a[..], row), i + 1, row)
    {
      sumAx := 0;
      for j := i + 1 to row
        invariant sumAx == DotRange(field, a[i], Column(a[..], row), i + 1, j)
      {
        if a[i][j] != 0 && a[j][row] != 0 {
          sumAx := Add(sumAx, Exp(field, (Log(field, a[i][j]) + Log(field, a[j][row])) % 255));
        } else {
          AddZero(sumAx);
        }
      }
    }

    /** gauss_calculate: back-substitution, bottom row first, leaving each solved value
      * in the last column. Every value is the one back-substitution defines for the
      * triangular system. */
    method BackSubstitute(a: array<seq<Byte>>, row: nat)
      requires GF256.Valid(field) && Shaped(a[..], row) && row >= 1
      modifies a
      ensures Shaped(a[..], row)
      ensures forall i :: 0 <= i < row ==> a[i][..row] == old(a[i][..row])
      ensures forall i :: 0 <= i < row ==> BackSolvedAt(field, old(a[..]), row, Column(a[..], row), i)
    {
      ghost var t := a[..];
      if a[row - 1][row] != 0 {
        a[row - 1] := a[row - 1][row := Quot(field, a[row - 1][row], a[row - 1][row - 1])];
      }
      AddZero(t[row - 1][row]);
      var i := row - 1;
      while i > 0
        invariant 0 <= i < row && Shaped(a[..], row)
        invariant forall r :: 0 <= r < row ==> a[r][..row] == t[r][..row]
        invariant forall r :: 0 <= r < i ==> a[r] == t[r]
        invariant forall r :: i <= r < row ==> BackSolvedAt(field, t, row, Column(a[..], row), r)
      {
        i := i - 1;
        SolveRow(a, i, row, t);
      }
    }

    /** One step of gauss_calculate: row i's right-hand side, less the solved terms,
      * divided by the diagonal entry. Rows i and below are then solved. */
    method SolveRow(a: array<seq<Byte>>, i: nat, row: nat, ghost t: Matrix)
      requires GF256.Valid(field) && Shaped(a[..], row) && Shaped(t, row) && i + 1 < row
      requires a[i] == t[i] && forall r :: 0 <= r < row ==> a[r][..row] == t[r][..row]
      requires forall r :: i < r < row ==> BackSolvedAt(field, t, row, Column(a[..], row), r)
      modifies a
      ensures Shaped(a[..], row) && a[i][..row] == t[i][..row]
      ensures forall r :: 0 <= r < row && r != i ==> a[r] == old(a[r])
      ensures forall r :: i <= r < row ==> BackSolvedAt(field, t, row, Column(a[..], row), r)
    {
      var sumAx := SolvedTermsSum(a, i, row);
      ghost var before := a[..];
      a[i] := a[i][row := Add(a[i][row], sumAx)];
      if a[i][row] != 0 {
        a[i] := a[i][row := Quot(field, a[i][row], a[i][i])];
      }
      ghost var v := Quot(field, Add(t[i][row], sumAx), t[i][i]);
      assert a[i][..row] == t[i][..row] && a[i][row] == v;
      BackSubstitutedRow(field, t, before, a[..], row, i, v);
    }

    /** encodeNoneSym: the bytes at the positions flag marks are kept, and the others are
      * chosen so that the word passes the first n - k parity checks, by solving the
      * n - k by n - k system for them. What is written is always a filling of the free
      * positions, in increasing order; when the system is nonsingular, the word passes
      * the checks. */
    method EncodeNoneSym(toEncode: array<Byte>, flag: array<bool>, k: nat)
      requires Valid() && flag.Length == toEncode.Length && k < toEncode.Length
      requires |Positions(flag[..], true)| == k
      modifies toEncode
      ensures forall p :: 0 <= p < toEncode.Length && flag[p] ==> toEncode[p] == old(toEncode[p])
      ensures exists x :: |x| == toEncode.Length - k && toEncode[..] == Fill(old(toEncode[..]), flag[..], x)
      ensures Nonsingular(field, SystemMatrix(field, old(toEncode[..]), flag[..], k), toEncode.Length - k) ==>
                forall i :: 0 <= i < toEncode.Length - k ==> ParityCheck(field, toEncode[..], i) == 0
    {
      var n := toEncode.Length;
      ghost var code, fl := toEncode[..], flag[..];
      PositionsPartition(fl);
      var a := BuildSystem(toEncode, flag, k);
      Eliminate(a, n - k);
      ghost var t := a[..];
      BackSubstitute(a, n - k);
      ghost var x := Column(a[..], n - k);
      WriteSolution(toEncode, flag, a, k);
      if Nonsingular(field, SystemMatrix(field, code, fl, k), n - k) {
        SolvedSystemPassesParity(field, code, fl, k, n - k, t, x);
      }
    }

    /** The set-up part of encodeNoneSym: getMatrix, getY, and the right-hand side
      * copied into the last column. */
    method BuildSystem(code: array<Byte>, flag: array<bool>, k: nat) returns (a: array<seq<Byte>>)
      requires GF256.Valid(field) && flag.Length == code.Length && k <= code.Length
      requires |Positions(flag[..], true)| == k
      ensures fresh(a) && a[..] == SystemMatrix(field, code[..], flag[..], k)
    {
      var n := code.Length;
      ghost var free, fixed := Positions(flag[..], false), Positions(flag[..], true);
      PositionsPartition(flag[..]);
      a := new seq<Byte>[n - k](_ => Zeros(n - k + 1));
      BuildMatrix(a, flag, n, k);
      var y := new Byte[n - k](_ => 0);
      BuildRightHandSide(y, code, flag, n, k);
      AugmentWithRightHandSide(a, y);
      forall r | 0 <= r < n - k
        ensures a[r] == SystemMatrix(field, code[..], flag[..], k)[r]
      {
        assert a[r][..n - k] == CoefficientRow(field, free, n, r);
      }
      assert a[..] == SystemMatrix(field, code[..], flag[..], k);
    }

    /** The augmenting loop of encodeNoneSym: y becomes the last column of a. */
    method AugmentWithRightHandSide(a: array<seq<Byte>>, y: array<Byte>)
      requires a.Length == y.Length && forall r :: 0 <= r < a.Length ==> |a[r]| == y.Length + 1
      modifies a
      ensures forall r :: 0 <= r < a.Length ==>
                |a[r]| == y.Length + 1 && a[r][..y.Length] == old(a[r][..y.Length]) && a[r][y.Length] == y[r]
    {
      var m := y.Length;
      for i := 0 to m
        invariant forall r :: 0 <= r < m ==> |a[r]| == m + 1 && a[r][..m] == old(a[r][..m])
        invariant forall r :: 0 <= r < i ==> a[r][m] == y[r]
      {
        a[i] := a[i][m := y[i]];
      }
    }

    /** The last loop of encodeNoneSym: the solution, read from the last column, is
      * written to the free positions in increasing order. */
    method WriteSolution(toEncode: array<Byte>, flag: array<bool>, a: array<seq<Byte>>, k: nat)
      requires flag.Length == toEncode.Length && k <= toEncode.Length
      requires |Positions(flag[..], true)| == k && |Positions(flag[..], false)| == toEncode.Length - k
      requires Shaped(a[..], toEncode.Length - k)
      modifies toEncode
      ensures toEncode[..] == Fill(old(toEncode[..]), flag[..], Column(a[..], toEncode.Length - k))
    {
      var n := toEncode.Length;
      ghost var code, fl, x := toEncode[..], flag[..], Column(a[..], n - k);
      var count := 0;
      for i := 0 to n
        invariant count == |Positions(fl[..i], false)|
        invariant forall p :: 0 <= p < i ==> toEncode[p] == Fill(code, fl, x)[p]
        invariant forall p :: i <= p < n ==> toEncode[p] == code[p]
      {
        PositionsStep(fl, i, false);
        if !flag[i] {
          PositionRank(fl, i, false);
          toEncode[i] := a[count][n - k];
          count := count + 1;
        }
      }
      assert toEncode[..] == Fill(code, fl, x);
    }
  }

  /** The positions of flag holding want, in increasing order, as the encoder lists them. */
  method CollectPositions(flag: array<bool>, want: bool, size: nat) returns (ci: array<nat>)
    requires |Positions(flag[..], want)| == size
    ensures fresh(ci) && ci[..] == Positions(flag[..], want)
  {
    ci := new nat[size](_ => 0);
    ghost var fl := flag[..];
    var count := 0;
    for i := 0 to flag.Length
      invariant count == |Positions(fl[..i], want)| && count <= size
      invariant ci[..count] == Positions(fl[..i], want)
    {
      PositionsStep(fl, i, want);
      if flag[i] == want {
        PositionRank(fl, i, want);
        ci[count] := i;
        count := count + 1;
      }
    }
    assert fl[..flag.Length] == fl;
  }
}
