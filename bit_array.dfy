/** The bit buffer the planner writes into: ZXing's BitArray, which grows at the end and
  * takes a value's low bits most significant first. BitArray itself is not part of
  * this model; this module gives it the semantics the planner relies on. */
module BitArrays {
  import opened Bits
  import opened GF256

  /** Bit i of value, counting from the least significant. */
  function BitOf(value: nat, i: nat): bool
  {
    (value / Pow2(i)) % 2 == 1
  }

  /** The low n bits of value, most significant first, as appendBits writes them. */
  function ToBits(value: nat, n: nat): (bits: seq<bool>)
    ensures |bits| == n
  {
    if n == 0 then [] else [BitOf(value, n - 1)] + ToBits(value, n - 1)
  }

  /** Position j of the n bits holds bit n - 1 - j of the value. */
  lemma {:induction false} ToBitsAt(value: nat, n: nat)
    ensures forall j :: 0 <= j < n ==> ToBits(value, n)[j] == BitOf(value, n - 1 - j)
  {
    if n > 0 {
      ToBitsAt(value, n - 1);
    }
  }

  /** The number the bits spell, most significant first. */
  function FromBits(bits: seq<bool>): (value: nat)
    ensures value < Pow2(|bits|)
  {
    if bits == [] then 0
    else (if bits[0] then Pow2(|bits| - 1) else 0) + FromBits(bits[1..])
  }

  /** A product of naturals is a natural. */
  lemma {:induction false} MulNonNegative(a: nat, b: nat)
    ensures a * b >= 0
  {
    if a > 0 {
      MulNonNegative(a - 1, b);
      assert a * b == (a - 1) * b + b;
    }
  }

  /** Scaling by a natural keeps order. */
  lemma MulMonotone(a: nat, b: nat, c: nat)
    requires a <= b
    ensures a * c <= b * c
  {
  }

  /** Division with remainder has one answer. */
  lemma DivModUnique(v: nat, m: nat, q: nat, r: nat)
    requires m > 0 && v == q * m + r && r < m
    ensures v / m == q && v % m == r
  {
    var q', r' := v / m, v % m;
    assert v == q' * m + r';
    if q' < q {
      MulNonNegative(q - q' - 1, m);
      assert false;
    } else if q' > q {
      MulNonNegative(q' - q - 1, m);
      assert false;
    }
  }

  /** The top bit of the low n + 1 bits, and the n bits below it. */
  lemma ModPow2Step(value: nat, n: nat)
    ensures value % Pow2(n + 1) == (if BitOf(value, n) then Pow2(n) else 0) + value % Pow2(n)
  {
    SplitTopBit(value, Pow2(n));
  }

  /** value mod 2p is value mod p, plus p when the quotient by p is odd. */
  lemma SplitTopBit(value: nat, p: nat)
    requires p > 0
    ensures value % (2 * p) == (if (value / p) % 2 == 1 then p else 0) + value % p
  {
    var q, r := value / p, value % p;
    var b := if q % 2 == 1 then 1 else 0;
    assert value == (q / 2) * (2 * p) + (b * p + r);
    DivModUnique(value, 2 * p, q / 2, b * p + r);
  }

  /** Reading back what appendBits wrote gives the value's low bits. */
  lemma {:induction false} FromToBits(value: nat, n: nat)
    ensures FromBits(ToBits(value, n)) == value % Pow2(n)
  {
    if n > 0 {
      var bits := ToBits(value, n);
      assert bits[1..] == ToBits(value, n - 1);
      FromToBits(value, n - 1);
      ModPow2Step(value, n - 1);
    }
  }

  /** A value below 2^n survives being written in n bits and read back. */
  lemma RoundTrip(value: nat, n: nat)
    requires value < Pow2(n)
    ensures FromBits(ToBits(value, n)) == value
  {
    FromToBits(value, n);
    DivModUnique(value, Pow2(n), 0, value);
  }

  /** Bit i of the buffer, reading past its end as zero, as BitArray.get does over its
    * zero-filled storage. */
  function BitAt(bits: seq<bool>, i: nat): bool
  {
    i < |bits| && bits[i]
  }

  /** The byte whose eight bits, most significant first, start at bit pos. */
  function ReadByte(bits: seq<bool>, pos: nat): (b: Byte)
    ensures forall j :: 0 <= j < 8 ==> ToBits(b, 8)[j] == BitAt(bits, pos + j)
  {
    var octet := seq(8, j requires 0 <= j < 8 => BitAt(bits, pos + j));
    Pow2Of8();
    ToFromBits(octet);
    FromBits(octet)
  }

  /** BitArray.toBytes: numBytes bytes read eight bits at a time, most significant first,
    * from bit offset bitOffset. */
  function ToBytes(bits: seq<bool>, bitOffset: nat, numBytes: nat): (bytes: seq<Byte>)
    ensures |bytes| == numBytes
    ensures forall i, j :: 0 <= i < numBytes && 0 <= j < 8 ==>
              ToBits(bytes[i], 8)[j] == BitAt(bits, bitOffset + 8 * i + j)
  {
    seq(numBytes, i requires 0 <= i < numBytes => ReadByte(bits, bitOffset + 8 * i))
  }

  /** Writing out what was read back gives the same bits. */
  lemma {:induction false} ToFromBits(bits: seq<bool>)
    ensures ToBits(FromBits(bits), |bits|) == bits
  {
    if bits != [] {
      var n := |bits| - 1;
      var v := FromBits(bits);
      var rest := FromBits(bits[1..]);
      var top := if bits[0] then Pow2(n) else 0;
      ToFromBits(bits[1..]);
      assert v == (if bits[0] then 1 else 0) * Pow2(n) + rest;
      DivModUnique(v, Pow2(n), if bits[0] then 1 else 0, rest);
      assert BitOf(v, n) == bits[0];
      forall i | 0 <= i < n
        ensures BitOf(v, i) == BitOf(rest, i)
      {
        HighBitsDoNotReachLow(if bits[0] then 1 else 0, n, rest, i);
      }
      ToBitsAt(v, |bits|);
      ToBitsAt(rest, n);
      assert ToBits(v, |bits|)[1..] == ToBits(rest, n);
    }
  }

  /** Adding a multiple of 2^n does not change the bits below n. */
  lemma HighBitsDoNotReachLow(c: nat, n: nat, rest: nat, i: nat)
    requires i < n
    ensures BitOf(c * Pow2(n) + rest, i) == BitOf(rest, i)
  {
    var pi, e := Pow2(i), Pow2(n - i - 1);
    Pow2Add(n - i, i);
    MulNonNegative(c, e);
    EvenMultiple(c, e, pi, Pow2(n));
    ShiftedParity(c * Pow2(n) + rest, pi, c * e, rest);
  }

  lemma EvenMultiple(c: int, e: int, pi: int, p: int)
    requires p == (2 * e) * pi
    ensures c * p == 2 * (c * e) * pi
  {
  }

  /** Adding an even multiple of pi does not change the parity of the quotient by pi. */
  lemma ShiftedParity(x: nat, pi: nat, k: nat, rest: nat)
    requires pi > 0 && x == 2 * k * pi + rest
    ensures (x / pi) % 2 == (rest / pi) % 2
  {
    var q, r := rest / pi, rest % pi;
    assert x == (2 * k + q) * pi + r;
    DivModUnique(x, pi, 2 * k + q, r);
    DivModUnique(2 * k + q, 2, k + q / 2, q % 2);
  }

  /** 2^(a + b) is 2^a times 2^b. */
  lemma {:induction false} Pow2Add(a: nat, b: nat)
    ensures Pow2(a + b) == Pow2(a) * Pow2(b)
  {
    if a > 0 {
      Pow2Add(a - 1, b);
      assert Pow2(a + b) == 2 * Pow2(a - 1 + b);
    }
  }

  /** The bits appendBits(b, 8) writes for each byte in turn. */
  function ByteBits(bytes: seq<Byte>): (bits: seq<bool>)
    ensures |bits| == 8 * |bytes|
  {
    if bytes == [] then [] else ByteBits(bytes[..|bytes| - 1]) + ToBits(bytes[|bytes| - 1], 8)
  }

  /** One more byte appends its eight bits. */
  lemma ByteBitsSnoc(bytes: seq<Byte>, i: nat)
    requires i < |bytes|
    ensures ByteBits(bytes[..i + 1]) == ByteBits(bytes[..i]) + ToBits(bytes[i], 8)
  {
    assert bytes[..i + 1][..i] == bytes[..i];
  }

  /** Concatenation is associative; stated once so that growing a buffer by two
    * appends can be regrouped without element-wise reasoning. */
  lemma AppendAssoc<T>(a: seq<T>, b: seq<T>, c: seq<T>)
    ensures (a + b) + c == a + (b + c)
  {
  }

  /** Bit j of byte i sits at position 8 i + j. */
  lemma {:induction false} ByteBitsAt(bytes: seq<Byte>, i: nat, j: nat)
    requires i < |bytes| && j < 8
    ensures ByteBits(bytes)[8 * i + j] == ToBits(bytes[i], 8)[j]
  {
    if i < |bytes| - 1 {
      ByteBitsAt(bytes[..|bytes| - 1], i, j);
    }
  }

  /** toBytes reads back the bytes appendBits wrote. */
  lemma ByteBitsReadBack(bytes: seq<Byte>)
    ensures ToBytes(ByteBits(bytes), 0, |bytes|) == bytes
  {
    var back := ToBytes(ByteBits(bytes), 0, |bytes|);
    Pow2Of8();
    forall i | 0 <= i < |bytes|
      ensures back[i] == bytes[i]
    {
      forall j | 0 <= j < 8
        ensures ToBits(back[i], 8)[j] == ToBits(bytes[i], 8)[j]
      {
        ByteBitsAt(bytes, i, j);
      }
      assert ToBits(back[i], 8) == ToBits(bytes[i], 8);
      RoundTrip(back[i], 8);
      RoundTrip(bytes[i], 8);
    }
  }

  /** ZXing's BitArray, reduced to the bits it holds. */
  class BitArray {
    var bits: seq<bool>

    constructor ()
      ensures bits == []
    {
      bits := [];
    }

    /** getSizeInBytes: the size rounded up to whole bytes. */
    function GetSizeInBytes(): (n: nat)
      reads this
      ensures 8 * n >= |bits| && 8 * n < |bits| + 8
    {
      (|bits| + 7) / 8
    }

    method AppendBit(bit: bool)
      modifies this
      ensures bits == old(bits) + [bit]
    {
      bits := bits + [bit];
    }

    /** appendBits: the low numBits bits of value, most significant first. */
    method AppendBits(value: nat, numBits: nat)
      requires numBits <= 32
      modifies this
      ensures bits == old(bits) + ToBits(value, numBits)
    {
      var numBitsLeft := numBits;
      ToBitsAt(value, numBits);
      while numBitsLeft > 0
        invariant 0 <= numBitsLeft <= numBits
        invariant bits == old(bits) + ToBits(value, numBits)[..numBits - numBitsLeft]
      {
        ghost var written := ToBits(value, numBits)[..numBits - numBitsLeft + 1];
        assert written == ToBits(value, numBits)[..numBits - numBitsLeft] + [BitOf(value, numBitsLeft - 1)];
        AppendBit((value / Pow2(numBitsLeft - 1)) % 2 == 1);
        numBitsLeft := numBitsLeft - 1;
      }
      assert ToBits(value, numBits)[..numBits] == ToBits(value, numBits);
    }

    /** appendBitArray: another buffer's bits after this one's. */
    method AppendBitArray(other: BitArray)
      requires other != this
      modifies this
      ensures bits == old(bits) + other.bits
    {
      var i := 0;
      while i < |other.bits|
        invariant i <= |other.bits|
        invariant bits == old(bits) + other.bits[..i]
      {
        AppendBit(other.bits[i]);
        i := i + 1;
      }
      assert other.bits[..i] == other.bits;
    }
  }
}
