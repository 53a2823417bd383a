/** The sizing steps of QRCodeBeautify: choosing the version and the mask, terminating
  * the data bits, and splitting the codewords into Reed-Solomon blocks. */
module QRLayout {
  import opened Outcomes
  import opened BitArrays

  /** A Java int. */
  type Int32 = x: int | -0x8000_0000 <= x <= 0x7fff_ffff

  const INT_MAX: Int32 := 0x7fff_ffff

  /** QRCode.NUM_MASK_PATTERNS. */
  const NUM_MASK_PATTERNS := 8

  // ---------------------------------------------------------------- chooseMaskPattern

  /** chooseMaskPattern, given the penalty of the matrix built with each mask: the first
    * mask of least penalty, or -1 when every penalty is Integer.MAX_VALUE (no mask ever
    * beats the initial minimum). */
  method ChooseMaskPattern(penalties: seq<Int32>) returns (best: int)
    requires |penalties| == NUM_MASK_PATTERNS
    ensures best == -1 <==> forall p :: 0 <= p < NUM_MASK_PATTERNS ==> penalties[p] == INT_MAX
    ensures best != -1 ==> 0 <= best < NUM_MASK_PATTERNS
    ensures best != -1 ==> forall p :: 0 <= p < NUM_MASK_PATTERNS ==> penalties[best] <= penalties[p]
    ensures best != -1 ==> forall p :: 0 <= p < best ==> penalties[best] < penalties[p]
  {
    var minPenalty: int := INT_MAX;
    best := -1;
    var maskPattern := 0;
    while maskPattern < NUM_MASK_PATTERNS
      invariant 0 <= maskPattern <= NUM_MASK_PATTERNS
      invariant best == -1 <==> forall p :: 0 <= p < maskPattern ==> penalties[p] == INT_MAX
      invariant best == -1 ==> minPenalty == INT_MAX
      invariant best != -1 ==> 0 <= best < maskPattern && minPenalty == penalties[best]
      invariant forall p :: 0 <= p < maskPattern ==> minPenalty <= penalties[p]
      invariant best != -1 ==> forall p :: 0 <= p < best ==> penalties[best] < penalties[p]
    {
      var penalty := penalties[maskPattern];
      if penalty < minPenalty {
        minPenalty := penalty;
        best := maskPattern;
      }
      maskPattern := maskPattern + 1;
    }
  }

  // ---------------------------------------------------------------- chooseVersion

  /** What chooseVersion reads of a version at the chosen error correction level: its
    * total codewords and its error correction codewords over all blocks. */
  datatype VersionCapacity = VersionCapacity(totalCodewords: nat, ecCodewords: nat)

  /** The data codewords a version offers (total less error correction). */
  function DataCodewords(v: VersionCapacity): int
  {
    v.totalCodewords - v.ecCodewords
  }

  /** The input bits, rounded up to whole bytes, fit the version's data codewords. */
  predicate Fits(v: VersionCapacity, numInputBits: nat)
  {
    DataCodewords(v) >= (numInputBits + 7) / 8
  }

  /** chooseVersion: the smallest of versions 1..40 whose data codewords hold the input;
    * versions[n - 1] describes version n. */
  method ChooseVersion(numInputBits: nat, versions: seq<VersionCapacity>) returns (result: Result<nat>)
    requires |versions| == 40
    ensures result.Failure? <==> forall k :: 0 <= k < 40 ==> !Fits(versions[k], numInputBits)
    ensures result.Failure? ==> result.error == Writer("Data too big")
    ensures result.Success? ==> 1 <= result.value <= 40 && Fits(versions[result.value - 1], numInputBits)
    ensures result.Success? ==> forall k :: 0 <= k < result.value - 1 ==> !Fits(versions[k], numInputBits)
  {
    var versionNum := 1;
    while versionNum <= 40
      invariant 1 <= versionNum <= 41
      invariant forall k :: 0 <= k < versionNum - 1 ==> !Fits(versions[k], numInputBits)
    {
      var version := versions[versionNum - 1];
      var numBytes := version.totalCodewords;
      var numEcBytes := version.ecCodewords;
      var numDataBytes := numBytes as int - numEcBytes as int;
      var totalInputBytes := (numInputBits + 7) / 8;
      if numDataBytes >= totalInputBytes {
        return Success(versionNum);
      }
      versionNum := versionNum + 1;
    }
    return Failure(Writer("Data too big"));
  }

  // ---------------------------------------------------------------- terminateBits

  /** n false bits. */
  function FalseBits(n: nat): (bits: seq<bool>)
    ensures |bits| == n
    ensures forall i :: 0 <= i < n ==> !bits[i]
  {
    seq(n, _ => false)
  }

  function Min(a: nat, b: nat): nat
  {
    if a <= b then a else b
  }

  /** n rounded up to a multiple of eight. */
  function RoundUp8(n: nat): nat
  {
    (n + 7) / 8 * 8
  }

  /** The size terminateBits brings a buffer of size bits to, for a capacity of
    * capacity bits: up to four terminator bits, then zeros to the byte boundary. */
  function TerminatedSize(size: nat, capacity: nat): nat
  {
    RoundUp8(Min(capacity, size + 4))
  }

  lemma RoundUp8Bounds(n: nat)
    ensures RoundUp8(n) % 8 == 0
    ensures n <= RoundUp8(n) < n + 8
    ensures n % 8 == 0 ==> RoundUp8(n) == n
    ensures n % 8 != 0 ==> RoundUp8(n) == n + (8 - n % 8)
  {
    var q, r := n / 8, n % 8;
    assert n == 8 * q + r;
    if r == 0 {
      DivModUnique(n + 7, 8, q, 7);
    } else {
      DivModUnique(n + 7, 8, q + 1, r - 1);
    }
  }

  /** The terminated size is a whole number of bytes, keeps every bit of the data,
    * stays within the capacity when the capacity is whole bytes, and holds the full
    * four-bit terminator unless the capacity cuts it short. */
  lemma TerminatedSizeBounds(size: nat, numDataBytes: nat)
    requires size <= 8 * numDataBytes
    ensures TerminatedSize(size, 8 * numDataBytes) % 8 == 0
    ensures size <= TerminatedSize(size, 8 * numDataBytes) <= 8 * numDataBytes
    ensures TerminatedSize(size, 8 * numDataBytes) >= size + 4
            || TerminatedSize(size, 8 * numDataBytes) == 8 * numDataBytes
    ensures TerminatedSize(size, 8 * numDataBytes) < size + 4 + 8
  {
    var capacity := 8 * numDataBytes;
    var m := Min(capacity, size + 4);
    RoundUp8Bounds(m);
    if m == capacity {
      DivModUnique(capacity, 8, numDataBytes, 0);
    } else {
      var r := RoundUp8(m);
      var q := r / 8;
      DivModUnique(r, 8, q, 0);
    }
  }

  lemma FalseBitsSnoc(n: nat)
    ensures FalseBits(n) + [false] == FalseBits(n + 1)
  {
  }

  /** One more false bit after start + FalseBits(n). */
  lemma GrowFalse(start: seq<bool>, n: nat)
    ensures start + FalseBits(n) + [false] == start + FalseBits(n + 1)
  {
    AppendAssoc(start, FalseBits(n), [false]);
    FalseBitsSnoc(n);
  }

  /** terminateBits: fails when the bits exceed the data capacity; otherwise appends only
    * false bits, up to the terminated size. No pad codewords are added. */
  method TerminateBits(numDataBytes: nat, bits: BitArray) returns (result: Result<()>)
    modifies bits
    ensures result.Failure? <==> |old(bits.bits)| > 8 * numDataBytes
    ensures result.Failure? ==> result.error.Writer? && bits.bits == old(bits.bits)
    ensures result.Success? ==>
              bits.bits == old(bits.bits)
                           + FalseBits(TerminatedSize(|old(bits.bits)|, 8 * numDataBytes) - |old(bits.bits)|)
  {
    var capacity := numDataBytes * 8;
    if |bits.bits| > capacity {
      return Failure(Writer("data bits cannot fit in the QR Code"));
    }
    ghost var start := bits.bits;
    var i := 0;
    while i < 4 && |bits.bits| < capacity
      invariant 0 <= i <= 4 && |start| + i <= capacity
      invariant bits.bits == start + FalseBits(i)
    {
      bits.AppendBit(false);
      GrowFalse(start, i);
      i := i + 1;
    }
    ghost var filled := |bits.bits|;
    assert filled == Min(capacity, |start| + 4);
    RoundUp8Bounds(filled);
    var numBitsInLastByte := |bits.bits| % 8;
    if numBitsInLastByte > 0 {
      var j := numBitsInLastByte;
      while j < 8
        invariant numBitsInLastByte <= j <= 8
        invariant bits.bits == start + FalseBits(i + (j - numBitsInLastByte))
      {
        bits.AppendBit(false);
        GrowFalse(start, i + (j - numBitsInLastByte));
        j := j + 1;
      }
    }
    return Success(());
  }

  // ---------------------------------------------------------------- block sizes

  /** The data and error correction bytes of one Reed-Solomon block. */
  datatype BlockSizes = BlockSizes(numDataBytes: int, numECBytes: int)

  /** getNumDataBytesAndNumECBytesForBlockID, with its sanity checks, as written. */
  function GetNumDataBytesAndNumECBytesForBlockID(numTotalBytes: nat, numDataBytes: nat,
                                                  numRSBlocks: nat, blockID: nat): (r: Result<BlockSizes>)
    ensures r.Failure? ==> r.error.Writer?
    ensures blockID >= numRSBlocks ==> r == Failure(Writer("Block ID too large"))
  {
    if blockID >= numRSBlocks then Failure(Writer("Block ID too large"))
    else
      var numRsBlocksInGroup2 := numTotalBytes % numRSBlocks;
      var numRsBlocksInGroup1 := numRSBlocks - numRsBlocksInGroup2;
      var numTotalBytesInGroup1 := numTotalBytes / numRSBlocks;
      var numTotalBytesInGroup2 := numTotalBytesInGroup1 + 1;
      var numDataBytesInGroup1 := numDataBytes / numRSBlocks;
      var numDataBytesInGroup2 := numDataBytesInGroup1 + 1;
      var numEcBytesInGroup1 := numTotalBytesInGroup1 - numDataBytesInGroup1;
      var numEcBytesInGroup2 := numTotalBytesInGroup2 - numDataBytesInGroup2;
      if numEcBytesInGroup1 != numEcBytesInGroup2 then Failure(Writer("EC bytes mismatch"))
      else if numRSBlocks != numRsBlocksInGroup1 + numRsBlocksInGroup2 then Failure(Writer("RS blocks mismatch"))
      else if numTotalBytes != (numDataBytesInGroup1 + numEcBytesInGroup1) * numRsBlocksInGroup1
                               + (numDataBytesInGroup2 + numEcBytesInGroup2) * numRsBlocksInGroup2
      then Failure(Writer("Total bytes mismatch"))
      else if blockID < numRsBlocksInGroup1 then Success(BlockSizes(numDataBytesInGroup1, numEcBytesInGroup1))
      else Success(BlockSizes(numDataBytesInGroup2, numEcBytesInGroup2))
  }

  /** The block split of section 7.5.2 of ISO/IEC 18004, stated directly: the total
    * codewords divide into blocks of two sizes one codeword apart, the longer ones last,
    * every block carrying the same number of error correction codewords. */
  function BlockDataBytes(numTotalBytes: nat, numDataBytes: nat, numRSBlocks: nat, blockID: nat): nat
    requires numRSBlocks > 0
  {
    numDataBytes / numRSBlocks + (if blockID < numRSBlocks - numTotalBytes % numRSBlocks then 0 else 1)
  }

  function BlockECBytes(numTotalBytes: nat, numDataBytes: nat, numRSBlocks: nat): int
    requires numRSBlocks > 0
  {
    numTotalBytes / numRSBlocks - numDataBytes / numRSBlocks
  }

  /** (a + b) q == a q + b q, for the group sums. */
  lemma Distribute(a: int, b: int, q: int)
    ensures (a + b) * q == a * q + b * q
  {
  }

  /** The three sanity checks can never fire: whatever the sizes, a block ID below the
    * number of blocks gets the split of BlockDataBytes and BlockECBytes. */
  lemma BlockSplit(numTotalBytes: nat, numDataBytes: nat, numRSBlocks: nat, blockID: nat)
    ensures GetNumDataBytesAndNumECBytesForBlockID(numTotalBytes, numDataBytes, numRSBlocks, blockID).Success?
            <==> blockID < numRSBlocks
    ensures blockID < numRSBlocks ==>
              GetNumDataBytesAndNumECBytesForBlockID(numTotalBytes, numDataBytes, numRSBlocks, blockID).value
              == BlockSizes(BlockDataBytes(numTotalBytes, numDataBytes, numRSBlocks, blockID),
                            BlockECBytes(numTotalBytes, numDataBytes, numRSBlocks))
  {
    if blockID < numRSBlocks {
      var b := numRSBlocks;
      var g2 := numTotalBytes % b;
      var g1 := b - g2;
      var t1 := numTotalBytes / b;
      var d1 := numDataBytes / b;
      var ec := t1 - d1;
      assert numTotalBytes == t1 * b + g2;
      Distribute(g1, g2, t1);
      assert (d1 + ec) * g1 + (d1 + 1 + ec) * g2 == t1 * g1 + (t1 + 1) * g2;
      assert t1 * g1 + (t1 + 1) * g2 == t1 * (g1 + g2) + g2;
    }
  }

  /** The data bytes of blocks 0 .. n - 1. */
  function SumDataBytes(numTotalBytes: nat, numDataBytes: nat, numRSBlocks: nat, n: nat): nat
    requires numRSBlocks > 0
  {
    if n == 0 then 0
    else SumDataBytes(numTotalBytes, numDataBytes, numRSBlocks, n - 1)
         + BlockDataBytes(numTotalBytes, numDataBytes, numRSBlocks, n - 1)
  }

  lemma {:induction false} SumDataBytesPrefix(numTotalBytes: nat, numDataBytes: nat, numRSBlocks: nat, n: nat)
    requires 0 < numRSBlocks
    ensures SumDataBytes(numTotalBytes, numDataBytes, numRSBlocks, n)
            == n * (numDataBytes / numRSBlocks)
               + (if n <= numRSBlocks - numTotalBytes % numRSBlocks then 0
                  else n - (numRSBlocks - numTotalBytes % numRSBlocks))
  {
    if n > 0 {
      SumDataBytesPrefix(numTotalBytes, numDataBytes, numRSBlocks, n - 1);
      Distribute(n - 1, 1, numDataBytes / numRSBlocks);
    }
  }

  /** Over all blocks the data bytes add up to B (D / B) + T % B: the whole data when
    * D % B == T % B, and the interleaver's "Data bytes does not match offset" check
    * fails otherwise. Data and error correction together always add up to T. */
  lemma BlockSums(numTotalBytes: nat, numDataBytes: nat, numRSBlocks: nat)
    requires numRSBlocks > 0
    ensures SumDataBytes(numTotalBytes, numDataBytes, numRSBlocks, numRSBlocks)
            == numRSBlocks * (numDataBytes / numRSBlocks) + numTotalBytes % numRSBlocks
    ensures SumDataBytes(numTotalBytes, numDataBytes, numRSBlocks, numRSBlocks) == numDataBytes
            <==> numDataBytes % numRSBlocks == numTotalBytes % numRSBlocks
    ensures SumDataBytes(numTotalBytes, numDataBytes, numRSBlocks, numRSBlocks)
            + numRSBlocks * BlockECBytes(numTotalBytes, numDataBytes, numRSBlocks) == numTotalBytes
  {
    var b := numRSBlocks;
    SumDataBytesPrefix(numTotalBytes, numDataBytes, b, b);
    var d1 := numDataBytes / b;
    var t1 := numTotalBytes / b;
    assert numDataBytes == b * d1 + numDataBytes % b;
    assert numTotalBytes == b * t1 + numTotalBytes % b;
    assert b * d1 + b * (t1 - d1) == b * t1;
  }

  /** With no more data than total codewords, each block's error correction count is
    * not negative. */
  lemma ECBytesNonNegative(numTotalBytes: nat, numDataBytes: nat, numRSBlocks: nat)
    requires numRSBlocks > 0 && numDataBytes <= numTotalBytes
    ensures BlockECBytes(numTotalBytes, numDataBytes, numRSBlocks) >= 0
  {
    var b := numRSBlocks;
    QuotientMonotone(b, numTotalBytes / b, numTotalBytes % b, numDataBytes / b, numDataBytes % b);
  }

  lemma QuotientMonotone(b: int, qt: int, rt: int, qd: int, rd: int)
    requires b > 0 && 0 <= rt < b && 0 <= rd < b && b * qt + rt >= b * qd + rd
    ensures qt >= qd
  {
    if qt < qd {
      var k := qd - qt;
      assert b * qd == b * qt + b * k;
      assert b * k == b + b * (k - 1);
      MulNonNegative(b, k - 1);
    }
  }

  /** The data offsets only grow from block to block. */
  lemma {:induction false} SumDataBytesMonotone(numTotalBytes: nat, numDataBytes: nat, numRSBlocks: nat, j: nat, k: nat)
    requires 0 < numRSBlocks && j <= k
    ensures SumDataBytes(numTotalBytes, numDataBytes, numRSBlocks, j)
            <= SumDataBytes(numTotalBytes, numDataBytes, numRSBlocks, k)
    decreases k - j
  {
    if j < k {
      SumDataBytesMonotone(numTotalBytes, numDataBytes, numRSBlocks, j, k - 1);
    }
  }

  /** The error correction bytes every block gets. */
  function ECPerBlock(numTotalBytes: nat, numDataBytes: nat, numRSBlocks: nat): nat
    requires 0 < numRSBlocks && numDataBytes <= numTotalBytes
  {
    ECBytesNonNegative(numTotalBytes, numDataBytes, numRSBlocks);
    BlockECBytes(numTotalBytes, numDataBytes, numRSBlocks)
  }

}
