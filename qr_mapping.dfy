/** The bit map of buildFinalToDataMapping and its inverse from getRevMapFromMap. The
  * interleaver sends the codewords of the blocks to their final places column by
  * column; the map records, for every final bit position, the position of the same bit
  * before interleaving (data bytes of all blocks first, then the error correction
  * bytes block after block). */
module QRMapping {
  import opened Outcomes
  import opened BitArrays
  import opened QRLayout
  import opened Interleaving
  import opened IndexSort

  // ---------------------------------------------------------------- block sizes

  /** Block 0 lies in the first group, so it has the smaller data size; with no fewer
    * data bytes than blocks that size is positive. */
  lemma FirstBlockSize(numTotalBytes: nat, numDataBytes: nat, numRSBlocks: nat)
    requires 0 < numRSBlocks
    ensures BlockDataBytes(numTotalBytes, numDataBytes, numRSBlocks, 0) == numDataBytes / numRSBlocks
    ensures numDataBytes / numRSBlocks == 0 <==> numDataBytes < numRSBlocks
  {
    var q := numDataBytes / numRSBlocks;
    assert numDataBytes == numRSBlocks * q + numDataBytes % numRSBlocks;
    if q == 0 {
      assert numDataBytes == numDataBytes % numRSBlocks;
    }
    if numDataBytes < numRSBlocks {
      DivModUnique(numDataBytes, numRSBlocks, 0, numDataBytes);
    }
  }

  /** Every block has at least the data size of block 0. */
  lemma BlockDataBytesAtLeast(numTotalBytes: nat, numDataBytes: nat, numRSBlocks: nat, j: nat)
    requires 0 < numRSBlocks
    ensures BlockDataBytes(numTotalBytes, numDataBytes, numRSBlocks, j) >= numDataBytes / numRSBlocks
  {
  }

  /** The data parts of the first j blocks hold SumDataBytes(j) bytes together. */
  lemma {:induction false} DataConcatLength<T>(parts: seq<seq<T>>, numTotalBytes: nat, numDataBytes: nat, numRSBlocks: nat, j: nat)
    requires 0 < numRSBlocks && j <= |parts|
    requires forall k :: 0 <= k < |parts| ==> |parts[k]| == BlockDataBytes(numTotalBytes, numDataBytes, numRSBlocks, k)
    ensures |Concat(parts[..j])| == SumDataBytes(numTotalBytes, numDataBytes, numRSBlocks, j)
  {
    if j > 0 {
      DataConcatLength(parts, numTotalBytes, numDataBytes, numRSBlocks, j - 1);
      assert parts[..j][..j - 1] == parts[..j - 1];
    }
  }

  /** j parts of m bytes each hold j * m bytes together. */
  lemma {:induction false} UniformConcatLength<T>(parts: seq<seq<T>>, m: nat, j: nat)
    requires j <= |parts|
    requires forall k :: 0 <= k < |parts| ==> |parts[k]| == m
    ensures |Concat(parts[..j])| == j * m
  {
    if j > 0 {
      UniformConcatLength(parts, m, j - 1);
      assert parts[..j][..j - 1] == parts[..j - 1];
    }
  }

  /** Blocks of the data sizes and a common error correction size whose sizes add up
    * fill exactly the total number of bytes once interleaved. */
  lemma PartsLength<T>(datas: seq<seq<T>>, ecs: seq<seq<T>>, numTotalBytes: nat, numDataBytes: nat, numRSBlocks: nat)
    requires 0 < numRSBlocks && numDataBytes <= numTotalBytes
    requires |datas| == numRSBlocks && |ecs| == numRSBlocks
    requires forall k :: 0 <= k < numRSBlocks ==>
               |datas[k]| == BlockDataBytes(numTotalBytes, numDataBytes, numRSBlocks, k)
               && |ecs[k]| == ECPerBlock(numTotalBytes, numDataBytes, numRSBlocks)
    requires numDataBytes % numRSBlocks == numTotalBytes % numRSBlocks
    ensures |ColumnMajor(datas, MaxLength(datas))| + |ColumnMajor(ecs, MaxLength(ecs))| == numTotalBytes
  {
    var T, D, B := numTotalBytes, numDataBytes, numRSBlocks;
    DataConcatLength(datas, T, D, B, B);
    UniformConcatLength(ecs, ECPerBlock(T, D, B), B);
    assert datas[..B] == datas && ecs[..B] == ecs;
    ColumnMajorLength(datas, MaxLength(datas));
    ColumnMajorLength(ecs, MaxLength(ecs));
    BlockSums(T, D, B);
  }


  // ---------------------------------------------------------------- the byte order

  /** start, start + 1, .., start + n - 1. */
  function Range(start: nat, n: nat): (r: seq<nat>)
    ensures |r| == n
    ensures forall i :: 0 <= i < n ==> r[i] == start + i
  {
    seq(n, i requires 0 <= i < n => start + i)
  }

  /** The byte positions of the blocks before interleaving: block j starts at
    * base + offsets[j] and has lengths[j] bytes. */
  function IndexBlocks(base: nat, offsets: seq<nat>, lengths: seq<nat>): (blocks: seq<seq<nat>>)
    requires |offsets| == |lengths|
    ensures |blocks| == |offsets|
    ensures forall j :: 0 <= j < |blocks| ==> |blocks[j]| == lengths[j]
  {
    seq(|offsets|, j requires 0 <= j < |offsets| => Range(base + offsets[j], lengths[j]))
  }

  /** The data offset of each block: the data sizes of the blocks before it. */
  function DataOffsets(numTotalBytes: nat, numDataBytes: nat, numRSBlocks: nat): (offsets: seq<nat>)
    requires 0 < numRSBlocks
    ensures |offsets| == numRSBlocks
  {
    seq(numRSBlocks, j requires 0 <= j < numRSBlocks => SumDataBytes(numTotalBytes, numDataBytes, numRSBlocks, j))
  }

  function DataLengths(numTotalBytes: nat, numDataBytes: nat, numRSBlocks: nat): (lengths: seq<nat>)
    requires 0 < numRSBlocks
    ensures |lengths| == numRSBlocks
  {
    seq(numRSBlocks, j requires 0 <= j < numRSBlocks => BlockDataBytes(numTotalBytes, numDataBytes, numRSBlocks, j))
  }

  /** The error correction offset of each block, counted from the end of the data. */
  function EcOffsets(numTotalBytes: nat, numDataBytes: nat, numRSBlocks: nat): (offsets: seq<nat>)
    requires 0 < numRSBlocks && numDataBytes <= numTotalBytes
    ensures |offsets| == numRSBlocks
  {
    var ec := ECPerBlock(numTotalBytes, numDataBytes, numRSBlocks);
    seq(numRSBlocks, (j: nat) => j * ec)
  }

  function EcLengths(numTotalBytes: nat, numDataBytes: nat, numRSBlocks: nat): (lengths: seq<nat>)
    requires 0 < numRSBlocks && numDataBytes <= numTotalBytes
    ensures |lengths| == numRSBlocks
  {
    var ec := ECPerBlock(numTotalBytes, numDataBytes, numRSBlocks);
    seq(numRSBlocks, _ => ec)
  }

  function DataIndexBlocks(numTotalBytes: nat, numDataBytes: nat, numRSBlocks: nat): seq<seq<nat>>
    requires 0 < numRSBlocks
  {
    IndexBlocks(0, DataOffsets(numTotalBytes, numDataBytes, numRSBlocks), DataLengths(numTotalBytes, numDataBytes, numRSBlocks))
  }

  function EcIndexBlocks(numTotalBytes: nat, numDataBytes: nat, numRSBlocks: nat): seq<seq<nat>>
    requires 0 < numRSBlocks && numDataBytes <= numTotalBytes
  {
    IndexBlocks(numDataBytes, EcOffsets(numTotalBytes, numDataBytes, numRSBlocks), EcLengths(numTotalBytes, numDataBytes, numRSBlocks))
  }

  /** For every final byte, in order, the byte it comes from before interleaving. */
  function ByteOrder(numTotalBytes: nat, numDataBytes: nat, numRSBlocks: nat): seq<nat>
    requires 0 < numRSBlocks && numDataBytes <= numTotalBytes
  {
    var datas := DataIndexBlocks(numTotalBytes, numDataBytes, numRSBlocks);
    var ecs := EcIndexBlocks(numTotalBytes, numDataBytes, numRSBlocks);
    ColumnMajor(datas, MaxLength(datas)) + ColumnMajor(ecs, MaxLength(ecs))
  }

  /** The eight bit positions of byte x, most significant first. */
  function Octet(x: nat): seq<int>
  {
    seq(8, k requires 0 <= k < 8 => 8 * x + k)
  }

  /** A byte order spelled out bit by bit. */
  function Expand(order: seq<nat>): (bits: seq<int>)
    ensures |bits| == 8 * |order|
  {
    if order == [] then [] else Expand(order[..|order| - 1]) + Octet(order[|order| - 1])
  }

  /** The map buildFinalToDataMapping writes: final bit position to the bit position
    * before interleaving. */
  function FinalToData(numTotalBytes: nat, numDataBytes: nat, numRSBlocks: nat): seq<int>
    requires 0 < numRSBlocks && numDataBytes <= numTotalBytes
  {
    Expand(ByteOrder(numTotalBytes, numDataBytes, numRSBlocks))
  }

  /** A map of 0 .. |m| - 1 onto itself. */
  predicate IsPermutation(m: seq<int>)
  {
    && (forall i :: 0 <= i < |m| ==> 0 <= m[i] < |m|)
    && (forall i, j :: 0 <= i < j < |m| ==> m[i] != m[j])
  }

  // ---------------------------------------------------------------- every byte once

  lemma RangeAppend(start: nat, n: nat, m: nat)
    ensures Range(start, n) + Range(start + n, m) == Range(start, n + m)
  {
  }

  /** Blocks laid end to end that each start where the previous one ended cover one
    * range. */
  lemma {:induction false} IndexBlocksConcat(base: nat, offsets: seq<nat>, lengths: seq<nat>, j: nat)
    requires |offsets| == |lengths| && 0 < j <= |offsets|
    requires forall i :: 0 <= i < |offsets| - 1 ==> offsets[i + 1] == offsets[i] + lengths[i]
    requires offsets[0] == 0
    ensures Concat(IndexBlocks(base, offsets, lengths)[..j]) == Range(base, offsets[j - 1] + lengths[j - 1])
  {
    var blocks := IndexBlocks(base, offsets, lengths);
    ConcatSnoc(blocks, j);
    var end := offsets[j - 1];
    if j == 1 {
      assert blocks[..0] == [];
    } else {
      IndexBlocksConcat(base, offsets, lengths, j - 1);
      assert offsets[j - 2] + lengths[j - 2] == end;
    }
    assert blocks[j - 1] == Range(base + end, lengths[j - 1]);
    RangeAppend(base, end, lengths[j - 1]);
  }

  /** The data blocks together cover the data bytes 0 .. D - 1 when the block sizes
    * add up to D. */
  lemma DataIndexConcat(numTotalBytes: nat, numDataBytes: nat, numRSBlocks: nat)
    requires 0 < numRSBlocks && numDataBytes % numRSBlocks == numTotalBytes % numRSBlocks
    ensures Concat(DataIndexBlocks(numTotalBytes, numDataBytes, numRSBlocks)) == Range(0, numDataBytes)
  {
    var T, D, B := numTotalBytes, numDataBytes, numRSBlocks;
    var offsets, lengths := DataOffsets(T, D, B), DataLengths(T, D, B);
    IndexBlocksConcat(0, offsets, lengths, B);
    WholePrefix(DataIndexBlocks(T, D, B));
    assert offsets[B - 1] + lengths[B - 1] == SumDataBytes(T, D, B, B);
    BlockSums(T, D, B);
  }

  /** The error correction blocks together cover the bytes D .. T - 1. */
  lemma EcIndexConcat(numTotalBytes: nat, numDataBytes: nat, numRSBlocks: nat)
    requires 0 < numRSBlocks && numDataBytes <= numTotalBytes
    requires numDataBytes % numRSBlocks == numTotalBytes % numRSBlocks
    ensures Concat(EcIndexBlocks(numTotalBytes, numDataBytes, numRSBlocks))
            == Range(numDataBytes, numTotalBytes - numDataBytes)
  {
    var T, D, B := numTotalBytes, numDataBytes, numRSBlocks;
    var ec := ECPerBlock(T, D, B);
    var offsets, lengths := EcOffsets(T, D, B), EcLengths(T, D, B);
    forall i | 0 <= i < B - 1
      ensures offsets[i + 1] == offsets[i] + lengths[i]
    {
      MulStep(i, ec);
    }
    IndexBlocksConcat(D, offsets, lengths, B);
    WholePrefix(EcIndexBlocks(T, D, B));
    MulStep(B - 1, ec);
    BlockSums(T, D, B);
  }

  lemma MulStep(i: nat, m: nat)
    ensures (i + 1) * m == i * m + m
  {
  }

  /** With a consistent split the data parts add up to the data. */
  lemma DataSum(numTotalBytes: nat, numDataBytes: nat, numRSBlocks: nat)
    requires 0 < numRSBlocks
    requires numDataBytes % numRSBlocks == numTotalBytes % numRSBlocks
    ensures SumDataBytes(numTotalBytes, numDataBytes, numRSBlocks, numRSBlocks) == numDataBytes
  {
    BlockSums(numTotalBytes, numDataBytes, numRSBlocks);
  }

  /** With a consistent split data and error correction fill the symbol. */
  lemma EcSum(numTotalBytes: nat, numDataBytes: nat, numRSBlocks: nat)
    requires 0 < numRSBlocks && numDataBytes <= numTotalBytes
    requires numDataBytes % numRSBlocks == numTotalBytes % numRSBlocks
    ensures numDataBytes + numRSBlocks * ECPerBlock(numTotalBytes, numDataBytes, numRSBlocks) == numTotalBytes
  {
    BlockSums(numTotalBytes, numDataBytes, numRSBlocks);
  }

  /** With a consistent split block j's data bytes lie inside the data. */
  lemma DataInRange(numTotalBytes: nat, numDataBytes: nat, numRSBlocks: nat, j: nat)
    requires 0 < numRSBlocks && j < numRSBlocks
    requires numDataBytes % numRSBlocks == numTotalBytes % numRSBlocks
    ensures SumDataBytes(numTotalBytes, numDataBytes, numRSBlocks, j)
            + BlockDataBytes(numTotalBytes, numDataBytes, numRSBlocks, j) <= numDataBytes
  {
    var next := SumDataBytes(numTotalBytes, numDataBytes, numRSBlocks, j + 1);
    assert next == SumDataBytes(numTotalBytes, numDataBytes, numRSBlocks, j)
                   + BlockDataBytes(numTotalBytes, numDataBytes, numRSBlocks, j);
    assert next <= numDataBytes by {
      SumDataBytesMonotone(numTotalBytes, numDataBytes, numRSBlocks, j + 1, numRSBlocks);
      DataSum(numTotalBytes, numDataBytes, numRSBlocks);
    }
  }

  /** Block j's error correction bytes lie inside the symbol. */
  lemma EcInRange(numTotalBytes: nat, numDataBytes: nat, numRSBlocks: nat, j: nat)
    requires 0 < numRSBlocks && numDataBytes <= numTotalBytes && j < numRSBlocks
    requires numDataBytes % numRSBlocks == numTotalBytes % numRSBlocks
    ensures numDataBytes + j * ECPerBlock(numTotalBytes, numDataBytes, numRSBlocks)
            + ECPerBlock(numTotalBytes, numDataBytes, numRSBlocks) <= numTotalBytes
  {
    var ec := ECPerBlock(numTotalBytes, numDataBytes, numRSBlocks);
    EcSum(numTotalBytes, numDataBytes, numRSBlocks);
    MulStep(j, ec);
    MulMonotone(j + 1, numRSBlocks, ec);
  }

  /** With a consistent split every block's bytes lie inside the symbol. */
  lemma BlockInRange(numTotalBytes: nat, numDataBytes: nat, numRSBlocks: nat, j: nat)
    requires 0 < numRSBlocks && numDataBytes <= numTotalBytes && j < numRSBlocks
    requires numDataBytes % numRSBlocks == numTotalBytes % numRSBlocks
    ensures SumDataBytes(numTotalBytes, numDataBytes, numRSBlocks, j)
            + BlockDataBytes(numTotalBytes, numDataBytes, numRSBlocks, j) <= numDataBytes
    ensures numDataBytes + j * ECPerBlock(numTotalBytes, numDataBytes, numRSBlocks)
            + ECPerBlock(numTotalBytes, numDataBytes, numRSBlocks) <= numTotalBytes
  {
    DataInRange(numTotalBytes, numDataBytes, numRSBlocks, j);
    EcInRange(numTotalBytes, numDataBytes, numRSBlocks, j);
  }

  lemma RangeCover(d: nat, t: nat)
    requires d <= t
    ensures Range(0, d) + Range(d, t - d) == Range(0, t)
  {
    var r := Range(0, d) + Range(d, t - d);
    assert |r| == t;
    forall i | 0 <= i < t
      ensures r[i] == Range(0, t)[i]
    {
      if i < d {
        assert r[i] == Range(0, d)[i];
      } else {
        assert r[i] == Range(d, t - d)[i - d];
      }
    }
  }

  /** When the block sizes add up, the byte order names every byte 0 .. T - 1 exactly
    * once. */
  lemma ByteOrderPermutes(numTotalBytes: nat, numDataBytes: nat, numRSBlocks: nat)
    requires 0 < numRSBlocks && numDataBytes <= numTotalBytes
    requires numDataBytes % numRSBlocks == numTotalBytes % numRSBlocks
    ensures multiset(ByteOrder(numTotalBytes, numDataBytes, numRSBlocks)) == multiset(Range(0, numTotalBytes))
  {
    var T, D, B := numTotalBytes, numDataBytes, numRSBlocks;
    var datas, ecs := DataIndexBlocks(T, D, B), EcIndexBlocks(T, D, B);
    var first, second := ColumnMajor(datas, MaxLength(datas)), ColumnMajor(ecs, MaxLength(ecs));
    assert ByteOrder(T, D, B) == first + second;
    ColumnMajorPermutes(datas, MaxLength(datas));
    ColumnMajorPermutes(ecs, MaxLength(ecs));
    DataIndexConcat(T, D, B);
    EcIndexConcat(T, D, B);
    assert multiset(first) == multiset(Range(0, D));
    assert multiset(second) == multiset(Range(D, T - D));
    MultisetConcat(first, second);
    MultisetConcat(Range(0, D), Range(D, T - D));
    RangeCover(D, T);
    calc {
      multiset(ByteOrder(T, D, B));
      multiset(first) + multiset(second);
      multiset(Range(0, D)) + multiset(Range(D, T - D));
      multiset(Range(0, T));
    }
  }

  /** Each of 0 .. n - 1 occurs once in the range. */
  lemma {:induction false} RangeOnce(n: nat, v: int)
    ensures multiset(Range(0, n))[v] == if 0 <= v < n then 1 else 0
  {
    if n > 0 {
      RangeAppend(0, n - 1, 1);
      MultisetConcat(Range(0, n - 1), Range(n - 1, 1));
      RangeOnce(n - 1, v);
    }
  }

  /** A sequence with the multiset of 0 .. n - 1 is a permutation of it. */
  lemma RangeMultisetPermutation(s: seq<nat>, n: nat)
    requires multiset(s) == multiset(Range(0, n))
    ensures |s| == n
    ensures forall i :: 0 <= i < |s| ==> s[i] < n
    ensures forall i, j :: 0 <= i < j < |s| ==> s[i] != s[j]
  {
    assert |s| == |multiset(s)| == |multiset(Range(0, n))| == n;
    forall i | 0 <= i < |s|
      ensures s[i] < n
    {
      assert s[i] in multiset(s);
      RangeOnce(n, s[i]);
    }
    forall i, j | 0 <= i < j < |s|
      ensures s[i] != s[j]
    {
      RangeOnce(n, s[i]);
      RepeatedTwice(s, i, j);
    }
  }

  /** An entry found at two positions occurs at least twice. */
  lemma RepeatedTwice<T>(s: seq<T>, i: nat, j: nat)
    requires i < j < |s|
    ensures s[i] == s[j] ==> multiset(s)[s[i]] >= 2
  {
    assert s == s[..j] + [s[j]] + s[j + 1..];
    assert s[i] in multiset(s[..j]);
    MultisetConcat(s[..j], [s[j]]);
    MultisetConcat(s[..j] + [s[j]], s[j + 1..]);
  }

  /** Bit k of the p-th byte of the order is bit k of the byte it names. */
  lemma {:induction false} ExpandAt(order: seq<nat>, p: nat, k: nat)
    requires p < |order| && k < 8
    ensures Expand(order)[8 * p + k] == 8 * order[p] + k
  {
    var last := |order| - 1;
    if p < last {
      ExpandAt(order[..last], p, k);
    }
  }

  /** The final-to-data map spells the byte order out bit by bit: final bit k of final
    * byte p comes from bit k of the byte the order names. */
  lemma FinalToDataAt(numTotalBytes: nat, numDataBytes: nat, numRSBlocks: nat, p: nat, k: nat)
    requires 0 < numRSBlocks && numDataBytes <= numTotalBytes
    requires p < |ByteOrder(numTotalBytes, numDataBytes, numRSBlocks)| && k < 8
    ensures FinalToData(numTotalBytes, numDataBytes, numRSBlocks)[8 * p + k]
            == 8 * ByteOrder(numTotalBytes, numDataBytes, numRSBlocks)[p] + k
  {
    ExpandAt(ByteOrder(numTotalBytes, numDataBytes, numRSBlocks), p, k);
  }

  /** When the block sizes add up, the final-to-data map is a permutation of the
    * 8 T bit positions, so getRevMapFromMap can invert it. */
  lemma FinalToDataPermutation(numTotalBytes: nat, numDataBytes: nat, numRSBlocks: nat)
    requires 0 < numRSBlocks && numDataBytes <= numTotalBytes
    requires numDataBytes % numRSBlocks == numTotalBytes % numRSBlocks
    ensures |FinalToData(numTotalBytes, numDataBytes, numRSBlocks)| == 8 * numTotalBytes
    ensures IsPermutation(FinalToData(numTotalBytes, numDataBytes, numRSBlocks))
  {
    var T, D, B := numTotalBytes, numDataBytes, numRSBlocks;
    var order := ByteOrder(T, D, B);
    var m := FinalToData(T, D, B);
    ByteOrderPermutes(T, D, B);
    RangeMultisetPermutation(order, T);
    forall i | 0 <= i < |m|
      ensures 0 <= m[i] < |m|
    {
      ExpandAt(order, i / 8, i % 8);
    }
    forall i, j | 0 <= i < j < |m|
      ensures m[i] != m[j]
    {
      var p, q := i / 8, j / 8;
      ExpandAt(order, p, i % 8);
      ExpandAt(order, q, j % 8);
      DivModUnique(m[i], 8, order[p], i % 8);
      DivModUnique(m[j], 8, order[q], j % 8);
      if p == q {
        assert i % 8 != j % 8;
      } else {
        assert order[p] != order[q];
      }
    }
  }

  // ---------------------------------------------------------------- buildFinalToDataMapping

  lemma IndexBlocksSnoc(base: nat, offsets: seq<nat>, lengths: seq<nat>, x: nat, y: nat)
    requires |offsets| == |lengths|
    ensures IndexBlocks(base, offsets + [x], lengths + [y]) == IndexBlocks(base, offsets, lengths) + [Range(base + x, y)]
  {
  }

  /** The first loop of buildFinalToDataMapping: the data and error correction offset
    * and length of every block, the longest of each, and the data bytes in total. */
  method BlockLayout(numTotalBytes: nat, numDataBytes: nat, numRSBlocks: nat)
    returns (dataOffset: seq<nat>, rsOffset: seq<nat>, blockDataLength: seq<nat>, blockRSLength: seq<nat>,
             maxNumDataBytes: nat, maxNumEcBytes: nat, dataBytesOffset: nat)
    requires 0 < numRSBlocks && numDataBytes <= numTotalBytes
    ensures dataOffset == DataOffsets(numTotalBytes, numDataBytes, numRSBlocks)
    ensures blockDataLength == DataLengths(numTotalBytes, numDataBytes, numRSBlocks)
    ensures rsOffset == EcOffsets(numTotalBytes, numDataBytes, numRSBlocks)
    ensures blockRSLength == EcLengths(numTotalBytes, numDataBytes, numRSBlocks)
    ensures maxNumDataBytes == MaxLength(DataIndexBlocks(numTotalBytes, numDataBytes, numRSBlocks))
    ensures maxNumEcBytes == MaxLength(EcIndexBlocks(numTotalBytes, numDataBytes, numRSBlocks))
    ensures dataBytesOffset == SumDataBytes(numTotalBytes, numDataBytes, numRSBlocks, numRSBlocks)
  {
    var T, D, B := numTotalBytes, numDataBytes, numRSBlocks;
    ghost var ec := ECPerBlock(T, D, B);
    dataOffset, rsOffset, blockDataLength, blockRSLength := [], [], [], [];
    maxNumDataBytes, maxNumEcBytes := 0, 0;
    dataBytesOffset := 0;
    var rsBytesOffset: nat := 0;
    var i := 0;
    while i < B
      invariant 0 <= i <= B
      invariant dataOffset == DataOffsets(T, D, B)[..i] && blockDataLength == DataLengths(T, D, B)[..i]
      invariant rsOffset == EcOffsets(T, D, B)[..i] && blockRSLength == EcLengths(T, D, B)[..i]
      invariant maxNumDataBytes == MaxLength(IndexBlocks(0, dataOffset, blockDataLength))
      invariant maxNumEcBytes == MaxLength(IndexBlocks(D, rsOffset, blockRSLength))
      invariant dataBytesOffset == SumDataBytes(T, D, B, i) && rsBytesOffset == i * ec
    {
      var sizes := GetNumDataBytesAndNumECBytesForBlockID(T, D, B, i);
      // never a failure: the block ID is in range (BlockSplit)
      BlockSplit(T, D, B, i);
      ECBytesNonNegative(T, D, B);
      var s1: nat := sizes.value.numDataBytes;
      var s2: nat := sizes.value.numECBytes;
      assert s2 == ec && (i + 1) * ec == i * ec + ec;
      IndexBlocksSnoc(0, dataOffset, blockDataLength, dataBytesOffset, s1);
      IndexBlocksSnoc(D, rsOffset, blockRSLength, rsBytesOffset, s2);
      MaxLengthSnoc(IndexBlocks(0, dataOffset, blockDataLength), Range(dataBytesOffset, s1));
      MaxLengthSnoc(IndexBlocks(D, rsOffset, blockRSLength), Range(D + rsBytesOffset, s2));
      PrefixSnoc(DataOffsets(T, D, B), i);
      PrefixSnoc(DataLengths(T, D, B), i);
      PrefixSnoc(EcOffsets(T, D, B), i);
      PrefixSnoc(EcLengths(T, D, B), i);
      blockDataLength := blockDataLength + [s1];
      blockRSLength := blockRSLength + [s2];
      maxNumDataBytes := if maxNumDataBytes > s1 then maxNumDataBytes else s1;
      maxNumEcBytes := if maxNumEcBytes > s2 then maxNumEcBytes else s2;
      dataOffset := dataOffset + [dataBytesOffset];
      rsOffset := rsOffset + [rsBytesOffset];
      dataBytesOffset := dataBytesOffset + s1;
      rsBytesOffset := rsBytesOffset + s2;
      i := i + 1;
    }
    WholePrefix(DataOffsets(T, D, B));
    WholePrefix(DataLengths(T, D, B));
    WholePrefix(EcOffsets(T, D, B));
    WholePrefix(EcLengths(T, D, B));
  }

  lemma ExpandSnoc(order: seq<nat>, x: nat)
    ensures Expand(order + [x]) == Expand(order) + Octet(x)
  {
    assert (order + [x])[..|order|] == order;
  }

  /** Byte i of a block of the given length starting at start, if it has one. */
  function Present(start: nat, length: nat, i: nat): seq<nat>
  {
    if i < length then [start + i] else []
  }

  /** The innermost loop, with its guard: when byte i lies inside a block of the given
    * length starting at start, the eight bit positions of that byte are written at
    * count. The map written so far spells out done, a prefix of the whole order
    * target. */
  method WriteOctet(a: array<int>, count: nat, ghost done: seq<nat>, ghost target: seq<nat>,
                    start: nat, length: nat, i: nat)
    returns (newCount: nat)
    requires a.Length == 8 * |target| && count == 8 * |done|
    requires done + Present(start, length, i) <= target
    requires a[..count] == Expand(done)
    modifies a
    ensures newCount == 8 * |done + Present(start, length, i)| <= a.Length
    ensures a[..newCount] == Expand(done + Present(start, length, i))
  {
    newCount := count;
    if i < length {
      var x := start + i;
      ghost var expanded := Expand(done);
      assert |done| + 1 <= |target|;
      var k := 0;
      while k < 8
        invariant 0 <= k <= 8
        invariant forall p :: 0 <= p < count ==> a[p] == expanded[p]
        invariant forall p :: count <= p < count + k ==> a[p] == 8 * x + (p - count)
      {
        a[count + k] := 8 * x + k;
        k := k + 1;
      }
      assert a[..count + 8] == expanded + Octet(x);
      ExpandSnoc(done, x);
      newCount := count + 8;
    } else {
      assert done + Present(start, length, i) == done;
    }
  }

  /** One block of the middle loop: byte i of block j joins the written bytes when
    * the block is long enough, and the bytes written stay a prefix of the order. */
  lemma ColumnStep(done: seq<nat>, written: seq<nat>, target: seq<nat>, base: nat, offsets: seq<nat>, lengths: seq<nat>, i: nat, j: nat)
    requires |offsets| == |lengths| && j < |offsets|
    requires done + ColumnPart(IndexBlocks(base, offsets, lengths), i, |offsets|) <= target
    requires written == done + ColumnPart(IndexBlocks(base, offsets, lengths), i, j)
    ensures written + Present(base + offsets[j], lengths[j], i) <= target
    ensures written + Present(base + offsets[j], lengths[j], i)
            == done + ColumnPart(IndexBlocks(base, offsets, lengths), i, j + 1)
  {
    var blocks := IndexBlocks(base, offsets, lengths);
    ColumnPartPrefix(blocks, i, j + 1, |offsets|);
    if i < lengths[j] {
      assert blocks[j][i] == base + offsets[j] + i;
    }
  }

  /** The middle loop: byte i of every block long enough to have one. */
  method WriteColumn(a: array<int>, count: nat, ghost done: seq<nat>, ghost target: seq<nat>,
                     base: nat, offsets: seq<nat>, lengths: seq<nat>, i: nat)
    returns (newCount: nat)
    requires |offsets| == |lengths|
    requires a.Length == 8 * |target| && count == 8 * |done|
    requires done + ColumnPart(IndexBlocks(base, offsets, lengths), i, |offsets|) <= target
    requires a[..count] == Expand(done)
    modifies a
    ensures newCount == 8 * |done + ColumnPart(IndexBlocks(base, offsets, lengths), i, |offsets|)| <= a.Length
    ensures a[..newCount] == Expand(done + ColumnPart(IndexBlocks(base, offsets, lengths), i, |offsets|))
  {
    ghost var blocks := IndexBlocks(base, offsets, lengths);
    assert done + ColumnPart(blocks, i, 0) == done;
    newCount := count;
    var j := 0;
    while j < |offsets|
      invariant 0 <= j <= |offsets|
      invariant newCount == 8 * |done + ColumnPart(blocks, i, j)| <= a.Length
      invariant a[..newCount] == Expand(done + ColumnPart(blocks, i, j))
    {
      ghost var written := done + ColumnPart(blocks, i, j);
      ColumnStep(done, written, target, base, offsets, lengths, i, j);
      newCount := WriteOctet(a, newCount, written, target, base + offsets[j], lengths[j], i);
      j := j + 1;
    }
  }

  /** One pass of the outer loop: column i joins the written bytes, which stay a
    * prefix of the order. */
  lemma ColumnsStep(done: seq<nat>, written: seq<nat>, target: seq<nat>, blocks: seq<seq<nat>>, i: nat, width: nat)
    requires i < width && done + ColumnMajor(blocks, width) <= target
    requires written == done + ColumnMajor(blocks, i)
    ensures written + ColumnPart(blocks, i, |blocks|) <= target
    ensures written + ColumnPart(blocks, i, |blocks|) == done + ColumnMajor(blocks, i + 1)
  {
    ColumnMajorPrefix(blocks, i + 1, width);
  }

  /** The outer loop: columns 0 .. width - 1 of the blocks. */
  method WriteColumns(a: array<int>, count: nat, ghost done: seq<nat>, ghost target: seq<nat>,
                      base: nat, offsets: seq<nat>, lengths: seq<nat>, width: nat)
    returns (newCount: nat)
    requires |offsets| == |lengths|
    requires a.Length == 8 * |target| && count == 8 * |done|
    requires done + ColumnMajor(IndexBlocks(base, offsets, lengths), width) <= target
    requires a[..count] == Expand(done)
    modifies a
    ensures newCount == 8 * |done + ColumnMajor(IndexBlocks(base, offsets, lengths), width)| <= a.Length
    ensures a[..newCount] == Expand(done + ColumnMajor(IndexBlocks(base, offsets, lengths), width))
  {
    ghost var blocks := IndexBlocks(base, offsets, lengths);
    ghost var written := done;
    assert done + ColumnMajor(blocks, 0) == done;
    newCount := count;
    var i := 0;
    while i < width
      invariant 0 <= i <= width
      invariant written == done + ColumnMajor(blocks, i)
      invariant newCount == 8 * |written| <= a.Length && a[..newCount] == Expand(written)
    {
      ColumnsStep(done, written, target, blocks, i, width);
      newCount := WriteColumn(a, newCount, written, target, base, offsets, lengths, i);
      written := written + ColumnPart(blocks, i, |blocks|);
      i := i + 1;
    }
  }

  /** When the block sizes add up, the byte order has exactly T entries. */
  lemma ByteOrderLength(numTotalBytes: nat, numDataBytes: nat, numRSBlocks: nat)
    requires 0 < numRSBlocks && numDataBytes <= numTotalBytes
    requires numDataBytes % numRSBlocks == numTotalBytes % numRSBlocks
    ensures |ByteOrder(numTotalBytes, numDataBytes, numRSBlocks)| == numTotalBytes
  {
    var T, D, B := numTotalBytes, numDataBytes, numRSBlocks;
    PartsLength(DataIndexBlocks(T, D, B), EcIndexBlocks(T, D, B), T, D, B);
  }

  // ---------------------------------------------------------------- getRevMapFromMap

  /** A strictly increasing sequence of n values in 0 .. n - 1 counts up from 0. */
  lemma {:induction false} IncreasingAtLeast(s: seq<int>, p: nat)
    requires p < |s|
    requires forall q :: 0 <= q < |s| ==> 0 <= s[q]
    requires forall q, r :: 0 <= q < r < |s| ==> s[q] < s[r]
    ensures s[p] >= p
  {
    if p > 0 {
      IncreasingAtLeast(s, p - 1);
    }
  }

  lemma {:induction false} IncreasingAtMost(s: seq<int>, p: nat)
    requires p < |s|
    requires forall q :: 0 <= q < |s| ==> s[q] < |s|
    requires forall q, r :: 0 <= q < r < |s| ==> s[q] < s[r]
    ensures s[p] <= p
    decreases |s| - p
  {
    if p < |s| - 1 {
      IncreasingAtMost(s, p + 1);
    }
  }

  /** Sorting a permutation by its values lists, at place v, the index holding v; and
    * any map that sorts that way is a permutation. */
  lemma SortedPermutation(keys: seq<int>)
    ensures IsPermutation(keys) <==> forall p :: 0 <= p < |keys| ==> keys[Sorted(keys)[p]] == p
  {
    var order := Sorted(keys);
    SortedIsOrderedPermutation(keys);
    if IsPermutation(keys) {
      var s := seq(|keys|, p requires 0 <= p < |keys| => keys[order[p]]);
      forall q, r | 0 <= q < r < |s|
        ensures s[q] < s[r]
      {
        assert Before(keys, order[q], order[r]);
        assert order[q] != order[r];
      }
      forall p | 0 <= p < |keys|
        ensures keys[order[p]] == p
      {
        IncreasingAtLeast(s, p);
        IncreasingAtMost(s, p);
      }
    }
    if forall p :: 0 <= p < |keys| ==> keys[order[p]] == p {
      forall x | 0 <= x < |keys|
        ensures 0 <= keys[x] < |keys| && order[keys[x]] == x
      {
        assert x in order;
        var p :| 0 <= p < |order| && order[p] == x;
        assert keys[x] == p;
      }
    }
  }

  /** How many leading places i of the sorted map hold value i, stopping at bound: the
    * places getRevMapFromMap writes into rev before it stops. */
  function AgreedPrefix(keys: seq<int>, bound: nat, i: nat): (w: nat)
    requires i <= |keys| && i <= bound
    ensures i <= w <= |keys| && w <= bound
    ensures forall p :: i <= p < w ==> keys[Sorted(keys)[p]] == p
    ensures w < |keys| && w < bound ==> keys[Sorted(keys)[w]] != w
    decreases |keys| - i
  {
    if i == |keys| || i == bound || keys[Sorted(keys)[i]] != i then i
    else AgreedPrefix(keys, bound, i + 1)
  }

  /** A table holding the sorted indices of a permutation inverts it. */
  lemma SortedInverse(keys: seq<int>, r: seq<int>)
    requires |keys| <= |r|
    requires forall p :: 0 <= p < |keys| ==> keys[Sorted(keys)[p]] == p && r[p] == Sorted(keys)[p]
    ensures forall x :: 0 <= x < |keys| ==> 0 <= keys[x] < |r| && r[keys[x]] == x
  {
    var order := Sorted(keys);
    SortedIsOrderedPermutation(keys);
    forall x | 0 <= x < |keys|
      ensures 0 <= keys[x] < |r| && r[keys[x]] == x
    {
      assert x in order;
      var p :| 0 <= p < |order| && order[p] == x;
    }
  }

  /** getRevMapFromMap: the entries of mapping (the map) are sorted by value (stably), and position i
    * of the sorted list must hold value i; rev[i] gets the index it came from. The
    * first position that breaks this stops the loop with an error, after rev[0 .. i - 1]
    * has been written; a rev shorter than the map stops it at its end. */
  method GetRevMapFromMap(mapping: array<int>, rev: array<int>) returns (result: Result<()>)
    modifies rev
    ensures result.Success? <==> IsPermutation(old(mapping[..])) && mapping.Length <= rev.Length
    ensures mapping.Length <= rev.Length && result.Failure? ==>
              result.error == Writer("getRevMapFromMap: map is not a permutation")
    ensures result.Success? ==> forall x :: 0 <= x < mapping.Length ==> rev[old(mapping[x])] == x
    ensures var written := AgreedPrefix(old(mapping[..]), rev.Length, 0);
            forall p :: 0 <= p < rev.Length ==>
              rev[p] == (if p < written then Sorted(old(mapping[..]))[p] else old(rev[p]))
  {
    var keys := mapping[..];
    var order := Sorted(keys);
    SortedPermutation(keys);
    SortedIsOrderedPermutation(keys);
    var i := 0;
    while i < |keys|
      invariant 0 <= i <= |keys| && i <= rev.Length
      invariant forall p :: 0 <= p < i ==> keys[order[p]] == p && rev[p] == order[p]
      invariant forall p :: i <= p < rev.Length ==> rev[p] == old(rev[p])
      invariant AgreedPrefix(keys, rev.Length, 0) == AgreedPrefix(keys, rev.Length, i)
    {
      if keys[order[i]] != i {
        assert AgreedPrefix(keys, rev.Length, i) == i;
        return Failure(Writer("getRevMapFromMap: map is not a permutation"));
      }
      if i >= rev.Length {
        assert AgreedPrefix(keys, rev.Length, i) == i;
        return Failure(IndexOutOfBounds("Index out of bounds for rev"));
      }
      rev[i] := order[i];
      i := i + 1;
    }
    assert AgreedPrefix(keys, rev.Length, i) == i;
    SortedInverse(keys, rev[..]);
    return Success(());
  }

  // ---------------------------------------------------------------- the order moves the bytes

  /** Data parts of the block sizes, laid end to end at the front of src, sit where
    * the data index blocks say. */
  lemma DataMirrors<T>(datas: seq<seq<T>>, src: seq<T>, numTotalBytes: nat, numDataBytes: nat, numRSBlocks: nat)
    requires 0 < numRSBlocks && |datas| == numRSBlocks
    requires forall k :: 0 <= k < numRSBlocks ==> |datas[k]| == BlockDataBytes(numTotalBytes, numDataBytes, numRSBlocks, k)
    requires Concat(datas) <= src
    ensures Mirrors(datas, DataIndexBlocks(numTotalBytes, numDataBytes, numRSBlocks), src)
  {
    var indices := DataIndexBlocks(numTotalBytes, numDataBytes, numRSBlocks);
    forall b, i | 0 <= b < |indices| && 0 <= i < |indices[b]|
      ensures indices[b][i] < |src| && datas[b][i] == src[indices[b][i]]
    {
      DataConcatLength(datas, numTotalBytes, numDataBytes, numRSBlocks, b);
      ConcatAt(datas, b, i);
    }
  }

  /** Error correction parts of a common size, laid end to end after the data in src,
    * sit where the error correction index blocks say. */
  lemma EcMirrors<T>(ecs: seq<seq<T>>, src: seq<T>, numTotalBytes: nat, numDataBytes: nat, numRSBlocks: nat)
    requires 0 < numRSBlocks && numDataBytes <= numTotalBytes && |ecs| == numRSBlocks
    requires forall k :: 0 <= k < numRSBlocks ==> |ecs[k]| == ECPerBlock(numTotalBytes, numDataBytes, numRSBlocks)
    requires numDataBytes <= |src| && src[numDataBytes..] == Concat(ecs)
    ensures Mirrors(ecs, EcIndexBlocks(numTotalBytes, numDataBytes, numRSBlocks), src)
  {
    var ec := ECPerBlock(numTotalBytes, numDataBytes, numRSBlocks);
    var indices := EcIndexBlocks(numTotalBytes, numDataBytes, numRSBlocks);
    forall b, i | 0 <= b < |indices| && 0 <= i < |indices[b]|
      ensures indices[b][i] < |src| && ecs[b][i] == src[indices[b][i]]
    {
      UniformConcatLength(ecs, ec, b);
      ConcatAt(ecs, b, i);
      assert indices[b][i] == numDataBytes + b * ec + i;
      assert src[numDataBytes..][b * ec + i] == src[numDataBytes + b * ec + i];
    }
  }

  /** The byte order buildFinalToDataMapping writes is the interleaver's: interleaving
    * blocks of the split's sizes reads their bytes, laid out data first and error
    * correction after, block by block, in the byte order. */
  lemma ByteOrderGathers<T>(datas: seq<seq<T>>, ecs: seq<seq<T>>, numTotalBytes: nat, numDataBytes: nat, numRSBlocks: nat)
    requires 0 < numRSBlocks && numDataBytes <= numTotalBytes
    requires numDataBytes % numRSBlocks == numTotalBytes % numRSBlocks
    requires |datas| == numRSBlocks && |ecs| == numRSBlocks
    requires forall k :: 0 <= k < numRSBlocks ==>
               |datas[k]| == BlockDataBytes(numTotalBytes, numDataBytes, numRSBlocks, k)
               && |ecs[k]| == ECPerBlock(numTotalBytes, numDataBytes, numRSBlocks)
    ensures Indexes(ByteOrder(numTotalBytes, numDataBytes, numRSBlocks), Concat(datas) + Concat(ecs))
    ensures ColumnMajor(datas, MaxLength(datas)) + ColumnMajor(ecs, MaxLength(ecs))
            == Gather(Concat(datas) + Concat(ecs), ByteOrder(numTotalBytes, numDataBytes, numRSBlocks))
  {
    var T, D, B := numTotalBytes, numDataBytes, numRSBlocks;
    var src := Concat(datas) + Concat(ecs);
    var dataIndices, ecIndices := DataIndexBlocks(T, D, B), EcIndexBlocks(T, D, B);
    DataConcatLength(datas, T, D, B, B);
    BlockSums(T, D, B);
    WholePrefix(datas);
    assert src[D..] == Concat(ecs);
    DataMirrors(datas, src, T, D, B);
    EcMirrors(ecs, src, T, D, B);
    MaxLengthShape(datas, dataIndices);
    MaxLengthShape(ecs, ecIndices);
    ColumnMajorGather(datas, dataIndices, src, MaxLength(datas));
    ColumnMajorGather(ecs, ecIndices, src, MaxLength(ecs));
    GatherAppend(src, ColumnMajor(dataIndices, MaxLength(dataIndices)), ColumnMajor(ecIndices, MaxLength(ecIndices)));
  }

  /** The two write passes of buildFinalToDataMapping, given the block layout: the data
    * bytes column by column, then the error-correction bytes column by column, eight
    * bit positions per byte. The array ends up holding the final-to-data map. */
  method WriteByteOrder(a: array<int>, numTotalBytes: nat, numDataBytes: nat, numRSBlocks: nat,
                        dataOffset: seq<nat>, rsOffset: seq<nat>, blockDataLength: seq<nat>, blockRSLength: seq<nat>,
                        maxNumDataBytes: nat, maxNumEcBytes: nat)
    returns (count: nat)
    requires 0 < numRSBlocks && numDataBytes <= numTotalBytes
    requires numDataBytes % numRSBlocks == numTotalBytes % numRSBlocks
    requires dataOffset == DataOffsets(numTotalBytes, numDataBytes, numRSBlocks)
    requires blockDataLength == DataLengths(numTotalBytes, numDataBytes, numRSBlocks)
    requires rsOffset == EcOffsets(numTotalBytes, numDataBytes, numRSBlocks)
    requires blockRSLength == EcLengths(numTotalBytes, numDataBytes, numRSBlocks)
    requires maxNumDataBytes == MaxLength(DataIndexBlocks(numTotalBytes, numDataBytes, numRSBlocks))
    requires maxNumEcBytes == MaxLength(EcIndexBlocks(numTotalBytes, numDataBytes, numRSBlocks))
    requires a.Length == numTotalBytes * 8
    modifies a
    ensures count == a.Length
    ensures a[..] == FinalToData(numTotalBytes, numDataBytes, numRSBlocks)
  {
    ByteOrderLength(numTotalBytes, numDataBytes, numRSBlocks);
    ghost var datas := DataIndexBlocks(numTotalBytes, numDataBytes, numRSBlocks);
    ghost var ecs := EcIndexBlocks(numTotalBytes, numDataBytes, numRSBlocks);
    ghost var target := ByteOrder(numTotalBytes, numDataBytes, numRSBlocks);
    ghost var first := ColumnMajor(datas, maxNumDataBytes);
    assert target == first + ColumnMajor(ecs, maxNumEcBytes);
    assert [] + first <= target;
    assert a[..0] == Expand([]);
    count := WriteColumns(a, 0, [], target, 0, dataOffset, blockDataLength, maxNumDataBytes);
    assert [] + first == first;
    count := WriteColumns(a, count, first, target, numDataBytes, rsOffset, blockRSLength, maxNumEcBytes);
    assert a[..] == a[..count];
  }
}
