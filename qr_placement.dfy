/** Where the bits of the beautified blocks end up: the interleaved codewords follow
  * the map buildFinalToDataMapping builds, so every bit of a byte the importance
  * flags kept fixed shows the ideal bit at its final position. */
module QRPlacement {
  import opened Bits
  import GF256
  import opened BitArrays
  import opened QRLayout
  import opened QRMapping
  import opened Interleaving
  import opened QRBlocks

  /** The blocks' bytes before interleaving: all data parts, then all error
    * correction parts. */
  function PreInterleaved(blocks: seq<BlockPair>): seq<GF256.Byte>
  {
    Concat(DataParts(blocks)) + Concat(EcParts(blocks))
  }

  /** Blocks of the split's sizes. */
  predicate SplitShaped(blocks: seq<BlockPair>, numTotalBytes: nat, numDataBytes: nat, numRSBlocks: nat)
    requires 0 < numRSBlocks && numDataBytes <= numTotalBytes
  {
    && |blocks| == numRSBlocks
    && forall k :: 0 <= k < numRSBlocks ==>
         |blocks[k].dataBytes| == BlockDataBytes(numTotalBytes, numDataBytes, numRSBlocks, k)
         && |blocks[k].errorCorrectionBytes| == ECPerBlock(numTotalBytes, numDataBytes, numRSBlocks)
  }

  /** The beautifier's blocks have the split's sizes. */
  lemma BeautifiedShaped(idealBits: seq<bool>, iv: seq<int>, numTotalBytes: nat, numDataBytes: nat, numRSBlocks: nat,
                         blocks: seq<BlockPair>)
    requires 0 < numRSBlocks && numDataBytes <= numTotalBytes && |iv| == numTotalBytes
    requires numDataBytes % numRSBlocks == numTotalBytes % numRSBlocks
    requires |blocks| == numRSBlocks && AllBeautified(idealBits, iv, numTotalBytes, numDataBytes, numRSBlocks, blocks)
    ensures SplitShaped(blocks, numTotalBytes, numDataBytes, numRSBlocks)
  {
    forall k | 0 <= k < numRSBlocks
      ensures |blocks[k].dataBytes| == BlockDataBytes(numTotalBytes, numDataBytes, numRSBlocks, k)
      ensures |blocks[k].errorCorrectionBytes| == ECPerBlock(numTotalBytes, numDataBytes, numRSBlocks)
    {
      assert BeautifiedPair(idealBits, iv, numTotalBytes, numDataBytes, numRSBlocks, k, blocks[k]);
    }
  }

  /** Blocks of the split's sizes hold T bytes, before and after interleaving. */
  lemma SplitLengths(blocks: seq<BlockPair>, numTotalBytes: nat, numDataBytes: nat, numRSBlocks: nat)
    requires 0 < numRSBlocks && numDataBytes <= numTotalBytes
    requires numDataBytes % numRSBlocks == numTotalBytes % numRSBlocks
    requires SplitShaped(blocks, numTotalBytes, numDataBytes, numRSBlocks)
    ensures |PreInterleaved(blocks)| == numTotalBytes
    ensures |Interleaved(blocks)| == numTotalBytes
  {
    var T, D, B := numTotalBytes, numDataBytes, numRSBlocks;
    var datas, ecs := DataParts(blocks), EcParts(blocks);
    DataConcatLength(datas, T, D, B, B);
    assert datas[..B] == datas;
    UniformConcatLength(ecs, ECPerBlock(T, D, B), B);
    assert ecs[..B] == ecs;
    DataSum(T, D, B);
    EcSum(T, D, B);
    PartsLength(datas, ecs, T, D, B);
  }

  /** The beautifier's blocks interleave to exactly T bytes, so the closing
    * "Interleaving error" check of encode never fires. */
  lemma BeautifiedLength(idealBits: seq<bool>, iv: seq<int>, numTotalBytes: nat, numDataBytes: nat, numRSBlocks: nat,
                         blocks: seq<BlockPair>)
    requires 0 < numRSBlocks && numDataBytes <= numTotalBytes && |iv| == numTotalBytes
    requires numDataBytes % numRSBlocks == numTotalBytes % numRSBlocks
    requires |blocks| == numRSBlocks && AllBeautified(idealBits, iv, numTotalBytes, numDataBytes, numRSBlocks, blocks)
    ensures |Interleaved(blocks)| == numTotalBytes
  {
    BeautifiedShaped(idealBits, iv, numTotalBytes, numDataBytes, numRSBlocks, blocks);
    SplitLengths(blocks, numTotalBytes, numDataBytes, numRSBlocks);
  }

  /** Byte i of block j sits at its pre-interleave position. */
  lemma PreAt(blocks: seq<BlockPair>, numTotalBytes: nat, numDataBytes: nat, numRSBlocks: nat, j: nat, i: nat)
    requires 0 < numRSBlocks && numDataBytes <= numTotalBytes
    requires numDataBytes % numRSBlocks == numTotalBytes % numRSBlocks
    requires SplitShaped(blocks, numTotalBytes, numDataBytes, numRSBlocks) && j < numRSBlocks
    requires i < |blocks[j].dataBytes| + |blocks[j].errorCorrectionBytes|
    ensures PrePosition(numTotalBytes, numDataBytes, numRSBlocks, j, i) < |PreInterleaved(blocks)|
    ensures PreInterleaved(blocks)[PrePosition(numTotalBytes, numDataBytes, numRSBlocks, j, i)]
            == (blocks[j].dataBytes + blocks[j].errorCorrectionBytes)[i]
  {
    var T, D, B := numTotalBytes, numDataBytes, numRSBlocks;
    var datas, ecs := DataParts(blocks), EcParts(blocks);
    var s1 := |blocks[j].dataBytes|;
    assert |PreInterleaved(blocks)| == T by {
      SplitLengths(blocks, T, D, B);
    }
    if i < s1 {
      ConcatAt(datas, j, i);
      DataConcatLength(datas, T, D, B, j);
    } else {
      assert |Concat(datas)| == D by {
        DataConcatLength(datas, T, D, B, B);
        assert datas[..B] == datas;
        DataSum(T, D, B);
      }
      ConcatAt(ecs, j, i - s1);
      UniformConcatLength(ecs, ECPerBlock(T, D, B), j);
    }
  }

  /** Final byte p is the byte the interleaving order names. */
  lemma InterleavedByte(blocks: seq<BlockPair>, numTotalBytes: nat, numDataBytes: nat, numRSBlocks: nat, p: nat)
    requires 0 < numRSBlocks && numDataBytes <= numTotalBytes
    requires numDataBytes % numRSBlocks == numTotalBytes % numRSBlocks
    requires SplitShaped(blocks, numTotalBytes, numDataBytes, numRSBlocks) && p < numTotalBytes
    ensures |Interleaved(blocks)| == |PreInterleaved(blocks)| == |ByteOrder(numTotalBytes, numDataBytes, numRSBlocks)| == numTotalBytes
    ensures ByteOrder(numTotalBytes, numDataBytes, numRSBlocks)[p] < numTotalBytes
    ensures Interleaved(blocks)[p] == PreInterleaved(blocks)[ByteOrder(numTotalBytes, numDataBytes, numRSBlocks)[p]]
  {
    var T, D, B := numTotalBytes, numDataBytes, numRSBlocks;
    SplitLengths(blocks, T, D, B);
    ByteOrderGathers(DataParts(blocks), EcParts(blocks), T, D, B);
    ByteOrderLength(T, D, B);
  }

  /** The interleaved codewords, bit by bit, are the blocks' bits before interleaving
    * read through the final-to-data map. */
  lemma InterleavedAt(blocks: seq<BlockPair>, numTotalBytes: nat, numDataBytes: nat, numRSBlocks: nat, q: nat)
    requires 0 < numRSBlocks && numDataBytes <= numTotalBytes
    requires numDataBytes % numRSBlocks == numTotalBytes % numRSBlocks
    requires SplitShaped(blocks, numTotalBytes, numDataBytes, numRSBlocks) && q < 8 * numTotalBytes
    ensures |ByteBits(Interleaved(blocks))| == |ByteBits(PreInterleaved(blocks))| == 8 * numTotalBytes
    ensures |FinalToData(numTotalBytes, numDataBytes, numRSBlocks)| == 8 * numTotalBytes
    ensures 0 <= FinalToData(numTotalBytes, numDataBytes, numRSBlocks)[q] < 8 * numTotalBytes
    ensures ByteBits(Interleaved(blocks))[q]
            == ByteBits(PreInterleaved(blocks))[FinalToData(numTotalBytes, numDataBytes, numRSBlocks)[q]]
  {
    var T, D, B := numTotalBytes, numDataBytes, numRSBlocks;
    var p, k := q / 8, q % 8;
    assert q == 8 * p + k;
    InterleavedByte(blocks, T, D, B, p);
    var o := ByteOrder(T, D, B)[p];
    assert ByteBits(Interleaved(blocks))[q] == ByteBits(PreInterleaved(blocks))[8 * o + k] by {
      ByteBitsAt(Interleaved(blocks), p, k);
      ByteBitsAt(PreInterleaved(blocks), o, k);
    }
    FinalToDataAt(T, D, B, p, k);
    FinalToDataPermutation(T, D, B);
  }

  /** Before interleaving, a block's kept bits sit at the block's bit positions. */
  lemma KeptBitBeforeInterleaving(idealBits: seq<bool>, flags: seq<bool>, numTotalBytes: nat, numDataBytes: nat,
                                  numRSBlocks: nat, blocks: seq<BlockPair>, j: nat, i: nat, k: nat)
    requires 0 < numRSBlocks && numDataBytes <= numTotalBytes
    requires numDataBytes % numRSBlocks == numTotalBytes % numRSBlocks
    requires SplitShaped(blocks, numTotalBytes, numDataBytes, numRSBlocks) && j < numRSBlocks && k < 8
    requires KeepsIdeal(idealBits, flags, numTotalBytes, numDataBytes, numRSBlocks, j,
                        blocks[j].dataBytes + blocks[j].errorCorrectionBytes)
    requires i < |flags| && flags[i]
    ensures 8 * PrePosition(numTotalBytes, numDataBytes, numRSBlocks, j, i) + k < |ByteBits(PreInterleaved(blocks))|
    ensures ByteBits(PreInterleaved(blocks))[8 * PrePosition(numTotalBytes, numDataBytes, numRSBlocks, j, i) + k]
            == BitAt(idealBits, 8 * PrePosition(numTotalBytes, numDataBytes, numRSBlocks, j, i) + k)
  {
    var block := blocks[j].dataBytes + blocks[j].errorCorrectionBytes;
    PreAt(blocks, numTotalBytes, numDataBytes, numRSBlocks, j, i);
    ByteBitsAt(PreInterleaved(blocks), PrePosition(numTotalBytes, numDataBytes, numRSBlocks, j, i), k);
    assert ToBits(block[i], 8)[k] == BitAt(idealBits, 8 * PrePosition(numTotalBytes, numDataBytes, numRSBlocks, j, i) + k);
  }

  /** A kept bit reaches every final position the final-to-data map sends to it. */
  lemma KeptBitSurvives(idealBits: seq<bool>, flags: seq<bool>, numTotalBytes: nat, numDataBytes: nat, numRSBlocks: nat,
                        blocks: seq<BlockPair>, j: nat, i: nat, k: nat, q: nat)
    requires 0 < numRSBlocks && numDataBytes <= numTotalBytes
    requires numDataBytes % numRSBlocks == numTotalBytes % numRSBlocks
    requires SplitShaped(blocks, numTotalBytes, numDataBytes, numRSBlocks) && j < numRSBlocks && k < 8
    requires KeepsIdeal(idealBits, flags, numTotalBytes, numDataBytes, numRSBlocks, j,
                        blocks[j].dataBytes + blocks[j].errorCorrectionBytes)
    requires i < |flags| && flags[i]
    requires q < |FinalToData(numTotalBytes, numDataBytes, numRSBlocks)|
    requires FinalToData(numTotalBytes, numDataBytes, numRSBlocks)[q]
             == 8 * PrePosition(numTotalBytes, numDataBytes, numRSBlocks, j, i) + k
    ensures q < |ByteBits(Interleaved(blocks))|
    ensures ByteBits(Interleaved(blocks))[q] == BitAt(idealBits, FinalToData(numTotalBytes, numDataBytes, numRSBlocks)[q])
  {
    KeptBitBeforeInterleaving(idealBits, flags, numTotalBytes, numDataBytes, numRSBlocks, blocks, j, i, k);
    FinalToDataPermutation(numTotalBytes, numDataBytes, numRSBlocks);
    InterleavedAt(blocks, numTotalBytes, numDataBytes, numRSBlocks, q);
  }

  /** The beautifier's blocks keep the ideal bits of their fixed bytes. */
  lemma AllKeepIdeal(idealBits: seq<bool>, iv: seq<int>, numTotalBytes: nat, numDataBytes: nat, numRSBlocks: nat,
                     blocks: seq<BlockPair>, j: nat)
    requires 0 < numRSBlocks && numDataBytes <= numTotalBytes && |iv| == numTotalBytes
    requires numDataBytes % numRSBlocks == numTotalBytes % numRSBlocks
    requires |blocks| == numRSBlocks && AllBeautified(idealBits, iv, numTotalBytes, numDataBytes, numRSBlocks, blocks)
    requires j < numRSBlocks
    ensures SplitShaped(blocks, numTotalBytes, numDataBytes, numRSBlocks)
    ensures KeepsIdeal(idealBits, BlockFlags(iv, numTotalBytes, numDataBytes, numRSBlocks, j),
                       numTotalBytes, numDataBytes, numRSBlocks, j, blocks[j].dataBytes + blocks[j].errorCorrectionBytes)
  {
    BeautifiedShaped(idealBits, iv, numTotalBytes, numDataBytes, numRSBlocks, blocks);
    assert BeautifiedPair(idealBits, iv, numTotalBytes, numDataBytes, numRSBlocks, j, blocks[j]);
    BeautifiedKeepsIdeal(idealBits, iv, numTotalBytes, numDataBytes, numRSBlocks, j,
                         blocks[j].dataBytes + blocks[j].errorCorrectionBytes);
  }

  /** The point of the beautifier: a bit of a byte the importance flags kept fixed
    * reaches the final codewords unchanged, at the final position the map sends to
    * its pre-interleave position. */
  lemma FixedBitsSurvive(idealBits: seq<bool>, iv: seq<int>, numTotalBytes: nat, numDataBytes: nat, numRSBlocks: nat,
                         blocks: seq<BlockPair>, j: nat, i: nat, k: nat, q: nat)
    requires 0 < numRSBlocks && numDataBytes <= numTotalBytes && |iv| == numTotalBytes
    requires numDataBytes % numRSBlocks == numTotalBytes % numRSBlocks
    requires |blocks| == numRSBlocks && AllBeautified(idealBits, iv, numTotalBytes, numDataBytes, numRSBlocks, blocks)
    requires j < numRSBlocks && k < 8 && q < |FinalToData(numTotalBytes, numDataBytes, numRSBlocks)|
    requires i < |BlockFlags(iv, numTotalBytes, numDataBytes, numRSBlocks, j)|
    requires BlockFlags(iv, numTotalBytes, numDataBytes, numRSBlocks, j)[i]
    requires FinalToData(numTotalBytes, numDataBytes, numRSBlocks)[q]
             == 8 * PrePosition(numTotalBytes, numDataBytes, numRSBlocks, j, i) + k
    ensures q < |ByteBits(Interleaved(blocks))|
    ensures ByteBits(Interleaved(blocks))[q] == BitAt(idealBits, FinalToData(numTotalBytes, numDataBytes, numRSBlocks)[q])
  {
    AllKeepIdeal(idealBits, iv, numTotalBytes, numDataBytes, numRSBlocks, blocks, j);
    KeptBitSurvives(idealBits, BlockFlags(iv, numTotalBytes, numDataBytes, numRSBlocks, j),
                    numTotalBytes, numDataBytes, numRSBlocks, blocks, j, i, k, q);
  }
}
