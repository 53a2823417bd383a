/** The codeword assembly of QRCodeBeautify: error correction per block, interleaving,
  * the map from final bit positions to pre-interleave positions and its inverse, the
  * choice of fixed bytes per block, and the block loop that fills the free bytes of
  * each block with the erasure-fill encoder before interleaving. */
module QRBeautify {
  import opened GF256
  import opened Outcomes
  import opened BitArrays
  import opened QRLayout
  import opened Interleaving
  import opened QRFieldEC
  import opened QRMapping
  import opened QRImportance
  import opened QRBlocks
  import opened QRPlacement

  // ---------------------------------------------------------------- interleaveWithECBytes

  /** Block j as the interleaver cuts it: its data bytes, read from the bits at the
    * block's offset, and their error correction bytes. */
  function BlockAt(bits: seq<bool>, numTotalBytes: nat, numDataBytes: nat, numRSBlocks: nat, j: nat): BlockPair
    requires j < numRSBlocks && numDataBytes <= numTotalBytes
  {
    var data := ToBytes(bits, 8 * SumDataBytes(numTotalBytes, numDataBytes, numRSBlocks, j),
                        BlockDataBytes(numTotalBytes, numDataBytes, numRSBlocks, j));
    BlockPair(data, QrEcBytes(data, ECPerBlock(numTotalBytes, numDataBytes, numRSBlocks)))
  }

  function Blocks(bits: seq<bool>, numTotalBytes: nat, numDataBytes: nat, numRSBlocks: nat): (blocks: seq<BlockPair>)
    requires numDataBytes <= numTotalBytes
    ensures |blocks| == numRSBlocks
  {
    seq(numRSBlocks, j requires 0 <= j < numRSBlocks => BlockAt(bits, numTotalBytes, numDataBytes, numRSBlocks, j))
  }

  /** When interleaveWithECBytes succeeds: the bits are exactly the data bytes, every
    * block has data and error correction bytes, and the block sizes add up. */
  predicate InterleaveSucceeds(size: nat, numTotalBytes: nat, numDataBytes: nat, numRSBlocks: nat)
    requires 0 < numRSBlocks && numDataBytes <= numTotalBytes
  {
    && (size + 7) / 8 == numDataBytes
    && ECPerBlock(numTotalBytes, numDataBytes, numRSBlocks) > 0
    && numDataBytes >= numRSBlocks
    && numDataBytes % numRSBlocks == numTotalBytes % numRSBlocks
  }

  /** The sizes of the blocks when interleaving succeeds. */
  lemma BlockSizesOnSuccess(bits: seq<bool>, numTotalBytes: nat, numDataBytes: nat, numRSBlocks: nat, k: nat)
    requires 0 < numRSBlocks && numDataBytes <= numTotalBytes && k < numRSBlocks
    requires ECPerBlock(numTotalBytes, numDataBytes, numRSBlocks) <= 256
    requires InterleaveSucceeds(|bits|, numTotalBytes, numDataBytes, numRSBlocks)
    ensures |Blocks(bits, numTotalBytes, numDataBytes, numRSBlocks)[k].dataBytes|
            == BlockDataBytes(numTotalBytes, numDataBytes, numRSBlocks, k) >= 1
    ensures |Blocks(bits, numTotalBytes, numDataBytes, numRSBlocks)[k].errorCorrectionBytes|
            == ECPerBlock(numTotalBytes, numDataBytes, numRSBlocks)
  {
    FirstBlockSize(numTotalBytes, numDataBytes, numRSBlocks);
    BlockDataBytesAtLeast(numTotalBytes, numDataBytes, numRSBlocks, k);
  }

  /** When interleaving succeeds its output has exactly the total number of bytes, so
    * the closing "Interleaving error" check never fires. */
  lemma InterleavedLength(bits: seq<bool>, numTotalBytes: nat, numDataBytes: nat, numRSBlocks: nat)
    requires 0 < numRSBlocks && numDataBytes <= numTotalBytes
    requires ECPerBlock(numTotalBytes, numDataBytes, numRSBlocks) <= 256
    requires InterleaveSucceeds(|bits|, numTotalBytes, numDataBytes, numRSBlocks)
    ensures |Interleaved(Blocks(bits, numTotalBytes, numDataBytes, numRSBlocks))| == numTotalBytes
  {
    var T, D, B := numTotalBytes, numDataBytes, numRSBlocks;
    var blocks := Blocks(bits, T, D, B);
    var datas, ecs := DataParts(blocks), EcParts(blocks);
    forall k | 0 <= k < B
      ensures |datas[k]| == BlockDataBytes(T, D, B, k) && |ecs[k]| == ECPerBlock(T, D, B)
    {
      BlockSizesOnSuccess(bits, T, D, B, k);
    }
    PartsLength(datas, ecs, T, D, B);
  }

  /** One pass of the block loop: block i's data bytes read at the running offset, and
    * their error correction bytes; the encoder's refusal propagates. */
  method MakeBlock(bits: seq<bool>, numTotalBytes: nat, numDataBytes: nat, numRSBlocks: nat, i: nat, dataBytesOffset: nat)
    returns (result: Result<BlockPair>)
    requires 0 < numRSBlocks && numDataBytes <= numTotalBytes && i < numRSBlocks
    requires ECPerBlock(numTotalBytes, numDataBytes, numRSBlocks) <= 256
    requires dataBytesOffset == SumDataBytes(numTotalBytes, numDataBytes, numRSBlocks, i)
    ensures result.Success? <==> ECPerBlock(numTotalBytes, numDataBytes, numRSBlocks) > 0
                                 && BlockDataBytes(numTotalBytes, numDataBytes, numRSBlocks, i) > 0
    ensures ECPerBlock(numTotalBytes, numDataBytes, numRSBlocks) == 0 ==>
              result == Failure(IllegalArgument("No error correction bytes"))
    ensures ECPerBlock(numTotalBytes, numDataBytes, numRSBlocks) > 0
            && BlockDataBytes(numTotalBytes, numDataBytes, numRSBlocks, i) == 0 ==>
              result == Failure(IllegalArgument("No data bytes provided"))
    ensures result.Success? ==> result.value == BlockAt(bits, numTotalBytes, numDataBytes, numRSBlocks, i)
  {
    var sizes := GetNumDataBytesAndNumECBytesForBlockID(numTotalBytes, numDataBytes, numRSBlocks, i);
    BlockSplit(numTotalBytes, numDataBytes, numRSBlocks, i);
    var size := sizes.value.numDataBytes;
    assert sizes.value.numECBytes == ECPerBlock(numTotalBytes, numDataBytes, numRSBlocks);
    var dataBytes := ToBytes(bits, 8 * dataBytesOffset, size);
    var ecBytes := GenerateECBytes(dataBytes, sizes.value.numECBytes);
    if ecBytes.Failure? {
      return Failure(ecBytes.error);
    }
    return Success(BlockPair(dataBytes, ecBytes.value));
  }

  /** The block loop of interleaveWithECBytes: every block cut and encoded in turn,
    * with the longest data and error correction parts. */
  method BuildBlocks(bits: seq<bool>, numTotalBytes: nat, numDataBytes: nat, numRSBlocks: nat)
    returns (result: Result<seq<BlockPair>>, maxNumDataBytes: nat, maxNumEcBytes: nat, dataBytesOffset: nat)
    requires 0 < numRSBlocks && numDataBytes <= numTotalBytes
    requires ECPerBlock(numTotalBytes, numDataBytes, numRSBlocks) <= 256
    ensures result.Success? <==> ECPerBlock(numTotalBytes, numDataBytes, numRSBlocks) > 0 && numDataBytes >= numRSBlocks
    ensures ECPerBlock(numTotalBytes, numDataBytes, numRSBlocks) == 0 ==>
              result == Failure(IllegalArgument("No error correction bytes"))
    ensures ECPerBlock(numTotalBytes, numDataBytes, numRSBlocks) > 0 && numDataBytes < numRSBlocks ==>
              result == Failure(IllegalArgument("No data bytes provided"))
    ensures result.Success? ==>
              && result.value == Blocks(bits, numTotalBytes, numDataBytes, numRSBlocks)
              && maxNumDataBytes == MaxLength(DataParts(result.value))
              && maxNumEcBytes == MaxLength(EcParts(result.value))
              && dataBytesOffset == SumDataBytes(numTotalBytes, numDataBytes, numRSBlocks, numRSBlocks)
  {
    var T, D, B := numTotalBytes, numDataBytes, numRSBlocks;
    ghost var spec := Blocks(bits, T, D, B);
    FirstBlockSize(T, D, B);
    dataBytesOffset, maxNumDataBytes, maxNumEcBytes := 0, 0, 0;
    var blocks: seq<BlockPair> := [];
    for i := 0 to numRSBlocks
      invariant blocks == spec[..i]
      invariant dataBytesOffset == SumDataBytes(T, D, B, i)
      invariant maxNumDataBytes == MaxLength(DataParts(blocks)) && maxNumEcBytes == MaxLength(EcParts(blocks))
      invariant i > 0 ==> ECPerBlock(T, D, B) > 0 && D >= B
    {
      BlockDataBytesAtLeast(T, D, B, i);
      var block := MakeBlock(bits, T, D, B, i, dataBytesOffset);
      if block.Failure? {
        return Failure(block.error), maxNumDataBytes, maxNumEcBytes, dataBytesOffset;
      }
      var b := block.value;
      PartsSnoc(blocks, b);
      MaxLengthSnoc(DataParts(blocks), b.dataBytes);
      MaxLengthSnoc(EcParts(blocks), b.errorCorrectionBytes);
      PrefixSnoc(spec, i);
      blocks := blocks + [b];
      maxNumDataBytes := if maxNumDataBytes < |b.dataBytes| then |b.dataBytes| else maxNumDataBytes;
      maxNumEcBytes := if maxNumEcBytes < |b.errorCorrectionBytes| then |b.errorCorrectionBytes| else maxNumEcBytes;
      dataBytesOffset := dataBytesOffset + |b.dataBytes|;
    }
    assert spec[..numRSBlocks] == spec;
    return Success(blocks), maxNumDataBytes, maxNumEcBytes, dataBytesOffset;
  }

  /** interleaveWithECBytes: the data bits cut into blocks, each block's error
    * correction bytes generated, and the bytes written out column-major, data first. */
  method InterleaveWithECBytes(bits: BitArray, numTotalBytes: nat, numDataBytes: nat, numRSBlocks: nat)
    returns (result: Result<BitArray>)
    requires 0 < numRSBlocks && numDataBytes <= numTotalBytes
    requires ECPerBlock(numTotalBytes, numDataBytes, numRSBlocks) <= 256
    ensures result.Success? <==> InterleaveSucceeds(|bits.bits|, numTotalBytes, numDataBytes, numRSBlocks)
    ensures (|bits.bits| + 7) / 8 != numDataBytes ==>
              result == Failure(Writer("Number of bits and data bytes does not match"))
    ensures (|bits.bits| + 7) / 8 == numDataBytes && ECPerBlock(numTotalBytes, numDataBytes, numRSBlocks) == 0 ==>
              result == Failure(IllegalArgument("No error correction bytes"))
    ensures (|bits.bits| + 7) / 8 == numDataBytes && ECPerBlock(numTotalBytes, numDataBytes, numRSBlocks) > 0
            && numDataBytes < numRSBlocks ==>
              result == Failure(IllegalArgument("No data bytes provided"))
    ensures (|bits.bits| + 7) / 8 == numDataBytes && ECPerBlock(numTotalBytes, numDataBytes, numRSBlocks) > 0
            && numDataBytes >= numRSBlocks && numDataBytes % numRSBlocks != numTotalBytes % numRSBlocks ==>
              result == Failure(Writer("Data bytes does not match offset"))
    ensures result.Success? ==>
              && result.value.bits == ByteBits(Interleaved(Blocks(bits.bits, numTotalBytes, numDataBytes, numRSBlocks)))
              && |result.value.bits| == 8 * numTotalBytes
  {
    if bits.GetSizeInBytes() != numDataBytes {
      return Failure(Writer("Number of bits and data bytes does not match"));
    }
    var built, maxNumDataBytes, maxNumEcBytes, dataBytesOffset := BuildBlocks(bits.bits, numTotalBytes, numDataBytes, numRSBlocks);
    if built.Failure? {
      return Failure(built.error);
    }
    BlockSums(numTotalBytes, numDataBytes, numRSBlocks);
    if numDataBytes != dataBytesOffset {
      return Failure(Writer("Data bytes does not match offset"));
    }
    var blocks := built.value;
    ghost var first := ColumnMajor(DataParts(blocks), maxNumDataBytes);
    ghost var second := ColumnMajor(EcParts(blocks), maxNumEcBytes);
    assert Interleaved(blocks) == first + second;
    var interleaved := new BitArray();
    AppendColumns(interleaved, DataParts(blocks), maxNumDataBytes);
    assert interleaved.bits == ByteBits(first);
    AppendColumns(interleaved, EcParts(blocks), maxNumEcBytes);
    ByteBitsConcat(first, second);
    assert interleaved.bits == ByteBits(Interleaved(blocks));
    InterleavedLength(bits.bits, numTotalBytes, numDataBytes, numRSBlocks);
    if numTotalBytes != interleaved.GetSizeInBytes() {
      return Failure(Writer("Interleaving error"));
    }
    return Success(interleaved);
  }

  // ---------------------------------------------------------------- the block loop of encode

  /** The end of encode once the ideal bits are known: every block filled in by the
    * erasure-fill encoder around the bytes its importance keys fix, then the blocks
    * interleaved as interleaveWithECBytes does. The ideal bits and the per-byte
    * importance keys are inputs; the block split is the one buildFinalToDataMapping
    * has already accepted. */
  method BeautifyBlocks(idealBits: seq<bool>, iv: seq<int>, numTotalBytes: nat, numDataBytes: nat, numRSBlocks: nat)
    returns (result: Result<BitArray>, ghost blocks: seq<BlockPair>)
    requires 0 < numRSBlocks && numDataBytes <= numTotalBytes && |iv| == numTotalBytes
    requires numDataBytes % numRSBlocks == numTotalBytes % numRSBlocks
    requires ECPerBlock(numTotalBytes, numDataBytes, numRSBlocks) <= 256
    ensures result.Success? <==> ECPerBlock(numTotalBytes, numDataBytes, numRSBlocks) > 0 && numDataBytes >= numRSBlocks
    ensures ECPerBlock(numTotalBytes, numDataBytes, numRSBlocks) == 0 ==>
              result == Failure(IndexOutOfBounds(""))
    ensures ECPerBlock(numTotalBytes, numDataBytes, numRSBlocks) > 0 && numDataBytes < numRSBlocks ==>
              result == Failure(IllegalArgument("No data bytes provided"))
    ensures result.Success? ==>
              && |blocks| == numRSBlocks
              && AllBeautified(idealBits, iv, numTotalBytes, numDataBytes, numRSBlocks, blocks)
              && result.value.bits == ByteBits(Interleaved(blocks))
              && |result.value.bits| == 8 * numTotalBytes
  {
    var built, maxNumDataBytes, maxNumEcBytes, dataBytesOffset := AssembleBlocks(idealBits, iv, numTotalBytes, numDataBytes, numRSBlocks);
    blocks := [];
    if built.Failure? {
      return Failure(built.error), blocks;
    }
    if numDataBytes != dataBytesOffset {
      return Failure(Writer("Data bytes does not match offset")), blocks;
    }
    var list := built.value;
    blocks := list;
    ghost var first := ColumnMajor(DataParts(list), maxNumDataBytes);
    ghost var second := ColumnMajor(EcParts(list), maxNumEcBytes);
    var interleaved := new BitArray();
    AppendColumns(interleaved, DataParts(list), maxNumDataBytes);
    AppendColumns(interleaved, EcParts(list), maxNumEcBytes);
    ByteBitsConcat(first, second);
    assert interleaved.bits == ByteBits(Interleaved(blocks));
    BeautifiedLength(idealBits, iv, numTotalBytes, numDataBytes, numRSBlocks, blocks);
    if numTotalBytes != interleaved.GetSizeInBytes() {
      return Failure(Writer("Interleaving error")), blocks;
    }
    return Success(interleaved), blocks;
  }

  // ---------------------------------------------------------------- the beautifier's state

  /** The state QRCodeBeautify keeps across the steps of encoding: the lengths in bits
    * of the header and data, the padding, the error correction and the whole symbol,
    * and the map from final bit positions to bit positions before interleaving with its
    * inverse. Both maps are null until encoding allocates them. */
  class QRCodeBeautify {
    var mHeadAndDataLength: int
    var mPaddingLength: int
    var mRSCodeLength: int
    var mTotalLength: int
    var mFinalDataToData: array?<int>
    var mDataToFinalData: array?<int>

    constructor ()
      ensures mHeadAndDataLength == 0 && mPaddingLength == 0 && mRSCodeLength == 0 && mTotalLength == 0
      ensures mFinalDataToData == null && mDataToFinalData == null
    {
      mHeadAndDataLength, mPaddingLength, mRSCodeLength, mTotalLength := 0, 0, 0, 0;
      mFinalDataToData, mDataToFinalData := null, null;
    }

    /** The lengths encode records once the header and data bits are terminated: the
      * symbol, the terminated header and data, the padding up to the data capacity,
      * and the error correction. The four parts always add up to the symbol; padding
      * of terminated bits is a whole number of bytes and never negative. */
    method SetLengths(totalCodewords: nat, totalECCodewords: nat, headAndDataLength: nat)
      modifies this
      ensures mTotalLength == totalCodewords * 8 && mHeadAndDataLength == headAndDataLength
      ensures mPaddingLength == (totalCodewords - totalECCodewords) * 8 - headAndDataLength
      ensures mRSCodeLength == totalECCodewords * 8
      ensures mFinalDataToData == old(mFinalDataToData) && mDataToFinalData == old(mDataToFinalData)
      ensures mHeadAndDataLength + mPaddingLength + mRSCodeLength == mTotalLength
      ensures mHeadAndDataLength % 8 == 0 ==> mPaddingLength % 8 == 0
      ensures totalECCodewords <= totalCodewords && mHeadAndDataLength <= 8 * (totalCodewords - totalECCodewords) ==>
                mPaddingLength >= 0
    {
      var numDataBytes := totalCodewords - totalECCodewords;
      mTotalLength := totalCodewords * 8;
      mHeadAndDataLength := headAndDataLength;
      mPaddingLength := numDataBytes * 8 - mHeadAndDataLength;
      mRSCodeLength := totalECCodewords * 8;
    }

    /** buildFinalToDataMapping: checks the map's size and the block split, then writes,
      * for every final bit position, the bit position it comes from before
      * interleaving. The closing check compares the bits written with the recorded
      * total length. */
    method BuildFinalToDataMapping(numTotalBytes: nat, numDataBytes: nat, numRSBlocks: nat) returns (result: Result<()>)
      requires mFinalDataToData != null
      requires 0 < numRSBlocks && numDataBytes <= numTotalBytes
      modifies mFinalDataToData
      ensures mFinalDataToData.Length != numTotalBytes * 8 ==>
                result == Failure(Writer("Mapping buffer size and total bytes does not match"))
                && mFinalDataToData[..] == old(mFinalDataToData[..])
      ensures mFinalDataToData.Length == numTotalBytes * 8 && numDataBytes % numRSBlocks != numTotalBytes % numRSBlocks ==>
                result == Failure(Writer("Data bytes does not match offset"))
                && mFinalDataToData[..] == old(mFinalDataToData[..])
      ensures mFinalDataToData.Length == numTotalBytes * 8 && numDataBytes % numRSBlocks == numTotalBytes % numRSBlocks ==>
                mFinalDataToData[..] == FinalToData(numTotalBytes, numDataBytes, numRSBlocks)
                && result == (if mTotalLength == numTotalBytes * 8 then Success(()) else Failure(Writer("Interleaving error")))
    {
      var buffer := mFinalDataToData;
      if buffer.Length != numTotalBytes * 8 {
        return Failure(Writer("Mapping buffer size and total bytes does not match"));
      }
      var dataOffset, rsOffset, blockDataLength, blockRSLength, maxNumDataBytes, maxNumEcBytes, dataBytesOffset :=
        BlockLayout(numTotalBytes, numDataBytes, numRSBlocks);
      BlockSums(numTotalBytes, numDataBytes, numRSBlocks);
      if numDataBytes != dataBytesOffset {
        return Failure(Writer("Data bytes does not match offset"));
      }
      var count := WriteByteOrder(buffer, numTotalBytes, numDataBytes, numRSBlocks, dataOffset, rsOffset,
                                  blockDataLength, blockRSLength, maxNumDataBytes, maxNumEcBytes);
      if mTotalLength != count {
        return Failure(Writer("Interleaving error"));
      }
      return Success(());
    }

    /** The allocation and the two map-building calls of encode: both maps get 8 T
      * zeros, the final-to-data map is built and then inverted. Inverting never fails,
      * because a successfully built map is a permutation. */
    method BuildMaps(numTotalBytes: nat, numDataBytes: nat, numRSBlocks: nat) returns (result: Result<()>)
      requires 0 < numRSBlocks && numDataBytes <= numTotalBytes
      modifies this
      ensures fresh(mFinalDataToData) && fresh(mDataToFinalData)
      ensures mFinalDataToData.Length == numTotalBytes * 8 && mDataToFinalData.Length == numTotalBytes * 8
      ensures mTotalLength == old(mTotalLength) && mHeadAndDataLength == old(mHeadAndDataLength)
      ensures mPaddingLength == old(mPaddingLength) && mRSCodeLength == old(mRSCodeLength)
      ensures result.Success? <==>
                numDataBytes % numRSBlocks == numTotalBytes % numRSBlocks && mTotalLength == numTotalBytes * 8
      ensures numDataBytes % numRSBlocks != numTotalBytes % numRSBlocks ==>
                result == Failure(Writer("Data bytes does not match offset"))
      ensures numDataBytes % numRSBlocks == numTotalBytes % numRSBlocks && mTotalLength != numTotalBytes * 8 ==>
                result == Failure(Writer("Interleaving error"))
      ensures result.Success? ==>
                mFinalDataToData[..] == FinalToData(numTotalBytes, numDataBytes, numRSBlocks)
                && IsPermutation(mFinalDataToData[..])
                && forall i :: 0 <= i < numTotalBytes * 8 ==> mDataToFinalData[mFinalDataToData[i]] == i
    {
      mFinalDataToData := new int[numTotalBytes * 8](_ => 0);
      mDataToFinalData := new int[numTotalBytes * 8](_ => 0);
      result := BuildFinalToDataMapping(numTotalBytes, numDataBytes, numRSBlocks);
      if result.Failure? {
        return;
      }
      FinalToDataPermutation(numTotalBytes, numDataBytes, numRSBlocks);
      result := GetRevMapFromMap(mFinalDataToData, mDataToFinalData);
    }
  }
}
