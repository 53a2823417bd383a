/** Error correction of one block as QRCodeBeautify.generateECBytes produces it, over
  * any valid field: the block's bytes copied into a buffer, run through the
  * Reed-Solomon encoder, and the error correction bytes copied back out. */
module QRBlockEC {
  import opened GF256
  import opened ErasureSystem
  import opened LinearSystem
  import opened ReedSolomon
  import opened Outcomes

  /** The copy-in loop of generateECBytes: the data at the front of a fresh buffer with
    * room for extra entries after it. */
  method CopyIntoBuffer(src: seq<Byte>, extra: nat) returns (buffer: array<Byte>)
    ensures fresh(buffer) && buffer.Length == |src| + extra && buffer[..|src|] == src
  {
    buffer := new Byte[|src| + extra](_ => 0);
    for i := 0 to |src|
      modifies buffer
      invariant buffer[..i] == src[..i]
    {
      buffer[i] := src[i];
    }
  }

  /** The copy-out loop of generateECBytes: len entries of the buffer from start on. */
  method CopyOutOfBuffer(buffer: array<Byte>, start: nat, len: nat) returns (out: seq<Byte>)
    requires start + len <= buffer.Length
    ensures out == buffer[start..start + len]
  {
    var copy := new Byte[len](_ => 0);
    for i := 0 to len
      modifies copy
      invariant copy[..i] == buffer[start..start + i]
    {
      copy[i] := buffer[start + i];
    }
    out := copy[..];
  }

  /** The entries after a prefix are its continuation. */
  lemma SuffixOfConcat(whole: seq<Byte>, prefix: seq<Byte>, rest: seq<Byte>)
    requires whole == prefix + rest
    ensures whole[|prefix|..|prefix| + |rest|] == rest
  {
  }

  /** The copy-out loop of generateECBytes on an encoded buffer: the entries after the
    * data are the error correction bytes. */
  method ReadTail(toEncode: array<Byte>, dataBytes: seq<Byte>, ec: seq<Byte>) returns (out: seq<Byte>)
    requires toEncode[..] == dataBytes + ec
    ensures out == ec
  {
    out := CopyOutOfBuffer(toEncode, |dataBytes|, |ec|);
    SuffixOfConcat(toEncode[..], dataBytes, ec);
  }

  /** `new ReedSolomonEncoder(field).encode(toEncode, ecBytes)`: a fresh encoder run once
    * over the buffer. */
  method EncodeWithNewEncoder(field: Field, toEncode: array<Byte>, ecBytes: nat) returns (result: Result<()>)
    requires GF256.Valid(field) && ecBytes <= 256
    modifies toEncode
    ensures ecBytes == 0 ==> result == Failure(IllegalArgument("No error correction bytes"))
    ensures ecBytes != 0 && toEncode.Length <= ecBytes ==> result == Failure(IllegalArgument("No data bytes provided"))
    ensures result.Success? <==> 0 < ecBytes < toEncode.Length
    ensures result.Failure? ==> toEncode[..] == old(toEncode[..])
    ensures result.Success? ==>
              toEncode[..] == old(toEncode[..toEncode.Length - ecBytes]) + EcBytes(field, old(toEncode[..toEncode.Length - ecBytes]), ecBytes)
  {
    var encoder := new ReedSolomonEncoder(field);
    result := encoder.Encode(toEncode, ecBytes);
  }

  /** The body of generateECBytes over any valid field: the data copied into a buffer
    * with room for the error correction bytes, encoded in place, and the tail read back;
    * encode's refusals propagate. */
  method GenerateECBytesOver(field: Field, dataBytes: seq<Byte>, numEcBytesInBlock: nat) returns (result: Result<seq<Byte>>)
    requires GF256.Valid(field) && numEcBytesInBlock <= 256
    ensures numEcBytesInBlock == 0 ==> result == Failure(IllegalArgument("No error correction bytes"))
    ensures numEcBytesInBlock > 0 && |dataBytes| == 0 ==> result == Failure(IllegalArgument("No data bytes provided"))
    ensures result.Success? <==> numEcBytesInBlock > 0 && |dataBytes| > 0
    ensures result.Success? ==> result.value == EcBytes(field, dataBytes, numEcBytesInBlock)
  {
    var toEncode := CopyIntoBuffer(dataBytes, numEcBytesInBlock);
    assert toEncode[..toEncode.Length - numEcBytesInBlock] == dataBytes;
    var encoded := EncodeWithNewEncoder(field, toEncode, numEcBytesInBlock);
    if encoded.Failure? {
      return Failure(encoded.error);
    }
    var ecBytes := ReadTail(toEncode, dataBytes, EcBytes(field, dataBytes, numEcBytesInBlock));
    return Success(ecBytes);
  }

  /** The bytes at the free positions, in ascending order. */
  function FreeBytes(c: seq<Byte>, flag: seq<bool>): (x: seq<Byte>)
    requires |flag| == |c|
    ensures |x| == |Positions(flag, false)|
  {
    var free := Positions(flag, false);
    seq(|free|, r requires 0 <= r < |free| => c[free[r]])
  }

  /** Filling the free positions with x puts x at the free positions. */
  lemma FreeBytesOfFill(code: seq<Byte>, flag: seq<bool>, x: seq<Byte>)
    requires |flag| == |code| && |x| + |Positions(flag, true)| == |code|
    ensures FreeBytes(Fill(code, flag, x), flag) == x
  {
    PositionsPartition(flag);
    var free := Positions(flag, false);
    forall r | 0 <= r < |free|
      ensures Fill(code, flag, x)[free[r]] == x[r]
    {
      var p := free[r];
      PositionRank(flag, p, false);
      var rank := |Positions(flag[..p], false)|;
      assert free[rank] == p;
      assert free[rank] == free[r];
    }
  }

  /** What the erasure-fill encoder makes of a block: the fixed bytes kept, the free
    * bytes filled in flag order with some values, and, when the system for the free
    * bytes is nonsingular, a word passing as many parity checks as there are free
    * bytes. */
  ghost predicate FilledOver(field: Field, ideal: seq<Byte>, flag: seq<bool>, numDataBytes: nat, filled: seq<Byte>)
  {
    PositionsPartition(flag);
    && GF256.Valid(field)
    && |flag| == |ideal| == |filled| && numDataBytes <= |ideal|
    && |Positions(flag, true)| == numDataBytes
    && (forall p :: 0 <= p < |ideal| && flag[p] ==> filled[p] == ideal[p])
    && filled == Fill(ideal, flag, FreeBytes(filled, flag))
    && (Nonsingular(field, SystemMatrix(field, ideal, flag, numDataBytes), |ideal| - numDataBytes) ==>
          forall i :: 0 <= i < |ideal| - numDataBytes ==> ParityCheck(field, filled, i) == 0)
  }

  /** The first half of the block loop body: the block's ideal bytes copied into an
    * int buffer and the free bytes solved for by encodeNoneSym. */
  method FillOver(field: Field, ideal: seq<Byte>, flag: array<bool>, numDataBytes: nat)
    returns (buffer: array<Byte>)
    requires GF256.Valid(field) && flag.Length == |ideal| && numDataBytes < |ideal|
    requires |Positions(flag[..], true)| == numDataBytes
    ensures fresh(buffer) && buffer.Length == |ideal|
    ensures FilledOver(field, ideal, flag[..], numDataBytes, buffer[..])
  {
    buffer := CopyIntoBuffer(ideal, 0);
    assert buffer[..] == ideal;
    var solver := new ReedSolomonEncoder(field);
    solver.EncodeNoneSym(buffer, flag, numDataBytes);
    ghost var after := buffer[..];
    assert forall p :: 0 <= p < |ideal| && flag[p] ==> after[p] == ideal[p];
    ghost var x :| |x| == |ideal| - numDataBytes && after == Fill(ideal, flag[..], x);
    FreeBytesOfFill(ideal, flag[..], x);
  }

  /** The body of the block loop of encode over any valid field: the block filled in
    * an int buffer, the buffer copied back, and then the standard encode run on the
    * buffer, whose output is discarded but whose refusals propagate. With no free
    * byte, encodeNoneSym's system is empty and its back-substitution reads row -1. */
  method EncodeBlockOver(field: Field, ideal: seq<Byte>, flag: array<bool>, numDataBytes: nat)
    returns (result: Result<seq<Byte>>)
    requires GF256.Valid(field) && flag.Length == |ideal| && numDataBytes <= |ideal|
    requires |ideal| - numDataBytes <= 256
    requires |Positions(flag[..], true)| == numDataBytes
    ensures result.Success? <==> 0 < numDataBytes < |ideal|
    ensures numDataBytes == |ideal| ==> result == Failure(IndexOutOfBounds(""))
    ensures numDataBytes == 0 < |ideal| ==> result == Failure(IllegalArgument("No data bytes provided"))
    ensures result.Success? ==> FilledOver(field, ideal, flag[..], numDataBytes, result.value)
  {
    if numDataBytes == |ideal| {
      return Failure(IndexOutOfBounds(""));
    }
    var buffer := FillOver(field, ideal, flag, numDataBytes);
    var filled := CopyOutOfBuffer(buffer, 0, buffer.Length);
    assert filled == buffer[..];
    var discarded := new ReedSolomonEncoder(field);
    var encoded := discarded.Encode(buffer, |ideal| - numDataBytes);
    if encoded.Failure? {
      return Failure(encoded.error);
    }
    return Success(filled);
  }
}
