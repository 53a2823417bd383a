/** Error correction over the QR code field, the field QRCodeBeautify.generateECBytes
  * hands to the Reed-Solomon encoder (primitive polynomial 0x011D, generator base 0). */
module QRFieldEC {
  import opened GF256
  import opened GF256Tables
  import opened ErasureSystem
  import opened ReedSolomon
  import opened Outcomes
  import opened QRBlockEC

  /** The error correction bytes of a block over the QR code field; empty where
    * encode refuses the block (no data bytes, or no error correction bytes). */
  function QrEcBytes(data: seq<Byte>, ecBytes: nat): (ec: seq<Byte>)
    ensures 1 <= |data| && 1 <= ecBytes <= 256 ==> |ec| == ecBytes
  {
    QrCodeFieldValid();
    if 1 <= |data| && 1 <= ecBytes <= 256 then EcBytes(QrCodeField(), data, ecBytes) else []
  }

  /** c passes the first m parity checks of the QR code field: c(alpha^i) == 0 for i < m. */
  ghost predicate PassesChecks(c: seq<Byte>, m: nat)
  {
    QrCodeFieldValid();
    forall i :: 0 <= i < m ==> ParityCheck(QrCodeField(), c, i) == 0
  }

  /** A block followed by its error correction bytes is a codeword: it passes as many
    * parity checks as it has error correction bytes. */
  lemma BlockIsCodeword(data: seq<Byte>, ecBytes: nat)
    requires 1 <= |data| && 1 <= ecBytes <= 256
    ensures PassesChecks(data + QrEcBytes(data, ecBytes), ecBytes)
  {
    QrCodeFieldValid();
    forall i | 0 <= i < ecBytes
      ensures ParityCheck(QrCodeField(), data + QrEcBytes(data, ecBytes), i) == 0
    {
      CodewordParity(QrCodeField(), data, ecBytes, i);
    }
  }

  /** generateECBytes: a block's error correction bytes over the QR code field. */
  method GenerateECBytes(dataBytes: seq<Byte>, numEcBytesInBlock: nat) returns (result: Result<seq<Byte>>)
    requires numEcBytesInBlock <= 256
    ensures numEcBytesInBlock == 0 ==> result == Failure(IllegalArgument("No error correction bytes"))
    ensures numEcBytesInBlock > 0 && |dataBytes| == 0 ==> result == Failure(IllegalArgument("No data bytes provided"))
    ensures result.Success? <==> numEcBytesInBlock > 0 && |dataBytes| > 0
    ensures result.Success? ==> result.value == QrEcBytes(dataBytes, numEcBytesInBlock)
  {
    QrCodeFieldValid();
    result := GenerateECBytesOver(QrCodeField(), dataBytes, numEcBytesInBlock);
  }

  /** What the erasure-fill encoder makes of a block over the QR code field. */
  ghost predicate Filled(ideal: seq<Byte>, flag: seq<bool>, numDataBytes: nat, filled: seq<Byte>)
  {
    QrCodeFieldValid();
    FilledOver(QrCodeField(), ideal, flag, numDataBytes, filled)
  }

  /** The body of the block loop of encode: encodeNoneSym fills the free bytes of the
    * block over the QR code field (and fails on an empty system when no byte is free),
    * and the discarded standard encode refuses a block without data bytes. */
  method EncodeBlock(ideal: seq<Byte>, flag: array<bool>, numDataBytes: nat) returns (result: Result<seq<Byte>>)
    requires flag.Length == |ideal| && numDataBytes <= |ideal| && |ideal| - numDataBytes <= 256
    requires |Positions(flag[..], true)| == numDataBytes
    ensures result.Success? <==> 0 < numDataBytes < |ideal|
    ensures numDataBytes == |ideal| ==> result == Failure(IndexOutOfBounds(""))
    ensures numDataBytes == 0 < |ideal| ==> result == Failure(IllegalArgument("No data bytes provided"))
    ensures result.Success? ==> Filled(ideal, flag[..], numDataBytes, result.value)
  {
    QrCodeFieldValid();
    result := EncodeBlockOver(QrCodeField(), ideal, flag, numDataBytes);
  }
}
