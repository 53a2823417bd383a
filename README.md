# Beautified QR codes: a Dafny model of the encoder core

The repository is a ZXing-based QR code encoder that makes "beautified" QR codes. It
plans an ideal picture and keeps as many of its bits as the error correction allows.
The number of bits it keeps is the data-byte count of each Reed-Solomon block. The other
bytes of the block are chosen so that the block is still a valid codeword: the
Reed-Solomon encoder is extended with an erasure fill, which solves a linear system over
GF(256) for the free bytes.

This project models the three core parts and proves what each promises:

- **Reed-Solomon encoding** (`ReedSolomonEncoder.java`):
  - the cache of generator polynomials;
  - systematic `encode`, writing the remainder of data·x^ecBytes modulo the generator;
  - `encodeNoneSym`, which builds the system for the free bytes (`getMatrix`, `getY`),
    eliminates with row swaps and XOR row updates (`exchange_hang`,
    `gauss_row_xiaoqu`), back-substitutes (`gauss_calculate`) and writes the solution
    into the free positions.
- **The codeword planner** (`QRCodeBeautify.java`):
  - mode choice;
  - packing of the mode indicator, the character count and the content in the four modes;
  - the version and mask choices and bit termination;
  - the split into blocks, error correction per block and interleaving;
  - the map from final bit positions to pre-interleave positions, and its inverse;
  - the importance flags of a block;
  - the block loop that fills each block's free bytes with the erasure fill and
    interleaves the result.
- **The writer** (`QRCodeWriter.java`): the argument checks and hint defaults of both
  `encode` methods, and the two renderers that draw a module matrix as a `BitMatrix`.
  One renderer scales to a requested size; the other draws fixed-size modules.

Modules, one concept each:

| module | file | models |
|---|---|---|
| `Outcomes` | outcomes.dfy | the exceptions the Java code throws, as `Result` values |
| `Bits` | bits.dfy | Java's `^` on byte-valued ints |
| `GF256`, `GF256Tables` | gf256.dfy, gf256_tables.dfy | the QR code field as exp/log tables, and its laws |
| `GFPoly` | gf_poly.dfy | the polynomial operations the encoder calls (multiply, divide, monomials) |
| `ErasureSystem`, `LinearSystem` | erasure_system.dfy, linear_system.dfy | the erasure-fill system and Gaussian elimination over GF(256) |
| `ReedSolomon` | reed_solomon.dfy | `ReedSolomonEncoder` as a class over arrays |
| `BitArrays`, `Interleaving`, `IndexSort` | bit_array.dfy, interleave.dfy, index_sort.dfy | the bit buffer, column-major interleaving, the stable sort by key |
| `QREncoding`, `QRLayout` | qr_encoding.dfy, qr_layout.dfy | mode choice and bit packing; version, mask, termination and block sizes |
| `QRBlockEC`, `QRFieldEC` | qr_block_ec.dfy, qr_field_ec.dfy | error correction of one block, over any field and over the QR field |
| `QRMapping`, `QRImportance` | qr_mapping.dfy, qr_importance.dfy | the final-to-data bit map and its inverse; the importance flags |
| `QRBlocks`, `QRPlacement`, `QRBeautify` | qr_blocks.dfy, qr_placement.dfy, qr_beautify.dfy | the beautify block loop, where kept bits end up, and the `QRCodeBeautify` class |
| `QRWriter` | qr_writer.dfy | `QRCodeWriter`'s checks and renderers, with `BitMatrix` as a class over a 2-D array |

The field's exp and log tables are literal functions. `GF256Tables.QrCodeFieldValid`
proves that they form the field with primitive polynomial 0x011D and generator 2. Field
elements are integers 0..255, as the Java code holds them in `int` arrays.

## Model

| member | source | states |
|---|---|---|
| GF256Tables.QrCodeFieldValid | src/com/google/zxing/qrcode/encoder/QRCodeBeautify.java:363 | the literal exp/log tables of `QR_CODE_FIELD_256` satisfy the field's validity: exp starts at 1 and doubles modulo 0x011D, log inverts it |
| GF256Tables.LogInvertsExp | src/com/google/zxing/common/reedsolomon/ReedSolomonEncoder.java:155 | log(exp(i)) == i for every exponent 0..254 |
| GF256Tables.ExpInvertsLog | src/com/google/zxing/common/reedsolomon/ReedSolomonEncoder.java:168 | exp(log(v)) == v for every non-zero byte |
| GF256.MulCommutes | src/com/google/zxing/common/reedsolomon/ReedSolomonEncoder.java:174 | table multiplication commutes |
| GF256.MulAssociates | src/com/google/zxing/common/reedsolomon/ReedSolomonEncoder.java:159 | table multiplication associates |
| GF256.MulDistributes | src/com/google/zxing/common/reedsolomon/ReedSolomonEncoder.java:157-161 | multiplication distributes over XOR |
| GF256.MulInverse | src/com/google/zxing/common/reedsolomon/ReedSolomonEncoder.java:179 | every non-zero byte times its inverse is 1 |
| GF256.QuotMul | src/com/google/zxing/common/reedsolomon/ReedSolomonEncoder.java:179 | the exp/log quotient a/d, multiplied back by a non-zero d, gives a |
| GF256.QuotUnique | src/com/google/zxing/common/reedsolomon/ReedSolomonEncoder.java:168 | the quotient is the only x with x·d == a |
| GF256.PowAdd | src/com/google/zxing/common/reedsolomon/ReedSolomonEncoder.java:107 | x^(m+l) == x^m · x^l |
| GF256.PowOfExp | src/com/google/zxing/common/reedsolomon/ReedSolomonEncoder.java:107 | (α^i)^m == α^((i·m) mod 255), the exponent the matrix entries use |
| GFPoly.EvalMultiply | src/com/google/zxing/common/reedsolomon/ReedSolomonEncoder.java:43-44 | the product polynomial evaluates to the product of the values at every point |
| GFPoly.EvalMultiplyByMonomial | src/com/google/zxing/common/reedsolomon/ReedSolomonEncoder.java:64 | multiplying by c·x^d multiplies the value at x by c·x^d |
| GFPoly.Divide | src/com/google/zxing/common/reedsolomon/ReedSolomonEncoder.java:65 | quotient and remainder are normalised; the remainder is zero or of lower degree than the divisor |
| GFPoly.DivisionIdentity | src/com/google/zxing/common/reedsolomon/ReedSolomonEncoder.java:65 | p(x) == q(x)·g(x) + r(x) at every point for the quotient and remainder of p by g |
| ReedSolomon.GeneratorShape | src/com/google/zxing/common/reedsolomon/ReedSolomonEncoder.java:39-50 | the degree-d generator has d + 1 coefficients and leading coefficient 1 |
| ReedSolomon.GeneratorRoots | src/com/google/zxing/common/reedsolomon/ReedSolomonEncoder.java:42-46 | α^(j+base) is a root of the degree-d generator for every j < d |
| ReedSolomon.Remainder | src/com/google/zxing/common/reedsolomon/ReedSolomonEncoder.java:63-66 | the remainder of data·x^ecBytes by the generator is normalised and has at most ecBytes coefficients |
| ReedSolomon.LeftPad | src/com/google/zxing/common/reedsolomon/ReedSolomonEncoder.java:67-71 | the padded tail has exactly width entries: zeros, then the remainder's coefficients |
| ReedSolomon.CodewordRoots | src/com/google/zxing/common/reedsolomon/ReedSolomonEncoder.java:60-71 | data followed by its EC bytes vanishes at α^(j+base) for every j < ecBytes, so the codeword is a multiple of the generator |
| ReedSolomon.CodewordParity | src/com/google/zxing/common/reedsolomon/ReedSolomonEncoder.java:60-71 | the same codeword passes the first ecBytes parity checks that encodeNoneSym solves for |
| ReedSolomon.CacheExtends | src/com/google/zxing/common/reedsolomon/ReedSolomonEncoder.java:42-46 | appending generator(d) to a cache holding generators 0..d-1 keeps entry d == generator(d) for all entries |
| ReedSolomon.CacheAgrees | src/com/google/zxing/common/reedsolomon/ReedSolomonEncoder.java:40-49 | two well-formed caches agree on their common prefix, so existing entries never change |
| ReedSolomon.ReedSolomonEncoder.constructor | src/com/google/zxing/common/reedsolomon/ReedSolomonEncoder.java:33-37 | the cache starts as the single constant polynomial 1 |
| ReedSolomon.ReedSolomonEncoder.BuildGenerator | src/com/google/zxing/common/reedsolomon/ReedSolomonEncoder.java:39-50 | returns generator(degree); the cache only grows, keeps its old entries, and ends with max(old size, degree + 1) entries |
| ReedSolomon.ReedSolomonEncoder.DivideByGenerator | src/com/google/zxing/common/reedsolomon/ReedSolomonEncoder.java:61-66 | the remainder of the shifted data by the generator, whose padding is the EC tail |
| ReedSolomon.ReedSolomonEncoder.WritePadded | src/com/google/zxing/common/reedsolomon/ReedSolomonEncoder.java:67-71 | the data prefix is kept and the tail becomes zeros followed by the coefficients |
| ReedSolomon.ReedSolomonEncoder.AppendEcBytes | src/com/google/zxing/common/reedsolomon/ReedSolomonEncoder.java:60-71 | the array becomes its data prefix followed by the EC bytes of that prefix |
| ReedSolomon.ReedSolomonEncoder.Encode | src/com/google/zxing/common/reedsolomon/ReedSolomonEncoder.java:52-72 | "No error correction bytes" when ecBytes is 0, then "No data bytes provided" when no data byte is left; nothing changes on failure; on success the data prefix is kept and the last ecBytes entries become the EC bytes |
| ReedSolomon.CollectPositions | src/com/google/zxing/common/reedsolomon/ReedSolomonEncoder.java:97-103 | the positions whose flag has the wanted value, in increasing order |
| ReedSolomon.ReedSolomonEncoder.BuildMatrix | src/com/google/zxing/common/reedsolomon/ReedSolomonEncoder.java:96-110 | row i of the matrix is α^((i·(n-1-ci[j])) mod 255) over the free positions ci, the last column untouched |
| ReedSolomon.ReedSolomonEncoder.FillCoefficientRow | src/com/google/zxing/common/reedsolomon/ReedSolomonEncoder.java:105-109 | one row of coefficients filled; other rows unchanged |
| ReedSolomon.ReedSolomonEncoder.BuildRightHandSide | src/com/google/zxing/common/reedsolomon/ReedSolomonEncoder.java:112-129 | Y[i] is the XOR over fixed positions p with a non-zero byte of α^((log code[p] + i·(n-1-p)) mod 255) |
| ReedSolomon.ReedSolomonEncoder.AccumulateRightHandSide | src/com/google/zxing/common/reedsolomon/ReedSolomonEncoder.java:120-128 | one entry of Y accumulated over all fixed positions; other entries unchanged |
| ReedSolomon.ReedSolomonEncoder.AugmentWithRightHandSide | src/com/google/zxing/common/reedsolomon/ReedSolomonEncoder.java:83-84 | the last column becomes Y; the coefficients are unchanged |
| ReedSolomon.ReedSolomonEncoder.BuildSystem | src/com/google/zxing/common/reedsolomon/ReedSolomonEncoder.java:75-84 | the augmented matrix is the erasure system of the word and its flags |
| ReedSolomon.ReedSolomonEncoder.ExchangeRows | src/com/google/zxing/common/reedsolomon/ReedSolomonEncoder.java:131-135 | rows r1 and r2 swapped, nothing else changed |
| ReedSolomon.ReedSolomonEncoder.PivotRow | src/com/google/zxing/common/reedsolomon/ReedSolomonEncoder.java:140-144 | the first row at or below k holding the largest integer value in column k |
| ReedSolomon.ReedSolomonEncoder.AddScaledPivotRow | src/com/google/zxing/common/reedsolomon/ReedSolomonEncoder.java:155-161 | row i gains (a[i][k]/a[k][k]) times the pivot row: a[i][k] becomes 0, the earlier columns stay |
| ReedSolomon.ReedSolomonEncoder.ClearBelowPivot | src/com/google/zxing/common/reedsolomon/ReedSolomonEncoder.java:151-161 | one row below the pivot cleared in column k, with the solution set kept |
| ReedSolomon.ReedSolomonEncoder.EliminateBelowPivot | src/com/google/zxing/common/reedsolomon/ReedSolomonEncoder.java:150-162 | every row below k has 0 in column k; rows up to k unchanged; same solutions |
| ReedSolomon.ReedSolomonEncoder.EliminateColumn | src/com/google/zxing/common/reedsolomon/ReedSolomonEncoder.java:140-162 | one elimination step: pivot chosen, column skipped when the pivot is 0, columns up to k cleared below the diagonal, same solutions |
| ReedSolomon.ReedSolomonEncoder.Eliminate | src/com/google/zxing/common/reedsolomon/ReedSolomonEncoder.java:137-164 | the matrix ends upper triangular with the same solution set |
| ReedSolomon.ReedSolomonEncoder.SolvedTermsSum | src/com/google/zxing/common/reedsolomon/ReedSolomonEncoder.java:171-176 | sum_ax is the sum of a[i][j]·x_j over the solved j > i |
| ReedSolomon.ReedSolomonEncoder.SolveRow | src/com/google/zxing/common/reedsolomon/ReedSolomonEncoder.java:170-181 | after row i, every row from i on is back-solved; other rows unchanged |
| ReedSolomon.ReedSolomonEncoder.BackSubstitute | src/com/google/zxing/common/reedsolomon/ReedSolomonEncoder.java:166-182 | each a[i][row] becomes (right-hand side ⊕ the solved terms) divided by a[i][i] through the exp/log tables, as the source computes it; the coefficients are unchanged |
| ReedSolomon.ReedSolomonEncoder.WriteSolution | src/com/google/zxing/common/reedsolomon/ReedSolomonEncoder.java:89-93 | the free positions receive the solved column in increasing order; the fixed ones are untouched |
| ReedSolomon.ReedSolomonEncoder.EncodeNoneSym | src/com/google/zxing/common/reedsolomon/ReedSolomonEncoder.java:74-94 | the fixed bytes are kept and the free ones filled in order; when the system is nonsingular, the word passes all n - k parity checks |
| ErasureSystem.Positions | src/com/google/zxing/common/reedsolomon/ReedSolomonEncoder.java:113-118 | the listed positions are strictly increasing and all hold the wanted flag |
| ErasureSystem.PositionsPartition | src/com/google/zxing/common/reedsolomon/ReedSolomonEncoder.java:97-103 | fixed and free positions together number n |
| ErasureSystem.PositionRank | src/com/google/zxing/common/reedsolomon/ReedSolomonEncoder.java:100-102 | a position with the wanted flag sits in the list at the count of earlier such positions |
| ErasureSystem.SystemRowIsParity | src/com/google/zxing/common/reedsolomon/ReedSolomonEncoder.java:105-128 | row i of the augmented system applied to (x, 1) equals parity check i of the word filled with x |
| ErasureSystem.SolutionsPassParity | src/com/google/zxing/common/reedsolomon/ReedSolomonEncoder.java:76-87 | x solves the system if and only if the filled word passes all n - k parity checks |
| ErasureSystem.ParityIsEval | src/com/google/zxing/common/reedsolomon/ReedSolomonEncoder.java:107 | parity check i is the word's value at α^(i mod 255), the roots of the generator |
| ErasureSystem.SolvedSystemPassesParity | src/com/google/zxing/common/reedsolomon/ReedSolomonEncoder.java:86-93 | a back-solved triangular system with the same solutions as a nonsingular system yields a word passing every parity check |
| LinearSystem.SwapKeepsNull | src/com/google/zxing/common/reedsolomon/ReedSolomonEncoder.java:147-148 | swapping two rows keeps the solution set |
| LinearSystem.RowUpdateKeepsNull | src/com/google/zxing/common/reedsolomon/ReedSolomonEncoder.java:157-161 | adding a multiple of another row keeps the solution set |
| LinearSystem.EliminationTerm | src/com/google/zxing/common/reedsolomon/ReedSolomonEncoder.java:155-159 | the exp/log expression with dltExp equals (v/d)·p, also for p == 0 |
| LinearSystem.KernelFromSolves | src/com/google/zxing/common/reedsolomon/ReedSolomonEncoder.java:145-146 | a triangular system with a zero on the diagonal has a non-trivial homogeneous solution |
| LinearSystem.NonsingularDiagonal | src/com/google/zxing/common/reedsolomon/ReedSolomonEncoder.java:168-179 | a nonsingular upper triangular system has no zero on its diagonal, so the divisions are defined |
| LinearSystem.SameNullNonsingular | src/com/google/zxing/common/reedsolomon/ReedSolomonEncoder.java:137-164 | elimination preserves nonsingularity |
| LinearSystem.BackSolvedSolves | src/com/google/zxing/common/reedsolomon/ReedSolomonEncoder.java:166-182 | a fully back-solved column solves the triangular system |
| LinearSystem.BackSubstitutedRow | src/com/google/zxing/common/reedsolomon/ReedSolomonEncoder.java:170-180 | one back-substitution step extends the solved rows by row i |
| BitArrays.RoundTrip | src/com/google/zxing/qrcode/encoder/QRCodeBeautify.java:684 | a value below 2^n written as n bits, most significant first, reads back as itself |
| BitArrays.ToFromBits | src/com/google/zxing/qrcode/encoder/QRCodeBeautify.java:696 | reading any n bits as a number and writing it back as n bits gives the same bits |
| BitArrays.ToBytes | src/com/google/zxing/qrcode/encoder/QRCodeBeautify.java:625 | byte i holds bits offset + 8i .. offset + 8i + 7, most significant first |
| BitArrays.ByteBitsAt | src/com/google/zxing/qrcode/encoder/QRCodeBeautify.java:644 | bit 8i + j of appended bytes is bit j of byte i |
| BitArrays.ByteBitsReadBack | src/com/google/zxing/qrcode/encoder/QRCodeBeautify.java:625 | bytes appended as bits and read back with toBytes give the same bytes |
| BitArrays.BitArray.constructor | src/com/google/zxing/qrcode/encoder/QRCodeBeautify.java:637 | a new bit array is empty |
| BitArrays.BitArray.GetSizeInBytes | src/com/google/zxing/qrcode/encoder/QRCodeBeautify.java:603 | the size in bytes is the bit size rounded up to whole bytes |
| BitArrays.BitArray.AppendBit | src/com/google/zxing/qrcode/encoder/QRCodeBeautify.java:524 | one bit appended at the end |
| BitArrays.BitArray.AppendBits | src/com/google/zxing/qrcode/encoder/QRCodeBeautify.java:684 | the low numBits bits of the value appended, most significant first |
| BitArrays.BitArray.AppendBitArray | src/com/google/zxing/qrcode/encoder/QRCodeBeautify.java:225 | the other array's bits appended after this one's |
| QREncoding.GetAlphanumericCode | src/com/google/zxing/qrcode/encoder/QRCodeBeautify.java:415-420 | the table value for codes inside the table, -1 beyond it |
| QREncoding.TableAgreesWithStandard | src/com/google/zxing/qrcode/encoder/QRCodeBeautify.java:27-35 | the table gives 0..9 for digits, 10..35 for A..Z, 36..44 for space $ % * + - . / : and -1 elsewhere |
| QREncoding.AlphanumericCharsValued | src/com/google/zxing/qrcode/encoder/QRCodeBeautify.java:27-35 | each of the 45 alphanumeric characters has its own index as its value |
| QREncoding.AlphanumericValuesNamed | src/com/google/zxing/qrcode/encoder/QRCodeBeautify.java:27-35 | every code with a value is the character at that index, so the table is one-to-one |
| QREncoding.IsOnlyDoubleByteKanji | src/com/google/zxing/qrcode/encoder/QRCodeBeautify.java:463-473 | true exactly when the byte count is even and every lead byte is in 0x81..0x9F or 0xE0..0xEB |
| QREncoding.ChooseMode | src/com/google/zxing/qrcode/encoder/QRCodeBeautify.java:430-454 | with Shift_JIS, KANJI iff only double-byte Kanji, else BYTE; otherwise NUMERIC iff non-empty and all digits, ALPHANUMERIC iff all characters are digits or in the table and one is not a digit, else BYTE |
| QREncoding.AppendModeInfo | src/com/google/zxing/qrcode/encoder/QRCodeBeautify.java:683-685 | the mode's 4-bit indicator appended |
| QREncoding.ModeIndicatorReadsBack | src/com/google/zxing/qrcode/encoder/QRCodeBeautify.java:683-685 | the 4 appended bits decode to the same mode |
| QREncoding.AppendLengthInfo | src/com/google/zxing/qrcode/encoder/QRCodeBeautify.java:691-697 | a WriterException iff numLetters >= 2^numBits, with the bits unchanged; otherwise numLetters appended in numBits bits, which read back as numLetters |
| QREncoding.AppendECI | src/com/google/zxing/qrcode/encoder/QRCodeBeautify.java:811-815 | the ECI indicator, then the value in 8 bits |
| QREncoding.ECIDesignatorOneByte | src/com/google/zxing/qrcode/encoder/QRCodeBeautify.java:813-814 | for values up to 127 the 8 bits start with 0, which makes them a one-byte ECI designator, and read back as the value |
| QREncoding.AppendNumericGroup | src/com/google/zxing/qrcode/encoder/QRCodeBeautify.java:728-744 | one group of 3, 2 or 1 digits appended as its decimal value in 10, 7 or 4 bits |
| QREncoding.AppendNumericBytes | src/com/google/zxing/qrcode/encoder/QRCodeBeautify.java:724-746 | the whole content appended as its numeric groups |
| QREncoding.NumericRoundTrip | src/com/google/zxing/qrcode/encoder/QRCodeBeautify.java:724-746 | the numeric bits have the standard length and decode back to the digits |
| QREncoding.AppendAlphanumericGroup | src/com/google/zxing/qrcode/encoder/QRCodeBeautify.java:752-768 | a pair appended as c1·45 + c2 in 11 bits or a single as c1 in 6 bits; a WriterException, with nothing appended, iff a character has no code |
| QREncoding.AppendAlphanumericBytes | src/com/google/zxing/qrcode/encoder/QRCodeBeautify.java:748-770 | success iff every character has a code; the bits appended are the groups encoded before the first character without one |
| QREncoding.AlphanumericRoundTrip | src/com/google/zxing/qrcode/encoder/QRCodeBeautify.java:748-770 | the alphanumeric bits have length 11·(n/2) + 6·(n mod 2) and decode back to the codes |
| QREncoding.Append8BitBytes | src/com/google/zxing/qrcode/encoder/QRCodeBeautify.java:780-782 | each byte appended in 8 bits |
| QREncoding.AppendKanjiPair | src/com/google/zxing/qrcode/encoder/QRCodeBeautify.java:794-807 | a pair in 0x8140..0x9FFC or 0xE040..0xEBBF appended as its 13-bit value; otherwise "Invalid byte sequence" with nothing appended |
| QREncoding.AppendKanjiBytes | src/com/google/zxing/qrcode/encoder/QRCodeBeautify.java:785-809 | success iff every pair is valid; an odd trailing byte fails with an index error and an invalid pair with "Invalid byte sequence"; the pairs before the failure are appended |
| QREncoding.KanjiRoundTrip | src/com/google/zxing/qrcode/encoder/QRCodeBeautify.java:796-806 | the 13-bit value fits and decodes back to the byte pair |
| QRLayout.ChooseMaskPattern | src/com/google/zxing/qrcode/encoder/QRCodeBeautify.java:476-493 | -1 iff every penalty is Integer.MAX_VALUE; otherwise the first pattern with the minimum penalty |
| QRLayout.ChooseVersion | src/com/google/zxing/qrcode/encoder/QRCodeBeautify.java:495-512 | the smallest version whose data bytes hold ⌈bits/8⌉; "Data too big" iff none of the 40 does |
| QRLayout.RoundUp8Bounds | src/com/google/zxing/qrcode/encoder/QRCodeBeautify.java:528-533 | rounding up to a byte gives a multiple of 8 less than 8 above the size, and the size itself when aligned |
| QRLayout.TerminatedSizeBounds | src/com/google/zxing/qrcode/encoder/QRCodeBeautify.java:517-534 | the terminated size is a multiple of 8 within capacity, with a 4-bit terminator unless capacity cut it short |
| QRLayout.TerminateBits | src/com/google/zxing/qrcode/encoder/QRCodeBeautify.java:517-534 | a WriterException iff size > capacity, with the bits unchanged; otherwise only false bits appended, up to round-up-to-8 of min(capacity, size + 4) |
| QRLayout.GetNumDataBytesAndNumECBytesForBlockID | src/com/google/zxing/qrcode/encoder/QRCodeBeautify.java:541-591 | "Block ID too large" when blockID >= numRSBlocks; every failure is a WriterException (that the three sanity checks never fire is QRLayout.BlockSplit) |
| QRLayout.BlockSplit | src/com/google/zxing/qrcode/encoder/QRCodeBeautify.java:541-591 | success iff blockID < numRSBlocks; then the first group's blocks get ⌊data/blocks⌋ data bytes, the others one more, and every block the same EC count |
| QRLayout.SumDataBytesPrefix | src/com/google/zxing/qrcode/encoder/QRCodeBeautify.java:631 | the data bytes of the first n blocks, in closed form |
| QRLayout.BlockSums | src/com/google/zxing/qrcode/encoder/QRCodeBeautify.java:633-635 | the data bytes of all blocks sum to numDataBytes iff numDataBytes and numTotalBytes agree modulo the block count; data and EC bytes sum to numTotalBytes |
| QRLayout.ECBytesNonNegative | src/com/google/zxing/qrcode/encoder/QRCodeBeautify.java:541-591 | the EC count per block is not negative when data fits in the total |
| QRBlockEC.CopyIntoBuffer | src/com/google/zxing/qrcode/encoder/QRCodeBeautify.java:667-670 | a fresh buffer of the data length plus the EC count, beginning with the data bytes |
| QRBlockEC.CopyOutOfBuffer | src/com/google/zxing/qrcode/encoder/QRCodeBeautify.java:673-676 | the len bytes of the buffer from start |
| QRBlockEC.EncodeWithNewEncoder | src/com/google/zxing/qrcode/encoder/QRCodeBeautify.java:671 | a new encoder over the field refuses no EC bytes and no data bytes, leaving the buffer as it was; otherwise the buffer is the data followed by its EC bytes |
| QRBlockEC.ReadTail | src/com/google/zxing/qrcode/encoder/QRCodeBeautify.java:673-676 | reading the EC count of bytes after the data gives back exactly the EC bytes |
| QRBlockEC.GenerateECBytesOver | src/com/google/zxing/qrcode/encoder/QRCodeBeautify.java:665-678 | the encoder's refusals, and otherwise the EC bytes of the data over the given field |
| QRBlockEC.FreeBytesOfFill | src/com/google/zxing/common/reedsolomon/ReedSolomonEncoder.java:89-93 | the free bytes read back from a filled word are the bytes filled in |
| QRBlockEC.FillOver | src/com/google/zxing/qrcode/encoder/QRCodeBeautify.java:359-365 | the block's bytes copied into the buffer and its free bytes filled: fixed bytes kept, parity passed when the system is nonsingular |
| QRBlockEC.EncodeBlockOver | src/com/google/zxing/qrcode/encoder/QRCodeBeautify.java:359-366 | an index error when no byte is free, "No data bytes provided" when none is fixed, otherwise the filled block |
| QRFieldEC.BlockIsCodeword | src/com/google/zxing/qrcode/encoder/QRCodeBeautify.java:665-678 | a block followed by its EC bytes passes every parity check over the QR field |
| QRFieldEC.GenerateECBytes | src/com/google/zxing/qrcode/encoder/QRCodeBeautify.java:665-678 | "No error correction bytes" or "No data bytes provided" as encode throws them; otherwise the QR-field EC bytes |
| QRFieldEC.EncodeBlock | src/com/google/zxing/qrcode/encoder/QRCodeBeautify.java:358-368 | the block loop body over the QR field: the same errors, and the filled block on success |
| IndexSort.SortedIsOrderedPermutation | src/com/google/zxing/qrcode/encoder/QRCodeBeautify.java:980-985 | the stable sort lists every index once, ordered by key and, among equal keys, by index |
| IndexSort.SortEqualKeys | src/com/google/zxing/qrcode/encoder/QRCodeBeautify.java:980-985 | with all keys equal, the stable sort keeps index order |
| QRImportance.BlockKeys | src/com/google/zxing/qrcode/encoder/QRCodeBeautify.java:970-979 | the block's keys are its data bytes' keys from dataOffset, then its EC bytes' keys from ecOffset |
| QRImportance.DescendingOrderSorted | src/com/google/zxing/qrcode/encoder/QRCodeBeautify.java:980-985 | the descending order puts higher keys first, equal keys in block order, with no position twice |
| QRImportance.ImportanceFlagsCount | src/com/google/zxing/qrcode/encoder/QRCodeBeautify.java:986-991 | exactly dataLength flags are true and ecLength false |
| QRImportance.ImportanceFlagsPrefer | src/com/google/zxing/qrcode/encoder/QRCodeBeautify.java:986-991 | every fixed position is more important than every free one |
| QRImportance.ImportanceFlagsTies | src/com/google/zxing/qrcode/encoder/QRCodeBeautify.java:957-998 | with all keys equal, getImportanceFlag_New agrees with getImportanceFlag |
| QRImportance.DataFirstCount | src/com/google/zxing/qrcode/encoder/QRCodeBeautify.java:957-964 | getImportanceFlag's flags hold dataLength fixed and ecLength free positions |
| QRImportance.GetImportanceFlag | src/com/google/zxing/qrcode/encoder/QRCodeBeautify.java:957-964 | the first dataLength flags true and the remaining ecLength false |
| QRImportance.GetImportanceFlagNew | src/com/google/zxing/qrcode/encoder/QRCodeBeautify.java:966-998 | true exactly at the dataLength positions placed first by the stable descending sort of the block's keys |
| Interleaving.ColumnMajorLength | src/com/google/zxing/qrcode/encoder/QRCodeBeautify.java:640-656 | interleaving keeps the total number of bytes |
| Interleaving.ColumnMajorPermutes | src/com/google/zxing/qrcode/encoder/QRCodeBeautify.java:640-656 | interleaving is a permutation of the blocks' concatenation |
| Interleaving.ColumnMajorGather | src/com/google/zxing/qrcode/encoder/QRCodeBeautify.java:889-911 | interleaving values equals gathering them through the interleaved indices |
| Interleaving.ByteBitsConcat | src/com/google/zxing/qrcode/encoder/QRCodeBeautify.java:644 | the bits of two byte runs are the bits of the first then the second |
| Interleaving.AppendColumn | src/com/google/zxing/qrcode/encoder/QRCodeBeautify.java:641-646 | entry i of every block long enough, in block order, appended as bytes |
| Interleaving.AppendColumns | src/com/google/zxing/qrcode/encoder/QRCodeBeautify.java:640-647 | the blocks appended column-major as bytes |
| QRMapping.FirstBlockSize | src/com/google/zxing/qrcode/encoder/QRCodeBeautify.java:541-591 | block 0 has ⌊data/blocks⌋ data bytes, which is 0 iff there are fewer data bytes than blocks |
| QRMapping.PartsLength | src/com/google/zxing/qrcode/encoder/QRCodeBeautify.java:657-660 | interleaved data and EC parts together hold numTotalBytes bytes |
| QRMapping.DataIndexConcat | src/com/google/zxing/qrcode/encoder/QRCodeBeautify.java:877-881 | the data offsets tile 0..numDataBytes block after block |
| QRMapping.EcIndexConcat | src/com/google/zxing/qrcode/encoder/QRCodeBeautify.java:878-880 | the EC offsets tile numDataBytes..numTotalBytes block after block |
| QRMapping.ByteOrderPermutes | src/com/google/zxing/qrcode/encoder/QRCodeBeautify.java:889-911 | the order of source bytes is a permutation of 0..numTotalBytes-1 |
| QRMapping.FinalToDataAt | src/com/google/zxing/qrcode/encoder/QRCodeBeautify.java:893-896 | final bit 8p + k maps to bit k of the p-th byte in interleaved order |
| QRMapping.FinalToDataPermutation | src/com/google/zxing/qrcode/encoder/QRCodeBeautify.java:846-916 | the final-to-data map has 8·numTotalBytes entries and is a permutation |
| QRMapping.BlockLayout | src/com/google/zxing/qrcode/encoder/QRCodeBeautify.java:856-884 | per-block offsets and lengths, the largest block sizes and the data byte sum |
| QRMapping.WriteOctet | src/com/google/zxing/qrcode/encoder/QRCodeBeautify.java:892-897 | the 8 bit indices of one byte written at count, when the block has the byte |
| QRMapping.WriteColumn | src/com/google/zxing/qrcode/encoder/QRCodeBeautify.java:891-898 | one column of bytes across blocks written as bit indices |
| QRMapping.WriteColumns | src/com/google/zxing/qrcode/encoder/QRCodeBeautify.java:890-899 | all columns written, column-major |
| QRMapping.WriteByteOrder | src/com/google/zxing/qrcode/encoder/QRCodeBeautify.java:886-911 | the buffer is filled completely with the final-to-data map |
| QRMapping.SortedPermutation | src/com/google/zxing/qrcode/encoder/QRCodeBeautify.java:944-954 | a map is a permutation iff its stable sort by value puts value p at place p |
| QRMapping.AgreedPrefix | src/com/google/zxing/qrcode/encoder/QRCodeBeautify.java:950-954 | how far the sorted walk gets: every earlier place holds its own value, and the walk stops at the first place that does not, at the end of the map or at the end of rev |
| QRMapping.SortedInverse | src/com/google/zxing/qrcode/encoder/QRCodeBeautify.java:950-954 | a rev table holding, at each place p, the index whose map value is p inverts the map: rev[map[x]] == x for every x |
| QRMapping.GetRevMapFromMap | src/com/google/zxing/qrcode/encoder/QRCodeBeautify.java:929-955 | success iff the map is a permutation (and rev is long enough); then rev[map[i]] == i; otherwise "getRevMapFromMap: map is not a permutation" or the index error; in every case rev holds the sorted indices up to where the walk stopped, and every later entry is unchanged |
| QRMapping.ByteOrderGathers | src/com/google/zxing/qrcode/encoder/QRCodeBeautify.java:637-656 | interleaved bytes are the pre-interleave bytes gathered through the byte order of the map |
| QRBlocks.IdealBlock | src/com/google/zxing/qrcode/encoder/QRCodeBeautify.java:354-356 | a block's ideal bytes number its data bytes plus its EC bytes |
| QRBlocks.IdealBlockBits | src/com/google/zxing/qrcode/encoder/QRCodeBeautify.java:355-356 | bit k of ideal byte i is the ideal bit at its pre-interleave position |
| QRBlocks.BeautifiedKeepsFixed | src/com/google/zxing/qrcode/encoder/QRCodeBeautify.java:358-365 | every bit of a byte flagged fixed keeps the ideal bit |
| QRBlocks.BeautifiedKeepsIdeal | src/com/google/zxing/qrcode/encoder/QRCodeBeautify.java:358-365 | the same for the whole block at once |
| QRBlocks.AllBeautifiedSnoc | src/com/google/zxing/qrcode/encoder/QRCodeBeautify.java:367-368 | adding the next beautified block keeps all blocks beautified |
| QRBlocks.MakeBeautifiedBlock | src/com/google/zxing/qrcode/encoder/QRCodeBeautify.java:346-366 | the block's errors, and otherwise its beautified bytes |
| QRBlocks.MakeBeautifiedPair | src/com/google/zxing/qrcode/encoder/QRCodeBeautify.java:346-373 | the block split into data and EC parts of the right sizes, appended to the beautified blocks |
| QRBlocks.AssembleBlocks | src/com/google/zxing/qrcode/encoder/QRCodeBeautify.java:333-377 | an index error when blocks have no EC bytes, "No data bytes provided" when a block has no data bytes; otherwise all blocks beautified, with the largest sizes, and the offset reaching numDataBytes |
| QRPlacement.BeautifiedShaped | src/com/google/zxing/qrcode/encoder/QRCodeBeautify.java:367-368 | beautified blocks have the sizes the block split gives |
| QRPlacement.SplitLengths | src/com/google/zxing/qrcode/encoder/QRCodeBeautify.java:379-402 | blocks of those sizes total numTotalBytes before and after interleaving |
| QRPlacement.BeautifiedLength | src/com/google/zxing/qrcode/encoder/QRCodeBeautify.java:399-402 | the interleaved beautified blocks fill exactly numTotalBytes, so the final size check passes |
| QRPlacement.PreAt | src/com/google/zxing/qrcode/encoder/QRCodeBeautify.java:354-356 | byte i of block j sits at its pre-interleave position |
| QRPlacement.InterleavedByte | src/com/google/zxing/qrcode/encoder/QRCodeBeautify.java:382-398 | interleaved byte p is the pre-interleave byte the byte order names |
| QRPlacement.InterleavedAt | src/com/google/zxing/qrcode/encoder/QRCodeBeautify.java:889-911 | interleaved bit q is the pre-interleave bit at mFinalDataToData[q] |
| QRPlacement.KeptBitSurvives | src/com/google/zxing/qrcode/encoder/QRCodeBeautify.java:382-398 | a kept bit shows the ideal bit at its final position |
| QRPlacement.AllKeepIdeal | src/com/google/zxing/qrcode/encoder/QRCodeBeautify.java:345-374 | every beautified block keeps its fixed bytes' ideal bits |
| QRPlacement.FixedBitsSurvive | src/com/google/zxing/qrcode/encoder/QRCodeBeautify.java:333-402 | every bit of a fixed byte appears in the final bit stream at the position the map names, with its ideal value |
| QRBeautify.BlockSizesOnSuccess | src/com/google/zxing/qrcode/encoder/QRCodeBeautify.java:616-632 | when interleaving succeeds, every block has its split sizes and at least one data byte |
| QRBeautify.InterleavedLength | src/com/google/zxing/qrcode/encoder/QRCodeBeautify.java:657-660 | when interleaving succeeds, the interleaved blocks hold numTotalBytes bytes |
| QRBeautify.MakeBlock | src/com/google/zxing/qrcode/encoder/QRCodeBeautify.java:617-627 | the block read from the data bits with its EC bytes, or generateECBytes' error |
| QRBeautify.BuildBlocks | src/com/google/zxing/qrcode/encoder/QRCodeBeautify.java:609-632 | all blocks, the largest sizes and the data offset, or the first block's error |
| QRBeautify.InterleaveWithECBytes | src/com/google/zxing/qrcode/encoder/QRCodeBeautify.java:597-663 | the size check, the blocks' errors and the offset check in source order; on success the data bytes column-major then the EC bytes column-major, 8·numTotalBytes bits |
| QRBeautify.BeautifyBlocks | src/com/google/zxing/qrcode/encoder/QRCodeBeautify.java:333-402 | the block loop's errors, and otherwise the interleaved beautified blocks of numTotalBytes bytes |
| QRBeautify.QRCodeBeautify.constructor | src/com/google/zxing/qrcode/encoder/QRCodeBeautify.java:44-52 | all lengths 0 and no maps |
| QRBeautify.QRCodeBeautify.SetLengths | src/com/google/zxing/qrcode/encoder/QRCodeBeautify.java:239-242 | the four lengths set; head-and-data, padding and EC lengths sum to the total |
| QRBeautify.QRCodeBeautify.BuildFinalToDataMapping | src/com/google/zxing/qrcode/encoder/QRCodeBeautify.java:846-916 | the buffer-size check, the offset check and the final count check, in order; otherwise the buffer holds the final-to-data map |
| QRBeautify.QRCodeBeautify.BuildMaps | src/com/google/zxing/qrcode/encoder/QRCodeBeautify.java:276-281 | both maps allocated; on success mFinalDataToData is the permutation map and mDataToFinalData its inverse |
| QRWriter.BitMatrix.constructor | src/com/google/zxing/qrcode/QRCodeWriter.java:113 | for a width and a height of at least 1, a width × height matrix with every pixel clear |
| QRWriter.NewBitMatrix | src/com/google/zxing/qrcode/QRCodeWriter.java:113 | `new BitMatrix(w, h)`: IllegalArgumentException "Both dimensions must be greater than 0" iff a dimension is below 1; otherwise a fresh, all-clear w × h matrix |
| QRWriter.BitMatrix.SetRegion | src/com/google/zxing/qrcode/QRCodeWriter.java:119 | the pixels in the region are set; all others keep their value |
| QRWriter.DarkIffInDarkSquare | src/com/google/zxing/qrcode/QRCodeWriter.java:113-122 | a pixel is dark iff it lies in the multiple × multiple square of some module equal to 1 |
| QRWriter.SquareShowsModule | src/com/google/zxing/qrcode/QRCodeWriter.java:177-184 | every pixel of module (x, y)'s square shows that module |
| QRWriter.RenderRow | src/com/google/zxing/qrcode/QRCodeWriter.java:117-121 | after one input row, the pixels are dark exactly for the dark modules of the rows done |
| QRWriter.RenderModules | src/com/google/zxing/qrcode/QRCodeWriter.java:115-122 | on a clear matrix, every pixel ends dark iff a dark module's square covers it |
| QRWriter.ScaledLayoutProperties | src/com/google/zxing/qrcode/QRCodeWriter.java:98-111 | output = max(requested, input + 2·quietZone) on each axis; multiple >= 1 is the largest scale that fits both axes; padding centres the symbol and covers the quiet zone |
| QRWriter.AxisLayout | src/com/google/zxing/qrcode/QRCodeWriter.java:105-111 | on one axis: the symbol fits, the next multiple does not, and the padding is half the rest, at least the quiet zone |
| QRWriter.ScaledLayoutExample | src/com/google/zxing/qrcode/QRCodeWriter.java:106-109 | 25 × 25 modules at 200 × 160 give multiple 4, a 132 × 132 symbol, padding 50 and 30 |
| QRWriter.FixedLayoutProperties | src/com/google/zxing/qrcode/QRCodeWriter.java:169-173 | output is (input + 2·quietZone)·moduleSize; module (x, y) sits at ((x + quietZone)·moduleSize, (y + quietZone)·moduleSize) |
| QRWriter.RenderResult | src/com/google/zxing/qrcode/QRCodeWriter.java:93-125 | IllegalStateException for a missing matrix; ArithmeticException "/ by zero" iff the symbol with its quiet zone is 0 modules wide or high; otherwise a fresh matrix of the scaled layout's size showing exactly the dark modules' squares |
| QRWriter.RenderResultFixed | src/com/google/zxing/qrcode/QRCodeWriter.java:162-187 | IllegalStateException for a missing matrix; the BitMatrix IllegalArgumentException iff the output has no pixels (moduleSize 0, or an empty symbol with no quiet zone); otherwise a fresh matrix of the fixed layout showing exactly the dark modules' squares |
| QRWriter.SettingsDefaults | src/com/google/zxing/qrcode/QRCodeWriter.java:74-85 | level L and quiet zone 4 unless the ERROR_CORRECTION or MARGIN hint overrides it |
| QRWriter.Encode | src/com/google/zxing/qrcode/QRCodeWriter.java:48-89 | "Found empty contents", then "Can only encode QR_CODE, but got …", then "Requested dimensions are too small: WxH"; the encoder's failure passed on; otherwise the rendered symbol with the hinted quiet zone |
| QRWriter.EncodeFixed | src/com/google/zxing/qrcode/QRCodeWriter.java:127-160 | the same checks with a negative moduleSize; the encoder's failure passed on; moduleSize 0 ends in the BitMatrix IllegalArgumentException; otherwise the fixed-size rendering |

## Left out

- `appendBytes` (QRCodeBeautify.java:702-722) is a dispatch on the mode to the four append methods, which are modelled one by one. Its "Invalid mode" branch is not modelled.
- QREncoding.AppendNumericBytes: requires every character to be a digit. The source also packs other characters, as the low bits of `charAt(i) - '0'`; that case is not modelled.
- QREncoding.AppendLengthInfo: requires numBits < 31. Java's `1 << numBits` wraps for larger shifts; character-count widths are at most 16.
- QREncoding.ChooseMode: `isOnlyDoubleByteKanji`, `append8BitBytes` and `appendKanjiBytes` take the bytes `String.getBytes` would produce as a parameter. Charset conversion is a library call, and its `UnsupportedEncodingException` path is not modelled.
- QRLayout.ChooseMaskPattern: the penalties are a parameter. `MatrixUtil.buildMatrix` and `calculateMaskPenalty` (matrix placement and mask scoring) are not part of this model.
- QRLayout.ChooseVersion: the 40 versions' codeword counts are a parameter. The `Version` and `ECBlocks` tables and `Mode.getCharacterCountBits` are not part of this model.
- ReedSolomon.ReedSolomonEncoder.EncodeNoneSym: states parity only under the hypothesis that the system is nonsingular. That the Vandermonde-type system is nonsingular for every choice of free positions is not proved.
- ReedSolomon.ReedSolomonEncoder.EncodeNoneSym: requires at least one free byte. With none, the source's back-substitution reads row -1 and throws; the block loop models that as an index error.
- ReedSolomon.ReedSolomonEncoder.Encode: requires ecBytes <= 256. A larger degree makes `buildGenerator` index the 256-entry exp table past its end, which throws in the source; that path is not modelled.
- QRBeautify.InterleaveWithECBytes: requires at least one block, as every version has, and at most 256 EC bytes per block, since generators are built from the 256-entry table. With no blocks the source's block loop does not run, and it then throws "Data bytes does not match offset" when numDataBytes is not 0, "Interleaving error" when numTotalBytes is not 0, or returns no bits; that case is not modelled.
- QRBeautify.BeautifyBlocks: requires numDataBytes and numTotalBytes to agree modulo the block count, as for every version table entry. Otherwise the source throws "Data bytes does not match offset" after the block loop; that path is modelled in InterleaveWithECBytes and BuildFinalToDataMapping but not in the beautify loop.
- QRBlocks.AssembleBlocks: the same requirement as BeautifyBlocks.
- The "Interleaving error: … and … differ." messages and terminateBits' and appendLengthInfo's messages are shortened to their fixed part. The writer's `IllegalStateException` carries an empty message.
- QRMapping.GetRevMapFromMap: the comparator `o1.map - o2.map` overflows for values far apart; the model compares exactly.
- Java's `int` overflow in the size arithmetic (`numTotalBytes * 8`, `(inputWidth + 2·quietZone)·moduleSize`) is not modelled; sizes are unbounded integers.
- Signed `byte` storage is modelled as unsigned 0..255 values. The source masks with `& 0xFF` on every read and writes only the low 8 bits.
- `BitArray.toBytes` reading past the end of the bits is modelled as reading false bits.
- Local Java arrays that only hold intermediate lists (`ci`, the `Permute` and `BitOfCode` arrays, the block list) are sequences.
- The importance values: the float accumulation over edge pixels and the truncating comparator `(int)(o2 - o1)` are not modelled. Importance is an integer key per byte with a stable descending sort.
- The ideal bits are an input. `getEdge`, `getSalient` and `getIdealResult` read images, run OpenCV and the ZXing detector.
- The unused `allDataByte` and `count` computations in `getImportanceFlag_New`, and the unused offset parameters of `getImportanceFlag`, have no effect and are not modelled.
- The standard `encode` at QRCodeBeautify.java:366 runs after the block was copied back, so its output is discarded. The model keeps only its refusals; no contract claims a block's EC bytes equal the standard encoder's.
- QRWriter.Encode: `Encoder.encode` is a parameter, assumed to return a well-formed matrix of at least one module each way. A MARGIN hint, when present, must be non-negative: with a negative quiet zone the source divides by a shrunken or negative symbol width and calls `setRegion` with negative or out-of-range corners, which throws an IllegalArgumentException or ArrayIndexOutOfBoundsException for some sizes and draws for others; that path is not modelled.
- QRWriter.EncodeFixed: the same parameter and the same non-negative MARGIN requirement; a negative quiet zone gives negative paddings or a negative output size in the source, which throws; not modelled.
- QRWriter.RenderResult: requires quietZone >= 0, for the reason given for QRWriter.Encode.
- QRWriter.RenderResultFixed: requires quietZone >= 0, for the reason given for QRWriter.EncodeFixed.
- ZXing's `BitMatrix` class is not part of this model. Its dimension check is modelled by QRWriter.NewBitMatrix, its pixels by a 2-D array, and `setRegion`'s own argument checks are not modelled because the renderers only call it inside the output.
- QRWriter.Encode: the format is printed by its name as the enum's `toString` would.
- The OpenCV `Mat` variants of `encode` and `renderResult` (QRCodeWriter.java:189-330) and `Main.java` do file and image I/O.
- The rest of `QRCodeBeautify.encode` (the header assembly, `MatrixUtil` placement and type/version information) calls collaborators that are not part of this model.
