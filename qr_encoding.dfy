/** The first stage of QRCodeBeautify's planner: choosing the mode that fits the
  * content, and packing the mode indicator, the character count and the content
  * itself into the bit stream, following section 8.4 of JIS X 0510:2004. */
module QREncoding {
  import opened Bits
  import opened GF256
  import opened Outcomes
  import opened BitArrays

  /** The modes this encoder writes. */
  datatype Mode = NUMERIC | ALPHANUMERIC | BYTE | KANJI | ECI

  /** Mode.getBits: the 4-bit mode indicator of each mode (Mode itself is not part of
    * this model; the values are those of the QR code standard). */
  function ModeBits(mode: Mode): (indicator: nat)
    ensures indicator < 16
  {
    match mode
    case NUMERIC => 1
    case ALPHANUMERIC => 2
    case BYTE => 4
    case ECI => 7
    case KANJI => 8
  }

  /** Reading a mode indicator back. */
  function ModeOfIndicator(indicator: nat): Option<Mode>
  {
    if indicator == 1 then Some(NUMERIC)
    else if indicator == 2 then Some(ALPHANUMERIC)
    else if indicator == 4 then Some(BYTE)
    else if indicator == 7 then Some(ECI)
    else if indicator == 8 then Some(KANJI)
    else None
  }

  /** Some small powers of two the bit widths below use. */
  lemma Pow2Values()
    ensures Pow2(4) == 16 && Pow2(6) == 64 && Pow2(7) == 128 && Pow2(8) == 256
    ensures Pow2(10) == 1024 && Pow2(11) == 2048 && Pow2(13) == 8192
  {
    assert Pow2(2) == 4;
    assert Pow2(4) == 16;
    assert Pow2(6) == 64;
    assert Pow2(8) == 256;
    assert Pow2(10) == 1024;
  }

  // ---------------------------------------------------------------------
  // The alphanumeric table

  /** A table entry: a code of alphanumeric mode, or -1 for a character outside it. */
  type AlphanumericCode = x: int | -1 <= x < 45

  /** Table 5 of JIS X 0510:2004: the code of each character below 0x60, or -1. */
  const ALPHANUMERIC_TABLE: seq<AlphanumericCode> :=
    [-1, -1, -1, -1, -1, -1, -1, -1, -1, -1, -1, -1, -1, -1, -1, -1] +
    [-1, -1, -1, -1, -1, -1, -1, -1, -1, -1, -1, -1, -1, -1, -1, -1] +
    [36, -1, -1, -1, 37, 38, -1, -1, -1, -1, 39, 40, -1, 41, 42, 43] +
    [0, 1, 2, 3, 4, 5, 6, 7, 8, 9, 44, -1, -1, -1, -1, -1] +
    [-1, 10, 11, 12, 13, 14, 15, 16, 17, 18, 19, 20, 21, 22, 23, 24] +
    [25, 26, 27, 28, 29, 30, 31, 32, 33, 34, 35, -1, -1, -1, -1, -1]

  /** The 45 characters of alphanumeric mode, in code order. */
  const ALPHANUMERIC_CHARS: string := "0123456789" + "ABCDEFGHIJKLM" + "NOPQRSTUVWXYZ" + " $%*+-./:"

  /** The value of a character in Table 5 of JIS X 0510:2004, as the standard lists
    * it: digits, then capital letters, then nine symbols; -1 for any other
    * character. */
  function AlphanumericValue(code: nat): (v: int)
    ensures -1 <= v < 45
  {
    if '0' as int <= code <= '9' as int then code - '0' as int
    else if 'A' as int <= code <= 'Z' as int then code - 'A' as int + 10
    else if code == ' ' as int then 36
    else if code == '$' as int then 37
    else if code == '%' as int then 38
    else if code == '*' as int then 39
    else if code == '+' as int then 40
    else if code == '-' as int then 41
    else if code == '.' as int then 42
    else if code == '/' as int then 43
    else if code == ':' as int then 44
    else -1
  }

  /** The table holds exactly the values the standard gives. */
  lemma TableAgreesWithStandard(code: nat)
    requires code < |ALPHANUMERIC_TABLE|
    ensures ALPHANUMERIC_TABLE[code] == AlphanumericValue(code)
  {
    if code < 0x30 {
      TableAgreesBelowDigits(code);
    } else {
      TableAgreesFromDigits(code);
    }
  }

  /** The entries before '0'. */
  lemma TableAgreesBelowDigits(code: nat)
    requires code < 0x30
    ensures ALPHANUMERIC_TABLE[code] == AlphanumericValue(code)
  {
    // one case per table entry
    assert code == 0 || code == 1 || code == 2 || code == 3 || code == 4 || code == 5 || code == 6 || code == 7 || code == 8 || code == 9 || code == 10 || code == 11
        || code == 12 || code == 13 || code == 14 || code == 15 || code == 16 || code == 17 || code == 18 || code == 19 || code == 20 || code == 21 || code == 22 || code == 23
        || code == 24 || code == 25 || code == 26 || code == 27 || code == 28 || code == 29 || code == 30 || code == 31 || code == 32 || code == 33 || code == 34 || code == 35
        || code == 36 || code == 37 || code == 38 || code == 39 || code == 40 || code == 41 || code == 42 || code == 43 || code == 44 || code == 45 || code == 46 || code == 47;
  }

  /** The entries from '0' on. */
  lemma TableAgreesFromDigits(code: nat)
    requires 0x30 <= code < 0x60
    ensures ALPHANUMERIC_TABLE[code] == AlphanumericValue(code)
  {
    // one case per table entry
    assert code == 48 || code == 49 || code == 50 || code == 51 || code == 52 || code == 53 || code == 54 || code == 55 || code == 56 || code == 57 || code == 58 || code == 59
        || code == 60 || code == 61 || code == 62 || code == 63 || code == 64 || code == 65 || code == 66 || code == 67 || code == 68 || code == 69 || code == 70 || code == 71
        || code == 72 || code == 73 || code == 74 || code == 75 || code == 76 || code == 77 || code == 78 || code == 79 || code == 80 || code == 81 || code == 82 || code == 83
        || code == 84 || code == 85 || code == 86 || code == 87 || code == 88 || code == 89 || code == 90 || code == 91 || code == 92 || code == 93 || code == 94 || code == 95;
  }

  /** getAlphanumericCode: the table entry for a character code, -1 past the table. */
  method GetAlphanumericCode(code: nat) returns (r: int)
    ensures r == AlphanumericValue(code)
  {
    if code < |ALPHANUMERIC_TABLE| {
      TableAgreesWithStandard(code);
      return ALPHANUMERIC_TABLE[code];
    }
    return -1;
  }

  /** Each of the 45 characters has its index as its value. */
  lemma AlphanumericCharsValued()
    ensures forall v :: 0 <= v < 45 ==> AlphanumericValue(ALPHANUMERIC_CHARS[v] as int) == v
  {
    forall v | 0 <= v < 45
      ensures AlphanumericValue(ALPHANUMERIC_CHARS[v] as int) == v
    {
      // one case per character
      assert v == 0 || v == 1 || v == 2 || v == 3 || v == 4 || v == 5 || v == 6 || v == 7 || v == 8 || v == 9 || v == 10 || v == 11
        || v == 12 || v == 13 || v == 14 || v == 15 || v == 16 || v == 17 || v == 18 || v == 19 || v == 20 || v == 21 || v == 22 || v == 23
        || v == 24 || v == 25 || v == 26 || v == 27 || v == 28 || v == 29 || v == 30 || v == 31 || v == 32 || v == 33 || v == 34 || v == 35
        || v == 36 || v == 37 || v == 38 || v == 39 || v == 40 || v == 41 || v == 42 || v == 43 || v == 44;
    }
  }

  /** Every character with a value is the one at that index of the list: values and
    * characters are in one-to-one correspondence. */
  lemma AlphanumericValuesNamed()
    ensures forall code: nat :: AlphanumericValue(code) != -1 ==> ALPHANUMERIC_CHARS[AlphanumericValue(code)] as int == code
  {
    forall code: nat | AlphanumericValue(code) != -1
      ensures ALPHANUMERIC_CHARS[AlphanumericValue(code)] as int == code
    {
      assert code < 0x60;
      // one case per table entry
      assert code == 0 || code == 1 || code == 2 || code == 3 || code == 4 || code == 5 || code == 6 || code == 7 || code == 8 || code == 9 || code == 10 || code == 11
        || code == 12 || code == 13 || code == 14 || code == 15 || code == 16 || code == 17 || code == 18 || code == 19 || code == 20 || code == 21 || code == 22 || code == 23
        || code == 24 || code == 25 || code == 26 || code == 27 || code == 28 || code == 29 || code == 30 || code == 31 || code == 32 || code == 33 || code == 34 || code == 35
        || code == 36 || code == 37 || code == 38 || code == 39 || code == 40 || code == 41 || code == 42 || code == 43 || code == 44 || code == 45 || code == 46 || code == 47
        || code == 48 || code == 49 || code == 50 || code == 51 || code == 52 || code == 53 || code == 54 || code == 55 || code == 56 || code == 57 || code == 58 || code == 59
        || code == 60 || code == 61 || code == 62 || code == 63 || code == 64 || code == 65 || code == 66 || code == 67 || code == 68 || code == 69 || code == 70 || code == 71
        || code == 72 || code == 73 || code == 74 || code == 75 || code == 76 || code == 77 || code == 78 || code == 79 || code == 80 || code == 81 || code == 82 || code == 83
        || code == 84 || code == 85 || code == 86 || code == 87 || code == 88 || code == 89 || code == 90 || code == 91 || code == 92 || code == 93 || code == 94 || code == 95;
    }
  }

  predicate IsDigit(c: char)
  {
    '0' <= c <= '9'
  }

  predicate InAlphanumericTable(c: char)
  {
    AlphanumericValue(c as int) != -1
  }

  // ---------------------------------------------------------------------
  // Mode selection

  /** A Shift_JIS lead byte of a double-byte character this encoder accepts. */
  predicate IsKanjiLeadByte(b: Byte)
  {
    (0x81 <= b <= 0x9F) || (0xE0 <= b <= 0xEB)
  }

  /** An even number of bytes, every pair starting with a Kanji lead byte. */
  ghost predicate OnlyDoubleByteKanji(bytes: seq<Byte>)
  {
    |bytes| % 2 == 0 && forall i :: 0 <= i < |bytes| && i % 2 == 0 ==> IsKanjiLeadByte(bytes[i])
  }

  /** isOnlyDoubleByteKanji, on the content's Shift_JIS bytes. */
  method IsOnlyDoubleByteKanji(bytes: seq<Byte>) returns (only: bool)
    ensures only <==> OnlyDoubleByteKanji(bytes)
  {
    var length := |bytes|;
    if length % 2 != 0 {
      return false;
    }
    var i := 0;
    while i < length
      invariant i <= length && i % 2 == 0
      invariant forall j :: 0 <= j < i && j % 2 == 0 ==> IsKanjiLeadByte(bytes[j])
    {
      var byte1 := bytes[i];
      if (byte1 < 0x81 || byte1 > 0x9F) && (byte1 < 0xE0 || byte1 > 0xEB) {
        return false;
      }
      i := i + 2;
    }
    return true;
  }

  /** chooseMode: with the Shift_JIS hint, KANJI exactly when the content is double-byte
    * Kanji; otherwise NUMERIC for non-empty all-digit content, ALPHANUMERIC when every
    * character is in the table and one is not a digit, and BYTE for everything else
    * (the empty content included). */
  method ChooseMode(content: string, encoding: string, shiftJisBytes: seq<Byte>) returns (mode: Mode)
    ensures encoding == "Shift_JIS" ==> (mode == KANJI || mode == BYTE) && (mode == KANJI <==> OnlyDoubleByteKanji(shiftJisBytes))
    ensures encoding != "Shift_JIS" ==> mode != KANJI && mode != ECI
    ensures encoding != "Shift_JIS" ==>
              (mode == NUMERIC <==> |content| > 0 && forall i :: 0 <= i < |content| ==> IsDigit(content[i]))
    ensures encoding != "Shift_JIS" ==>
              (mode == ALPHANUMERIC <==>
                 (forall i :: 0 <= i < |content| ==> IsDigit(content[i]) || InAlphanumericTable(content[i]))
                 && exists i :: 0 <= i < |content| && !IsDigit(content[i]))
  {
    if encoding == "Shift_JIS" {
      var only := IsOnlyDoubleByteKanji(shiftJisBytes);
      return if only then KANJI else BYTE;
    }
    var hasNumeric := false;
    var hasAlphanumeric := false;
    for i := 0 to |content|
      invariant hasNumeric || hasAlphanumeric <==> i > 0
      invariant hasAlphanumeric <==> exists j :: 0 <= j < i && !IsDigit(content[j])
      invariant forall j :: 0 <= j < i ==> IsDigit(content[j]) || InAlphanumericTable(content[j])
    {
      var c := content[i];
      if c >= '0' && c <= '9' {
        hasNumeric := true;
      } else {
        var code := GetAlphanumericCode(c as int);
        if code != -1 {
          hasAlphanumeric := true;
        } else {
          return BYTE;
        }
      }
    }
    if hasAlphanumeric {
      return ALPHANUMERIC;
    }
    if hasNumeric {
      return NUMERIC;
    }
    return BYTE;
  }

  // ---------------------------------------------------------------------
  // Header fields

  /** appendModeInfo: the 4-bit mode indicator. */
  method AppendModeInfo(mode: Mode, bits: BitArray)
    modifies bits
    ensures bits.bits == old(bits.bits) + ToBits(ModeBits(mode), 4)
  {
    bits.AppendBits(ModeBits(mode), 4);
  }

  /** The mode indicator reads back as the mode written. */
  lemma ModeIndicatorReadsBack(mode: Mode)
    ensures ModeOfIndicator(FromBits(ToBits(ModeBits(mode), 4))) == Some(mode)
  {
    Pow2Values();
    RoundTrip(ModeBits(mode), 4);
  }

  /** appendLengthInfo: the character count in numBits bits, the width the mode and
    * version call for (Mode.getCharacterCountBits is not part of this model). A count
    * that does not fit is an error and writes nothing. */
  method AppendLengthInfo(numLetters: nat, numBits: nat, bits: BitArray) returns (result: Result<()>)
    requires numBits < 31
    modifies bits
    ensures result.Failure? <==> numLetters >= Pow2(numBits)
    ensures result.Failure? ==> result.error.Writer? && bits.bits == old(bits.bits)
    ensures result.Success? ==>
              bits.bits == old(bits.bits) + ToBits(numLetters, numBits)
              && FromBits(bits.bits[|old(bits.bits)|..]) == numLetters
  {
    if numLetters >= Pow2(numBits) {
      return Failure(Writer("character count is bigger than the length field holds"));
    }
    bits.AppendBits(numLetters, numBits);
    assert bits.bits[|old(bits.bits)|..] == ToBits(numLetters, numBits);
    RoundTrip(numLetters, numBits);
    return Success(());
  }

  /** appendECI: the ECI mode indicator and the assignment value in 8 bits. */
  method AppendECI(eciValue: nat, bits: BitArray)
    modifies bits
    ensures bits.bits == old(bits.bits) + ToBits(ModeBits(ECI), 4) + ToBits(eciValue, 8)
  {
    bits.AppendBits(ModeBits(ECI), 4);
    bits.AppendBits(eciValue, 8);
  }

  /** Up to 127, the 8 bits written are a one-byte ECI designator: a leading 0 and
    * the value, which reads back. */
  lemma ECIDesignatorOneByte(eciValue: nat)
    requires eciValue < 128
    ensures !ToBits(eciValue, 8)[0]
    ensures FromBits(ToBits(eciValue, 8)) == eciValue
  {
    Pow2Values();
    ToBitsAt(eciValue, 8);
    RoundTrip(eciValue, 8);
    DivModUnique(eciValue, 128, 0, eciValue);
  }

  // ---------------------------------------------------------------------
  // Numeric mode

  ghost predicate AllDigits(content: string)
  {
    forall i :: 0 <= i < |content| ==> IsDigit(content[i])
  }

  /** The digit values of an all-digit content. */
  function Digits(content: string): (digits: seq<nat>)
    requires AllDigits(content)
    ensures |digits| == |content| && forall i :: 0 <= i < |digits| ==> digits[i] < 10
  {
    seq(|content|, i requires 0 <= i < |content| => content[i] as int - '0' as int)
  }

  /** The bit length numeric mode uses for n digits: 10 per full group of three, and 4
    * or 7 for a trailing group of one or two. */
  function NumericLength(n: nat): nat
  {
    10 * (n / 3) + (if n % 3 == 0 then 0 else if n % 3 == 1 then 4 else 7)
  }

  /** Numeric packing: groups of three digits from the front, each group's decimal
    * value in 10 bits; a last group of two in 7 bits, of one in 4. */
  function NumericBits(digits: seq<nat>): (bits: seq<bool>)
    decreases |digits|
  {
    if |digits| == 0 then []
    else if |digits| >= 3 then ToBits(digits[0] * 100 + digits[1] * 10 + digits[2], 10) + NumericBits(digits[3..])
    else if |digits| == 2 then ToBits(digits[0] * 10 + digits[1], 7)
    else ToBits(digits[0], 4)
  }

  /** The packed length: 10 bits a group of three, and 4 or 7 for the last group. */
  lemma {:induction false} NumericBitsLength(digits: seq<nat>)
    ensures |NumericBits(digits)| == NumericLength(|digits|)
    decreases |digits|
  {
    if |digits| >= 3 {
      NumericBitsLength(digits[3..]);
    }
  }

  /** Appending a group at a group boundary appends its bits. */
  lemma {:induction false} NumericBitsExtend(digits: seq<nat>, groups: nat, rest: seq<nat>)
    requires |digits| == 3 * groups && |rest| <= 3
    ensures NumericBits(digits + rest) == NumericBits(digits) + NumericBits(rest)
    decreases groups
  {
    if groups > 0 {
      assert (digits + rest)[3..] == digits[3..] + rest;
      NumericBitsExtend(digits[3..], groups - 1, rest);
    } else {
      assert digits + rest == rest;
    }
  }

  /** The digit value of an all-digit content's character i. */
  function DigitAt(content: string, i: nat): nat
    requires AllDigits(content) && i < |content|
  {
    content[i] as int - '0' as int
  }

  /** The bits of the group of up to three digits from i to next. */
  lemma NumericGroupBits(content: string, i: nat, next: nat)
    requires AllDigits(content) && i < next <= |content| && next - i <= 3
    ensures NumericBits(Digits(content)[i..next]) ==
              if next - i == 3 then ToBits(DigitAt(content, i) * 100 + DigitAt(content, i + 1) * 10 + DigitAt(content, i + 2), 10)
              else if next - i == 2 then ToBits(DigitAt(content, i) * 10 + DigitAt(content, i + 1), 7)
              else ToBits(DigitAt(content, i), 4)
  {
    var group := Digits(content)[i..next];
    assert group[0] == DigitAt(content, i);
    if next - i == 3 {
      assert group[1] == DigitAt(content, i + 1) && group[2] == DigitAt(content, i + 2);
      assert group[3..] == [];
      assert NumericBits(group) == ToBits(group[0] * 100 + group[1] * 10 + group[2], 10) + NumericBits([]);
    } else if next - i == 2 {
      assert group[1] == DigitAt(content, i + 1);
    }
  }

  /** One pass of appendNumericBytes' loop: the group of up to three digits at i. */
  method AppendNumericGroup(content: string, i: nat, bits: BitArray) returns (next: nat)
    requires AllDigits(content) && i < |content|
    modifies bits
    ensures next == if i + 3 <= |content| then i + 3 else |content|
    ensures bits.bits == old(bits.bits) + NumericBits(Digits(content)[i..next])
  {
    var length := |content|;
    var num1 := content[i] as int - '0' as int;
    if i + 2 < length {
      var num2 := content[i + 1] as int - '0' as int;
      var num3 := content[i + 2] as int - '0' as int;
      bits.AppendBits(num1 * 100 + num2 * 10 + num3, 10);
      next := i + 3;
    } else if i + 1 < length {
      var num2 := content[i + 1] as int - '0' as int;
      bits.AppendBits(num1 * 10 + num2, 7);
      next := i + 2;
    } else {
      bits.AppendBits(num1, 4);
      next := i + 1;
    }
    NumericGroupBits(content, i, next);
  }

  /** appendNumericBytes, on content chooseMode classed as numeric. */
  method AppendNumericBytes(content: string, bits: BitArray)
    requires AllDigits(content)
    modifies bits
    ensures bits.bits == old(bits.bits) + NumericBits(Digits(content))
  {
    ghost var digits := Digits(content);
    var length := |content|;
    var i := 0;
    ghost var groups := 0;
    while i < length
      invariant i <= length && (i == 3 * groups || i == length)
      invariant bits.bits == old(bits.bits) + NumericBits(digits[..i])
    {
      var next := AppendNumericGroup(content, i, bits);
      assert digits[..next] == digits[..i] + digits[i..next];
      NumericBitsExtend(digits[..i], groups, digits[i..next]);
      AppendAssoc(old(bits.bits), NumericBits(digits[..i]), NumericBits(digits[i..next]));
      i, groups := next, groups + 1;
    }
    assert digits[..i] == digits;
  }

  /** A group of three digits reads back from its decimal value. */
  lemma DecimalTriple(d0: nat, d1: nat, d2: nat)
    requires d0 < 10 && d1 < 10 && d2 < 10
    ensures var v := d0 * 100 + d1 * 10 + d2;
      v < 1000 && v / 100 == d0 && (v / 10) % 10 == d1 && v % 10 == d2
  {
    var v := d0 * 100 + d1 * 10 + d2;
    DivModUnique(v, 100, d0, d1 * 10 + d2);
    DivModUnique(v, 10, d0 * 10 + d1, d2);
    DivModUnique(d0 * 10 + d1, 10, d0, d1);
  }

  /** A group of two digits reads back from its decimal value. */
  lemma DecimalPair(d0: nat, d1: nat)
    requires d0 < 10 && d1 < 10
    ensures var v := d0 * 10 + d1; v < 100 && v / 10 == d0 && v % 10 == d1
  {
    DivModUnique(d0 * 10 + d1, 10, d0, d1);
  }

  /** Reading numeric-mode bits back into count digits. */
  function DecodeNumeric(bits: seq<bool>, count: nat): seq<nat>
    requires |bits| == NumericLength(count)
    decreases count
  {
    if count == 0 then []
    else if count >= 3 then
      var v := FromBits(bits[..10]);
      [v / 100, (v / 10) % 10, v % 10] + DecodeNumeric(bits[10..], count - 3)
    else if count == 2 then
      var v := FromBits(bits);
      [v / 10, v % 10]
    else [FromBits(bits)]
  }

  /** Numeric packing loses nothing: the digits read back from their bits. */
  lemma {:induction false} NumericRoundTrip(digits: seq<nat>)
    requires forall i :: 0 <= i < |digits| ==> digits[i] < 10
    ensures |NumericBits(digits)| == NumericLength(|digits|)
    ensures DecodeNumeric(NumericBits(digits), |digits|) == digits
    decreases |digits|
  {
    Pow2Values();
    NumericBitsLength(digits);
    var bits := NumericBits(digits);
    if |digits| >= 3 {
      var v := digits[0] * 100 + digits[1] * 10 + digits[2];
      DecimalTriple(digits[0], digits[1], digits[2]);
      assert bits[..10] == ToBits(v, 10) && bits[10..] == NumericBits(digits[3..]);
      RoundTrip(v, 10);
      NumericRoundTrip(digits[3..]);
      assert digits == [digits[0], digits[1], digits[2]] + digits[3..];
    } else if |digits| == 2 {
      DecimalPair(digits[0], digits[1]);
      RoundTrip(digits[0] * 10 + digits[1], 7);
    } else if |digits| == 1 {
      RoundTrip(digits[0], 4);
    }
  }

  // ---------------------------------------------------------------------
  // Alphanumeric mode

  ghost predicate AllAlphanumeric(content: string)
  {
    forall i :: 0 <= i < |content| ==> InAlphanumericTable(content[i])
  }

  /** The table values of content that is all in the table. */
  function Codes(content: string): (codes: seq<nat>)
    requires AllAlphanumeric(content)
    ensures |codes| == |content| && forall i :: 0 <= i < |codes| ==> codes[i] < 45
  {
    seq(|content|, i requires 0 <= i < |content| => AlphanumericValue(content[i] as int))
  }

  /** Alphanumeric packing: pairs from the front, 45 * v1 + v2 in 11 bits, and a last
    * single value in 6 bits; packing stops before the first pair, or last single,
    * holding a character outside the table. */
  function AlphanumericBits(content: string): (bits: seq<bool>)
    decreases |content|
  {
    if |content| >= 2 && InAlphanumericTable(content[0]) && InAlphanumericTable(content[1]) then
      ToBits(AlphanumericValue(content[0] as int) * 45 + AlphanumericValue(content[1] as int), 11)
        + AlphanumericBits(content[2..])
    else if |content| == 1 && InAlphanumericTable(content[0]) then
      ToBits(AlphanumericValue(content[0] as int), 6)
    else []
  }

  /** A group of table characters appended at a pair boundary appends its bits. */
  lemma {:induction false} AlphanumericBitsExtend(content: string, pairs: nat, rest: string)
    requires |content| == 2 * pairs && |rest| <= 2 && AllAlphanumeric(content + rest)
    ensures AlphanumericBits(content + rest) == AlphanumericBits(content) + AlphanumericBits(rest)
    decreases pairs
  {
    var whole := content + rest;
    if pairs > 0 {
      assert whole[0] == content[0] && whole[1] == content[1];
      assert whole[2..] == content[2..] + rest;
      AlphanumericBitsExtend(content[2..], pairs - 1, rest);
    } else {
      assert whole == rest;
    }
  }

  /** Packing stops at a pair, or last single, with a character outside the table. */
  lemma {:induction false} AlphanumericBitsStop(content: string, pairs: nat)
    requires 2 * pairs < |content| && AllAlphanumeric(content[..2 * pairs])
    requires !InAlphanumericTable(content[2 * pairs])
             || (2 * pairs + 1 < |content| && !InAlphanumericTable(content[2 * pairs + 1]))
    ensures AlphanumericBits(content) == AlphanumericBits(content[..2 * pairs])
    decreases pairs
  {
    if pairs > 0 {
      var i := 2 * pairs;
      var prefix := content[..i];
      assert prefix[0] == content[0] && prefix[1] == content[1];
      assert InAlphanumericTable(content[0]) && InAlphanumericTable(content[1]);
      assert prefix[2..] == content[2..][..i - 2];
      AlphanumericBitsStop(content[2..], pairs - 1);
    }
  }

  /** The packed prefix grows by the group after it. */
  lemma AlphanumericPrefixStep(content: string, pairs: nat, next: nat)
    requires 2 * pairs < next <= 2 * pairs + 2 && next <= |content|
    requires next < 2 * pairs + 2 ==> next == |content|
    requires AllAlphanumeric(content[..2 * pairs]) && AllAlphanumeric(content[2 * pairs..next])
    ensures AllAlphanumeric(content[..next])
    ensures AlphanumericBits(content[..next])
            == AlphanumericBits(content[..2 * pairs]) + AlphanumericBits(content[2 * pairs..next])
  {
    var i := 2 * pairs;
    assert content[..next] == content[..i] + content[i..next];
    forall k | 0 <= k < next
      ensures InAlphanumericTable(content[..next][k])
    {
      if k < i { assert content[..next][k] == content[..i][k]; }
      else { assert content[..next][k] == content[i..next][k - i]; }
    }
    AlphanumericBitsExtend(content[..i], pairs, content[i..next]);
  }

  /** One pass of appendAlphanumericBytes' loop: the pair, or last single, at i. */
  method AppendAlphanumericGroup(content: string, i: nat, bits: BitArray) returns (result: Result<nat>)
    requires i < |content|
    modifies bits
    ensures result.Failure? <==>
              !InAlphanumericTable(content[i]) || (i + 1 < |content| && !InAlphanumericTable(content[i + 1]))
    ensures result.Failure? ==> result.error == Writer("") && bits.bits == old(bits.bits)
    ensures result.Success? ==>
              result.value == (if i + 2 <= |content| then i + 2 else |content|)
              && AllAlphanumeric(content[i..result.value])
              && bits.bits == old(bits.bits) + AlphanumericBits(content[i..result.value])
  {
    var length := |content|;
    var code1 := GetAlphanumericCode(content[i] as int);
    if code1 == -1 {
      return Failure(Writer(""));
    }
    if i + 1 < length {
      var code2 := GetAlphanumericCode(content[i + 1] as int);
      if code2 == -1 {
        return Failure(Writer(""));
      }
      bits.AppendBits(code1 * 45 + code2, 11);
      assert content[i..i + 2][2..] == [];
      return Success(i + 2);
    }
    bits.AppendBits(code1, 6);
    return Success(i + 1);
  }

  /** appendAlphanumericBytes: the content packed two characters at a time; a
    * character outside the table is an error, raised after the pairs before the
    * one holding it have been written. */
  method AppendAlphanumericBytes(content: string, bits: BitArray) returns (result: Result<()>)
    modifies bits
    ensures result.Success? <==> AllAlphanumeric(content)
    ensures result.Failure? ==> result.error == Writer("")
    ensures bits.bits == old(bits.bits) + AlphanumericBits(content)
  {
    var length := |content|;
    var i := 0;
    ghost var pairs := 0;
    while i < length
      invariant i <= length && (i == 2 * pairs || i == length)
      invariant AllAlphanumeric(content[..i])
      invariant bits.bits == old(bits.bits) + AlphanumericBits(content[..i])
    {
      var group := AppendAlphanumericGroup(content, i, bits);
      if group.Failure? {
        AlphanumericBitsStop(content, pairs);
        return Failure(group.error);
      }
      var next := group.value;
      AlphanumericPrefixStep(content, pairs, next);
      AppendAssoc(old(bits.bits), AlphanumericBits(content[..i]), AlphanumericBits(content[i..next]));
      i, pairs := next, pairs + 1;
    }
    assert content[..i] == content;
    return Success(());
  }

  /** Reading alphanumeric-mode bits back into count values. */
  function DecodeAlphanumeric(bits: seq<bool>, count: nat): seq<nat>
    requires |bits| == 11 * (count / 2) + 6 * (count % 2)
    decreases count
  {
    if count >= 2 then
      var v := FromBits(bits[..11]);
      [v / 45, v % 45] + DecodeAlphanumeric(bits[11..], count - 2)
    else if count == 1 then [FromBits(bits)]
    else []
  }

  /** Dropping a pair of table characters drops their values. */
  lemma CodesTail(content: string)
    requires |content| >= 2 && AllAlphanumeric(content)
    ensures AllAlphanumeric(content[2..]) && Codes(content[2..]) == Codes(content)[2..]
  {
    var rest := content[2..];
    forall i | 0 <= i < |rest|
      ensures InAlphanumericTable(rest[i])
    {
      assert rest[i] == content[i + 2];
    }
  }

  /** A pair reads back from its combined value. */
  lemma AlphanumericPair(v1: nat, v2: nat)
    requires v1 < 45 && v2 < 45
    ensures var v := v1 * 45 + v2; v < Pow2(11) && v / 45 == v1 && v % 45 == v2
  {
    Pow2Values();
    DivModUnique(v1 * 45 + v2, 45, v1, v2);
  }

  /** Alphanumeric packing of table characters loses nothing: their values read
    * back from the bits, in 11 bits a pair and 6 for a last single. */
  lemma {:induction false} AlphanumericRoundTrip(content: string)
    requires AllAlphanumeric(content)
    ensures |AlphanumericBits(content)| == 11 * (|content| / 2) + 6 * (|content| % 2)
    ensures DecodeAlphanumeric(AlphanumericBits(content), |content|) == Codes(content)
    decreases |content|
  {
    var bits := AlphanumericBits(content);
    var codes := Codes(content);
    if |content| >= 2 {
      var rest := content[2..];
      CodesTail(content);
      AlphanumericRoundTrip(rest);
      var v := codes[0] * 45 + codes[1];
      AlphanumericPair(codes[0], codes[1]);
      assert InAlphanumericTable(content[0]) && InAlphanumericTable(content[1]);
      assert codes[0] == AlphanumericValue(content[0] as int) && codes[1] == AlphanumericValue(content[1] as int);
      assert bits == ToBits(v, 11) + AlphanumericBits(rest);
      assert bits[..11] == ToBits(v, 11) && bits[11..] == AlphanumericBits(rest);
      RoundTrip(v, 11);
      assert codes == [codes[0], codes[1]] + codes[2..];
    } else if |content| == 1 {
      Pow2Values();
      RoundTrip(codes[0], 6);
    }
  }

  // ---------------------------------------------------------------------
  // Byte mode

  /** append8BitBytes, on the content's bytes in the chosen character set. */
  method Append8BitBytes(bytes: seq<Byte>, bits: BitArray)
    modifies bits
    ensures bits.bits == old(bits.bits) + ByteBits(bytes)
  {
    for i := 0 to |bytes|
      invariant bits.bits == old(bits.bits) + ByteBits(bytes[..i])
    {
      bits.AppendBits(bytes[i], 8);
      ByteBitsSnoc(bytes, i);
      AppendAssoc(old(bits.bits), ByteBits(bytes[..i]), ToBits(bytes[i], 8));
    }
    assert bytes[..|bytes|] == bytes;
  }

  // ---------------------------------------------------------------------
  // Kanji mode

  /** The Shift_JIS code of a byte pair less the offset of its range, or -1 outside
    * the two ranges Kanji mode covers. */
  function KanjiSubtracted(byte1: Byte, byte2: Byte): int
  {
    var code := byte1 * 256 + byte2;
    if 0x8140 <= code <= 0x9ffc then code - 0x8140
    else if 0xe040 <= code <= 0xebbf then code - 0xc140
    else -1
  }

  /** The 13-bit value of a subtracted code: high byte times 0xC0 plus low byte. */
  function KanjiEncoded(subtracted: nat): (encoded: nat)
  {
    (subtracted / 256) * 0xc0 + subtracted % 256
  }

  /** The number of leading bytes that form complete pairs of Kanji mode. */
  function KanjiPrefix(bytes: seq<Byte>): (n: nat)
    ensures n <= |bytes|
    decreases |bytes|
  {
    if |bytes| < 2 || KanjiSubtracted(bytes[0], bytes[1]) == -1 then 0
    else 2 + KanjiPrefix(bytes[2..])
  }

  /** Kanji packing: each pair's encoded value in 13 bits, up to the first byte that
    * does not start a complete pair of Kanji mode. */
  function KanjiBits(bytes: seq<Byte>): (bits: seq<bool>)
    decreases |bytes|
  {
    if |bytes| < 2 || KanjiSubtracted(bytes[0], bytes[1]) == -1 then []
    else ToBits(KanjiEncoded(KanjiSubtracted(bytes[0], bytes[1])), 13) + KanjiBits(bytes[2..])
  }

  /** Appending a valid pair after whole pairs appends its bits. */
  lemma {:induction false} KanjiBitsExtend(bytes: seq<Byte>, byte1: Byte, byte2: Byte)
    requires KanjiPrefix(bytes) == |bytes| && KanjiSubtracted(byte1, byte2) != -1
    ensures KanjiPrefix(bytes + [byte1, byte2]) == |bytes| + 2
    ensures KanjiBits(bytes + [byte1, byte2]) ==
              KanjiBits(bytes) + ToBits(KanjiEncoded(KanjiSubtracted(byte1, byte2)), 13)
    decreases |bytes|
  {
    if |bytes| >= 2 {
      assert (bytes + [byte1, byte2])[2..] == bytes[2..] + [byte1, byte2];
      KanjiBitsExtend(bytes[2..], byte1, byte2);
    } else {
      assert (bytes + [byte1, byte2])[2..] == [];
    }
  }

  /** The Kanji prefix stops at the first pair that is missing its second byte or is
    * outside both ranges, and the bits are those of the pairs before it. */
  lemma {:induction false} KanjiPrefixAt(bytes: seq<Byte>, pairs: nat)
    requires 2 * pairs < |bytes| && KanjiPrefix(bytes[..2 * pairs]) == 2 * pairs
    requires 2 * pairs + 1 == |bytes| || KanjiSubtracted(bytes[2 * pairs], bytes[2 * pairs + 1]) == -1
    ensures KanjiPrefix(bytes) == 2 * pairs
    ensures KanjiBits(bytes) == KanjiBits(bytes[..2 * pairs])
    decreases pairs
  {
    if pairs > 0 {
      var i := 2 * pairs;
      assert bytes[..i][2..] == bytes[2..][..i - 2];
      assert bytes[..i][0] == bytes[0] && bytes[..i][1] == bytes[1];
      KanjiPrefixAt(bytes[2..], pairs - 1);
    }
  }

  /** The bits of one pair of Kanji mode. */
  function KanjiPairBits(byte1: Byte, byte2: Byte): seq<bool>
    requires KanjiSubtracted(byte1, byte2) != -1
  {
    ToBits(KanjiEncoded(KanjiSubtracted(byte1, byte2)), 13)
  }

  /** A valid pair after whole pairs extends the prefix and its bits. */
  lemma KanjiStep(bytes: seq<Byte>, i: nat)
    requires i + 1 < |bytes| && KanjiPrefix(bytes[..i]) == i
    requires KanjiSubtracted(bytes[i], bytes[i + 1]) != -1
    ensures KanjiPrefix(bytes[..i + 2]) == i + 2
    ensures KanjiBits(bytes[..i + 2]) == KanjiBits(bytes[..i]) + KanjiPairBits(bytes[i], bytes[i + 1])
  {
    assert bytes[..i + 2] == bytes[..i] + [bytes[i], bytes[i + 1]];
    KanjiBitsExtend(bytes[..i], bytes[i], bytes[i + 1]);
  }

  /** The body of appendKanjiBytes' loop for the complete pair at i. */
  method AppendKanjiPair(bytes: seq<Byte>, i: nat, bits: BitArray) returns (result: Result<()>)
    requires i + 1 < |bytes|
    modifies bits
    ensures result.Failure? <==> KanjiSubtracted(bytes[i], bytes[i + 1]) == -1
    ensures result.Failure? ==> result.error == Writer("Invalid byte sequence") && bits.bits == old(bits.bits)
    ensures result.Success? ==> bits.bits == old(bits.bits) + KanjiPairBits(bytes[i], bytes[i + 1])
  {
    var byte1 := bytes[i];
    var byte2 := bytes[i + 1];
    var code := byte1 as int * 256 + byte2 as int;
    var subtracted: int := -1;
    if code >= 0x8140 && code <= 0x9ffc {
      subtracted := code - 0x8140;
    } else if code >= 0xe040 && code <= 0xebbf {
      subtracted := code - 0xc140;
    }
    if subtracted == -1 {
      return Failure(Writer("Invalid byte sequence"));
    }
    var encoded := (subtracted / 256) * 0xc0 + subtracted % 256;
    bits.AppendBits(encoded, 13);
    return Success(());
  }

  /** appendKanjiBytes, on the content's Shift_JIS bytes: an odd byte count reads past
    * the end and a pair outside both ranges is an error, each after the pairs before
    * it have been written. */
  method AppendKanjiBytes(bytes: seq<Byte>, bits: BitArray) returns (result: Result<()>)
    modifies bits
    ensures result.Success? <==> KanjiPrefix(bytes) == |bytes|
    ensures result.Failure? ==>
              (result.error == IndexOutOfBounds("") <==> KanjiPrefix(bytes) + 1 == |bytes|)
              && (result.error == Writer("Invalid byte sequence") <==> KanjiPrefix(bytes) + 1 < |bytes|)
    ensures bits.bits == old(bits.bits) + KanjiBits(bytes)
  {
    var length := |bytes|;
    var i := 0;
    ghost var pairs := 0;
    while i < length
      invariant i <= length && i == 2 * pairs
      invariant KanjiPrefix(bytes[..i]) == i
      invariant bits.bits == old(bits.bits) + KanjiBits(bytes[..i])
    {
      if i + 1 >= length {
        KanjiPrefixAt(bytes, pairs);
        return Failure(IndexOutOfBounds(""));
      }
      var pair := AppendKanjiPair(bytes, i, bits);
      if pair.Failure? {
        KanjiPrefixAt(bytes, pairs);
        return pair;
      }
      KanjiStep(bytes, i);
      AppendAssoc(old(bits.bits), KanjiBits(bytes[..i]), KanjiPairBits(bytes[i], bytes[i + 1]));
      i, pairs := i + 2, pairs + 1;
    }
    assert bytes[..i] == bytes;
    return Success(());
  }

  /** Reading a 13-bit Kanji value back into its Shift_JIS code. */
  function DecodeKanji(encoded: nat): nat
  {
    var subtracted := (encoded / 0xc0) * 256 + encoded % 0xc0;
    if subtracted < 0x1f00 then subtracted + 0x8140 else subtracted + 0xc140
  }

  /** A Kanji value fits its 13 bits, and for a pair whose second byte is a Shift_JIS
    * trail byte (0x40 to 0xFC) it reads back as the pair's code. */
  lemma KanjiRoundTrip(byte1: Byte, byte2: Byte)
    requires KanjiSubtracted(byte1, byte2) != -1
    ensures KanjiEncoded(KanjiSubtracted(byte1, byte2)) < Pow2(13)
    ensures 0x40 <= byte2 <= 0xfc ==> DecodeKanji(KanjiEncoded(KanjiSubtracted(byte1, byte2))) == byte1 * 256 + byte2
  {
    Pow2Values();
    var s := KanjiSubtracted(byte1, byte2);
    var q, r := s / 256, s % 256;
    assert q <= 42 && (q == 42 ==> r <= 0x7f);
    if 0x40 <= byte2 <= 0xfc {
      if byte1 * 256 + byte2 <= 0x9ffc {
        DivModUnique(s, 256, byte1 - 0x81, byte2 - 0x40);
      } else {
        DivModUnique(s, 256, byte1 - 0xc1, byte2 - 0x40);
      }
      DivModUnique(KanjiEncoded(s), 0xc0, q, r);
    }
  }
}
