/** QRCodeWriter: the argument checks of encode, with the error correction level and
  * quiet zone the hints may override, and the two renderers that turn a QR code's
  * module matrix into a BitMatrix of pixels, one scaling the symbol to a requested
  * size and one drawing every module as a fixed-size square. */
module QRWriter {
  import opened Outcomes
  import BitArrays

  /** The quiet zone, in modules, drawn around the symbol unless a hint says otherwise. */
  const QUIET_ZONE_SIZE: int := 4

  datatype BarcodeFormat = QR_CODE | OtherFormat(name: string)

  function FormatName(format: BarcodeFormat): string
  {
    match format
    case QR_CODE => "QR_CODE"
    case OtherFormat(name) => name
  }

  datatype ErrorCorrectionLevel = L | M | Q | H

  /** The two hints encode reads: ERROR_CORRECTION and MARGIN, each possibly absent. */
  datatype Hints = Hints(errorCorrection: Option<ErrorCorrectionLevel>, margin: Option<int>)

  /** A module matrix as the encoder builds it: cells[y][x] is 1 for a dark module,
    * 0 for a light one. */
  datatype ByteMatrix = ByteMatrix(width: nat, height: nat, cells: seq<seq<int>>)
  {
    predicate WellFormed()
    {
      |cells| == height && forall y :: 0 <= y < height ==> |cells[y]| == width
    }

    function Get(x: nat, y: nat): int
      requires WellFormed() && x < width && y < height
    {
      cells[y][x]
    }
  }

  /** The encoder's result, of which the renderers read only the matrix; it may be null. */
  datatype QRCode = QRCode(matrix: Option<ByteMatrix>)

  /** The level and quiet zone encode settles on before encoding. */
  datatype EncodeSettings = EncodeSettings(errorCorrectionLevel: ErrorCorrectionLevel, quietZone: int)

  /** The output bitmap: a width by height grid of pixels, all clear when made. */
  class BitMatrix {
    const width: nat
    const height: nat
    const bits: array2<bool>

    ghost predicate Valid()
      reads this
    {
      bits.Length0 == width && bits.Length1 == height
    }

    constructor (width: nat, height: nat)
      requires width >= 1 && height >= 1
      ensures Valid() && this.width == width && this.height == height && fresh(bits)
      ensures forall x, y :: 0 <= x < width && 0 <= y < height ==> !bits[x, y]
    {
      this.width := width;
      this.height := height;
      bits := new bool[width, height]((x, y) => false);
    }

    /** setRegion: sets every pixel of the regionWidth by regionHeight rectangle whose
      * top left corner is (left, top), and no other. */
    method SetRegion(left: nat, top: nat, regionWidth: nat, regionHeight: nat)
      requires Valid() && left + regionWidth <= width && top + regionHeight <= height
      modifies bits
      ensures forall x, y :: 0 <= x < width && 0 <= y < height ==>
                bits[x, y] == (old(bits[x, y]) || (left <= x < left + regionWidth && top <= y < top + regionHeight))
    {
      for y := top to top + regionHeight
        invariant forall x', y' :: 0 <= x' < width && 0 <= y' < height ==>
                    bits[x', y'] == (old(bits[x', y']) || (left <= x' < left + regionWidth && top <= y' < y))
      {
        for x := left to left + regionWidth
          invariant forall x', y' :: 0 <= x' < width && 0 <= y' < height ==>
                      bits[x', y'] == (old(bits[x', y'])
                                       || (left <= x' < left + regionWidth && top <= y' < y)
                                       || (left <= x' < x && y' == y))
        {
          bits[x, y] := true;
        }
      }
    }
  }

  /** The message of ZXing's BitMatrix for a dimension below 1. */
  const DIMENSIONS_MESSAGE: string := "Both dimensions must be greater than 0"

  /** `new BitMatrix(width, height)`: an IllegalArgumentException unless both dimensions
    * are at least 1, otherwise a clear matrix of that size. */
  method NewBitMatrix(width: int, height: int) returns (result: Result<BitMatrix>)
    ensures result.Failure? <==> width < 1 || height < 1
    ensures result.Failure? ==> result.error == IllegalArgument(DIMENSIONS_MESSAGE)
    ensures result.Success? ==>
              && fresh(result.value) && fresh(result.value.bits) && result.value.Valid()
              && result.value.width == width && result.value.height == height
              && forall x, y :: 0 <= x < width && 0 <= y < height ==> !result.value.bits[x, y]
  {
    if width < 1 || height < 1 {
      return Failure(IllegalArgument(DIMENSIONS_MESSAGE));
    }
    var output := new BitMatrix(width, height);
    return Success(output);
  }

  // ---------------------------------------------------------------- pixels and modules

  /** The module a pixel coordinate falls in when modules of size m start at origin,
    * or -1 before the first module. */
  function ModuleIndex(p: int, origin: int, m: nat): int
    requires m > 0
  {
    if p < origin then -1 else (p - origin) / m
  }

  /** Pixel (px, py) lies in the square of a dark module, of those in rows before
    * `rows` or in row `rows` before column `cols`. */
  predicate DarkBefore(input: ByteMatrix, left: int, top: int, m: nat, rows: nat, cols: nat, px: int, py: int)
    requires input.WellFormed() && m > 0
  {
    var x, y := ModuleIndex(px, left, m), ModuleIndex(py, top, m);
    && 0 <= x < input.width && 0 <= y < input.height
    && (y < rows || (y == rows && x < cols))
    && input.Get(x, y) == 1
  }

  /** Pixel (px, py) lies in the m by m square of a dark module, the squares laid
    * side by side from (left, top). */
  predicate Dark(input: ByteMatrix, left: int, top: int, m: nat, px: int, py: int)
    requires input.WellFormed() && m > 0
  {
    var x, y := ModuleIndex(px, left, m), ModuleIndex(py, top, m);
    0 <= x < input.width && 0 <= y < input.height && input.Get(x, y) == 1
  }

  /** Pixel p lies in the square of module x. */
  predicate InSquare(p: int, origin: int, m: nat, x: int)
  {
    origin + x * m <= p < origin + x * m + m
  }

  /** A pixel inside the square of module x belongs to module x. */
  lemma SquareModule(p: int, origin: int, m: nat, x: nat)
    requires m > 0 && InSquare(p, origin, m, x)
    ensures ModuleIndex(p, origin, m) == x
  {
    BitArrays.DivModUnique(p - origin, m, x, p - origin - x * m);
  }

  /** A pixel past the origin lies in the square of its module. */
  lemma ModuleSquare(p: int, origin: int, m: nat)
    requires m > 0 && p >= origin
    ensures InSquare(p, origin, m, ModuleIndex(p, origin, m))
  {
    var q, r := (p - origin) / m, (p - origin) % m;
    assert p - origin == q * m + r;
  }

  /** A pixel belongs to module x exactly when it lies in module x's square. */
  lemma ModuleIffSquare(p: int, origin: int, m: nat, x: nat)
    requires m > 0
    ensures ModuleIndex(p, origin, m) == x <==> InSquare(p, origin, m, x)
  {
    if p >= origin {
      ModuleSquare(p, origin, m);
    }
    if InSquare(p, origin, m, x) {
      SquareModule(p, origin, m, x);
    }
  }

  /** The dark pixels are exactly those in the square of some dark module. */
  lemma DarkIffInDarkSquare(input: ByteMatrix, left: int, top: int, m: nat, px: int, py: int)
    requires input.WellFormed() && m > 0
    ensures Dark(input, left, top, m, px, py) <==>
              exists x: nat, y: nat :: x < input.width && y < input.height && input.Get(x, y) == 1
                                       && InSquare(px, left, m, x) && InSquare(py, top, m, y)
  {
    if Dark(input, left, top, m, px, py) {
      var x, y := ModuleIndex(px, left, m), ModuleIndex(py, top, m);
      ModuleIffSquare(px, left, m, x);
      ModuleIffSquare(py, top, m, y);
    }
    forall x: nat, y: nat | x < input.width && y < input.height && input.Get(x, y) == 1
                            && InSquare(px, left, m, x) && InSquare(py, top, m, y)
      ensures Dark(input, left, top, m, px, py)
    {
      SquareModule(px, left, m, x);
      SquareModule(py, top, m, y);
    }
  }

  /** Every pixel of module (x, y)'s square shows that module. */
  lemma SquareShowsModule(input: ByteMatrix, left: int, top: int, m: nat, x: nat, y: nat, a: nat, b: nat)
    requires input.WellFormed() && m > 0 && x < input.width && y < input.height && a < m && b < m
    ensures Dark(input, left, top, m, left + x * m + a, top + y * m + b) <==> input.Get(x, y) == 1
  {
    SquareModule(left + x * m + a, left, m, x);
    SquareModule(top + y * m + b, top, m, y);
  }

  /** Drawing module (x, y) of row y adds exactly its square, if it is dark. */
  lemma ColumnStep(input: ByteMatrix, left: int, top: int, m: nat, x: nat, y: nat, px: int, py: int)
    requires input.WellFormed() && m > 0 && x < input.width && y < input.height
    ensures DarkBefore(input, left, top, m, y, x + 1, px, py) ==
              (DarkBefore(input, left, top, m, y, x, px, py)
               || (input.Get(x, y) == 1 && InSquare(px, left, m, x) && InSquare(py, top, m, y)))
  {
    ModuleIffSquare(px, left, m, x);
    ModuleIffSquare(py, top, m, y);
  }


  /** One row of the renderers' nested loop: every dark module of row inputY gets its
    * square set, walking outputX along the row in steps of m. */
  method RenderRow(output: BitMatrix, input: ByteMatrix, left: nat, top: nat, m: nat, inputY: nat, outputY: nat)
    requires output.Valid() && input.WellFormed() && m > 0 && inputY < input.height
    requires left + input.width * m <= output.width && top + input.height * m <= output.height
    requires outputY == top + inputY * m
    requires forall px, py :: 0 <= px < output.width && 0 <= py < output.height ==>
               output.bits[px, py] == DarkBefore(input, left, top, m, inputY, 0, px, py)
    modifies output.bits
    ensures forall px, py :: 0 <= px < output.width && 0 <= py < output.height ==>
              output.bits[px, py] == DarkBefore(input, left, top, m, inputY + 1, 0, px, py)
  {
    BitArrays.MulMonotone(inputY + 1, input.height, m);
    var inputX, outputX := 0, left;
    while inputX < input.width
      invariant inputX <= input.width && outputX == left + inputX * m
      invariant forall px, py :: 0 <= px < output.width && 0 <= py < output.height ==>
                  output.bits[px, py] == DarkBefore(input, left, top, m, inputY, inputX, px, py)
    {
      BitArrays.MulMonotone(inputX + 1, input.width, m);
      if input.Get(inputX, inputY) == 1 {
        output.SetRegion(outputX, outputY, m, m);
      }
      forall px, py | 0 <= px < output.width && 0 <= py < output.height
        ensures output.bits[px, py] == DarkBefore(input, left, top, m, inputY, inputX + 1, px, py)
      {
        ColumnStep(input, left, top, m, inputX, inputY, px, py);
      }
      inputX, outputX := inputX + 1, outputX + m;
    }
  }

  /** The renderers' nested loop: every dark module's m by m square set, the squares
    * laid out from (left, top); the output, clear before, then shows exactly the dark
    * modules. */
  method RenderModules(output: BitMatrix, input: ByteMatrix, left: nat, top: nat, m: nat)
    requires output.Valid() && input.WellFormed() && m > 0
    requires left + input.width * m <= output.width && top + input.height * m <= output.height
    requires forall px, py :: 0 <= px < output.width && 0 <= py < output.height ==> !output.bits[px, py]
    modifies output.bits
    ensures forall px, py :: 0 <= px < output.width && 0 <= py < output.height ==>
              output.bits[px, py] == Dark(input, left, top, m, px, py)
  {
    var inputY, outputY := 0, top;
    while inputY < input.height
      invariant inputY <= input.height && outputY == top + inputY * m
      invariant forall px, py :: 0 <= px < output.width && 0 <= py < output.height ==>
                  output.bits[px, py] == DarkBefore(input, left, top, m, inputY, 0, px, py)
    {
      RenderRow(output, input, left, top, m, inputY, outputY);
      inputY, outputY := inputY + 1, outputY + m;
    }
  }

  // ---------------------------------------------------------------- layouts

  /** Where a renderer puts the symbol: the output size, the pixels per module and the
    * offset of the first module. */
  datatype Layout = Layout(outputWidth: nat, outputHeight: nat, multiple: nat, leftPadding: nat, topPadding: nat)

  /** The output shows exactly the dark modules, laid out as the layout says. */
  ghost predicate Rendered(output: BitMatrix, input: ByteMatrix, layout: Layout)
    reads output, output.bits
  {
    && input.WellFormed() && layout.multiple > 0
    && output.Valid()
    && output.width == layout.outputWidth && output.height == layout.outputHeight
    && forall px, py :: 0 <= px < output.width && 0 <= py < output.height ==>
         output.bits[px, py] == Dark(input, layout.leftPadding, layout.topPadding, layout.multiple, px, py)
  }

  function Max(a: int, b: int): int
  {
    if a >= b then a else b
  }

  function Min(a: int, b: int): int
  {
    if a <= b then a else b
  }

  /** The layout of renderResult(code, width, height, quietZone): the output at least
    * the requested size and at least the symbol with its quiet zone, the largest whole
    * number of pixels per module that fits, and the symbol centred. */
  function ScaledLayout(inputWidth: nat, inputHeight: nat, width: int, height: int, quietZone: nat): Layout
    requires inputWidth + quietZone * 2 > 0 && inputHeight + quietZone * 2 > 0
  {
    var qrWidth := inputWidth + quietZone * 2;
    var qrHeight := inputHeight + quietZone * 2;
    var outputWidth := Max(width, qrWidth);
    var outputHeight := Max(height, qrHeight);
    var multiple := Min(outputWidth / qrWidth, outputHeight / qrHeight);
    MultipleFits(outputWidth, qrWidth, inputWidth, multiple);
    MultipleFits(outputHeight, qrHeight, inputHeight, multiple);
    Layout(outputWidth, outputHeight, multiple,
           (outputWidth - inputWidth * multiple) / 2, (outputHeight - inputHeight * multiple) / 2)
  }

  lemma MultipleFits(output: nat, qr: nat, input: nat, multiple: nat)
    requires 0 < qr <= output && input <= qr && multiple <= output / qr
    ensures input * multiple <= qr * multiple <= output
  {
    BitArrays.MulMonotone(input, qr, multiple);
    BitArrays.MulMonotone(multiple, output / qr, qr);
  }

  /** The scaled layout: the output is the larger of the requested and the symbol's
    * size; the multiple is at least 1, the symbol with its quiet zone fits at that
    * multiple and not at the next; the padding centres the symbol, rounding down, and
    * is never smaller than the quiet zone. */
  lemma ScaledLayoutProperties(inputWidth: nat, inputHeight: nat, width: int, height: int, quietZone: nat)
    requires inputWidth + quietZone * 2 > 0 && inputHeight + quietZone * 2 > 0
    ensures var l := ScaledLayout(inputWidth, inputHeight, width, height, quietZone);
            var qrWidth, qrHeight := inputWidth + quietZone * 2, inputHeight + quietZone * 2;
            && l.outputWidth >= width && l.outputWidth >= qrWidth && (l.outputWidth == width || l.outputWidth == qrWidth)
            && l.outputHeight >= height && l.outputHeight >= qrHeight
            && (l.outputHeight == height || l.outputHeight == qrHeight)
            && l.multiple >= 1
            && qrWidth * l.multiple <= l.outputWidth && qrHeight * l.multiple <= l.outputHeight
            && (qrWidth * (l.multiple + 1) > l.outputWidth || qrHeight * (l.multiple + 1) > l.outputHeight)
            && 2 * l.leftPadding <= l.outputWidth - inputWidth * l.multiple <= 2 * l.leftPadding + 1
            && 2 * l.topPadding <= l.outputHeight - inputHeight * l.multiple <= 2 * l.topPadding + 1
            && l.leftPadding >= quietZone * l.multiple && l.topPadding >= quietZone * l.multiple
  {
    var l := ScaledLayout(inputWidth, inputHeight, width, height, quietZone);
    AxisLayout(inputWidth, quietZone, l.outputWidth, l.multiple);
    AxisLayout(inputHeight, quietZone, l.outputHeight, l.multiple);
  }

  /** One axis of the scaled layout: the quotient of the output by the symbol's size is
    * at least 1 and the largest multiple that fits; at any multiple up to it, the
    * padding halves the space left over, rounding down, and covers the quiet zone. */
  lemma AxisLayout(input: nat, quietZone: nat, output: nat, multiple: nat)
    requires 0 < input + quietZone * 2 <= output && multiple <= output / (input + quietZone * 2)
    ensures output / (input + quietZone * 2) >= 1
    ensures (input + quietZone * 2) * (output / (input + quietZone * 2) + 1) > output
    ensures (input + quietZone * 2) * multiple <= output
    ensures 2 * ((output - input * multiple) / 2) <= output - input * multiple <= 2 * ((output - input * multiple) / 2) + 1
    ensures (output - input * multiple) / 2 >= quietZone * multiple
  {
    var qr := input + quietZone * 2;
    assert output / qr >= 1 by {
      BitArrays.DivModUnique(qr, qr, 1, 0);
      DivMonotone(qr, output, qr);
    }
    NextMultipleTooLarge(output, qr);
    MultipleFits(output, qr, input, multiple);
    assert qr * multiple == input * multiple + 2 * (quietZone * multiple);
    var rest := output - input * multiple;
    assert rest >= 2 * (quietZone * multiple);
    assert rest == 2 * (rest / 2) + rest % 2;
  }

  lemma DivMonotone(a: nat, b: nat, d: nat)
    requires a <= b && d > 0
    ensures a / d <= b / d
  {
    var qa, qb := a / d, b / d;
    assert a == qa * d + a % d && b == qb * d + b % d;
    if qb < qa {
      BitArrays.MulMonotone(qb + 1, qa, d);
    }
  }

  lemma NextMultipleTooLarge(n: nat, d: nat)
    requires d > 0
    ensures d * (n / d + 1) > n
  {
    assert n == (n / d) * d + n % d;
  }

  /** The layout of renderResult(code, moduleSize, quietZone): moduleSize pixels per
    * module, the quiet zone on every side. */
  function FixedLayout(inputWidth: nat, inputHeight: nat, moduleSize: nat, quietZone: nat): Layout
  {
    Layout((inputWidth + quietZone * 2) * moduleSize, (inputHeight + quietZone * 2) * moduleSize,
           moduleSize, quietZone * moduleSize, quietZone * moduleSize)
  }

  /** The fixed layout: the symbol with its quiet zone at moduleSize pixels per module
    * fills the output, with a margin of quietZone modules on each of the four sides,
    * and module (x, y) occupies the square at ((x + quietZone) moduleSize,
    * (y + quietZone) moduleSize). */
  lemma FixedLayoutProperties(inputWidth: nat, inputHeight: nat, moduleSize: nat, quietZone: nat, x: nat, y: nat)
    ensures var l := FixedLayout(inputWidth, inputHeight, moduleSize, quietZone);
            && l.leftPadding + inputWidth * moduleSize + quietZone * moduleSize == l.outputWidth
            && l.topPadding + inputHeight * moduleSize + quietZone * moduleSize == l.outputHeight
            && l.leftPadding + x * moduleSize == (x + quietZone) * moduleSize
            && l.topPadding + y * moduleSize == (y + quietZone) * moduleSize
  {
    assert (inputWidth + quietZone * 2) * moduleSize == inputWidth * moduleSize + 2 * (quietZone * moduleSize);
    assert (inputHeight + quietZone * 2) * moduleSize == inputHeight * moduleSize + 2 * (quietZone * moduleSize);
    assert (x + quietZone) * moduleSize == x * moduleSize + quietZone * moduleSize;
    assert (y + quietZone) * moduleSize == y * moduleSize + quietZone * moduleSize;
  }

  /** The example in renderResult's comment: a 25 by 25 symbol asked for at 200 by 160
    * gets 4 pixels per module, a 132 by 132 symbol with its quiet zone, centred. */
  lemma ScaledLayoutExample()
    ensures ScaledLayout(25, 25, 200, 160, 4) == Layout(200, 160, 4, 50, 30)
    ensures (25 + 2 * 4) * ScaledLayout(25, 25, 200, 160, 4).multiple == 132
  {
  }

  // ---------------------------------------------------------------- renderResult

  /** renderResult(code, width, height, quietZone): the symbol scaled by the largest
    * whole multiple that fits the requested size, centred; a null matrix is an
    * IllegalStateException, and an empty symbol without quiet zone divides by zero. */
  method RenderResult(code: QRCode, width: int, height: int, quietZone: int) returns (result: Result<BitMatrix>)
    requires quietZone >= 0
    requires code.matrix.Some? ==> code.matrix.value.WellFormed()
    ensures code.matrix.None? ==> result == Failure(IllegalState(""))
    ensures code.matrix.Some? ==>
              var input := code.matrix.value;
              && (result.Failure? <==> input.width + quietZone * 2 == 0 || input.height + quietZone * 2 == 0)
              && (result.Failure? ==> result.error == Arithmetic("/ by zero"))
              && (result.Success? ==>
                    && fresh(result.value) && fresh(result.value.bits)
                    && Rendered(result.value, input, ScaledLayout(input.width, input.height, width, height, quietZone)))
  {
    if code.matrix.None? {
      return Failure(IllegalState(""));
    }
    var input := code.matrix.value;
    var inputWidth := input.width;
    var inputHeight := input.height;
    var qrWidth := inputWidth + quietZone * 2;
    var qrHeight := inputHeight + quietZone * 2;
    var outputWidth := Max(width, qrWidth);
    var outputHeight := Max(height, qrHeight);
    if qrWidth == 0 || qrHeight == 0 {
      return Failure(Arithmetic("/ by zero"));
    }
    var multiple := Min(outputWidth / qrWidth, outputHeight / qrHeight);
    var leftPadding := (outputWidth - inputWidth * multiple) / 2;
    var topPadding := (outputHeight - inputHeight * multiple) / 2;
    ghost var layout := ScaledLayout(inputWidth, inputHeight, width, height, quietZone);
    ScaledLayoutProperties(inputWidth, inputHeight, width, height, quietZone);
    assert layout == Layout(outputWidth, outputHeight, multiple, leftPadding, topPadding);
    var output := new BitMatrix(outputWidth, outputHeight);
    RenderModules(output, input, leftPadding, topPadding, multiple);
    return Success(output);
  }

  /** renderResult(code, moduleSize, quietZone): every module drawn as a moduleSize
    * square behind a quiet zone of quietZone modules; a null matrix is an
    * IllegalStateException, and an output with no pixels is refused by BitMatrix. */
  method RenderResultFixed(code: QRCode, moduleSize: nat, quietZone: int) returns (result: Result<BitMatrix>)
    requires quietZone >= 0
    requires code.matrix.Some? ==> code.matrix.value.WellFormed()
    ensures code.matrix.None? ==> result == Failure(IllegalState(""))
    ensures code.matrix.Some? ==>
              var input := code.matrix.value;
              var layout := FixedLayout(input.width, input.height, moduleSize, quietZone);
              && (result.Failure? <==> layout.outputWidth == 0 || layout.outputHeight == 0)
              && (result.Failure? ==> result.error == IllegalArgument(DIMENSIONS_MESSAGE))
              && (result.Success? ==>
                    && fresh(result.value) && fresh(result.value.bits)
                    && Rendered(result.value, input, layout))
  {
    if code.matrix.None? {
      return Failure(IllegalState(""));
    }
    var input := code.matrix.value;
    var inputWidth := input.width;
    var inputHeight := input.height;
    var qrWidth := (inputWidth + quietZone * 2) * moduleSize;
    var qrHeight := (inputHeight + quietZone * 2) * moduleSize;
    var leftPadding := quietZone * moduleSize;
    var topPadding := quietZone * moduleSize;
    FixedLayoutProperties(inputWidth, inputHeight, moduleSize, quietZone, 0, 0);
    var created := NewBitMatrix(qrWidth, qrHeight);
    if created.Failure? {
      return Failure(created.error);
    }
    var output := created.value;
    RenderModules(output, input, leftPadding, topPadding, moduleSize);
    return Success(output);
  }

  // ---------------------------------------------------------------- encode

  /** A Java int as Integer.toString writes it. */
  function DecimalString(n: int): string
  {
    if n < 0 then "-" + Digits(-n) else Digits(n)
  }

  function Digits(n: nat): (s: string)
    ensures |s| >= 1 && forall i :: 0 <= i < |s| ==> '0' <= s[i] <= '9'
  {
    var last := ['0' + (n % 10) as char];
    if n < 10 then last else Digits(n / 10) + last
  }

  /** The level and quiet zone encode uses: L and QUIET_ZONE_SIZE unless the
    * ERROR_CORRECTION or MARGIN hint gives one. */
  function ChooseSettings(hints: Option<Hints>): EncodeSettings
  {
    match hints
    case None => EncodeSettings(L, QUIET_ZONE_SIZE)
    case Some(h) =>
      EncodeSettings(if h.errorCorrection.Some? then h.errorCorrection.value else L,
                     if h.margin.Some? then h.margin.value else QUIET_ZONE_SIZE)
  }

  /** Without hints encode uses level L and a quiet zone of 4; a hint present
    * overrides its default, a hint absent leaves it. */
  lemma SettingsDefaults(hints: Option<Hints>)
    ensures hints.None? ==> ChooseSettings(hints) == EncodeSettings(L, 4)
    ensures hints.Some? && hints.value.errorCorrection.Some? ==>
              ChooseSettings(hints).errorCorrectionLevel == hints.value.errorCorrection.value
    ensures hints.Some? && hints.value.errorCorrection.None? ==> ChooseSettings(hints).errorCorrectionLevel == L
    ensures hints.Some? && hints.value.margin.Some? ==> ChooseSettings(hints).quietZone == hints.value.margin.value
    ensures hints.Some? && hints.value.margin.None? ==> ChooseSettings(hints).quietZone == 4
  {
  }

  /** The checks shared by both encode methods, in the order they run: empty contents,
    * then a format other than QR_CODE. */
  function CheckContents(contents: string, format: BarcodeFormat): Option<Exception>
  {
    if |contents| == 0 then Some(IllegalArgument("Found empty contents"))
    else if format != QR_CODE then Some(IllegalArgument("Can only encode QR_CODE, but got " + FormatName(format)))
    else None
  }

  function TooSmall(width: int, height: int): Exception
  {
    IllegalArgument("Requested dimensions are too small: " + DecimalString(width) + "x" + DecimalString(height))
  }

  /** A margin hint, when given, is a quiet zone the renderers can draw. */
  predicate MarginUsable(hints: Option<Hints>)
  {
    hints.Some? && hints.value.margin.Some? ==> hints.value.margin.value >= 0
  }

  /** The encoder, whenever it returns a matrix, returns a well-formed non-empty one. */
  ghost predicate EncoderWellFormed(encoder: (string, ErrorCorrectionLevel, Option<Hints>) -> Result<QRCode>)
  {
    forall contents, level, hints ::
      encoder(contents, level, hints).Success? && encoder(contents, level, hints).value.matrix.Some? ==>
        && encoder(contents, level, hints).value.matrix.value.WellFormed()
        && encoder(contents, level, hints).value.matrix.value.width > 0
        && encoder(contents, level, hints).value.matrix.value.height > 0
  }

  /** encode(contents, format, width, height, hints): the argument checks, the level and
    * quiet zone settled from the hints, the encoder's refusal passed on, and the symbol
    * rendered at the requested size. */
  method Encode(contents: string, format: BarcodeFormat, width: int, height: int, hints: Option<Hints>,
                encoder: (string, ErrorCorrectionLevel, Option<Hints>) -> Result<QRCode>)
    returns (result: Result<BitMatrix>)
    requires MarginUsable(hints) && EncoderWellFormed(encoder)
    ensures CheckContents(contents, format).Some? ==> result == Failure(CheckContents(contents, format).value)
    ensures CheckContents(contents, format).None? && (width < 0 || height < 0) ==>
              result == Failure(TooSmall(width, height))
    ensures CheckContents(contents, format).None? && width >= 0 && height >= 0 ==>
              var settings := ChooseSettings(hints);
              var encoded := encoder(contents, settings.errorCorrectionLevel, hints);
              && (encoded.Failure? ==> result == Failure(encoded.error))
              && (encoded.Success? && encoded.value.matrix.None? ==> result == Failure(IllegalState("")))
              && (encoded.Success? && encoded.value.matrix.Some? ==>
                    && result.Success? && fresh(result.value) && fresh(result.value.bits)
                    && var input := encoded.value.matrix.value;
                       Rendered(result.value, input, ScaledLayout(input.width, input.height, width, height, settings.quietZone)))
  {
    if |contents| == 0 {
      return Failure(IllegalArgument("Found empty contents"));
    }
    if format != QR_CODE {
      return Failure(IllegalArgument("Can only encode QR_CODE, but got " + FormatName(format)));
    }
    if width < 0 || height < 0 {
      return Failure(TooSmall(width, height));
    }
    var errorCorrectionLevel := L;
    var quietZone := QUIET_ZONE_SIZE;
    if hints.Some? {
      if hints.value.errorCorrection.Some? {
        errorCorrectionLevel := hints.value.errorCorrection.value;
      }
      if hints.value.margin.Some? {
        quietZone := hints.value.margin.value;
      }
    }
    var code := encoder(contents, errorCorrectionLevel, hints);
    if code.Failure? {
      return Failure(code.error);
    }
    result := RenderResult(code.value, width, height, quietZone);
  }

  /** encode(contents, format, moduleSize, hints): the same checks with the module size
    * in place of the dimensions, then every module drawn moduleSize pixels wide. */
  method EncodeFixed(contents: string, format: BarcodeFormat, moduleSize: int, hints: Option<Hints>,
                     encoder: (string, ErrorCorrectionLevel, Option<Hints>) -> Result<QRCode>)
    returns (result: Result<BitMatrix>)
    requires MarginUsable(hints) && EncoderWellFormed(encoder)
    ensures CheckContents(contents, format).Some? ==> result == Failure(CheckContents(contents, format).value)
    ensures CheckContents(contents, format).None? && moduleSize < 0 ==>
              result == Failure(TooSmall(moduleSize, moduleSize))
    ensures CheckContents(contents, format).None? && moduleSize >= 0 ==>
              var settings := ChooseSettings(hints);
              var encoded := encoder(contents, settings.errorCorrectionLevel, hints);
              && (encoded.Failure? ==> result == Failure(encoded.error))
              && (encoded.Success? && encoded.value.matrix.None? ==> result == Failure(IllegalState("")))
              && (encoded.Success? && encoded.value.matrix.Some? && moduleSize == 0 ==>
                    result == Failure(IllegalArgument(DIMENSIONS_MESSAGE)))
              && (encoded.Success? && encoded.value.matrix.Some? && moduleSize > 0 ==>
                    && result.Success? && fresh(result.value) && fresh(result.value.bits)
                    && var input := encoded.value.matrix.value;
                       Rendered(result.value, input, FixedLayout(input.width, input.height, moduleSize, settings.quietZone)))
  {
    if |contents| == 0 {
      return Failure(IllegalArgument("Found empty contents"));
    }
    if format != QR_CODE {
      return Failure(IllegalArgument("Can only encode QR_CODE, but got " + FormatName(format)));
    }
    if moduleSize < 0 {
      return Failure(TooSmall(moduleSize, moduleSize));
    }
    var errorCorrectionLevel := L;
    var quietZone := QUIET_ZONE_SIZE;
    if hints.Some? {
      if hints.value.errorCorrection.Some? {
        errorCorrectionLevel := hints.value.errorCorrection.value;
      }
      if hints.value.margin.Some? {
        quietZone := hints.value.margin.value;
      }
    }
    var code := encoder(contents, errorCorrectionLevel, hints);
    if code.Failure? {
      return Failure(code.error);
    }
    result := RenderResultFixed(code.value, moduleSize, quietZone);
  }
}
