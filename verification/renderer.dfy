/**
 * The frame renderer: the image is walked in a row-major grid of cells of
 * `scaleX` × `scaleY` pixels starting at (0, 0); each cell is averaged and
 * drawn as one ramp character, and each row of cells ends with a newline.
 * The scale factors are parameters here, at least 1.
 */
module Renderer {
  import opened GoInt
  import opened Ascii
  import opened Sampler

  /** Number of lines: the iterations of `for y := 0; y < height; y += scaleY`. */
  function LineCount(img: Image, scaleY: int): nat
    requires scaleY >= 1
  {
    Steps(img.height, scaleY)
  }

  /** Characters per line: the iterations of `for x := 0; x < width; x += scaleX`. */
  function LineWidth(img: Image, scaleX: int): nat
    requires scaleX >= 1
  {
    Steps(img.width, scaleX)
  }

  /** The character of the cell in column `col` of line `row`. The cell
      starts inside the image, so its average is defined. */
  function Glyph(img: Image, scaleX: int, scaleY: int, col: int, row: int): (c: char)
    requires img.WellFormed() && scaleX >= 1 && scaleY >= 1
    requires 0 <= col < LineWidth(img, scaleX) && 0 <= row < LineCount(img, scaleY)
    ensures c in Ramp
  {
    StepsSpec(img.width, scaleX, col);
    StepsSpec(img.height, scaleY, row);
    BrightnessToAscii(CellAverage(img, col * scaleX, row * scaleY, scaleX, scaleY))
  }

  /** Line `row` of the frame, without its newline. */
  function Line(img: Image, scaleX: int, scaleY: int, row: int): (l: seq<char>)
    requires img.WellFormed() && scaleX >= 1 && scaleY >= 1
    requires 0 <= row < LineCount(img, scaleY)
    ensures |l| == LineWidth(img, scaleX)
  {
    seq(LineWidth(img, scaleX), col requires 0 <= col < LineWidth(img, scaleX) =>
      Glyph(img, scaleX, scaleY, col, row))
  }

  /** The lines of the frame, each with its newline. */
  function FrameLines(img: Image, scaleX: int, scaleY: int): (ls: seq<seq<char>>)
    requires img.WellFormed() && scaleX >= 1 && scaleY >= 1
    ensures |ls| == LineCount(img, scaleY)
    ensures forall row :: 0 <= row < |ls| ==> |ls[row]| == LineWidth(img, scaleX) + 1
  {
    seq(LineCount(img, scaleY), row requires 0 <= row < LineCount(img, scaleY) =>
      Line(img, scaleX, scaleY, row) + "\n")
  }

  function Concat(blocks: seq<seq<char>>): seq<char>
  {
    if |blocks| == 0 then [] else Concat(blocks[..|blocks| - 1]) + blocks[|blocks| - 1]
  }

  /** The whole frame: its lines one after another. */
  function Frame(img: Image, scaleX: int, scaleY: int): seq<char>
    requires img.WellFormed() && scaleX >= 1 && scaleY >= 1
  {
    Concat(FrameLines(img, scaleX, scaleY))
  }

  /** Blocks of one length `stride` concatenate to |blocks| * stride items. */
  lemma {:induction false} ConcatLength(blocks: seq<seq<char>>, stride: int)
    requires forall k :: 0 <= k < |blocks| ==> |blocks[k]| == stride
    ensures |Concat(blocks)| == |blocks| * stride
  {
    if |blocks| > 0 {
      ConcatLength(blocks[..|blocks| - 1], stride);
      Distrib(stride, |blocks| - 1, 1);
    }
  }

  /** Column col of line row sits at offset row*stride + col, before the end
      of a text of n lines when row < n. */
  lemma OffsetBelow(row: int, col: int, stride: int, n: int)
    requires 0 <= row < n && 0 <= col < stride
    ensures 0 <= row * stride + col < n * stride
  {
    MulMonotone(row + 1, n, stride);
    Distrib(stride, row, 1);
  }

  /** In blocks of one length `stride`, item col of block row is at offset
      row*stride + col of the concatenation. */
  lemma {:induction false} ConcatAt(blocks: seq<seq<char>>, stride: int, row: int, col: int)
    requires forall k :: 0 <= k < |blocks| ==> |blocks[k]| == stride
    requires 0 <= row < |blocks| && 0 <= col < stride
    ensures 0 <= row * stride + col < |Concat(blocks)|
    ensures Concat(blocks)[row * stride + col] == blocks[row][col]
  {
    var n := |blocks|;
    var prev := blocks[..n - 1];
    ConcatLength(prev, stride);
    ConcatLength(blocks, stride);
    OffsetBelow(row, col, stride, n);
    if row < n - 1 {
      ConcatAt(prev, stride, row, col);
    }
  }

  lemma DivBelow(p: int, d: int, n: int)
    requires d >= 1 && 0 <= p < n * d
    ensures 0 <= p / d < n
  {
    MulMonotone(n, p / d, d);
  }

  /** Every cell the renderer visits starts inside the image and has
      positive size, so the sampler's pixel count is positive and its
      division is defined. */
  lemma VisitedCellsNonEmpty(img: Image, scaleX: int, scaleY: int, col: int, row: int)
    requires img.WellFormed() && scaleX >= 1 && scaleY >= 1
    requires 0 <= col < LineWidth(img, scaleX) && 0 <= row < LineCount(img, scaleY)
    ensures NonEmptyCell(img, col * scaleX, row * scaleY, scaleX, scaleY)
    ensures |Cell(img, col * scaleX, row * scaleY, scaleX, scaleY)| > 0
  {
    StepsSpec(img.width, scaleX, col);
    StepsSpec(img.height, scaleY, row);
    CellCount(img, col * scaleX, row * scaleY, scaleX, scaleY);
  }

  /** A frame has LineCount lines of LineWidth characters plus a newline. */
  lemma FrameLength(img: Image, scaleX: int, scaleY: int)
    requires img.WellFormed() && scaleX >= 1 && scaleY >= 1
    ensures |Frame(img, scaleX, scaleY)| == LineCount(img, scaleY) * (LineWidth(img, scaleX) + 1)
  {
    ConcatLength(FrameLines(img, scaleX, scaleY), LineWidth(img, scaleX) + 1);
  }

  /** Column col of line row of the frame: the glyph of the cell at
      (col*scaleX, row*scaleY), or the newline after the last cell. */
  lemma FrameCharAt(img: Image, scaleX: int, scaleY: int, row: int, col: int)
    requires img.WellFormed() && scaleX >= 1 && scaleY >= 1
    requires 0 <= row < LineCount(img, scaleY) && 0 <= col <= LineWidth(img, scaleX)
    ensures 0 <= row * (LineWidth(img, scaleX) + 1) + col < |Frame(img, scaleX, scaleY)|
    ensures col == LineWidth(img, scaleX) ==>
              Frame(img, scaleX, scaleY)[row * (LineWidth(img, scaleX) + 1) + col] == '\n'
    ensures col < LineWidth(img, scaleX) ==>
              Frame(img, scaleX, scaleY)[row * (LineWidth(img, scaleX) + 1) + col]
                == Glyph(img, scaleX, scaleY, col, row)
  {
    var lines := FrameLines(img, scaleX, scaleY);
    ConcatAt(lines, LineWidth(img, scaleX) + 1, row, col);
    assert lines[row] == Line(img, scaleX, scaleY, row) + "\n";
  }

  /** Every character of a frame is a newline or a ramp character, and it is
      a newline exactly at the end of a line. */
  lemma FrameAlphabet(img: Image, scaleX: int, scaleY: int, p: int)
    requires img.WellFormed() && scaleX >= 1 && scaleY >= 1
    requires 0 <= p < |Frame(img, scaleX, scaleY)|
    ensures Frame(img, scaleX, scaleY)[p] == '\n' || Frame(img, scaleX, scaleY)[p] in Ramp
    ensures Frame(img, scaleX, scaleY)[p] == '\n' <==>
              p % (LineWidth(img, scaleX) + 1) == LineWidth(img, scaleX)
  {
    var stride := LineWidth(img, scaleX) + 1;
    FrameLength(img, scaleX, scaleY);
    DivBelow(p, stride, LineCount(img, scaleY));
    var row, col := p / stride, p % stride;
    assert p == row * stride + col;
    FrameCharAt(img, scaleX, scaleY, row, col);
    assert '\n' !in Ramp;
  }

  /** At scale 1 × 1 the frame has one line per pixel row and one character
      per pixel. */
  lemma UnitScale(img: Image)
    requires img.WellFormed()
    ensures LineCount(img, 1) == img.height && LineWidth(img, 1) == img.width
    ensures |Frame(img, 1, 1)| == img.height * (img.width + 1)
  {
    StepsUnit(img.width);
    StepsUnit(img.height);
    FrameLength(img, 1, 1);
  }

  /** At scale 1 × 1 each character is the one drawn for its own pixel. */
  lemma UnitScaleGlyph(img: Image, col: int, row: int)
    requires img.WellFormed() && 0 <= col < img.width && 0 <= row < img.height
    ensures LineCount(img, 1) == img.height && LineWidth(img, 1) == img.width
    ensures Glyph(img, 1, 1, col, row) == BrightnessToAscii(img.gray[row][col])
  {
    StepsUnit(img.width);
    StepsUnit(img.height);
    SinglePixel(img, col, row);
  }

  /** An image of one grayscale value v draws, in every cell, the character
      drawn for v. */
  lemma UniformFrame(img: Image, v: int, scaleX: int, scaleY: int, col: int, row: int)
    requires img.Valid() && img.InRange(v, v) && scaleX >= 1 && scaleY >= 1
    requires 0 <= col < LineWidth(img, scaleX) && 0 <= row < LineCount(img, scaleY)
    ensures Glyph(img, scaleX, scaleY, col, row) == BrightnessToAscii(v)
  {
    StepsSpec(img.width, scaleX, col);
    StepsSpec(img.height, scaleY, row);
    UniformCell(img, v, col * scaleX, row * scaleY, scaleX, scaleY);
  }

  /** The renderer's inner loop: the cells of line `row`, left to right,
      each cell's average drawn as a ramp character. Every cell visited
      starts inside the image and has positive size, so every call of the
      sampler divides by a positive count. */
  method RenderLine(img: Image, scaleX: int, scaleY: int, y: int, ghost row: int) returns (line: seq<char>)
    requires img.WellFormed() && scaleX >= 1 && scaleY >= 1
    requires 0 <= row < LineCount(img, scaleY) && y == row * scaleY
    ensures line == Line(img, scaleX, scaleY, row)
  {
    StepsSpec(img.height, scaleY, row);
    var maxX := img.width;
    line := [];
    var x := 0;
    ghost var col := 0;
    while x < maxX
      invariant 0 <= col <= LineWidth(img, scaleX)
      invariant x == col * scaleX
      invariant line == Line(img, scaleX, scaleY, row)[..col]
    {
      StepsSpec(maxX, scaleX, col);
      var c := AvgPixel(img, x, y, scaleX, scaleY);
      assert Line(img, scaleX, scaleY, row)[..col + 1]
          == Line(img, scaleX, scaleY, row)[..col] + [BrightnessToAscii(c)];
      line := line + [BrightnessToAscii(c)];
      Distrib(scaleX, col, 1);
      x := x + scaleX;
      col := col + 1;
    }
    StepsSpec(maxX, scaleX, col);
    assert Line(img, scaleX, scaleY, row)[..col] == Line(img, scaleX, scaleY, row);
  }

  /** The renderer: rows of cells top to bottom, each rendered line followed
      by a newline. */
  method ProcessFrame(img: Image, scaleX: int, scaleY: int) returns (frameData: seq<char>)
    requires img.WellFormed() && scaleX >= 1 && scaleY >= 1
    ensures frameData == Frame(img, scaleX, scaleY)
    ensures |frameData| == LineCount(img, scaleY) * (LineWidth(img, scaleX) + 1)
  {
    ghost var lines := FrameLines(img, scaleX, scaleY);
    var maxY := img.height;
    frameData := [];
    var y := 0;
    ghost var row := 0;
    while y < maxY
      invariant 0 <= row <= |lines|
      invariant y == row * scaleY
      invariant frameData == Concat(lines[..row])
    {
      StepsSpec(maxY, scaleY, row);
      var line := RenderLine(img, scaleX, scaleY, y, row);
      assert lines[..row + 1][..row] == lines[..row];
      frameData := frameData + line + "\n";
      Distrib(scaleY, row, 1);
      y := y + scaleY;
      row := row + 1;
    }
    StepsSpec(maxY, scaleY, row);
    assert lines[..row] == lines;
    FrameLength(img, scaleX, scaleY);
  }
}
