/**
 * The luminance sampler: the integer average grayscale over one rectangular
 * cell of an image, the cell clipped to the image's bounds.
 *
 * An image is the grid of its per-pixel grayscale values, `gray[y][x]`,
 * with its origin at (0, 0) and its `Max` corner at (width, height). Each
 * value stands for what the program's grayscale conversion returns for
 * that pixel, an integer in [0, 255].
 */
module Sampler {
  import opened GoInt

  datatype Image = Image(width: nat, height: nat, gray: seq<seq<int>>) {

    /** `height` rows of `width` values each. */
    predicate WellFormed() {
      |gray| == height && forall y :: 0 <= y < |gray| ==> |gray[y]| == width
    }

    /** Every grayscale value lies in [lo, hi]. */
    predicate InRange(lo: int, hi: int) {
      WellFormed() &&
      forall y, x :: 0 <= y < height && 0 <= x < width ==> lo <= gray[y][x] <= hi
    }

    /** The grayscale conversion only produces values in [0, 255]. */
    predicate Valid() {
      InRange(0, 255)
    }
  }

  function Min(a: int, b: int): int {
    if a < b then a else b
  }

  /** Where the loop `for v := start; v < start+len && v < bound; v++`
      stops: it visits exactly the integers in [start, ClipEnd). */
  function ClipEnd(start: int, len: int, bound: int): (e: int)
    ensures start <= e
    ensures e == start || e == Min(start + len, bound)
    ensures start < e <==> start < start + len && start < bound
  {
    if start < start + len && start < bound then Min(start + len, bound) else start
  }

  /** [lo, hi) is an empty range or one inside [0, bound). */
  predicate Span(lo: int, hi: int, bound: int) {
    0 <= lo <= hi && (lo == hi || hi <= bound)
  }

  /** The values of column x, rows y0 up to (excluding) y1, top to bottom. */
  function Column(img: Image, x: int, y0: int, y1: int): (c: seq<int>)
    requires img.WellFormed() && 0 <= x < img.width && Span(y0, y1, img.height)
    ensures |c| == y1 - y0
  {
    seq(y1 - y0, k requires 0 <= k < y1 - y0 => img.gray[y0 + k][x])
  }

  /** The values of the rectangle [x0, x1) × [y0, y1), column after column. */
  function CellPixels(img: Image, x0: int, x1: int, y0: int, y1: int): seq<int>
    requires img.WellFormed() && Span(x0, x1, img.width) && Span(y0, y1, img.height)
    decreases x1 - x0
  {
    if x1 == x0 then []
    else CellPixels(img, x0, x1 - 1, y0, y1) + Column(img, x1 - 1, y0, y1)
  }

  /** The values the sampler reads for the cell at (x, y) of size w × h:
      the cell intersected with the image. */
  function Cell(img: Image, x: int, y: int, w: int, h: int): seq<int>
    requires img.WellFormed() && 0 <= x && 0 <= y
  {
    CellPixels(img, x, ClipEnd(x, w, img.width), y, ClipEnd(y, h, img.height))
  }

  function Sum(s: seq<int>): int
  {
    if |s| == 0 then 0 else Sum(s[..|s| - 1]) + s[|s| - 1]
  }

  lemma {:induction false} SumAppend(a: seq<int>, b: seq<int>)
    ensures Sum(a + b) == Sum(a) + Sum(b)
    decreases |b|
  {
    if |b| > 0 {
      assert (a + b)[..|a + b| - 1] == a + b[..|b| - 1];
      SumAppend(a, b[..|b| - 1]);
    } else {
      assert a + b == a;
    }
  }

  /** A cell the sampler can average: it starts inside the image and has
      positive width and height. */
  predicate NonEmptyCell(img: Image, x: int, y: int, w: int, h: int) {
    0 <= x < img.width && 0 <= y < img.height && w >= 1 && h >= 1
  }

  /** The average of a non-empty cell, with Go's truncating division. */
  function CellAverage(img: Image, x: int, y: int, w: int, h: int): int
    requires img.WellFormed() && NonEmptyCell(img, x, y, w, h)
  {
    CellCount(img, x, y, w, h);
    Quo(Sum(Cell(img, x, y, w, h)), |Cell(img, x, y, w, h)|)
  }

  lemma {:induction false} CellPixelsLength(img: Image, x0: int, x1: int, y0: int, y1: int)
    requires img.WellFormed() && Span(x0, x1, img.width) && Span(y0, y1, img.height)
    ensures |CellPixels(img, x0, x1, y0, y1)| == (x1 - x0) * (y1 - y0)
    decreases x1 - x0
  {
    if x1 > x0 {
      CellPixelsLength(img, x0, x1 - 1, y0, y1);
    }
  }

  /** The number of pixels the sampler reads: the clipped width times the
      clipped height, and positive exactly for a cell that starts inside the
      image and has positive size. */
  lemma CellCount(img: Image, x: int, y: int, w: int, h: int)
    requires img.WellFormed() && 0 <= x && 0 <= y
    ensures |Cell(img, x, y, w, h)| == (ClipEnd(x, w, img.width) - x) * (ClipEnd(y, h, img.height) - y)
    ensures x < img.width && y < img.height && w >= 0 && h >= 0 ==>
              |Cell(img, x, y, w, h)| == (Min(x + w, img.width) - x) * (Min(y + h, img.height) - y)
    ensures |Cell(img, x, y, w, h)| > 0 <==> NonEmptyCell(img, x, y, w, h)
  {
    var xe, ye := ClipEnd(x, w, img.width), ClipEnd(y, h, img.height);
    CellPixelsLength(img, x, xe, y, ye);
    if xe > x && ye > y {
      assert (xe - x) * (ye - y) > 0;
    }
  }

  /** Sums of values in [lo, hi] lie between lo and hi times the count. */
  lemma {:induction false} SumBounds(s: seq<int>, lo: int, hi: int)
    requires forall k :: 0 <= k < |s| ==> lo <= s[k] <= hi
    ensures lo * |s| <= Sum(s) <= hi * |s|
  {
    if |s| > 0 {
      var init, last := s[..|s| - 1], s[|s| - 1];
      assert forall k :: 0 <= k < |init| ==> init[k] == s[k];
      SumBounds(init, lo, hi);
      assert Sum(s) == Sum(init) + last;
      assert lo <= last <= hi;
      Distrib(lo, |init|, 1);
      Distrib(hi, |init|, 1);
    }
  }

  /** The values of a rectangle of an image with values in [lo, hi] are in
      [lo, hi]. */
  lemma {:induction false} CellPixelsInRange(img: Image, lo: int, hi: int, x0: int, x1: int, y0: int, y1: int)
    requires img.InRange(lo, hi) && Span(x0, x1, img.width) && Span(y0, y1, img.height)
    ensures forall k :: 0 <= k < |CellPixels(img, x0, x1, y0, y1)| ==>
              lo <= CellPixels(img, x0, x1, y0, y1)[k] <= hi
    decreases x1 - x0
  {
    if x1 > x0 {
      CellPixelsInRange(img, lo, hi, x0, x1 - 1, y0, y1);
      var col := Column(img, x1 - 1, y0, y1);
      assert forall k :: 0 <= k < |col| ==> lo <= col[k] <= hi;
    }
  }

  /** CellPixels over [x0, x1 + 1) extends CellPixels over [x0, x1) by
      column x1. */
  lemma CellPixelsSnoc(img: Image, x0: int, x1: int, y0: int, y1: int)
    requires img.WellFormed() && 0 <= x0 <= x1 < img.width && Span(y0, y1, img.height)
    ensures Sum(CellPixels(img, x0, x1 + 1, y0, y1))
            == Sum(CellPixels(img, x0, x1, y0, y1)) + Sum(Column(img, x1, y0, y1))
    ensures |CellPixels(img, x0, x1 + 1, y0, y1)|
            == |CellPixels(img, x0, x1, y0, y1)| + (y1 - y0)
  {
    SumAppend(CellPixels(img, x0, x1, y0, y1), Column(img, x1, y0, y1));
  }

  /** Column(x, y0, y1 + 1) extends Column(x, y0, y1) by the pixel of row y1. */
  lemma ColumnSnoc(img: Image, x: int, y0: int, y1: int)
    requires img.WellFormed() && 0 <= x < img.width && 0 <= y0 <= y1 < img.height
    ensures Column(img, x, y0, y1 + 1) == Column(img, x, y0, y1) + [img.gray[y1][x]]
    ensures Sum(Column(img, x, y0, y1 + 1)) == Sum(Column(img, x, y0, y1)) + img.gray[y1][x]
  {
    var c := Column(img, x, y0, y1 + 1);
    assert c[..|c| - 1] == Column(img, x, y0, y1);
  }

  /** If every pixel lies in [lo, hi], so does the average of any cell. */
  lemma AverageBounds(img: Image, lo: int, hi: int, x: int, y: int, w: int, h: int)
    requires img.Valid() && img.InRange(lo, hi) && NonEmptyCell(img, x, y, w, h)
    ensures lo <= CellAverage(img, x, y, w, h) <= hi
  {
    var c := Cell(img, x, y, w, h);
    CellCount(img, x, y, w, h);
    CellPixelsInRange(img, lo, hi, x, ClipEnd(x, w, img.width), y, ClipEnd(y, h, img.height));
    CellPixelsInRange(img, 0, 255, x, ClipEnd(x, w, img.width), y, ClipEnd(y, h, img.height));
    SumBounds(c, lo, hi);
    SumBounds(c, 0, 255);
    QuoBetween(Sum(c), |c|, lo, hi);
  }

  /** A truncated average of values in [lo, hi] stays in [lo, hi]. */
  lemma QuoBetween(s: int, n: int, lo: int, hi: int)
    requires 0 <= s && n > 0 && lo * n <= s <= hi * n
    ensures lo <= Quo(s, n) <= hi
  {
    var q := Quo(s, n);
    QuoIsFloor(s, n);
    MulMonotone(q + 1, lo, n);
    MulMonotone(hi + 1, q, n);
  }

  /** A cell whose pixels all have the value v averages to exactly v. */
  lemma UniformCell(img: Image, v: int, x: int, y: int, w: int, h: int)
    requires img.Valid() && img.InRange(v, v) && NonEmptyCell(img, x, y, w, h)
    ensures CellAverage(img, x, y, w, h) == v
  {
    AverageBounds(img, v, v, x, y, w, h);
  }

  /** A 1 × 1 cell averages to its one pixel. */
  lemma SinglePixel(img: Image, x: int, y: int)
    requires img.WellFormed() && 0 <= x < img.width && 0 <= y < img.height
    ensures CellAverage(img, x, y, 1, 1) == img.gray[y][x]
  {
    CellCount(img, x, y, 1, 1);
    var c := Cell(img, x, y, 1, 1);
    assert ClipEnd(x, 1, img.width) == x + 1 && ClipEnd(y, 1, img.height) == y + 1;
    assert c == CellPixels(img, x, x, y, y + 1) + Column(img, x, y, y + 1);
    assert c == [img.gray[y][x]];
    assert Sum(c) == Sum([]) + img.gray[y][x];
  }

  /** The inner loop of the sampler: column x of the cell, row after row
      from y while below both y + h and the image's height, adding up the
      values and counting the pixels. */
  method SumColumn(img: Image, x: int, y: int, h: int) returns (sum: int, cnt: int)
    requires img.WellFormed() && 0 <= x < img.width && 0 <= y
    ensures sum == Sum(Column(img, x, y, ClipEnd(y, h, img.height)))
    ensures cnt == ClipEnd(y, h, img.height) - y
  {
    cnt, sum := 0, 0;
    var maxY := img.height;
    ghost var yEnd := ClipEnd(y, h, maxY);
    var j := y;
    while j < y + h && j < maxY
      invariant y <= j <= yEnd
      invariant sum == Sum(Column(img, x, y, j))
      invariant cnt == j - y
    {
      ColumnSnoc(img, x, y, j);
      sum := sum + img.gray[j][x];
      cnt := cnt + 1;
      j := j + 1;
    }
  }

  /** The loop of the sampler: column after column of the clipped cell, from
      x while below both x + w and the image's width, adding up each column.
      It does not divide, so it is total. */
  method SumCell(img: Image, x: int, y: int, w: int, h: int) returns (sum: int, cnt: int)
    requires img.WellFormed() && 0 <= x && 0 <= y
    ensures sum == Sum(Cell(img, x, y, w, h))
    ensures cnt == |Cell(img, x, y, w, h)|
  {
    cnt, sum := 0, 0;
    var maxX := img.width;
    ghost var xEnd, yEnd := ClipEnd(x, w, maxX), ClipEnd(y, h, img.height);
    var i := x;
    while i < x + w && i < maxX
      invariant x <= i <= xEnd
      invariant sum == Sum(CellPixels(img, x, i, y, yEnd))
      invariant cnt == |CellPixels(img, x, i, y, yEnd)|
    {
      var colSum, colCnt := SumColumn(img, i, y, h);
      CellPixelsSnoc(img, x, i, y, yEnd);
      sum := sum + colSum;
      cnt := cnt + colCnt;
      i := i + 1;
    }
  }

  /** The sampler: the clipped cell's sum divided by its pixel count. The
      division is unguarded, so the cell must not be empty. */
  method AvgPixel(img: Image, x: int, y: int, w: int, h: int) returns (avg: int)
    requires img.WellFormed() && NonEmptyCell(img, x, y, w, h)
    ensures avg == CellAverage(img, x, y, w, h)
  {
    var sum, cnt := SumCell(img, x, y, w, h);
    CellCount(img, x, y, w, h);
    avg := Quo(sum, cnt);
  }
}
