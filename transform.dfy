/**
  The geometric pre-transforms of the foreground and its mask: a clockwise
  quarter turn and nearest-neighbour scaling.  Both only move pixels; no
  channel value is ever changed.

  The `float` scale factor is modelled as a positive real, and each
  `(int)` cast of a non-negative value as `.Floor`.
 */
module Transform {
  import opened Raster

  // ----- Rotation by 90 degrees clockwise -----

  /**
    The flat source index that output cell k of the quarter turn of a
    rows x cols image copies.  The output is cols rows by rows columns; its
    cell (x, rows - 1 - y) holds source pixel (y, x).
   */
  function RotateSource(rows: nat, cols: nat, k: nat): (j: nat)
    requires k < rows * cols
    ensures j < rows * cols
  {
    RowOfIndex(cols, rows, k);
    IndexInBounds(rows, cols, rows - 1 - k % rows, k / rows);
    Index(cols, rows - 1 - k % rows, k / rows)
  }

  /** The clockwise quarter turn: the dimensions swap. */
  function Rotate90(img: Image): (out: Image)
    requires img.Valid()
    ensures out.Valid() && out.rows == img.cols && out.cols == img.rows
  {
    Image(img.cols, img.rows,
      seq(img.rows * img.cols, k requires 0 <= k < img.rows * img.cols => img.pixels[RotateSource(img.rows, img.cols, k)]))
  }

  /** Source pixel (y, x) lands, unchanged, at output pixel (x, rows - 1 - y). */
  lemma RotateAt(img: Image, y: nat, x: nat)
    requires img.Valid() && y < img.rows && x < img.cols
    ensures Rotate90(img).At(x, img.rows - 1 - y) == img.At(y, x)
  {
    var t := Index(img.rows, x, img.rows - 1 - y);
    IndexDecompose(img.rows, x, img.rows - 1 - y);
    IndexInBounds(img.cols, img.rows, x, img.rows - 1 - y);
    assert RotateSource(img.rows, img.cols, t) == Index(img.cols, y, x);
    assert Rotate90(img).pixels[t] == img.pixels[RotateSource(img.rows, img.cols, t)];
  }

  /**
    The target index x * rows + (rows - 1 - y) of source pixel (y, x) is
    inside the output, and distinct source pixels have distinct targets: every
    output cell is written exactly once.
   */
  lemma RotateTargetsDistinct(rows: nat, cols: nat, y1: nat, x1: nat, y2: nat, x2: nat)
    requires y1 < rows && x1 < cols && y2 < rows && x2 < cols
    ensures Index(rows, x1, rows - 1 - y1) < cols * rows
    ensures Index(rows, x1, rows - 1 - y1) == Index(rows, x2, rows - 1 - y2) ==> y1 == y2 && x1 == x2
  {
    IndexInBounds(cols, rows, x1, rows - 1 - y1);
    if Index(rows, x1, rows - 1 - y1) == Index(rows, x2, rows - 1 - y2) {
      IndexInjective(rows, x1, rows - 1 - y1, x2, rows - 1 - y2);
    }
  }

  /** The half turn: the flat buffer read backwards. */
  function Rotate180(img: Image): (out: Image)
    requires img.Valid()
    ensures out.Valid() && out.rows == img.rows && out.cols == img.cols
  {
    Image(img.rows, img.cols,
      seq(|img.pixels|, k requires 0 <= k < |img.pixels| => img.pixels[|img.pixels| - 1 - k]))
  }

  /** Pixel (y, x) and pixel (rows - 1 - y, cols - 1 - x) sit at mirrored flat indices. */
  lemma HalfTurnIndex(rows: nat, cols: nat, y: nat, x: nat)
    requires y < rows && x < cols
    ensures Index(cols, rows - 1 - y, cols - 1 - x) == rows * cols - 1 - Index(cols, y, x)
  {
    assert (rows - 1 - y) * cols == rows * cols - cols - y * cols;
  }

  /** Two quarter turns make a half turn. */
  lemma RotateTwice(img: Image)
    requires img.Valid()
    ensures Rotate90(Rotate90(img)) == Rotate180(img)
  {
    var rows, cols := img.rows, img.cols;
    var n := rows * cols;
    var once := Rotate90(img);
    var twice := Rotate90(once);
    forall k | 0 <= k < n
      ensures twice.pixels[k] == img.pixels[n - 1 - k]
    {
      RowOfIndex(rows, cols, k);
      var q, c := k / cols, k % cols;
      var j := Index(rows, cols - 1 - c, q);
      assert RotateSource(cols, rows, k) == j;
      IndexDecompose(rows, cols - 1 - c, q);
      IndexInBounds(cols, rows, cols - 1 - c, q);
      assert RotateSource(rows, cols, j) == Index(cols, rows - 1 - q, cols - 1 - c);
      HalfTurnIndex(rows, cols, q, c);
    }
    assert twice.pixels == Rotate180(img).pixels;
  }

  /** Four successive quarter turns give back the original image. */
  lemma RotateFourTimes(img: Image)
    requires img.Valid()
    ensures Rotate90(Rotate90(Rotate90(Rotate90(img)))) == img
  {
    RotateTwice(img);
    var half := Rotate180(img);
    RotateTwice(half);
    assert Rotate180(half).pixels == img.pixels;
  }

  /** Writing source pixel (y, x) to its target fills exactly the output cell whose source it is. */
  lemma RotateTarget(rows: nat, cols: nat, y: nat, x: nat)
    requires y < rows && x < cols
    ensures x * rows + (rows - 1 - y) < rows * cols
    ensures (x * rows + (rows - 1 - y)) / rows == x && (x * rows + (rows - 1 - y)) % rows == rows - 1 - y
    ensures RotateSource(rows, cols, x * rows + (rows - 1 - y)) == y * cols + x
  {
    IndexInBounds(cols, rows, x, rows - 1 - y);
    IndexDecompose(rows, x, rows - 1 - y);
  }

  /** A flat index is determined by its quotient and remainder. */
  lemma SameQuotientRemainder(n: nat, k: nat, t: nat)
    requires n > 0 && k / n == t / n && k % n == t % n
    ensures k == t
  {
  }

  /** The rotation loops: fill a newly allocated buffer from the input, one source row at a time. */
  method RotateImage90(input: array<Pixel>, oldRows: nat, oldCols: nat) returns (output: array<Pixel>, newRows: nat, newCols: nat)
    requires input.Length == oldRows * oldCols
    ensures newRows == oldCols && newCols == oldRows
    ensures fresh(output)
    ensures Image(newRows, newCols, output[..]) == Rotate90(Image(oldRows, oldCols, input[..]))
  {
    newRows := oldCols;
    newCols := oldRows;
    output := new Pixel[newRows * newCols];
    for y := 0 to oldRows
      invariant RotatedUpTo(input[..], output[..], oldRows, oldCols, y, 0)
    {
      for x := 0 to oldCols
        invariant RotatedUpTo(input[..], output[..], oldRows, oldCols, y, x)
      {
        ghost var before := output[..];
        RotateTarget(oldRows, oldCols, y, x);
        output[x * newCols + (oldRows - y - 1)] := input[y * oldCols + x];
        RotateStep(input[..], before, output[..], oldRows, oldCols, y, x);
      }
      RotateRowDone(input[..], output[..], oldRows, oldCols, y);
    }
    assert output[..] == Rotate90(Image(oldRows, oldCols, input[..])).pixels;
  }

  /** Every output cell written before the loops reach source pixel (y, x) holds its rotated source pixel. */
  ghost predicate RotatedUpTo(input: seq<Pixel>, output: seq<Pixel>, rows: nat, cols: nat, y: nat, x: nat)
    requires |input| == rows * cols && |output| == |input|
  {
    forall k :: 0 <= k < |output| && RotatedBefore(rows, cols, k, y, x) ==>
      output[k] == input[RotateSource(rows, cols, k)]
  }

  /** The only cell the step at (y, x) newly counts as written is its own target. */
  lemma RotateStepCell(rows: nat, cols: nat, y: nat, x: nat, k: nat)
    requires y < rows && x < cols
    requires RotatedBefore(rows, cols, k, y, x + 1) && k != x * rows + (rows - 1 - y)
    ensures RotatedBefore(rows, cols, k, y, x)
  {
    var t := x * rows + (rows - 1 - y);
    RotateTarget(rows, cols, y, x);
    if !RotatedBefore(rows, cols, k, y, x) {
      SameQuotientRemainder(rows, k, t);
      assert false;
    }
  }

  /** One step of the inner loop keeps the loop invariant. */
  lemma RotateStep(input: seq<Pixel>, before: seq<Pixel>, after: seq<Pixel>, rows: nat, cols: nat, y: nat, x: nat)
    requires |input| == rows * cols && |before| == |input| && y < rows && x < cols
    requires RotatedUpTo(input, before, rows, cols, y, x)
    requires x * rows + (rows - 1 - y) < |before| && y * cols + x < |input|
    requires after == before[x * rows + (rows - 1 - y) := input[y * cols + x]]
    ensures RotatedUpTo(input, after, rows, cols, y, x + 1)
  {
    var t := x * rows + (rows - 1 - y);
    RotateTarget(rows, cols, y, x);
    forall k | 0 <= k < |after| && RotatedBefore(rows, cols, k, y, x + 1)
      ensures after[k] == input[RotateSource(rows, cols, k)]
    {
      if k != t {
        RotateStepCell(rows, cols, y, x, k);
      }
    }
  }

  /** Finishing source row y means every cell up to the start of row y + 1 is written. */
  lemma RotateRowDone(input: seq<Pixel>, output: seq<Pixel>, rows: nat, cols: nat, y: nat)
    requires |input| == rows * cols && |output| == |input|
    requires RotatedUpTo(input, output, rows, cols, y, cols)
    ensures RotatedUpTo(input, output, rows, cols, y + 1, 0)
  {
    forall k | 0 <= k < |output| && RotatedBefore(rows, cols, k, y + 1, 0)
      ensures RotatedBefore(rows, cols, k, y, cols)
    {
      RowOfIndex(cols, rows, k);
    }
  }

  /**
    Output cell k holds source pixel (rows - 1 - k % rows, k / rows); it is
    written before the loops reach source pixel (y, x).
   */
  ghost predicate RotatedBefore(rows: nat, cols: nat, k: nat, y: nat, x: nat)
  {
    rows > 0 && (rows - 1 - k % rows < y || (rows - 1 - k % rows == y && k / rows < x))
  }

  // ----- Nearest-neighbour scaling -----

  /** `(int)(n * scaleFactor)`: a dimension after scaling. */
  function ScaledSize(n: nat, k: real): nat
    requires k > 0.0
  {
    ((n as real) * k).Floor
  }

  /** `(int)(t / scaleFactor)`: the source coordinate an output coordinate samples. */
  function SourceCoord(t: nat, k: real): int
    requires k > 0.0
  {
    ((t as real) / k).Floor
  }

  /**
    Every output coordinate below the scaled size samples a source coordinate
    inside the source image, so scaling never reads out of bounds.
   */
  lemma SourceCoordInRange(t: nat, n: nat, k: real)
    requires k > 0.0 && t < ScaledSize(n, k)
    ensures 0 <= SourceCoord(t, k) < n
  {
    var q := (t as real) / k;
    assert q * k == t as real;
    assert (t as real) < (n as real) * k;
  }

  /** The pixel that output cell t of the scaled image copies. */
  function ScaledPixel(img: Image, k: real, t: nat): Pixel
    requires img.Valid() && k > 0.0
    requires t < ScaledSize(img.rows, k) * ScaledSize(img.cols, k)
  {
    var nr, nc := ScaledSize(img.rows, k), ScaledSize(img.cols, k);
    RowOfIndex(nr, nc, t);
    SourceCoordInRange(t / nc, img.rows, k);
    SourceCoordInRange(t % nc, img.cols, k);
    img.At(SourceCoord(t / nc, k), SourceCoord(t % nc, k))
  }

  /** Nearest-neighbour scaling by a positive factor. */
  function Scale(img: Image, k: real): (out: Image)
    requires img.Valid() && k > 0.0
    ensures out.Valid()
    ensures out.rows == ScaledSize(img.rows, k) && out.cols == ScaledSize(img.cols, k)
  {
    var nr, nc := ScaledSize(img.rows, k), ScaledSize(img.cols, k);
    Image(nr, nc, seq(nr * nc, t requires 0 <= t < nr * nc => ScaledPixel(img, k, t)))
  }

  /**
    Output pixel (y, x), at flat index y * newCols + x, is source pixel
    (floor(y / k), floor(x / k)).
   */
  lemma ScaleAt(img: Image, k: real, y: nat, x: nat)
    requires img.Valid() && k > 0.0
    requires y < ScaledSize(img.rows, k) && x < ScaledSize(img.cols, k)
    ensures 0 <= SourceCoord(y, k) < img.rows && 0 <= SourceCoord(x, k) < img.cols
    ensures y * ScaledSize(img.cols, k) + x < ScaledSize(img.rows, k) * ScaledSize(img.cols, k)
    ensures ScaledPixel(img, k, y * ScaledSize(img.cols, k) + x) == img.At(SourceCoord(y, k), SourceCoord(x, k))
    ensures Scale(img, k).At(y, x) == img.At(SourceCoord(y, k), SourceCoord(x, k))
  {
    var nr, nc := ScaledSize(img.rows, k), ScaledSize(img.cols, k);
    var t := Index(nc, y, x);
    SourceCoordInRange(y, img.rows, k);
    SourceCoordInRange(x, img.cols, k);
    IndexInBounds(nr, nc, y, x);
    IndexDecompose(nc, y, x);
    assert ScaledPixel(img, k, t) == img.At(SourceCoord(y, k), SourceCoord(x, k));
    assert Scale(img, k).pixels[t] == ScaledPixel(img, k, t);
  }

  /** Scaling by 1 gives back the same image. */
  lemma ScaleByOne(img: Image)
    requires img.Valid()
    ensures Scale(img, 1.0) == img
  {
    var out := Scale(img, 1.0);
    assert out.rows == img.rows && out.cols == img.cols;
    forall t | 0 <= t < |img.pixels|
      ensures out.pixels[t] == img.pixels[t]
    {
      RowOfIndex(img.rows, img.cols, t);
    }
    assert out.pixels == img.pixels;
  }

  /** The scaling loops: fill a newly allocated buffer in flat order, output row by output row. */
  method ScaleImage(input: array<Pixel>, oldRows: nat, oldCols: nat, scaleFactor: real)
    returns (output: array<Pixel>, newRows: nat, newCols: nat)
    requires input.Length == oldRows * oldCols && scaleFactor > 0.0
    ensures newRows == ScaledSize(oldRows, scaleFactor) && newCols == ScaledSize(oldCols, scaleFactor)
    ensures fresh(output)
    ensures Image(newRows, newCols, output[..]) == Scale(Image(oldRows, oldCols, input[..]), scaleFactor)
  {
    ghost var src := Image(oldRows, oldCols, input[..]);
    newRows := ScaledSize(oldRows, scaleFactor);
    newCols := ScaledSize(oldCols, scaleFactor);
    output := new Pixel[newRows * newCols];
    for y := 0 to newRows
      invariant ScaledPrefix(src, scaleFactor, output[..], y * newCols)
    {
      for x := 0 to newCols
        invariant ScaledPrefix(src, scaleFactor, output[..], y * newCols + x)
      {
        var oldX := SourceCoord(x, scaleFactor);
        var oldY := SourceCoord(y, scaleFactor);
        ScaleAt(src, scaleFactor, y, x);
        IndexInBounds(oldRows, oldCols, oldY, oldX);
        output[y * newCols + x] := input[oldY * oldCols + oldX];
      }
      assert (y + 1) * newCols == y * newCols + newCols;
    }
    ScaleDone(src, scaleFactor, output[..]);
  }

  /**
    The loops write the output in flat order: every cell below `done` holds
    its sampled source pixel.
   */
  ghost predicate ScaledPrefix(src: Image, k: real, output: seq<Pixel>, done: nat)
    requires src.Valid() && k > 0.0
  {
    && |output| == ScaledSize(src.rows, k) * ScaledSize(src.cols, k)
    && forall t :: 0 <= t < done && t < |output| ==> output[t] == ScaledPixel(src, k, t)
  }

  /** Once every output row is written, the buffer is the scaled image. */
  lemma ScaleDone(src: Image, k: real, output: seq<Pixel>)
    requires src.Valid() && k > 0.0
    requires ScaledPrefix(src, k, output, ScaledSize(src.rows, k) * ScaledSize(src.cols, k))
    ensures output == Scale(src, k).pixels
  {
  }
}
