/**
  The compositor: a foreground image is laid over a background at offset
  (dx, dy), every channel of every covered pixel blended with the mask's
  channel of the same name as its opacity (255 opaque foreground, 0 pure
  background).

  The C code computes `(unsigned char)(m / 255.0 * f + (1 - m / 255.0) * b)`
  in floats; it is modelled here by the exact value
  `(m * f + (255 - m) * b) / 255`, rounded down.
 */
module Compositor {
  import opened Raster

  // ----- Blending one channel -----

  /** Both `255 * lo` and `255 * hi` bound the weighted sum of f and b. */
  lemma WeightedSumBounds(m: Channel, f: Channel, b: Channel)
    ensures f <= b ==> 255 * f <= m * f + (255 - m) * b <= 255 * b
    ensures b <= f ==> 255 * b <= m * f + (255 - m) * b <= 255 * f
  {
    if f <= b {
      var d: nat := b - f;
      MulMonotone(m, 255, d);
      assert m * f + (255 - m) * b == 255 * b - m * d;
      assert m * f + (255 - m) * b == 255 * f + (255 - m) * d;
    } else {
      var d: nat := f - b;
      MulMonotone(m, 255, d);
      assert m * f + (255 - m) * b == 255 * b + m * d;
      assert m * f + (255 - m) * b == 255 * f - (255 - m) * d;
    }
  }

  /**
    One channel blended with opacity m: the result lies between the
    foreground and the background value, so it always fits in a byte.
   */
  function Blend(m: Channel, f: Channel, b: Channel): (c: Channel)
    ensures f <= b ==> f <= c <= b
    ensures b <= f ==> b <= c <= f
  {
    WeightedSumBounds(m, f, b);
    (m * f + (255 - m) * b) / 255
  }

  /** A fully opaque channel gives the foreground exactly, a fully transparent one the background. */
  lemma BlendExtremes(f: Channel, b: Channel)
    ensures Blend(255, f, b) == f
    ensures Blend(0, f, b) == b
  {
  }

  /** Equal foreground and background values blend to themselves under every opacity. */
  lemma BlendOfEqual(m: Channel, v: Channel)
    ensures Blend(m, v, v) == v
  {
    assert m * v + (255 - m) * v == 255 * v;
  }

  /**
    One pixel blended: red is weighted by the mask's red, green by its green
    and blue by its blue.  Where foreground and background agree, the mask
    makes no difference.
   */
  function BlendPixel(mask: Pixel, fg: Pixel, bg: Pixel): (out: Pixel)
    ensures fg == bg ==> out == fg
  {
    BlendOfEqual(mask.r, fg.r);
    BlendOfEqual(mask.g, fg.g);
    BlendOfEqual(mask.b, fg.b);
    Pixel(Blend(mask.r, fg.r, bg.r), Blend(mask.g, fg.g, bg.g), Blend(mask.b, fg.b, bg.b))
  }

  /** A white mask pixel gives the foreground pixel, a black one the background pixel. */
  lemma BlendPixelExtremes(fg: Pixel, bg: Pixel)
    ensures BlendPixel(White, fg, bg) == fg
    ensures BlendPixel(Black, fg, bg) == bg
  {
    BlendExtremes(fg.r, bg.r);
    BlendExtremes(fg.g, bg.g);
    BlendExtremes(fg.b, bg.b);
  }

  // ----- Same-size blend -----

  /** The same-size blend, index by index. */
  function BlendAll(fg: seq<Pixel>, bg: seq<Pixel>, mask: seq<Pixel>): (out: seq<Pixel>)
    requires |fg| == |bg| == |mask|
    ensures |out| == |fg|
  {
    seq(|fg|, i requires 0 <= i < |fg| => BlendPixel(mask[i], fg[i], bg[i]))
  }

  /** The same-size blend loop: every output index is written from the same index of the inputs. */
  method BlendImages(foreground: array<Pixel>, background: array<Pixel>, mask: array<Pixel>, rows: nat, cols: nat)
    returns (output: array<Pixel>)
    requires foreground.Length == rows * cols
    requires background.Length == rows * cols && mask.Length == rows * cols
    ensures fresh(output)
    ensures output[..] == BlendAll(foreground[..], background[..], mask[..])
  {
    output := new Pixel[rows * cols];
    var imageSize := rows * cols;
    for i := 0 to imageSize
      invariant forall k :: 0 <= k < i ==> output[k] == BlendPixel(mask[k], foreground[k], background[k])
    {
      var m, f, b := mask[i], foreground[i], background[i];
      output[i] := Pixel(Blend(m.r, f.r, b.r), Blend(m.g, f.g, b.g), Blend(m.b, f.b, b.b));
    }
  }

  /** An all-white mask reproduces the foreground; an all-black mask reproduces the background. */
  lemma BlendAllExtremes(fg: seq<Pixel>, bg: seq<Pixel>)
    requires |fg| == |bg|
    ensures BlendAll(fg, bg, seq(|fg|, _ => White)) == fg
    ensures BlendAll(fg, bg, seq(|fg|, _ => Black)) == bg
  {
    forall i | 0 <= i < |fg|
      ensures BlendAll(fg, bg, seq(|fg|, _ => White))[i] == fg[i]
      ensures BlendAll(fg, bg, seq(|fg|, _ => Black))[i] == bg[i]
    {
      BlendPixelExtremes(fg[i], bg[i]);
    }
  }

  // ----- Placement -----

  /**
    The foreground footprint `[dy, dy + fgRows) x [dx, dx + fgCols)` lies
    inside the background: no offset is negative and neither axis overhangs.
   */
  predicate Fits(fgRows: nat, fgCols: nat, bgRows: nat, bgCols: nat, dx: int, dy: int)
    ensures Fits(fgRows, fgCols, bgRows, bgCols, dx, dy) ==> fgRows <= bgRows && fgCols <= bgCols
  {
    0 <= dx && 0 <= dy && dx + fgCols <= bgCols && dy + fgRows <= bgRows
  }

  /**
    The offset blend's validation, as the program writes it: none of the
    rejection conditions holds.  It passes exactly when the mask matches the
    foreground and the foreground fits.
   */
  predicate OffsetCheckPasses(fgRows: nat, fgCols: nat, maskRows: nat, maskCols: nat,
                              bgRows: nat, bgCols: nat, dx: int, dy: int)
    ensures OffsetCheckPasses(fgRows, fgCols, maskRows, maskCols, bgRows, bgCols, dx, dy) <==>
      fgRows == maskRows && fgCols == maskCols && Fits(fgRows, fgCols, bgRows, bgCols, dx, dy)
  {
    !(fgRows != maskRows || fgCols != maskCols || dx < 0 || dy < 0 ||
      dx + fgCols > bgCols || dy + fgRows > bgRows)
  }

  /**
    The check rejects a negative offset and an overhang on either axis, and
    accepts a foreground that ends exactly at the background's edge on one
    axis while lying inside it on the other.
   */
  lemma FitsCases(fgRows: nat, fgCols: nat, bgRows: nat, bgCols: nat, dx: int, dy: int)
    ensures dx < 0 || dy < 0 ==> !Fits(fgRows, fgCols, bgRows, bgCols, dx, dy)
    ensures dx + fgCols > bgCols || dy + fgRows > bgRows ==> !Fits(fgRows, fgCols, bgRows, bgCols, dx, dy)
    ensures 0 <= dx && 0 <= dy && dx + fgCols == bgCols && dy + fgRows <= bgRows ==>
      Fits(fgRows, fgCols, bgRows, bgCols, dx, dy)
    ensures 0 <= dx && 0 <= dy && dx + fgCols <= bgCols && dy + fgRows == bgRows ==>
      Fits(fgRows, fgCols, bgRows, bgCols, dx, dy)
  {
  }

  /** After a passing check, every background index the blend loop computes is inside the background. */
  lemma FootprintInBounds(fgRows: nat, fgCols: nat, bgRows: nat, bgCols: nat, dx: nat, dy: nat, j: nat, i: nat)
    requires Fits(fgRows, fgCols, bgRows, bgCols, dx, dy)
    requires j < fgRows && i < fgCols
    ensures Index(bgCols, j + dy, i + dx) < bgRows * bgCols
  {
    IndexInBounds(bgRows, bgCols, j + dy, i + dx);
  }

  /** Distinct foreground cells land on distinct background cells, so each footprint cell is written once. */
  lemma FootprintInjective(fgCols: nat, bgCols: nat, dx: nat, dy: nat, j1: nat, i1: nat, j2: nat, i2: nat)
    requires dx + fgCols <= bgCols && i1 < fgCols && i2 < fgCols
    requires Index(bgCols, j1 + dy, i1 + dx) == Index(bgCols, j2 + dy, i2 + dx)
    ensures j1 == j2 && i1 == i2
  {
    IndexInjective(bgCols, j1 + dy, i1 + dx, j2 + dy, i2 + dx);
  }

  // ----- The composite as a value -----

  /** Background cell (y, x) is covered by the foreground placed at (dx, dy). */
  predicate InFootprint(fgRows: nat, fgCols: nat, dx: nat, dy: nat, y: nat, x: nat)
  {
    dy <= y < dy + fgRows && dx <= x < dx + fgCols
  }

  /** The images a composite is built from, with matching foreground and mask and a fitting placement. */
  predicate Compatible(fg: Image, mask: Image, bg: Image, dx: nat, dy: nat)
  {
    fg.Valid() && mask.Valid() && bg.Valid() &&
    mask.rows == fg.rows && mask.cols == fg.cols &&
    Fits(fg.rows, fg.cols, bg.rows, bg.cols, dx, dy)
  }

  /** Cell k of the composite. */
  function CompositeCell(fg: Image, mask: Image, bg: Image, dx: nat, dy: nat, k: nat): Pixel
    requires Compatible(fg, mask, bg, dx, dy) && k < |bg.pixels|
  {
    RowOfIndex(bg.rows, bg.cols, k);
    var y, x := k / bg.cols, k % bg.cols;
    if InFootprint(fg.rows, fg.cols, dx, dy, y, x) then
      BlendPixel(mask.At(y - dy, x - dx), fg.At(y - dy, x - dx), bg.pixels[k])
    else
      bg.pixels[k]
  }

  /** The background with the foreground blended in at (dx, dy). */
  function Composite(fg: Image, mask: Image, bg: Image, dx: nat, dy: nat): (out: Image)
    requires Compatible(fg, mask, bg, dx, dy)
    ensures out.Valid() && out.rows == bg.rows && out.cols == bg.cols
  {
    Image(bg.rows, bg.cols,
      seq(|bg.pixels|, k requires 0 <= k < |bg.pixels| => CompositeCell(fg, mask, bg, dx, dy, k)))
  }

  /**
    Pixel (y, x) of the composite: outside the footprint it is the background
    pixel; inside, each channel is the blend of the foreground and background
    channel weighted by the mask's channel of the same name.
   */
  lemma CompositeAt(fg: Image, mask: Image, bg: Image, dx: nat, dy: nat, y: nat, x: nat)
    requires Compatible(fg, mask, bg, dx, dy) && y < bg.rows && x < bg.cols
    ensures !InFootprint(fg.rows, fg.cols, dx, dy, y, x) ==>
      Composite(fg, mask, bg, dx, dy).At(y, x) == bg.At(y, x)
    ensures InFootprint(fg.rows, fg.cols, dx, dy, y, x) ==>
      var m, f, b := mask.At(y - dy, x - dx), fg.At(y - dy, x - dx), bg.At(y, x);
      Composite(fg, mask, bg, dx, dy).At(y, x) ==
        Pixel(Blend(m.r, f.r, b.r), Blend(m.g, f.g, b.g), Blend(m.b, f.b, b.b))
  {
    IndexInBounds(bg.rows, bg.cols, y, x);
    IndexDecompose(bg.cols, y, x);
  }

  /** With an all-white mask the footprint shows the foreground exactly. */
  lemma CompositeFullMask(fg: Image, mask: Image, bg: Image, dx: nat, dy: nat, y: nat, x: nat)
    requires Compatible(fg, mask, bg, dx, dy)
    requires forall i :: 0 <= i < |mask.pixels| ==> mask.pixels[i] == White
    requires y < fg.rows && x < fg.cols
    ensures Composite(fg, mask, bg, dx, dy).At(y + dy, x + dx) == fg.At(y, x)
  {
    IndexInBounds(fg.rows, fg.cols, y, x);
    assert mask.At(y, x) == White;
    CompositeAt(fg, mask, bg, dx, dy, y + dy, x + dx);
    BlendPixelExtremes(fg.At(y, x), bg.At(y + dy, x + dx));
  }

  /** Under a black mask pixel, every cell of the composite keeps its background pixel. */
  lemma CompositeCellZeroMask(fg: Image, mask: Image, bg: Image, dx: nat, dy: nat, k: nat)
    requires Compatible(fg, mask, bg, dx, dy) && k < |bg.pixels|
    requires forall i :: 0 <= i < |mask.pixels| ==> mask.pixels[i] == Black
    ensures CompositeCell(fg, mask, bg, dx, dy, k) == bg.pixels[k]
  {
    RowOfIndex(bg.rows, bg.cols, k);
    var y, x := k / bg.cols, k % bg.cols;
    if InFootprint(fg.rows, fg.cols, dx, dy, y, x) {
      IndexInBounds(fg.rows, fg.cols, y - dy, x - dx);
      assert mask.At(y - dy, x - dx) == Black;
      BlendPixelExtremes(fg.At(y - dy, x - dx), bg.pixels[k]);
    }
  }

  /** With an all-black mask the composite is the background unchanged. */
  lemma CompositeZeroMask(fg: Image, mask: Image, bg: Image, dx: nat, dy: nat)
    requires Compatible(fg, mask, bg, dx, dy)
    requires forall i :: 0 <= i < |mask.pixels| ==> mask.pixels[i] == Black
    ensures Composite(fg, mask, bg, dx, dy) == bg
  {
    var out := Composite(fg, mask, bg, dx, dy);
    forall k | 0 <= k < |bg.pixels|
      ensures out.pixels[k] == bg.pixels[k]
    {
      CompositeCellZeroMask(fg, mask, bg, dx, dy, k);
    }
  }

  /** With images of equal size and no offset, the same-size blend and the offset blend agree. */
  lemma BlendAllIsCompositeAtOrigin(fg: Image, mask: Image, bg: Image)
    requires fg.Valid() && mask.Valid() && bg.Valid()
    requires mask.rows == fg.rows == bg.rows && mask.cols == fg.cols == bg.cols
    ensures Compatible(fg, mask, bg, 0, 0)
    ensures Composite(fg, mask, bg, 0, 0).pixels == BlendAll(fg.pixels, bg.pixels, mask.pixels)
  {
    forall k | 0 <= k < |bg.pixels|
      ensures Composite(fg, mask, bg, 0, 0).pixels[k] == BlendPixel(mask.pixels[k], fg.pixels[k], bg.pixels[k])
    {
      RowOfIndex(bg.rows, bg.cols, k);
    }
  }

  // ----- The copy and offset-blend loops -----

  /** The copy loop: a newly allocated output starts as an element-wise copy of the background. */
  method CopyImage(background: array<Pixel>, bgRows: nat, bgCols: nat) returns (output: array<Pixel>)
    requires background.Length == bgRows * bgCols
    ensures fresh(output)
    ensures output[..] == background[..]
  {
    output := new Pixel[bgRows * bgCols];
    for i := 0 to bgRows * bgCols
      invariant forall k :: 0 <= k < i ==> output[k] == background[k]
    {
      output[i] := background[i];
    }
  }

  /**
    The offset blend loop: blends the foreground into `output` in place,
    reading each covered output pixel before overwriting it.
   */
  method BlendAtOffset(output: array<Pixel>, foreground: array<Pixel>, mask: array<Pixel>,
                       fgRows: nat, fgCols: nat, bgRows: nat, bgCols: nat, dx: nat, dy: nat)
    requires foreground.Length == fgRows * fgCols && mask.Length == fgRows * fgCols
    requires output.Length == bgRows * bgCols
    requires Fits(fgRows, fgCols, bgRows, bgCols, dx, dy)
    requires output != foreground && output != mask
    modifies output
    ensures Image(bgRows, bgCols, output[..]) ==
      Composite(Image(fgRows, fgCols, foreground[..]), Image(fgRows, fgCols, mask[..]),
                Image(bgRows, bgCols, old(output[..])), dx, dy)
  {
    ghost var fg := Image(fgRows, fgCols, foreground[..]);
    ghost var mk := Image(fgRows, fgCols, mask[..]);
    ghost var bg := Image(bgRows, bgCols, output[..]);
    BlendStart(fg, mk, bg, dx, dy);
    for j := 0 to fgRows
      invariant BlendedUpTo(fg, mk, bg, dx, dy, output[..], j, 0)
    {
      for i := 0 to fgCols
        invariant BlendedUpTo(fg, mk, bg, dx, dy, output[..], j, i)
      {
        var indexFG := j * fgCols + i;
        var indexBG := (j + dy) * bgCols + (i + dx);
        IndexInBounds(fgRows, fgCols, j, i);
        FootprintInBounds(fgRows, fgCols, bgRows, bgCols, dx, dy, j, i);
        ghost var before := output[..];
        var m, f, o := mask[indexFG], foreground[indexFG], output[indexBG];
        output[indexBG] := Pixel(Blend(m.r, f.r, o.r), Blend(m.g, f.g, o.g), Blend(m.b, f.b, o.b));
        BlendStep(fg, mk, bg, dx, dy, before, output[..], j, i);
      }
      BlendRowDone(fg, mk, bg, dx, dy, output[..], j);
    }
    BlendDone(fg, mk, bg, dx, dy, output[..]);
  }

  /**
    Background cell k has been reached by the blend loops once they are at
    foreground cell (j, i): its row lies above row dy + j, or it is on that
    row left of column dx + i.
   */
  ghost predicate Visited(cols: nat, dx: nat, dy: nat, k: nat, j: nat, i: nat)
  {
    cols > 0 && (k / cols < dy + j || (k / cols == dy + j && k % cols < dx + i))
  }

  /** Every cell already reached holds its composite value; every other cell still holds the background. */
  ghost predicate BlendedUpTo(fg: Image, mask: Image, bg: Image, dx: nat, dy: nat, out: seq<Pixel>, j: nat, i: nat)
  {
    Compatible(fg, mask, bg, dx, dy) && |out| == |bg.pixels| &&
    forall k :: 0 <= k < |out| ==>
      out[k] == if Visited(bg.cols, dx, dy, k, j, i) then CompositeCell(fg, mask, bg, dx, dy, k) else bg.pixels[k]
  }

  /** Before the loops, the cells already counted as reached lie outside the footprint. */
  lemma BlendStart(fg: Image, mask: Image, bg: Image, dx: nat, dy: nat)
    requires Compatible(fg, mask, bg, dx, dy)
    ensures BlendedUpTo(fg, mask, bg, dx, dy, bg.pixels, 0, 0)
  {
  }

  /** One step of the inner loop keeps the loop invariant. */
  lemma BlendStep(fg: Image, mask: Image, bg: Image, dx: nat, dy: nat,
                  before: seq<Pixel>, after: seq<Pixel>, j: nat, i: nat)
    requires BlendedUpTo(fg, mask, bg, dx, dy, before, j, i)
    requires j < fg.rows && i < fg.cols
    requires j * fg.cols + i < |fg.pixels| && (j + dy) * bg.cols + (i + dx) < |before|
    requires
      var t, s := (j + dy) * bg.cols + (i + dx), j * fg.cols + i;
      var m, f, o := mask.pixels[s], fg.pixels[s], before[t];
      after == before[t := Pixel(Blend(m.r, f.r, o.r), Blend(m.g, f.g, o.g), Blend(m.b, f.b, o.b))]
    ensures BlendedUpTo(fg, mask, bg, dx, dy, after, j, i + 1)
  {
    var t := (j + dy) * bg.cols + (i + dx);
    IndexDecompose(bg.cols, j + dy, i + dx);
    assert !Visited(bg.cols, dx, dy, t, j, i);
    assert after[t] == CompositeCell(fg, mask, bg, dx, dy, t);
    forall k | 0 <= k < |after| && k != t
      ensures Visited(bg.cols, dx, dy, k, j, i + 1) == Visited(bg.cols, dx, dy, k, j, i)
    {
      RowOfIndex(bg.rows, bg.cols, k);
    }
  }

  /** Finishing foreground row j: the rest of background row dy + j lies right of the footprint. */
  lemma BlendRowDone(fg: Image, mask: Image, bg: Image, dx: nat, dy: nat, out: seq<Pixel>, j: nat)
    requires BlendedUpTo(fg, mask, bg, dx, dy, out, j, fg.cols)
    ensures BlendedUpTo(fg, mask, bg, dx, dy, out, j + 1, 0)
  {
  }

  /** Once every foreground row is done, the output is the composite. */
  lemma BlendDone(fg: Image, mask: Image, bg: Image, dx: nat, dy: nat, out: seq<Pixel>)
    requires BlendedUpTo(fg, mask, bg, dx, dy, out, fg.rows, 0)
    ensures out == Composite(fg, mask, bg, dx, dy).pixels
  {
  }

  // ----- The offset blend program -----

  /**
    The offset blend: validate dimensions and offsets, copy the background,
    then blend the foreground in at (dx, dy).
   */
  method BlendOffset(foreground: array<Pixel>, background: array<Pixel>, mask: array<Pixel>,
                     fgRows: nat, fgCols: nat, maskRows: nat, maskCols: nat,
                     bgRows: nat, bgCols: nat, dx: int, dy: int)
    returns (result: Result<array<Pixel>>)
    requires foreground.Length == fgRows * fgCols && mask.Length == maskRows * maskCols
    requires background.Length == bgRows * bgCols
    ensures result.Ok? <==> OffsetCheckPasses(fgRows, fgCols, maskRows, maskCols, bgRows, bgCols, dx, dy)
    ensures result.Ok? ==>
      && fresh(result.value) && dx >= 0 && dy >= 0
      && Image(bgRows, bgCols, result.value[..]) ==
           Composite(Image(fgRows, fgCols, foreground[..]), Image(fgRows, fgCols, mask[..]),
                     Image(bgRows, bgCols, background[..]), dx, dy)
  {
    if fgRows != maskRows || fgCols != maskCols || dx < 0 || dy < 0 ||
       dx + fgCols > bgCols || dy + fgRows > bgRows
    {
      return ValidationError;
    }
    var output := CopyImage(background, bgRows, bgCols);
    BlendAtOffset(output, foreground, mask, fgRows, fgCols, bgRows, bgCols, dx, dy);
    return Ok(output);
  }
}
