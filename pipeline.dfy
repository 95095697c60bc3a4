/**
  The rotate-scale-blend program: the foreground and its mask are optionally
  turned a quarter clockwise, both are scaled by the same factor, and the
  result is blended into a copy of the background at offset (dx, dy) after
  a placement check.

  The program never compares the foreground's dimensions with the mask's,
  and it keeps the scaled dimensions of the mask for both images; the model
  requires the two to be equal, which makes both sets of dimensions agree.
 */
module Pipeline {
  import opened Raster
  import opened ChromaKeyMask
  import opened Transform
  import opened Compositor

  /** The foreground (or mask) after the optional quarter turn and the scaling. */
  function Prepared(img: Image, scaleFactor: real, rotate: int): (out: Image)
    requires img.Valid() && scaleFactor > 0.0
    ensures out.Valid()
    ensures rotate == 0 ==> out.rows == ScaledSize(img.rows, scaleFactor) && out.cols == ScaledSize(img.cols, scaleFactor)
    ensures rotate != 0 ==> out.rows == ScaledSize(img.cols, scaleFactor) && out.cols == ScaledSize(img.rows, scaleFactor)
  {
    Scale(if rotate != 0 then Rotate90(img) else img, scaleFactor)
  }

  /** Without rotation and at scale 1 the foreground is used as it is. */
  lemma PreparedIdentity(img: Image)
    requires img.Valid()
    ensures Prepared(img, 1.0, 0) == img
  {
    ScaleByOne(img);
  }

  /**
    Foreground and mask of equal dimensions stay equal after preparation, so
    the mask's scaled dimensions, which the program keeps, are the
    foreground's too.
   */
  lemma PreparedSameShape(fg: Image, mask: Image, scaleFactor: real, rotate: int)
    requires fg.Valid() && mask.Valid() && scaleFactor > 0.0
    requires fg.rows == mask.rows && fg.cols == mask.cols
    ensures Prepared(fg, scaleFactor, rotate).rows == Prepared(mask, scaleFactor, rotate).rows
    ensures Prepared(fg, scaleFactor, rotate).cols == Prepared(mask, scaleFactor, rotate).cols
  {
  }

  /**
    The whole program after its inputs are read: rotate when `rotate` is
    non-zero, scale, check the placement, copy the background and blend.
   */
  method BlendTransformed(foreground: array<Pixel>, background: array<Pixel>, mask: array<Pixel>,
                          fgRows: nat, fgCols: nat, maskRows: nat, maskCols: nat,
                          bgRows: nat, bgCols: nat, dx: int, dy: int, scaleFactor: real, rotate: int)
    returns (result: Result<array<Pixel>>)
    requires foreground.Length == fgRows * fgCols && mask.Length == maskRows * maskCols
    requires background.Length == bgRows * bgCols
    requires fgRows == maskRows && fgCols == maskCols
    requires scaleFactor > 0.0
    ensures
      var fg := Prepared(Image(fgRows, fgCols, foreground[..]), scaleFactor, rotate);
      result.Ok? <==> Fits(fg.rows, fg.cols, bgRows, bgCols, dx, dy)
    ensures result.Ok? ==>
      var fg := Prepared(Image(fgRows, fgCols, foreground[..]), scaleFactor, rotate);
      var mk := Prepared(Image(maskRows, maskCols, mask[..]), scaleFactor, rotate);
      && fresh(result.value) && dx >= 0 && dy >= 0
      && Compatible(fg, mk, Image(bgRows, bgCols, background[..]), dx, dy)
      && Image(bgRows, bgCols, result.value[..]) == Composite(fg, mk, Image(bgRows, bgCols, background[..]), dx, dy)
  {
    ghost var fgImage := Image(fgRows, fgCols, foreground[..]);
    ghost var maskImage := Image(maskRows, maskCols, mask[..]);
    var fgPixels, fr, fc := foreground, fgRows, fgCols;
    var maskPixels, mr, mc := mask, maskRows, maskCols;
    if rotate != 0 {
      fgPixels, fr, fc := RotateImage90(foreground, fgRows, fgCols);
      maskPixels, mr, mc := RotateImage90(mask, maskRows, maskCols);
    }
    assert Image(fr, fc, fgPixels[..]) == if rotate != 0 then Rotate90(fgImage) else fgImage;
    assert Image(mr, mc, maskPixels[..]) == if rotate != 0 then Rotate90(maskImage) else maskImage;
    var scaledForeground, scaledRows, scaledCols := ScaleImage(fgPixels, fr, fc, scaleFactor);
    var scaledMask;
    scaledMask, scaledRows, scaledCols := ScaleImage(maskPixels, mr, mc, scaleFactor);
    PreparedSameShape(fgImage, maskImage, scaleFactor, rotate);
    if dx < 0 || dy < 0 || dx + scaledCols > bgCols || dy + scaledRows > bgRows {
      return ValidationError;
    }
    var output := CopyImage(background, bgRows, bgCols);
    BlendAtOffset(output, scaledForeground, scaledMask, scaledRows, scaledCols, bgRows, bgCols, dx, dy);
    return Ok(output);
  }

  // ----- The segmenter's mask through the pipeline -----

  /** The black/white mask of an image, as an image of the same shape. */
  function MaskImage(img: Image, key: char): (mask: Image)
    requires img.Valid()
    ensures mask.Valid() && mask.rows == img.rows && mask.cols == img.cols
  {
    Image(img.rows, img.cols, MaskOf(img.pixels, key))
  }

  /** Turning the mask a quarter equals generating the mask of the turned image. */
  lemma RotateCommutesWithMask(img: Image, key: char)
    requires img.Valid()
    ensures Rotate90(MaskImage(img, key)) == MaskImage(Rotate90(img), key)
  {
    var a, b := Rotate90(MaskImage(img, key)), MaskImage(Rotate90(img), key);
    forall k | 0 <= k < |a.pixels|
      ensures a.pixels[k] == b.pixels[k]
    {
    }
  }

  /** Scaling the mask equals generating the mask of the scaled image. */
  lemma ScaleCommutesWithMask(img: Image, k: real, key: char)
    requires img.Valid() && k > 0.0
    ensures Scale(MaskImage(img, key), k) == MaskImage(Scale(img, k), key)
  {
    var a, b := Scale(MaskImage(img, key), k), MaskImage(Scale(img, k), key);
    var nr, nc := ScaledSize(img.rows, k), ScaledSize(img.cols, k);
    forall t | 0 <= t < |a.pixels|
      ensures a.pixels[t] == b.pixels[t]
    {
      RowOfIndex(nr, nc, t);
      SourceCoordInRange(t / nc, img.rows, k);
      SourceCoordInRange(t % nc, img.cols, k);
      IndexInBounds(img.rows, img.cols, SourceCoord(t / nc, k), SourceCoord(t % nc, k));
    }
  }

  /** Preparing the generated mask is generating the mask of the prepared foreground. */
  lemma PreparedMask(img: Image, scaleFactor: real, rotate: int, key: char)
    requires img.Valid() && scaleFactor > 0.0
    ensures Prepared(MaskImage(img, key), scaleFactor, rotate) == MaskImage(Prepared(img, scaleFactor, rotate), key)
  {
    if rotate != 0 {
      RotateCommutesWithMask(img, key);
      ScaleCommutesWithMask(Rotate90(img), scaleFactor, key);
    } else {
      ScaleCommutesWithMask(img, scaleFactor, key);
    }
  }

  /**
    Compositing with the segmenter's own mask is chroma keying: inside the
    footprint the background shows through exactly where the foreground
    pixel is key-coloured, and the foreground pixel is kept everywhere else.
   */
  lemma ChromaKeyComposite(fg: Image, bg: Image, key: char, dx: nat, dy: nat, y: nat, x: nat)
    requires fg.Valid() && Compatible(fg, MaskImage(fg, key), bg, dx, dy)
    requires y < fg.rows && x < fg.cols
    ensures y + dy < bg.rows && x + dx < bg.cols
    ensures Composite(fg, MaskImage(fg, key), bg, dx, dy).At(y + dy, x + dx) ==
      if IsBackground(fg.At(y, x), key) then bg.At(y + dy, x + dx) else fg.At(y, x)
  {
    var mask := MaskImage(fg, key);
    IndexInBounds(fg.rows, fg.cols, y, x);
    assert mask.At(y, x) == MaskPixel(fg.At(y, x), key);
    CompositeAt(fg, mask, bg, dx, dy, y + dy, x + dx);
    BlendPixelExtremes(fg.At(y, x), bg.At(y + dy, x + dx));
  }
}
