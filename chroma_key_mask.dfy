/**
  The mask generator: every pixel of a foreground shot against a blue or
  green screen is classified as key-coloured background (black in the mask)
  or foreground (white in the mask), with a fixed colour threshold.
 */
module ChromaKeyMask {
  import opened Raster

  /** COLOR_THRESHOLD: how far the key channel must exceed each other channel. */
  const ColorThreshold: int := 30

  /**
    The classification test.  The key character selects the screen colour:
    'b' for blue, 'g' for green; any other character classifies nothing as
    background.  Both comparisons are strict.
   */
  predicate IsBackground(p: Pixel, key: char)
    ensures IsBackground(p, key) ==>
      || (key == 'b' && p.b > p.r && p.b > p.g)
      || (key == 'g' && p.g > p.r && p.g > p.b)
    ensures p.r == p.g == p.b ==> !IsBackground(p, key)
  {
    || (key == 'b' && p.b - p.r > ColorThreshold && p.b - p.g > ColorThreshold)
    || (key == 'g' && p.g - p.r > ColorThreshold && p.g - p.b > ColorThreshold)
  }

  /** The mask pixel written for one image pixel. */
  function MaskPixel(p: Pixel, key: char): Pixel
  {
    if IsBackground(p, key) then Black else White
  }

  /** The whole mask, pixel by pixel. */
  function MaskOf(image: seq<Pixel>, key: char): (mask: seq<Pixel>)
    ensures |mask| == |image|
  {
    seq(|image|, i requires 0 <= i < |image| => MaskPixel(image[i], key))
  }

  /** The mask loop: fills a newly allocated mask one pixel at a time. */
  method GenerateMask(image: array<Pixel>, rows: nat, cols: nat, key: char) returns (mask: array<Pixel>)
    requires image.Length == rows * cols
    ensures fresh(mask) && mask.Length == image.Length
    ensures mask[..] == MaskOf(image[..], key)
  {
    mask := new Pixel[rows * cols];
    var imageSize := rows * cols;
    var i := 0;
    while i < imageSize
      invariant 0 <= i <= imageSize
      invariant forall k :: 0 <= k < i ==> mask[k] == MaskPixel(image[k], key)
    {
      var r, g, b := image[i].r, image[i].g, image[i].b;
      if (key == 'b' && b - r > ColorThreshold && b - g > ColorThreshold)
        || (key == 'g' && g - r > ColorThreshold && g - b > ColorThreshold)
      {
        mask[i] := Pixel(0, 0, 0);
      } else {
        mask[i] := Pixel(255, 255, 255);
      }
      i := i + 1;
    }
  }

  /**
    Every mask pixel is black or white, and it is black exactly where the
    image pixel passes the key test.
   */
  lemma MaskIsBinary(image: seq<Pixel>, key: char, i: nat)
    requires i < |image|
    ensures MaskOf(image, key)[i] == Black || MaskOf(image, key)[i] == White
    ensures MaskOf(image, key)[i] == Black <==> IsBackground(image[i], key)
  {
  }

  /**
    Under key 'b' the mask is black exactly where blue exceeds red and green
    by more than 30; under key 'g' exactly where green exceeds red and blue
    by more than 30.
   */
  lemma KeyRules(image: seq<Pixel>, i: nat)
    requires i < |image|
    ensures MaskOf(image, 'b')[i] == Black <==> image[i].b - image[i].r > 30 && image[i].b - image[i].g > 30
    ensures MaskOf(image, 'g')[i] == Black <==> image[i].g - image[i].r > 30 && image[i].g - image[i].b > 30
  {
  }

  /** The threshold is strict: a key-channel lead of exactly 30 stays foreground. */
  lemma ThresholdIsStrict(p: Pixel)
    ensures p.b - p.r == 30 || p.b - p.g == 30 ==> MaskPixel(p, 'b') == White
    ensures p.g - p.r == 30 || p.g - p.b == 30 ==> MaskPixel(p, 'g') == White
  {
  }

  /** A key character other than 'b' or 'g' makes the mask entirely white. */
  lemma OtherKeyAllWhite(image: seq<Pixel>, key: char)
    requires key != 'b' && key != 'g'
    ensures forall i :: 0 <= i < |image| ==> MaskOf(image, key)[i] == White
  {
  }

  /**
    Running the generator on its own output gives an all-white mask: black
    and white pixels have equal channels, which never pass the strict test.
   */
  lemma RemaskIsAllWhite(image: seq<Pixel>, key: char)
    ensures MaskOf(MaskOf(image, key), key) == seq(|image|, _ => White)
  {
    var m := MaskOf(image, key);
    forall i | 0 <= i < |image|
      ensures MaskOf(m, key)[i] == White
    {
      assert m[i] == Black || m[i] == White;
    }
  }

  /**
    A screen of pure blue classifies as background everywhere under the blue
    key: the whole mask is black.
   */
  lemma PureBlueScreenIsAllBlack(image: seq<Pixel>)
    requires forall i :: 0 <= i < |image| ==> image[i] == Pixel(0, 0, 255)
    ensures MaskOf(image, 'b') == seq(|image|, _ => Black)
  {
  }
}
