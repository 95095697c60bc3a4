/**
  The colour adjustment: in one pass over the image, red values in a middle
  band are lowered and green values in a middle band are raised, each with
  a clamp to the byte range; blue is left alone.
 */
module ColourAdjust {
  import opened Raster

  /** redDecreaseFactor: how much red is removed from a pixel in the red band. */
  const RedDecrease: int := 50
  /** greenIncreaseFactor: how much green is added to a pixel in the green band. */
  const GreenIncrease: int := 30

  /** Storing an `int` into an `unsigned char` keeps it modulo 256. */
  function ToByte(v: int): Channel
  {
    v % 256
  }

  /** Red in the open band (100, 200) is lowered by RedDecrease, clamped at 0; red never rises. */
  function AdjustRed(r: Channel): (out: Channel)
    ensures out <= r
  {
    if r > 100 && r < 200 then
      ToByte(if r - RedDecrease > 0 then r - RedDecrease else 0)
    else
      r
  }

  /** Green in the open band (50, 150) is raised by GreenIncrease, clamped at 255; green never falls. */
  function AdjustGreen(g: Channel): (out: Channel)
    ensures out >= g
  {
    if g > 50 && g < 150 then
      ToByte(if g + GreenIncrease < 255 then g + GreenIncrease else 255)
    else
      g
  }

  /** One pixel after the adjustment. */
  function AdjustPixel(p: Pixel): Pixel
  {
    Pixel(AdjustRed(p.r), AdjustGreen(p.g), p.b)
  }

  /** The whole image after the adjustment, pixel by pixel. */
  function Adjusted(image: seq<Pixel>): (out: seq<Pixel>)
    ensures |out| == |image|
  {
    seq(|image|, i requires 0 <= i < |image| => AdjustPixel(image[i]))
  }

  /** The adjustment loop: updates red and green of every pixel in place. */
  method AdjustColours(image: array<Pixel>, rows: nat, cols: nat)
    requires image.Length == rows * cols
    modifies image
    ensures image[..] == Adjusted(old(image[..]))
  {
    var imageSize := rows * cols;
    for i := 0 to imageSize
      invariant forall k :: 0 <= k < i ==> image[k] == AdjustPixel(old(image[k]))
      invariant forall k :: i <= k < imageSize ==> image[k] == old(image[k])
    {
      if image[i].r > 100 && image[i].r < 200 {
        image[i] := image[i].(r := ToByte(if image[i].r - RedDecrease > 0 then image[i].r - RedDecrease else 0));
      }
      if image[i].g > 50 && image[i].g < 150 {
        image[i] := image[i].(g := ToByte(if image[i].g + GreenIncrease < 255 then image[i].g + GreenIncrease else 255));
      }
    }
  }

  /**
    Neither clamp nor the byte conversion ever binds: red in 101..199
    becomes exactly r - 50, which is at least 51, and green in 51..149
    becomes exactly g + 30, which is at most 179.  Values outside the bands
    are unchanged.
   */
  lemma ClampsNeverBind(p: Pixel)
    ensures 100 < p.r < 200 ==> AdjustPixel(p).r == p.r - 50 >= 51
    ensures !(100 < p.r < 200) ==> AdjustPixel(p).r == p.r
    ensures 50 < p.g < 150 ==> AdjustPixel(p).g == p.g + 30 <= 179
    ensures !(50 < p.g < 150) ==> AdjustPixel(p).g == p.g
  {
  }

  /**
    Pixel by pixel, the adjusted image keeps every blue value, changes red
    only inside the red band and green only inside the green band.
   */
  lemma AdjustedPixelwise(image: seq<Pixel>, i: nat)
    requires i < |image|
    ensures Adjusted(image)[i].b == image[i].b
    ensures Adjusted(image)[i].r != image[i].r <==> 100 < image[i].r < 200
    ensures Adjusted(image)[i].g != image[i].g <==> 50 < image[i].g < 150
  {
  }

  /** A pixel whose red and green both lie outside their bands is a fixed point. */
  lemma OutsideBandsUnchanged(image: seq<Pixel>)
    requires forall i :: 0 <= i < |image| ==> !(100 < image[i].r < 200) && !(50 < image[i].g < 150)
    ensures Adjusted(image) == image
  {
    forall i | 0 <= i < |image|
      ensures Adjusted(image)[i] == image[i]
    {
      ClampsNeverBind(image[i]);
    }
  }
}
