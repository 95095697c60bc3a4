/**
  The brightness-normalised segmenter.  Each pixel is first rescaled so that
  its brightest channel becomes 255, then classified with a threshold of 10.
  The result is a one-byte-per-pixel mask (0 background, 255 foreground),
  which is then AND-ed into the image in place.

  The float arithmetic of the rescaling is modelled with exact reals.  A
  pixel whose channels are all zero rescales by 255 / 0 = infinity, giving
  0 * infinity = NaN channels; every comparison with NaN is false, so such a
  pixel is foreground.
 */
module NormalisedMask {
  import opened Raster

  /** COLOR_THRESHOLD of the normalised segmenter. */
  const NormThreshold: int := 10

  /** The brightest channel, chosen as r-vs-g first and then against b. */
  function MaxChannel(p: Pixel): (m: Channel)
    ensures m >= p.r && m >= p.g && m >= p.b
    ensures m == p.r || m == p.g || m == p.b
  {
    var rg := if p.r > p.g then p.r else p.g;
    if rg > p.b then rg else p.b
  }

  /** A channel after `c *= 255 / maxColor`. */
  function Rescaled(c: Channel, maxColor: Channel): real
    requires maxColor > 0
  {
    (c as real) * (255.0 / (maxColor as real))
  }

  /** After rescaling, channel `hi` exceeds channel `lo` by more than the threshold. */
  predicate Leads(hi: Channel, lo: Channel, maxColor: Channel)
    requires maxColor > 0
  {
    Rescaled(hi, maxColor) - Rescaled(lo, maxColor) > NormThreshold as real
  }

  /** The classification test on the rescaled channels. */
  predicate NormalisedIsBackground(p: Pixel, key: char)
    ensures NormalisedIsBackground(p, key) ==> key == 'b' || key == 'g'
    ensures p.r == p.g == p.b ==> !NormalisedIsBackground(p, key)
  {
    var maxColor := MaxChannel(p);
    if maxColor == 0 then
      false  // NaN channels: every comparison is false
    else
      || (key == 'b' && Leads(p.b, p.r, maxColor) && Leads(p.b, p.g, maxColor))
      || (key == 'g' && Leads(p.g, p.r, maxColor) && Leads(p.g, p.b, maxColor))
  }

  /** Multiplying both sides by a positive real preserves a strict comparison. */
  lemma MulPositive(a: real, b: real, c: real)
    requires c > 0.0
    ensures a > b <==> a * c > b * c
  {
    assert a * c - b * c == (a - b) * c;
  }

  /**
    The rescaled comparison in integer terms: hi leads lo by more than 10
    after rescaling iff 255 * (hi - lo) > 10 * maxColor.
   */
  lemma LeadsRule(hi: Channel, lo: Channel, maxColor: Channel)
    requires maxColor > 0
    ensures Leads(hi, lo, maxColor) <==> 255 * (hi - lo) > 10 * maxColor
  {
    var m := maxColor as real;
    var f := 255.0 / m;
    var v := ((hi - lo) as real) * f;
    assert Rescaled(hi, maxColor) - Rescaled(lo, maxColor) == v;
    assert v * m == ((hi - lo) as real) * (f * m);
    assert 10.0 * m == (10 * maxColor) as real;
    MulPositive(v, 10.0, m);
  }

  /**
    The rescaled test in integer terms: with key 'b' a pixel whose brightest
    channel m is positive is background iff (b - r) * 255 / m > 10 and
    (b - g) * 255 / m > 10; the green key is symmetric.
   */
  lemma NormalisedRule(p: Pixel, key: char)
    requires MaxChannel(p) > 0
    ensures var m := MaxChannel(p);
      NormalisedIsBackground(p, key) <==>
        || (key == 'b' && 255 * (p.b - p.r) > 10 * m && 255 * (p.b - p.g) > 10 * m)
        || (key == 'g' && 255 * (p.g - p.r) > 10 * m && 255 * (p.g - p.b) > 10 * m)
  {
    var m := MaxChannel(p);
    LeadsRule(p.b, p.r, m);
    LeadsRule(p.b, p.g, m);
    LeadsRule(p.g, p.r, m);
    LeadsRule(p.g, p.b, m);
  }

  /** An all-zero pixel is foreground under every key. */
  lemma BlackIsForeground(key: char)
    ensures !NormalisedIsBackground(Black, key)
  {
  }

  /** The mask byte for one pixel. */
  function MaskByte(p: Pixel, key: char): Channel
  {
    if NormalisedIsBackground(p, key) then 0 else 255
  }

  function ByteMaskOf(image: seq<Pixel>, key: char): (mask: seq<Channel>)
    ensures |mask| == |image|
  {
    seq(|image|, i requires 0 <= i < |image| => MaskByte(image[i], key))
  }

  /** Every byte-mask entry is 0 or 255, and it is 0 exactly at background pixels. */
  lemma ByteMaskIsBinary(image: seq<Pixel>, key: char, i: nat)
    requires i < |image|
    ensures ByteMaskOf(image, key)[i] == 0 || ByteMaskOf(image, key)[i] == 255
    ensures ByteMaskOf(image, key)[i] == 0 <==> NormalisedIsBackground(image[i], key)
  {
  }

  /** The first loop: fills a newly allocated byte mask. */
  method BuildByteMask(image: array<Pixel>, rows: nat, cols: nat, key: char) returns (mask: array<Channel>)
    requires image.Length == rows * cols
    ensures fresh(mask) && mask.Length == image.Length
    ensures mask[..] == ByteMaskOf(image[..], key)
  {
    mask := new Channel[rows * cols];
    var imageSize := rows * cols;
    for i := 0 to imageSize
      invariant forall k :: 0 <= k < i ==> mask[k] == MaskByte(image[k], key)
    {
      if NormalisedIsBackground(image[i], key) {
        mask[i] := 0;
      } else {
        mask[i] := 255;
      }
    }
  }

  /**
    Bitwise AND of two naturals, `x & m`, bit by bit from the least
    significant end.  The result is no larger than either operand, so the
    AND of two bytes is a byte.
   */
  function And(x: nat, m: nat): (r: nat)
    ensures r <= x && r <= m
    decreases x
  {
    if x == 0 || m == 0 then 0
    else 2 * And(x / 2, m / 2) + (if x % 2 == 1 && m % 2 == 1 then 1 else 0)
  }

  /** m is 2^k - 1 for some k: every bit up to its highest is set. */
  predicate AllOnes(m: nat)
    decreases m
  {
    m == 0 || (m % 2 == 1 && AllOnes(m / 2))
  }

  /** `x & 0 == 0`. */
  lemma AndZero(x: nat)
    ensures And(x, 0) == 0
  {
  }

  /** AND with a mask of all ones covering x leaves x unchanged; in particular `x & 255 == x` for a byte. */
  lemma {:induction false} AndAllOnes(x: nat, m: nat)
    requires AllOnes(m) && x <= m
    ensures And(x, m) == x
    decreases x
  {
    if x != 0 && m != 0 {
      AndAllOnes(x / 2, m / 2);
    }
  }

  /** 255 is eight one-bits. */
  lemma ByteMaskAllOnes()
    ensures AllOnes(255)
  {
    assert AllOnes(0);
    assert AllOnes(1);
    assert AllOnes(3);
    assert AllOnes(7);
    assert AllOnes(15);
    assert AllOnes(31);
    assert AllOnes(63);
    assert AllOnes(127);
  }

  /** AND-ing with the same mask twice is AND-ing once. */
  lemma {:induction false} AndIdempotent(x: nat, m: nat)
    ensures And(And(x, m), m) == And(x, m)
    decreases x
  {
    if x != 0 && m != 0 {
      AndIdempotent(x / 2, m / 2);
      var a := And(x, m);
      if a != 0 {
        assert a / 2 == And(x / 2, m / 2) && a % 2 == (if x % 2 == 1 && m % 2 == 1 then 1 else 0);
      }
    }
  }

  /** The three facts the masking step relies on, for bytes. */
  lemma AndLaws(x: Channel, m: Channel)
    ensures And(x, 0) == 0 && And(x, 255) == x
    ensures And(And(x, m), m) == And(x, m)
  {
    AndZero(x);
    ByteMaskAllOnes();
    AndAllOnes(x, 255);
    AndIdempotent(x, m);
  }

  function AndPixel(p: Pixel, m: Channel): Pixel
  {
    Pixel(And(p.r, m), And(p.g, m), And(p.b, m))
  }

  /** The image after every channel of pixel i has been AND-ed with mask byte i. */
  function Masked(image: seq<Pixel>, mask: seq<Channel>): (out: seq<Pixel>)
    requires |mask| == |image|
    ensures |out| == |image|
  {
    seq(|image|, i requires 0 <= i < |image| => AndPixel(image[i], mask[i]))
  }

  /** The second loop: AND-masks the image in place. */
  method ApplyByteMask(image: array<Pixel>, rows: nat, cols: nat, mask: array<Channel>)
    requires image.Length == rows * cols && mask.Length == image.Length
    modifies image
    ensures image[..] == Masked(old(image[..]), mask[..])
  {
    var imageSize := rows * cols;
    for i := 0 to imageSize
      invariant forall k :: 0 <= k < i ==> image[k] == AndPixel(old(image[k]), mask[k])
      invariant forall k :: i <= k < imageSize ==> image[k] == old(image[k])
    {
      var p := image[i];
      image[i] := Pixel(And(p.r, mask[i]), And(p.g, mask[i]), And(p.b, mask[i]));
    }
  }

  /**
    After masking with the image's own byte mask, background pixels are black
    and foreground pixels are unchanged.
   */
  lemma MaskedBySegmentation(image: seq<Pixel>, key: char, i: nat)
    requires i < |image|
    ensures Masked(image, ByteMaskOf(image, key))[i] ==
      if NormalisedIsBackground(image[i], key) then Black else image[i]
  {
    var p := image[i];
    AndLaws(p.r, 0);
    AndLaws(p.g, 0);
    AndLaws(p.b, 0);
  }

  /** Applying the AND-masking step twice equals applying it once. */
  lemma MaskingIsIdempotent(image: seq<Pixel>, mask: seq<Channel>)
    requires |mask| == |image|
    ensures Masked(Masked(image, mask), mask) == Masked(image, mask)
  {
    forall i | 0 <= i < |image|
      ensures Masked(Masked(image, mask), mask)[i] == Masked(image, mask)[i]
    {
      var p := image[i];
      AndLaws(p.r, mask[i]);
      AndLaws(p.g, mask[i]);
      AndLaws(p.b, mask[i]);
    }
  }

  /** A key other than 'b' or 'g' leaves the masked image equal to the input. */
  lemma OtherKeyLeavesImage(image: seq<Pixel>, key: char)
    requires key != 'b' && key != 'g'
    ensures Masked(image, ByteMaskOf(image, key)) == image
  {
    forall i | 0 <= i < |image|
      ensures Masked(image, ByteMaskOf(image, key))[i] == image[i]
    {
      MaskedBySegmentation(image, key, i);
    }
  }
}
