# Chroma-key compositing, modelled in Dafny

This project models a small chroma-key compositing pipeline written in C.
An image is a flat, row-major buffer of `Pixel`s, each with red, green and
blue bytes, together with a row count and a column count. Pixel (y, x)
lives at index `y * cols + x`. The model has four parts.

- **Segmenters** (`chroma_key_mask.dfy`, `normalised_mask.dfy`). Each one
  decides, pixel by pixel, whether the pixel shows the blue or green screen.
  - The mask generator uses a strict channel-difference threshold of 30.
    It writes a black (background) or white (foreground) mask image.
  - The normalised segmenter first rescales each pixel so that its brightest
    channel is 255, then applies a threshold of 10. It builds a byte mask
    (0 or 255) and ANDs it into the image in place.
- **Transformer** (`transform.dfy`). It turns an image a quarter turn
  clockwise, and it scales an image by a positive factor using
  nearest-neighbour sampling.
- **Compositor** (`compositor.dfy`, `pipeline.dfy`). It covers three
  programs:
  - the same-size blend;
  - the offset blend, which validates the placement, copies the background
    and blends the foreground in at (dx, dy);
  - the rotate-scale-blend program, which first prepares the foreground and
    mask with the transformer.

  Each channel is blended with the mask's channel of the same name as its
  opacity.
- **Colour adjustment** (`colour_adjust.dfy`). A single in-place pass lowers
  red values that lie in a middle band and raises green values that lie in
  a middle band.

`raster.dfy` holds the shared pixel and image types and the facts about
row-major index arithmetic.

Each loop of the C programs is a Dafny method with the same bounds and index
expressions. It is proved against a specification function:
`MaskOf`, `ByteMaskOf`, `Masked`, `Rotate90`, `Scale`, `BlendAll`,
`Composite` or `Adjusted`. The lemmas then prove what the programs promise
about those functions.

The blend `(unsigned char)(m / 255.0 * f + (1 - m / 255.0) * b)` is
modelled as the exact `(m * f + (255 - m) * b) / 255`, rounded down. The
`float` scale factor is a positive real, and each `(int)` cast of a
non-negative value is `.Floor`. The normalised segmenter's rescaling is
done in reals. When all three channels of a pixel are zero, the C code
computes NaN channels, and every comparison with NaN is false. The model
therefore classifies such a pixel as foreground.

## Model

| member | source | states |
|---|---|---|
| ChromaKeyMask.IsBackground | src/1_generate_mask.c:48-49 | the strict test for keys 'b' and 'g' with threshold 30; a background pixel's key channel is strictly its largest, and a grey pixel (r == g == b) is never background |
| ChromaKeyMask.MaskOf | src/1_generate_mask.c:41-58 | the mask has exactly as many pixels as the image |
| ChromaKeyMask.GenerateMask | src/1_generate_mask.c:41-58 | the loop fills a new buffer of the image's length whose every pixel is the mask pixel of the image pixel at the same index |
| ChromaKeyMask.MaskIsBinary | src/1_generate_mask.c:48-57 | every mask pixel is (0,0,0) or (255,255,255), and it is (0,0,0) exactly when the image pixel passes the key test |
| ChromaKeyMask.KeyRules | src/1_generate_mask.c:48-57 | under key 'b' mask pixel i is black iff b-r > 30 and b-g > 30 for image pixel i; under key 'g' iff g-r > 30 and g-b > 30 |
| ChromaKeyMask.ThresholdIsStrict | src/1_generate_mask.c:48-49 | a key-channel lead of exactly 30 over either other channel gives a white (foreground) mask pixel |
| ChromaKeyMask.OtherKeyAllWhite | src/1_generate_mask.c:48-57 | a key other than 'b' or 'g' makes every mask pixel white |
| ChromaKeyMask.RemaskIsAllWhite | src/1_generate_mask.c:48-57 | generating the mask of a mask gives an all-white mask of the same length |
| ChromaKeyMask.PureBlueScreenIsAllBlack | src/1_generate_mask.c:48-52 | an image of pure blue (0,0,255) gives an all-black mask under key 'b' |
| NormalisedMask.MaxChannel | src/first_program.c:46-47 | the chosen maximum is at least every channel and equals one of them |
| NormalisedMask.NormalisedIsBackground | src/first_program.c:46-54 | the threshold-10 test on channels rescaled by 255/max, false when max is 0 (NaN channels); only keys 'b' and 'g' classify anything as background, and a grey pixel never is |
| NormalisedMask.LeadsRule | src/first_program.c:48-54 | after rescaling by 255/max, channel hi exceeds channel lo by more than 10 iff 255*(hi-lo) > 10*max |
| NormalisedMask.NormalisedRule | src/first_program.c:46-54 | for a pixel with max > 0: key 'b' means background iff 255*(b-r) > 10*max and 255*(b-g) > 10*max; key 'g' is symmetric |
| NormalisedMask.BlackIsForeground | src/first_program.c:46-57 | an all-zero pixel (NaN after rescaling) is foreground under every key |
| NormalisedMask.ByteMaskOf | src/first_program.c:53-58 | the byte mask has one entry per image pixel |
| NormalisedMask.ByteMaskIsBinary | src/first_program.c:53-58 | every byte-mask entry is 0 or 255, and it is 0 exactly at background pixels |
| NormalisedMask.BuildByteMask | src/first_program.c:41-59 | the first loop fills a new byte buffer whose entry i is 0 if pixel i is background and 255 otherwise |
| NormalisedMask.And | src/first_program.c:63-65 | x & m is at most x and at most m, so the AND of two bytes is a byte |
| NormalisedMask.AndAllOnes | src/first_program.c:63-65 | AND with a mask of all one-bits covering x leaves x unchanged |
| NormalisedMask.AndIdempotent | src/first_program.c:63-65 | (x & m) & m == x & m |
| NormalisedMask.AndLaws | src/first_program.c:63-65 | for bytes: x & 0 == 0, x & 255 == x, and ANDing twice with m equals once |
| NormalisedMask.Masked | src/first_program.c:62-66 | masking keeps the image's length |
| NormalisedMask.ApplyByteMask | src/first_program.c:62-66 | the second loop leaves the image equal to the old image with every channel of pixel i ANDed with mask byte i |
| NormalisedMask.MaskedBySegmentation | src/first_program.c:53-66 | after masking with its own byte mask, a background pixel is (0,0,0) and a foreground pixel is unchanged |
| NormalisedMask.MaskingIsIdempotent | src/first_program.c:62-66 | applying the AND-masking step twice equals applying it once |
| NormalisedMask.OtherKeyLeavesImage | src/first_program.c:53-66 | with a key other than 'b' or 'g' the masked image equals the input |
| Transform.RotateSource | src/5_image_blend_rotate.c:48-52 | every output cell of the quarter turn copies a source index inside the source buffer |
| Transform.Rotate90 | src/5_image_blend_rotate.c:40-42 | the quarter turn is a valid image with rows and columns swapped |
| Transform.RotateAt | src/5_image_blend_rotate.c:48-52 | source pixel (y, x) appears unchanged at output pixel (x, rows-1-y) |
| Transform.RotateTargetsDistinct | src/5_image_blend_rotate.c:48-52 | distinct source pixels have distinct in-bounds targets, so each output cell is written once |
| Transform.RotateTwice | src/5_image_blend_rotate.c:38-55 | two quarter turns equal the half turn: same dimensions, with flat index k holding the pixel at rows*cols-1-k |
| Transform.RotateFourTimes | src/5_image_blend_rotate.c:38-55 | four quarter turns give back the original dimensions and pixels |
| Transform.RotateImage90 | src/5_image_blend_rotate.c:38-55 | the nested loops produce new dimensions (oldCols, oldRows) and a new buffer equal to the quarter turn of the input |
| Transform.SourceCoordInRange | src/5_image_blend_rotate.c:27-31 | for k > 0, every output coordinate below floor(n*k) samples a source coordinate in [0, n), so scaling never reads out of bounds |
| Transform.Scale | src/5_image_blend_rotate.c:19-31 | the scaled image is valid with dimensions floor(rows*k) by floor(cols*k) |
| Transform.ScaleAt | src/5_image_blend_rotate.c:27-31 | output pixel (y, x) at flat index y*newCols+x is source pixel (floor(y/k), floor(x/k)) |
| Transform.ScaleByOne | src/5_image_blend_rotate.c:19-31 | scaling by 1 returns an image equal to its input |
| Transform.ScaleImage | src/5_image_blend_rotate.c:17-36 | the nested loops produce dimensions floor(rows*k) and floor(cols*k) and a new buffer equal to the scaled image |
| Compositor.WeightedSumBounds | src/3_image_blend_offset.c:86-91 | m*f + (255-m)*b lies between 255*min(f,b) and 255*max(f,b) |
| Compositor.Blend | src/3_image_blend_offset.c:86-91 | a blended channel lies between the foreground and the background value, hence in 0..255 |
| Compositor.BlendExtremes | src/3_image_blend_offset.c:86-91 | opacity 255 yields the foreground channel exactly, opacity 0 the background channel exactly |
| Compositor.BlendOfEqual | src/3_image_blend_offset.c:86-91 | equal foreground and background values blend to themselves under every opacity |
| Compositor.BlendPixel | src/2_image_blend.c:58-67 | red is blended by the mask's red, green by its green and blue by its blue; where foreground and background pixels agree the result is that pixel whatever the mask |
| Compositor.BlendPixelExtremes | src/2_image_blend.c:62-67 | a white mask pixel yields the foreground pixel, a black one the background pixel |
| Compositor.BlendAll | src/2_image_blend.c:57-68 | the same-size blend has one output pixel per input index |
| Compositor.BlendImages | src/2_image_blend.c:48-68 | the loop fills a new buffer whose pixel i is pixel i of the foreground and background blended by mask pixel i, red by mask red, green by mask green, blue by mask blue; the inputs are only read |
| Compositor.BlendAllExtremes | src/2_image_blend.c:62-67 | an all-white mask makes the output equal the foreground, and an all-black mask makes it equal the background |
| Compositor.Fits | src/5_image_blend_rotate.c:122-126 | the placement check: no negative offset and no overhang on either axis; a fitting foreground is no larger than the background in either dimension |
| Compositor.FitsCases | src/5_image_blend_rotate.c:122-126 | the placement check rejects a negative dx or dy and an overhang on either axis, and accepts a foreground that ends exactly at the background's edge on one axis while lying inside it on the other |
| Compositor.OffsetCheckPasses | src/3_image_blend_offset.c:59-63 | none of the program's six rejection conditions holds, which is exactly: the mask's dimensions equal the foreground's and the foreground fits |
| Compositor.FootprintInBounds | src/3_image_blend_offset.c:78-81 | after a passing check every indexBG = (j+dy)*bgCols + (i+dx) is inside the background |
| Compositor.FootprintInjective | src/3_image_blend_offset.c:78-81 | distinct foreground cells have distinct indexBG, so each footprint cell is written once |
| Compositor.Composite | src/3_image_blend_offset.c:73-93 | the composite has the background's dimensions |
| Compositor.CompositeAt | src/3_image_blend_offset.c:73-93 | outside the rectangle [dy, dy+fgRows) x [dx, dx+fgCols) the composite equals the background; inside, each channel is the foreground and background channel blended by the mask's channel of the same name |
| Compositor.CompositeFullMask | src/3_image_blend_offset.c:86-91 | with an all-white mask, every footprint pixel shows the foreground pixel exactly |
| Compositor.CompositeCellZeroMask | src/3_image_blend_offset.c:86-91 | under an all-black mask every cell of the composite keeps its background pixel |
| Compositor.CompositeZeroMask | src/3_image_blend_offset.c:86-91 | with an all-black mask, the composite is the background unchanged |
| Compositor.BlendAllIsCompositeAtOrigin | src/2_image_blend.c:57-68 | with all dimensions equal, the same-size blend equals the offset blend at dx = dy = 0 |
| Compositor.CopyImage | src/3_image_blend_offset.c:66-75 | the output is a new buffer equal element by element to the background |
| Compositor.BlendAtOffset | src/3_image_blend_offset.c:77-93 | the nested loops (also lines 140-156 of src/5_image_blend_rotate.c) turn the output buffer in place into the composite of the foreground and mask over its old contents |
| Compositor.BlendOffset | src/3_image_blend_offset.c:59-93 | the program yields an output iff the check passes, and that output is a new buffer equal to the composite over the background |
| Pipeline.Prepared | src/5_image_blend_rotate.c:102-115 | the prepared image has dimensions floor(rows*k) by floor(cols*k), with rows and columns swapped first when rotate is non-zero |
| Pipeline.PreparedIdentity | src/5_image_blend_rotate.c:102-115 | without rotation and at scale 1 the prepared image is the input |
| Pipeline.PreparedSameShape | src/5_image_blend_rotate.c:112-115 | a foreground and mask of equal dimensions keep equal dimensions after preparation, so keeping the mask's scaled size is harmless |
| Pipeline.BlendTransformed | src/5_image_blend_rotate.c:102-156 | the program yields an output iff the prepared foreground fits at (dx, dy), and that output is a new buffer equal to the composite of the prepared foreground and mask over the background |
| Pipeline.RotateCommutesWithMask | src/5_image_blend_rotate.c:38-55 | turning a generated mask equals generating the mask of the turned image |
| Pipeline.ScaleCommutesWithMask | src/5_image_blend_rotate.c:17-36 | scaling a generated mask equals generating the mask of the scaled image |
| Pipeline.PreparedMask | src/5_image_blend_rotate.c:102-115 | preparing a generated mask equals generating the mask of the prepared foreground |
| Pipeline.ChromaKeyComposite | src/5_image_blend_rotate.c:141-156 | compositing with the generator's own mask shows the background exactly where the foreground pixel is key-coloured, and the foreground pixel everywhere else in the footprint |
| ColourAdjust.AdjustColours | src/lab1.c:41-56 | the loop leaves every pixel equal to its adjusted old value, each index updated from that pixel alone |
| ColourAdjust.AdjustRed | src/lab1.c:43-47 | red in the open band (100, 200) is lowered by 50 with a clamp at 0 and a byte store; red never rises |
| ColourAdjust.AdjustGreen | src/lab1.c:50-55 | green in the open band (50, 150) is raised by 30 with a clamp at 255 and a byte store; green never falls |
| ColourAdjust.Adjusted | src/lab1.c:41-56 | the adjusted image has exactly as many pixels as the input |
| ColourAdjust.ClampsNeverBind | src/lab1.c:43-55 | red in 101..199 becomes exactly r-50 >= 51 and green in 51..149 exactly g+30 <= 179; values outside the bands are unchanged |
| ColourAdjust.AdjustedPixelwise | src/lab1.c:41-56 | blue is never modified; red changes iff it lies in 101..199 and green iff it lies in 51..149 |
| ColourAdjust.OutsideBandsUnchanged | src/lab1.c:43-55 | an image with no red or green value in its band is left unchanged |

## Left out

- Reading and writing PPM files, and the `colors` maxval, are not part of
  this model. The `ppmIO` routines are not part of this model either.
  Images are given as buffers plus dimensions.
- Command-line handling is left out: argument counting, `atoi`/`atof`,
  usage messages and diagnostics. Each `exit(-1)` after a failed check is
  the `ValidationError` result.
- Allocation is modelled as `new` arrays, so allocation failure,
  `malloc`/`free` and the `USECPP` `delete[]` branches are left out.
- IEEE `float` rounding is left out. The blend, the scale factor and the
  normalised segmenter use exact arithmetic. With floats, values at a
  boundary can round differently; for example, a blend of equal values can
  truncate to one less.
- The square-root brightness ramp of `src/lab1.c:59-71` is left out. It is
  float `sqrt` numerics and divides by zero when `cols == 1`.
- `int` overflow of `rows * cols` and of the index arithmetic is left out.
  All integers are unbounded.
- Pipeline.BlendTransformed requires the foreground and mask to have equal
  dimensions. The C program never checks this, and it keeps the mask's
  scaled size for both images.
- Transform.ScaleImage and Pipeline.BlendTransformed require a scale factor
  greater than 0. The C program never checks the factor.
- Compositor.BlendImages requires the three buffers to have one length.
  The C program reads the dimensions of every image into the same
  `rows`/`cols`, so only the mask's dimensions survive.
- Compositor.BlendAtOffset requires the output buffer to be distinct from
  the foreground and the mask. In the programs it is always newly
  allocated.
- ChromaKeyMask.RemaskIsAllWhite: re-running the generator on its own mask
  gives an all-white mask, because equal channels never pass the strict
  test.
