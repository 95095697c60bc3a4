/**
  Rasters as the compositing programs see them: a flat, row-major array of
  three-channel 8-bit pixels together with a row count and a column count.
  Pixel (y, x) of an image `cols` pixels wide lives at index y * cols + x.
 */
module Raster {

  /** One `unsigned char` colour channel. */
  type Channel = x: int | 0 <= x < 256

  /** The `Pixel` record: red, green and blue bytes. */
  datatype Pixel = Pixel(r: Channel, g: Channel, b: Channel)

  const Black: Pixel := Pixel(0, 0, 0)
  const White: Pixel := Pixel(255, 255, 255)

  /** The outcome of a stage that validates its inputs before producing an image. */
  datatype Result<T> = Ok(value: T) | ValidationError

  /** An image as a value: its dimensions and its row-major pixels. */
  datatype Image = Image(rows: nat, cols: nat, pixels: seq<Pixel>) {
    /** The buffer holds exactly rows * cols pixels. */
    predicate Valid()
    {
      |pixels| == rows * cols
    }

    /** Pixel (y, x): row y, column x. */
    function At(y: nat, x: nat): Pixel
      requires Valid() && y < rows && x < cols
    {
      IndexInBounds(rows, cols, y, x);
      pixels[Index(cols, y, x)]
    }
  }

  /** Row-major flat index of pixel (y, x) in an image `cols` pixels wide. */
  function Index(cols: nat, y: nat, x: nat): nat
  {
    y * cols + x
  }

  /** a <= b implies a * c <= b * c for naturals. */
  lemma MulMonotone(a: nat, b: nat, c: nat)
    requires a <= b
    ensures a * c <= b * c
  {
    assert b * c == a * c + (b - a) * c;
  }

  /** Every (y, x) inside a rows x cols image has its flat index inside the buffer. */
  lemma IndexInBounds(rows: nat, cols: nat, y: nat, x: nat)
    requires y < rows && x < cols
    ensures Index(cols, y, x) < rows * cols
  {
    MulMonotone(y + 1, rows, cols);
    assert (y + 1) * cols == y * cols + cols;
  }

  /**
    The flat index determines its coordinates: dividing by the row width gives
    back the row and the remainder gives back the column.  Hence distinct
    (y, x) pairs with x < cols never share a flat index.
   */
  lemma IndexDecompose(cols: nat, y: nat, x: nat)
    requires x < cols
    ensures Index(cols, y, x) / cols == y && Index(cols, y, x) % cols == x
  {
    var k := Index(cols, y, x);
    var q, r := k / cols, k % cols;
    assert k == q * cols + r && 0 <= r < cols;
    assert (y - q) * cols == r - x;
    if y > q {
      MulMonotone(1, y - q, cols);
      assert false;
    } else if y < q {
      MulMonotone(1, q - y, cols);
      assert false;
    }
  }

  /** Distinct in-image coordinates have distinct flat indices. */
  lemma IndexInjective(cols: nat, y1: nat, x1: nat, y2: nat, x2: nat)
    requires x1 < cols && x2 < cols
    requires Index(cols, y1, x1) == Index(cols, y2, x2)
    ensures y1 == y2 && x1 == x2
  {
    IndexDecompose(cols, y1, x1);
    IndexDecompose(cols, y2, x2);
  }

  /** Every flat index inside a rows x cols buffer names a row below `rows`. */
  lemma RowOfIndex(rows: nat, cols: nat, k: nat)
    requires k < rows * cols
    ensures cols > 0 && k / cols < rows && k == Index(cols, k / cols, k % cols)
  {
    if cols == 0 {
      assert false;
    }
    var q := k / cols;
    if q >= rows {
      MulMonotone(rows, q, cols);
      assert false;
    }
  }
}
