/** RGBA pixel buffers as the canvas `ImageData` API exposes them: a
    row-major sequence of bytes, four per pixel (red, green, blue, alpha). */
module Pixels {

  /** One element of a `Uint8ClampedArray`. */
  type Byte = b: int | 0 <= b < 256

  /** The one canvas failure the sprite passes can meet: `getImageData`
      rejects a zero-width or zero-height rectangle. */
  datatype CanvasError = IndexSizeError

  datatype Result<T> = Ok(value: T) | Err(error: CanvasError)

  datatype Image = Image(width: nat, height: nat, data: seq<Byte>)

  /** The buffer holds exactly four bytes per pixel. */
  predicate Valid(img: Image)
  {
    |img.data| == 4 * (img.width * img.height)
  }

  /** An image `getImageData` cannot read. */
  predicate IsEmpty(img: Image)
  {
    img.width == 0 || img.height == 0
  }

  /** Index of the red byte of pixel (x, y) in a buffer `width` pixels wide. */
  function PixelOffset(width: nat, x: nat, y: nat): nat
  {
    4 * (y * width + x)
  }

  /** Channel `c` (0 red, 1 green, 2 blue, 3 alpha) of pixel (x, y). The
      index always lies inside a valid buffer (`OffsetInRange`), so the
      `else` branch is never taken; it keeps that multiplication argument
      out of every proof that reads a pixel. */
  function Channel(img: Image, x: nat, y: nat, c: nat): Byte
    requires Valid(img) && x < img.width && y < img.height && c < 4
  {
    var i := PixelOffset(img.width, x, y) + c;
    if i < |img.data| then img.data[i] else 0
  }

  function Alpha(img: Image, x: nat, y: nat): Byte
    requires Valid(img) && x < img.width && y < img.height
  {
    Channel(img, x, y, 3)
  }

  function Abs(n: int): nat
  {
    if n < 0 then -n else n
  }

  lemma MulMonotone(a: nat, b: nat, k: nat)
    requires a <= b
    ensures a * k <= b * k
  {
  }

  /** Every byte of an in-range pixel lies inside the buffer. */
  lemma OffsetInRange(width: nat, height: nat, x: nat, y: nat)
    requires x < width && y < height
    ensures y * width + x < width * height
    ensures PixelOffset(width, x, y) + 3 < 4 * (width * height)
  {
    MulMonotone(y + 1, height, width);
    assert (y + 1) * width == y * width + width;
  }

  /** Row-major coordinates are recovered by division and remainder. */
  lemma RowMajorDivMod(p: int, width: nat, x: int, y: int)
    requires width > 0 && 0 <= x < width && p == y * width + x
    ensures p / width == y && p % width == x
  {
    var q, r := p / width, p % width;
    assert p == q * width + r;
    assert (y - q) * width == r - x;
    if y > q {
      MulMonotone(1, y - q, width);
      assert false;
    } else if y < q {
      MulMonotone(1, q - y, width);
      assert false;
    }
  }

  /** A pixel index below `width * height` names an in-range row. */
  lemma RowOfIndexInRange(p: nat, width: nat, height: nat)
    requires width > 0 && p < width * height
    ensures p / width < height && p % width < width
  {
    var y := p / width;
    assert p == y * width + p % width;
    if y >= height {
      MulMonotone(height, y, width);
      assert false;
    }
  }
}
