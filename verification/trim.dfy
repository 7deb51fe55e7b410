/** Opaque bounding-box trim (`trimTransparent`): crop an image to the
    smallest rectangle that holds every pixel with non-zero alpha. */
module Trim {
  import opened Pixels
  import Search

  predicate Opaque(img: Image, x: nat, y: nat)
    requires Valid(img) && x < img.width && y < img.height
  {
    Alpha(img, x, y) > 0
  }

  predicate ColumnHasOpaque(img: Image, x: int)
    requires Valid(img)
  {
    0 <= x < img.width && exists y :: 0 <= y < img.height && Opaque(img, x, y)
  }

  predicate RowHasOpaque(img: Image, y: int)
    requires Valid(img)
  {
    0 <= y < img.height && exists x :: 0 <= x < img.width && Opaque(img, x, y)
  }

  predicate HasOpaque(img: Image)
    requires Valid(img)
  {
    exists x, y :: 0 <= x < img.width && 0 <= y < img.height && Opaque(img, x, y)
  }

  /** An inclusive pixel rectangle [minX..maxX] x [minY..maxY]. */
  datatype Bounds = Bounds(minX: int, minY: int, maxX: int, maxY: int)

  predicate Contains(b: Bounds, x: int, y: int)
  {
    b.minX <= x <= b.maxX && b.minY <= y <= b.maxY
  }

  /** `b` lies inside the image, holds every opaque pixel, and each of its
      four edges touches an opaque pixel, so no smaller rectangle would do. */
  predicate IsBoundingBox(img: Image, b: Bounds)
    requires Valid(img)
  {
    && 0 <= b.minX <= b.maxX < img.width
    && 0 <= b.minY <= b.maxY < img.height
    && (forall x, y :: 0 <= x < img.width && 0 <= y < img.height && Opaque(img, x, y) ==> Contains(b, x, y))
    && ColumnHasOpaque(img, b.minX) && ColumnHasOpaque(img, b.maxX)
    && RowHasOpaque(img, b.minY) && RowHasOpaque(img, b.maxY)
  }

  /** At most one rectangle is a bounding box of the opaque pixels. */
  lemma BoundingBoxUnique(img: Image, a: Bounds, b: Bounds)
    requires Valid(img) && IsBoundingBox(img, a) && IsBoundingBox(img, b)
    ensures a == b
  {
    var y0 :| 0 <= y0 < img.height && Opaque(img, a.minX, y0);
    var y1 :| 0 <= y1 < img.height && Opaque(img, b.minX, y1);
    var y2 :| 0 <= y2 < img.height && Opaque(img, a.maxX, y2);
    var y3 :| 0 <= y3 < img.height && Opaque(img, b.maxX, y3);
    var x0 :| 0 <= x0 < img.width && Opaque(img, x0, a.minY);
    var x1 :| 0 <= x1 < img.width && Opaque(img, x1, b.minY);
    var x2 :| 0 <= x2 < img.width && Opaque(img, x2, a.maxY);
    var x3 :| 0 <= x3 < img.width && Opaque(img, x3, b.maxY);
  }

  /** A rectangle whose edges are the first and last opaque column and row
      is the bounding box. */
  lemma ExtremeEdgesBound(img: Image, b: Bounds)
    requires Valid(img)
    requires ColumnHasOpaque(img, b.minX) && ColumnHasOpaque(img, b.maxX)
    requires RowHasOpaque(img, b.minY) && RowHasOpaque(img, b.maxY)
    requires forall i :: 0 <= i < b.minX ==> !ColumnHasOpaque(img, i)
    requires forall i :: b.maxX < i < img.width ==> !ColumnHasOpaque(img, i)
    requires forall j :: 0 <= j < b.minY ==> !RowHasOpaque(img, j)
    requires forall j :: b.maxY < j < img.height ==> !RowHasOpaque(img, j)
    ensures IsBoundingBox(img, b)
  {
    forall x, y | 0 <= x < img.width && 0 <= y < img.height && Opaque(img, x, y)
      ensures Contains(b, x, y)
    {
      assert ColumnHasOpaque(img, x);
      assert RowHasOpaque(img, y);
    }
  }

  /** The bounding box read off the first and last opaque column and row: a
      reference independent of the scan order. */
  function BoundingBox(img: Image): (b: Bounds)
    requires Valid(img) && HasOpaque(img)
    ensures IsBoundingBox(img, b)
  {
    var x, y :| 0 <= x < img.width && 0 <= y < img.height && Opaque(img, x, y);
    assert ColumnHasOpaque(img, x) && RowHasOpaque(img, y);
    var column := (i: int) => ColumnHasOpaque(img, i);
    var row := (j: int) => RowHasOpaque(img, j);
    assert column(x) && row(y);
    assert forall i :: column(i) == ColumnHasOpaque(img, i);
    assert forall j :: row(j) == RowHasOpaque(img, j);
    var b := Bounds(Search.FirstWhere(column, 0, img.width), Search.FirstWhere(row, 0, img.height),
                    Search.LastWhere(column, 0, img.width), Search.LastWhere(row, 0, img.height));
    ExtremeEdgesBound(img, b);
    b
  }

  /** The bytes of the `sw` x `sh` region whose top-left pixel is (sx, sy). */
  function RegionData(img: Image, sx: nat, sy: nat, sw: nat, sh: nat): seq<Byte>
    requires Valid(img) && sx + sw <= img.width && sy + sh <= img.height
  {
    seq(4 * (sw * sh), k requires 0 <= k < 4 * (sw * sh) =>
      RowOfIndexInRange(k / 4, sw, sh);
      Channel(img, sx + (k / 4) % sw, sy + (k / 4) / sw, k % 4))
  }

  lemma RegionDataPixels(img: Image, sx: nat, sy: nat, sw: nat, sh: nat)
    requires Valid(img) && sx + sw <= img.width && sy + sh <= img.height
    ensures Valid(Image(sw, sh, RegionData(img, sx, sy, sw, sh)))
    ensures forall x, y, c :: 0 <= x < sw && 0 <= y < sh && 0 <= c < 4 ==>
      Channel(Image(sw, sh, RegionData(img, sx, sy, sw, sh)), x, y, c) == Channel(img, sx + x, sy + y, c)
  {
    var r := Image(sw, sh, RegionData(img, sx, sy, sw, sh));
    forall x, y, c | 0 <= x < sw && 0 <= y < sh && 0 <= c < 4
      ensures Channel(r, x, y, c) == Channel(img, sx + x, sy + y, c)
    {
      var p := y * sw + x;
      OffsetInRange(sw, sh, x, y);
      RowMajorDivMod(4 * p + c, 4, c, p);
      RowMajorDivMod(p, sw, x, y);
    }
  }

  /** `drawImage(src, sx, sy, sw, sh, 0, 0, sw, sh)` onto a fresh `sw` x `sh`
      canvas: an exact copy of the source region. */
  function CopyRegion(img: Image, sx: nat, sy: nat, sw: nat, sh: nat): (r: Image)
    requires Valid(img) && sx + sw <= img.width && sy + sh <= img.height
    ensures Valid(r) && r.width == sw && r.height == sh
    ensures forall x, y, c :: 0 <= x < sw && 0 <= y < sh && 0 <= c < 4 ==>
      Channel(r, x, y, c) == Channel(img, sx + x, sy + y, c)
  {
    RegionDataPixels(img, sx, sy, sw, sh);
    Image(sw, sh, RegionData(img, sx, sy, sw, sh))
  }

  /** Pixel (x, y) comes before (sx, sy) in row-major order. */
  predicate Before(x: int, y: int, sx: int, sy: int)
  {
    y < sy || (y == sy && x < sx)
  }

  /** What the scan knows once it has visited every pixel before (sx, sy). */
  predicate Scanned(img: Image, b: Bounds, found: bool, sx: int, sy: int)
    requires Valid(img)
  {
    && (forall x, y :: 0 <= x < img.width && 0 <= y < img.height && Before(x, y, sx, sy) && Opaque(img, x, y) ==>
          found && Contains(b, x, y))
    && (!found ==> b == Bounds(img.width, img.height, 0, 0))
    && (found ==>
          && 0 <= b.minX <= b.maxX < img.width
          && 0 <= b.minY <= b.maxY < img.height
          && ColumnHasOpaque(img, b.minX) && ColumnHasOpaque(img, b.maxX)
          && RowHasOpaque(img, b.minY) && RowHasOpaque(img, b.maxY))
  }

  /** One step of the scan: an opaque pixel at (x, y) widens the box to it. */
  function Visit(b: Bounds, x: int, y: int, alpha: Byte): Bounds
  {
    if alpha > 0 then
      Bounds(if x < b.minX then x else b.minX,
             if y < b.minY then y else b.minY,
             if x > b.maxX then x else b.maxX,
             if y > b.maxY then y else b.maxY)
    else
      b
  }

  lemma VisitStep(img: Image, b: Bounds, found: bool, x: nat, y: nat)
    requires Valid(img) && x < img.width && y < img.height
    requires Scanned(img, b, found, x, y)
    ensures Scanned(img, Visit(b, x, y, Alpha(img, x, y)), found || Opaque(img, x, y), x + 1, y)
  {
    var b' := Visit(b, x, y, Alpha(img, x, y));
    if Opaque(img, x, y) {
      assert ColumnHasOpaque(img, x) && RowHasOpaque(img, y);
      forall x', y' | 0 <= x' < img.width && 0 <= y' < img.height && Before(x', y', x + 1, y) && Opaque(img, x', y')
        ensures Contains(b', x', y')
      {
        if x' != x || y' != y {
          assert Before(x', y', x, y);
        }
      }
    } else {
      forall x', y' | 0 <= x' < img.width && 0 <= y' < img.height && Before(x', y', x + 1, y) && Opaque(img, x', y')
        ensures found && Contains(b', x', y')
      {
        assert Before(x', y', x, y);
      }
    }
  }

  lemma NextRow(img: Image, b: Bounds, found: bool, y: nat)
    requires Valid(img) && Scanned(img, b, found, img.width, y)
    ensures Scanned(img, b, found, 0, y + 1)
  {
    forall x', y' | 0 <= x' < img.width && 0 <= y' < img.height && Before(x', y', 0, y + 1) && Opaque(img, x', y')
      ensures found && Contains(b, x', y')
    {
      assert Before(x', y', img.width, y);
    }
  }

  /** The row-by-row min/max scan of the alpha channel. With no opaque pixel
      the initial values survive: minX = width, minY = height, maxX = maxY = 0. */
  method ScanBounds(img: Image) returns (b: Bounds)
    requires Valid(img)
    ensures HasOpaque(img) ==> IsBoundingBox(img, b)
    ensures !HasOpaque(img) ==> b == Bounds(img.width, img.height, 0, 0)
  {
    b := Bounds(img.width, img.height, 0, 0);
    ghost var found := false;
    var y := 0;
    while y < img.height
      invariant 0 <= y <= img.height
      invariant Scanned(img, b, found, 0, y)
    {
      var x := 0;
      while x < img.width
        invariant 0 <= x <= img.width
        invariant Scanned(img, b, found, x, y)
      {
        var alpha := Alpha(img, x, y);
        VisitStep(img, b, found, x, y);
        b := Visit(b, x, y, alpha);
        found := found || alpha > 0;
        x := x + 1;
      }
      NextRow(img, b, found, y);
      y := y + 1;
    }
    if HasOpaque(img) {
      var x0, y0 :| 0 <= x0 < img.width && 0 <= y0 < img.height && Opaque(img, x0, y0);
      assert Before(x0, y0, 0, img.height);
    }
  }

  /** What `trimTransparent` produces: an error for an unreadable image, the
      image itself when nothing in it is opaque, otherwise the crop to its
      bounding box. */
  function TrimmedImage(img: Image): (r: Result<Image>)
    requires Valid(img)
    ensures r.Err? <==> IsEmpty(img)
    ensures r.Ok? ==> Valid(r.value)
    ensures r.Ok? && !HasOpaque(img) ==> r.value == img
    ensures r.Ok? && HasOpaque(img) ==>
      && 1 <= r.value.width <= img.width
      && 1 <= r.value.height <= img.height
    ensures r.Ok? && HasOpaque(img) ==>
      var b := BoundingBox(img);
      && r.value.width == b.maxX - b.minX + 1
      && r.value.height == b.maxY - b.minY + 1
      && forall x, y, c :: 0 <= x < r.value.width && 0 <= y < r.value.height && 0 <= c < 4 ==>
           Channel(r.value, x, y, c) == Channel(img, x + b.minX, y + b.minY, c)
  {
    if IsEmpty(img) then
      Err(IndexSizeError)
    else if !HasOpaque(img) then
      Ok(img)
    else
      var b := BoundingBox(img);
      Ok(CopyRegion(img, b.minX, b.minY, b.maxX - b.minX + 1, b.maxY - b.minY + 1))
  }

  /** The trim as `trimTransparent` performs it: scan, test for a fully transparent
      image, then copy the region. */
  method TrimTransparent(img: Image) returns (r: Result<Image>)
    requires Valid(img)
    ensures r == TrimmedImage(img)
  {
    if IsEmpty(img) {
      return Err(IndexSizeError);
    }
    var b := ScanBounds(img);
    if b.maxX < b.minX || b.maxY < b.minY {
      return Ok(img);
    }
    if HasOpaque(img) {
      BoundingBoxUnique(img, b, BoundingBox(img));
    }
    var trimmedWidth := b.maxX - b.minX + 1;
    var trimmedHeight := b.maxY - b.minY + 1;
    r := Ok(CopyRegion(img, b.minX, b.minY, trimmedWidth, trimmedHeight));
  }

  /** Two valid images with the same size and the same pixels are equal. */
  lemma SamePixels(a: Image, b: Image)
    requires Valid(a) && Valid(b) && a.width == b.width && a.height == b.height
    requires forall x, y, c :: 0 <= x < a.width && 0 <= y < a.height && 0 <= c < 4 ==>
      Channel(a, x, y, c) == Channel(b, x, y, c)
    ensures a == b
  {
    forall k | 0 <= k < |a.data|
      ensures a.data[k] == b.data[k]
    {
      var x, y, c := ByteCoordinates(a, k);
      assert Channel(a, x, y, c) == Channel(b, x, y, c);
    }
  }

  /** Every byte of a valid buffer is some channel of some in-range pixel. */
  lemma ByteCoordinates(img: Image, k: nat) returns (x: nat, y: nat, c: nat)
    requires Valid(img) && k < |img.data|
    ensures x < img.width && y < img.height && c < 4
    ensures k == PixelOffset(img.width, x, y) + c
  {
    var p := k / 4;
    c := k % 4;
    RowOfIndexInRange(p, img.width, img.height);
    x, y := p % img.width, p / img.width;
    assert p == y * img.width + x;
  }

  /** No opaque pixel is lost: each one reappears in the trimmed image,
      shifted by the box's top-left corner. */
  lemma TrimKeepsOpaquePixels(img: Image, x: nat, y: nat)
    requires Valid(img) && x < img.width && y < img.height && Opaque(img, x, y)
    ensures HasOpaque(img) && TrimmedImage(img).Ok?
    ensures var b := BoundingBox(img);
      && b.minX <= x && b.minY <= y
      && x - b.minX < TrimmedImage(img).value.width
      && y - b.minY < TrimmedImage(img).value.height
      && Alpha(TrimmedImage(img).value, x - b.minX, y - b.minY) == Alpha(img, x, y)
  {
  }

  /** An image whose alpha channel is the bounding-box region of another
      image's alpha channel is its own bounding box. */
  lemma RegionIsTight(img: Image, b: Bounds, t: Image)
    requires Valid(img) && IsBoundingBox(img, b) && Valid(t)
    requires t.width == b.maxX - b.minX + 1 && t.height == b.maxY - b.minY + 1
    requires forall x, y :: 0 <= x < t.width && 0 <= y < t.height ==>
      Alpha(t, x, y) == Alpha(img, x + b.minX, y + b.minY)
    ensures IsBoundingBox(t, Bounds(0, 0, t.width - 1, t.height - 1))
  {
    var y0 :| 0 <= y0 < img.height && Opaque(img, b.minX, y0);
    var y1 :| 0 <= y1 < img.height && Opaque(img, b.maxX, y1);
    var x0 :| 0 <= x0 < img.width && Opaque(img, x0, b.minY);
    var x1 :| 0 <= x1 < img.width && Opaque(img, x1, b.maxY);
    assert Contains(b, b.minX, y0) && Contains(b, b.maxX, y1);
    assert Contains(b, x0, b.minY) && Contains(b, x1, b.maxY);
    assert Opaque(t, 0, y0 - b.minY) && Opaque(t, t.width - 1, y1 - b.minY);
    assert Opaque(t, x0 - b.minX, 0) && Opaque(t, x1 - b.minX, t.height - 1);
  }

  /** The trimmed image's own bounding box is the whole image. */
  lemma TrimmedIsTight(img: Image)
    requires Valid(img) && !IsEmpty(img) && HasOpaque(img)
    ensures var t := TrimmedImage(img).value;
      IsBoundingBox(t, Bounds(0, 0, t.width - 1, t.height - 1))
  {
    var t := TrimmedImage(img).value;
    var b := BoundingBox(img);
    forall x, y | 0 <= x < t.width && 0 <= y < t.height
      ensures Alpha(t, x, y) == Alpha(img, x + b.minX, y + b.minY)
    {
      assert Channel(t, x, y, 3) == Channel(img, x + b.minX, y + b.minY, 3);
    }
    RegionIsTight(img, b, t);
  }

  /** Trimming an already trimmed image changes nothing. */
  lemma TrimIdempotent(img: Image)
    requires Valid(img) && !IsEmpty(img)
    ensures TrimmedImage(TrimmedImage(img).value) == TrimmedImage(img)
  {
    var t := TrimmedImage(img).value;
    if HasOpaque(img) {
      TrimmedIsTight(img);
      var full := Bounds(0, 0, t.width - 1, t.height - 1);
      assert HasOpaque(t) by {
        var y :| 0 <= y < t.height && Opaque(t, 0, y);
      }
      BoundingBoxUnique(t, full, BoundingBox(t));
      var again := TrimmedImage(t).value;
      SamePixels(again, t);
    }
  }
}
