/** The sprite pipeline `init` runs on each loaded image: chroma-key, then trim. */
module Sprites {
  import opened Pixels
  import ChromaKey
  import Trim

  function PrepareSprite(img: Image): (r: Result<Image>)
    requires Valid(img)
    ensures r.Err? <==> IsEmpty(img)
    ensures r.Ok? ==> Valid(r.value) && 1 <= r.value.width <= img.width && 1 <= r.value.height <= img.height
    // the result is the keyed image itself when keying left nothing opaque
    ensures r.Ok? && !Trim.HasOpaque(ChromaKey.RemoveBackground(img).value) ==>
      r.value == ChromaKey.RemoveBackground(img).value
    // otherwise it is the keyed image cropped to its bounding box
    ensures r.Ok? && Trim.HasOpaque(ChromaKey.RemoveBackground(img).value) ==>
      var keyed := ChromaKey.RemoveBackground(img).value;
      var b := Trim.BoundingBox(keyed);
      && r.value.width == b.maxX - b.minX + 1
      && r.value.height == b.maxY - b.minY + 1
      && forall x, y, c :: 0 <= x < r.value.width && 0 <= y < r.value.height && 0 <= c < 4 ==>
           Channel(r.value, x, y, c) == Channel(keyed, x + b.minX, y + b.minY, c)
  {
    match ChromaKey.RemoveBackground(img)
    case Err(e) => Err(e)
    case Ok(keyed) => Trim.TrimmedImage(keyed)
  }

  /** A prepared sprite with anything opaque in it has an opaque pixel on
      each of its four borders: no transparent margin survives. */
  lemma PreparedIsTight(img: Image)
    requires Valid(img) && !IsEmpty(img)
    ensures var s := PrepareSprite(img).value;
      Trim.HasOpaque(s) ==> Trim.IsBoundingBox(s, Trim.Bounds(0, 0, s.width - 1, s.height - 1))
  {
    var keyed := ChromaKey.RemoveBackground(img).value;
    if Trim.HasOpaque(keyed) {
      CropIsTight(keyed, PrepareSprite(img).value);
    }
  }

  /** `Trim.TrimmedIsTight` restated for a crop passed in by name. Calling it
      through this lemma keeps the keying pass's facts out of the proof
      context of `PreparedIsTight`, which is otherwise too costly. */
  lemma CropIsTight(keyed: Image, s: Image)
    requires Valid(keyed) && !IsEmpty(keyed) && Trim.HasOpaque(keyed)
    requires s == Trim.TrimmedImage(keyed).value
    ensures Trim.IsBoundingBox(s, Trim.Bounds(0, 0, s.width - 1, s.height - 1))
  {
    Trim.TrimmedIsTight(keyed);
  }
}
