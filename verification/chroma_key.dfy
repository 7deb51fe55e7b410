/** Chroma-key background removal (`removeBackground`): every pixel whose
    colour is close to the colour of the top-left pixel becomes fully
    transparent; nothing else in the buffer changes. */
module ChromaKey {
  import opened Pixels

  /** Largest per-channel distance still counted as background. */
  const Tolerance: nat := 30

  datatype Rgb = Rgb(r: Byte, g: Byte, b: Byte)

  /** The background colour: the red, green and blue bytes of pixel (0, 0). */
  function Reference(data: seq<Byte>): Rgb
    requires |data| >= 3
  {
    Rgb(data[0], data[1], data[2])
  }

  /** The pixel whose red byte is at index `i` matches `bg` within the tolerance
      on each of its three colour channels. */
  predicate Near(data: seq<Byte>, i: nat, bg: Rgb)
    requires i + 2 < |data|
  {
    && Abs(data[i] - bg.r) <= Tolerance
    && Abs(data[i + 1] - bg.g) <= Tolerance
    && Abs(data[i + 2] - bg.b) <= Tolerance
  }

  /** The byte at index `i` after keying against `bg`. */
  function KeyedByte(data: seq<Byte>, bg: Rgb, i: nat): Byte
    requires |data| % 4 == 0 && i < |data|
  {
    if i % 4 == 3 && Near(data, i - 3, bg) then 0 else data[i]
  }

  /** The whole buffer keyed against `bg`. */
  function Keyed(data: seq<Byte>, bg: Rgb): seq<Byte>
    requires |data| % 4 == 0
  {
    seq(|data|, i requires 0 <= i < |data| => KeyedByte(data, bg, i))
  }

  /** The buffer after one keying pass; the reference colour is read first. */
  function RemoveBackground(img: Image): (r: Result<Image>)
    requires Valid(img)
    ensures r.Err? <==> IsEmpty(img)
    ensures r.Ok? ==>
      && Valid(r.value)
      && r.value.width == img.width && r.value.height == img.height
    // only alpha bytes change, and only to zero
    ensures r.Ok? ==> forall i :: 0 <= i < |img.data| ==>
      r.value.data[i] == img.data[i] || (i % 4 == 3 && r.value.data[i] == 0)
    // an alpha byte is cleared exactly when its pixel matches the reference
    ensures r.Ok? ==> forall i :: 0 <= i < |img.data| && i % 4 == 3 ==>
      (Near(img.data, i - 3, Reference(img.data)) ==> r.value.data[i] == 0) &&
      (!Near(img.data, i - 3, Reference(img.data)) ==> r.value.data[i] == img.data[i])
    // the sampled corner pixel is always removed
    ensures r.Ok? ==> r.value.data[3] == 0
  {
    if IsEmpty(img) then
      Err(IndexSizeError)
    else
      OffsetInRange(img.width, img.height, 0, 0);
      Ok(img.(data := Keyed(img.data, Reference(img.data))))
  }

  /** The pass as `removeBackground` writes it: one loop over the live buffer, four
      bytes at a time, clearing alpha in place. */
  method RemoveBackgroundInPlace(img: Image) returns (r: Result<Image>)
    requires Valid(img)
    ensures r == RemoveBackground(img)
  {
    if IsEmpty(img) {
      return Err(IndexSizeError);
    }
    OffsetInRange(img.width, img.height, 0, 0);
    var data := img.data;
    var bg := Reference(data);
    var i := 0;
    ghost var pixel := 0;
    while i < |data|
      invariant |data| == |img.data| == 4 * (img.width * img.height)
      invariant 0 <= i <= |data| && i == 4 * pixel
      invariant forall j :: 0 <= j < i ==> data[j] == KeyedByte(img.data, bg, j)
      invariant forall j :: i <= j < |data| ==> data[j] == img.data[j]
    {
      assert Near(data, i, bg) == Near(img.data, i, bg);
      if Near(data, i, bg) {
        data := data[i + 3 := 0];
      }
      forall j | i <= j < i + 4
        ensures data[j] == KeyedByte(img.data, bg, j)
      {
        WithinPixel(pixel, j);
      }
      i := i + 4;
      pixel := pixel + 1;
    }
    assert data == Keyed(img.data, bg);
    r := Ok(img.(data := data));
  }

  /** Byte `j` of pixel number `p`. */
  lemma WithinPixel(p: nat, j: int)
    requires 4 * p <= j < 4 * p + 4
    ensures j % 4 == j - 4 * p
  {
    RowMajorDivMod(j, 4, j - 4 * p, p);
  }

  /** The three colour bytes in front of an alpha byte are not alpha bytes. */
  lemma ColourBytesOf(i: int)
    requires i >= 0 && i % 4 == 3
    ensures (i - 3) % 4 == 0 && (i - 2) % 4 == 1 && (i - 1) % 4 == 2
  {
    var k := i / 4;
    assert i == k * 4 + 3;
    RowMajorDivMod(i - 3, 4, 0, k);
    RowMajorDivMod(i - 2, 4, 1, k);
    RowMajorDivMod(i - 1, 4, 2, k);
  }

  /** Keying never touches colour bytes, so the reference colour survives. */
  lemma ReferencePreserved(img: Image)
    requires Valid(img) && !IsEmpty(img)
    ensures |RemoveBackground(img).value.data| >= 3
    ensures Reference(RemoveBackground(img).value.data) == Reference(img.data)
  {
    OffsetInRange(img.width, img.height, 0, 0);
  }

  /** A second pass changes nothing. */
  lemma {:induction false} RemoveBackgroundIdempotent(img: Image)
    requires Valid(img) && !IsEmpty(img)
    ensures RemoveBackground(RemoveBackground(img).value) == RemoveBackground(img)
  {
    var once := RemoveBackground(img).value;
    ReferencePreserved(img);
    var twice := RemoveBackground(once).value;
    forall i | 0 <= i < |once.data|
      ensures twice.data[i] == once.data[i]
    {
      if i % 4 == 3 {
        ColourBytesOf(i);
        assert Near(once.data, i - 3, Reference(once.data)) == Near(img.data, i - 3, Reference(img.data));
      }
    }
    assert twice.data == once.data;
  }

  /** After the pass, a pixel is transparent exactly when it matched the
      reference colour or was transparent already. */
  lemma TransparentAfterward(img: Image, i: nat)
    requires Valid(img) && !IsEmpty(img) && i < |img.data| && i % 4 == 3
    ensures RemoveBackground(img).value.data[i] == 0 <==>
      (Near(img.data, i - 3, Reference(img.data)) || img.data[i] == 0)
  {
  }
}
