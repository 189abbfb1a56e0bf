/**
 The pick query of the measure pass: a position on screen, given in normalised
 coordinates in [-1, 1], is mapped to a pixel of the pass's output image; a
 pixel outside the image is rejected with the value -1, and a pixel inside is
 decoded into a coordinate in millimetres.
 */
module MeasurePass {
  import opened PixelCodec

  datatype Option<+T> = None | Some(value: T)

  /** The rendered output of one pass: a width × height grid of QRgb values, row by row. */
  datatype OutputImage = OutputImage(width: nat, height: nat, pixels: seq<seq<Pixel>>) {

    /** The grid has exactly `height` rows of exactly `width` pixels each. */
    predicate Valid() {
      |pixels| == height && forall y :: 0 <= y < |pixels| ==> |pixels[y]| == width
    }

    /** The pixel in column x of row y. */
    function At(x: nat, y: nat): Pixel
      requires Valid() && x < width && y < height
    {
      pixels[y][x]
    }
  }

  /** What a pick at a position outside the output image returns. */
  const OutOfBounds: real := -1.0

  /** The pixel position along one axis of a normalised screen coordinate, for a window `extent` pixels long. */
  function ScreenToPixel(s: real, extent: nat): real
  {
    (0.5 + s / 2.0) * extent as real
  }

  /** The normalised screen coordinate of a pixel position: the reference inverse of ScreenToPixel. */
  function PixelToScreen(p: real, extent: nat): real
    requires extent > 0
  {
    2.0 * p / extent as real - 1.0
  }

  /** The mapping sends the left edge, the centre and the right edge of the screen to 0, half the window and the window's extent. */
  lemma ScreenToPixelLinear(extent: nat)
    ensures ScreenToPixel(-1.0, extent) == 0.0
    ensures ScreenToPixel(0.0, extent) == extent as real / 2.0
    ensures ScreenToPixel(1.0, extent) == extent as real
  {
  }

  /** On a non-empty window the mapping is strictly increasing. */
  lemma ScreenToPixelMonotone(s: real, t: real, extent: nat)
    requires extent > 0
    ensures s < t <==> ScreenToPixel(s, extent) < ScreenToPixel(t, extent)
  {
  }

  /** Multiplying by a non-zero real and dividing by it cancel, in either order. */
  lemma DivMulCancel(a: real, e: real)
    requires e != 0.0
    ensures (a * e) / e == a
    ensures (a / e) * e == a
  {
  }

  /** On a non-empty window the mapping and its reference inverse undo each other. */
  lemma ScreenPixelRoundTrip(s: real, p: real, extent: nat)
    requires extent > 0
    ensures PixelToScreen(ScreenToPixel(s, extent), extent) == s
    ensures ScreenToPixel(PixelToScreen(p, extent), extent) == p
  {
    var e := extent as real;
    var a := 0.5 + s / 2.0;
    assert 2.0 * (a * e) == (2.0 * a) * e;
    DivMulCancel(2.0 * a, e);
    assert (2.0 * p) / e == 2.0 * (p / e);
    DivMulCancel(p, e);
  }

  /** The bounds test: a pixel position is accepted when it lies in [0, width - 1] × [0, height - 1]. */
  predicate InBounds(px: real, py: real, image: OutputImage)
  {
    !(px < 0.0 || px > (image.width as int - 1) as real || py < 0.0 || py > (image.height as int - 1) as real)
  }

  /**
   The column and row read for a pick, or None when the pick is rejected. The
   pixel read takes whole pixel coordinates: a fractional position is rounded
   down, which on the accepted non-negative positions is also truncation.
   */
  function PickedPixel(x: real, y: real, windowWidth: nat, windowHeight: nat, image: OutputImage): (r: Option<(nat, nat)>)
    ensures r.Some? <==> InBounds(ScreenToPixel(x, windowWidth), ScreenToPixel(y, windowHeight), image)
    ensures r.Some? ==> r.value.0 < image.width && r.value.1 < image.height
    ensures r.Some? ==> r.value.0 as real <= ScreenToPixel(x, windowWidth) < r.value.0 as real + 1.0
    ensures r.Some? ==> r.value.1 as real <= ScreenToPixel(y, windowHeight) < r.value.1 as real + 1.0
  {
    var px := ScreenToPixel(x, windowWidth);
    var py := ScreenToPixel(y, windowHeight);
    if !InBounds(px, py, image) then None else Some((px.Floor, py.Floor))
  }

  /** The coordinate in millimetres at a normalised screen position, or -1 when the position is outside the output image. */
  function GetPickedCoordinate(x: real, y: real, windowWidth: nat, windowHeight: nat, image: OutputImage): (mm: real)
    requires image.Valid()
    ensures MinMillimetres <= mm <= MaxMillimetres
  {
    match PickedPixel(x, y, windowWidth, windowHeight, image)
    case None => OutOfBounds
    case Some((px, py)) => DecodeMillimetres(image.At(px, py))
  }

  /**
   A position left of, right of, above or below the output image gives -1, and
   the result then does not depend on any pixel of the image.
   */
  lemma BoundsRejection(x: real, y: real, windowWidth: nat, windowHeight: nat, a: OutputImage, b: OutputImage)
    requires a.Valid() && b.Valid() && a.width == b.width && a.height == b.height
    requires
      var px, py := ScreenToPixel(x, windowWidth), ScreenToPixel(y, windowHeight);
      px < 0.0 || px > (a.width as int - 1) as real || py < 0.0 || py > (a.height as int - 1) as real
    ensures GetPickedCoordinate(x, y, windowWidth, windowHeight, a) == OutOfBounds
    ensures GetPickedCoordinate(x, y, windowWidth, windowHeight, b) == OutOfBounds
  {
  }

  /** An image with no columns or no rows rejects every position. */
  lemma EmptyImageRejectsAll(x: real, y: real, windowWidth: nat, windowHeight: nat, image: OutputImage)
    requires image.Valid() && (image.width == 0 || image.height == 0)
    ensures GetPickedCoordinate(x, y, windowWidth, windowHeight, image) == OutOfBounds
  {
  }

  /**
   An accepted position gives the decoded value of the pixel it falls in: the
   column and row whose unit squares contain the mapped position.
   */
  lemma InsideDecodesPixel(x: real, y: real, windowWidth: nat, windowHeight: nat, image: OutputImage, column: nat, row: nat)
    requires image.Valid()
    requires InBounds(ScreenToPixel(x, windowWidth), ScreenToPixel(y, windowHeight), image)
    requires column as real <= ScreenToPixel(x, windowWidth) < column as real + 1.0
    requires row as real <= ScreenToPixel(y, windowHeight) < row as real + 1.0
    ensures column < image.width && row < image.height
    ensures GetPickedCoordinate(x, y, windowWidth, windowHeight, image) == DecodeMillimetres(image.At(column, row))
  {
    assert ScreenToPixel(x, windowWidth).Floor == column as int;
    assert ScreenToPixel(y, windowHeight).Floor == row as int;
  }

  /**
   A position strictly inside the last column but right of its left edge is
   rejected, although the pixel it falls in exists.
   */
  lemma LastColumnInteriorRejected(x: real, y: real, windowWidth: nat, windowHeight: nat, image: OutputImage)
    requires image.Valid() && image.width > 0
    requires (image.width as int - 1) as real < ScreenToPixel(x, windowWidth) < image.width as real
    ensures ScreenToPixel(x, windowWidth).Floor == image.width as int - 1
    ensures GetPickedCoordinate(x, y, windowWidth, windowHeight, image) == OutOfBounds
  {
  }

  /** On a one-pixel image in a one-pixel window, screen x = -0.5 maps to px = 0.25 and is rejected. */
  lemma LastColumnInteriorWitness()
    ensures ScreenToPixel(-0.5, 1) == 0.25
    ensures OutputImage(1, 1, [[0]]).Valid()
    ensures GetPickedCoordinate(-0.5, -1.0, 1, 1, OutputImage(1, 1, [[0]])) == OutOfBounds
  {
  }

  /**
   Every pixel of the output image, the last column and the last row
   included, is reached by the screen position that maps onto it.
   */
  lemma EveryPixelPickable(column: nat, row: nat, windowWidth: nat, windowHeight: nat, image: OutputImage)
    requires image.Valid() && windowWidth > 0 && windowHeight > 0
    requires column < image.width && row < image.height
    ensures GetPickedCoordinate(PixelToScreen(column as real, windowWidth), PixelToScreen(row as real, windowHeight),
                                windowWidth, windowHeight, image)
         == DecodeMillimetres(image.At(column, row))
  {
    ScreenPixelRoundTrip(0.0, column as real, windowWidth);
    ScreenPixelRoundTrip(0.0, row as real, windowHeight);
  }

  /**
   Inside the image the rejection marker -1 is also an ordinary result: it is
   returned exactly for the pixels whose 24-bit value is 0x7FFC18.
   */
  lemma MarkerAmbiguous(x: real, y: real, windowWidth: nat, windowHeight: nat, image: OutputImage)
    requires image.Valid()
    requires InBounds(ScreenToPixel(x, windowWidth), ScreenToPixel(y, windowHeight), image)
    ensures 0 <= ScreenToPixel(x, windowWidth).Floor < image.width
    ensures 0 <= ScreenToPixel(y, windowHeight).Floor < image.height
    ensures GetPickedCoordinate(x, y, windowWidth, windowHeight, image) == OutOfBounds
        <==> Rgb(image.At(ScreenToPixel(x, windowWidth).Floor, ScreenToPixel(y, windowHeight).Floor)) == 0x7F_FC18
  {
  }

  /** A one-pixel image holding 0x7FFC18, picked at its corner, returns -1 although the position is inside. */
  lemma MarkerCollision()
    ensures OutputImage(1, 1, [[0x7F_FC18]]).Valid()
    ensures InBounds(ScreenToPixel(-1.0, 1), ScreenToPixel(-1.0, 1), OutputImage(1, 1, [[0x7F_FC18]]))
    ensures GetPickedCoordinate(-1.0, -1.0, 1, 1, OutputImage(1, 1, [[0x7F_FC18]])) == OutOfBounds
  {
    assert ScreenToPixel(-1.0, 1) == 0.0;
    MinusOneDecodes(0x7F_FC18);
  }

  /** A pick on the cleared background is not rejected: it returns the largest coordinate, 8388.607 mm. */
  lemma BackgroundIsAHit(x: real, y: real, windowWidth: nat, windowHeight: nat, image: OutputImage)
    requires image.Valid()
    requires InBounds(ScreenToPixel(x, windowWidth), ScreenToPixel(y, windowHeight), image)
    requires
      var column, row := ScreenToPixel(x, windowWidth).Floor, ScreenToPixel(y, windowHeight).Floor;
      0 <= column < image.width && 0 <= row < image.height && image.At(column, row) == Background
    ensures GetPickedCoordinate(x, y, windowWidth, windowHeight, image) == MaxMillimetres
    ensures GetPickedCoordinate(x, y, windowWidth, windowHeight, image) != OutOfBounds
  {
  }

  /** A pixel the shader encoded from v micrometres is picked back as v / 1000 millimetres, whatever its alpha. */
  lemma PickRoundTrip(x: real, y: real, windowWidth: nat, windowHeight: nat, image: OutputImage, v: int, alpha: Channel)
    requires image.Valid() && -Bias <= v < Bias
    requires InBounds(ScreenToPixel(x, windowWidth), ScreenToPixel(y, windowHeight), image)
    requires
      var column, row := ScreenToPixel(x, windowWidth).Floor, ScreenToPixel(y, windowHeight).Floor;
      0 <= column < image.width && 0 <= row < image.height && image.At(column, row) == EncodeMicrometres(v, alpha)
    ensures GetPickedCoordinate(x, y, windowWidth, windowHeight, image) == v as real / 1000.0
  {
  }
}
