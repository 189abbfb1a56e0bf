# Measure pass pick decoding

A model of the read-back half of the measure tool's render pass
(`MeasurePass.getPickedCoordinate`). The pass renders the scene with a
shader that writes one value per fragment into the red, green and blue
channels of the output image, as a 24-bit count of micrometres biased by
2^23. The class's own comments call that value the distance from the
active camera; the pass takes an axis index and hands it to the shader as
`u_axisId`, so the value is read here as the fragment's coordinate along
that axis (the shader itself is not part of this model). The pick query
turns a normalised screen position in [-1, 1] into a pixel of that image,
rejects positions outside the image with the value -1, and otherwise
decodes the pixel back into millimetres.

The model has two modules:

- `PixelCodec` (`pixel_codec.dfy`): the 32-bit QRgb pixel, its alpha and
  24-bit colour parts, the biased decode into micrometres and millimetres,
  and the shader's packing as the decode's inverse. The bitwise AND with
  `0x00ffffff` is defined bit by bit (`BitAnd`) and proved equal to the
  remainder by 2^24.
- `MeasurePass` (`measure_pass.dfy`): the screen-to-pixel mapping over exact
  reals, the bounds test, the output image as an abstract `width × height`
  grid, and `GetPickedCoordinate`, with lemmas on rejection, reachability
  of every pixel, the decode round trip and the ambiguity of the -1 marker.

All arithmetic is exact: integers for pixel values and micrometres, Dafny
`real` (exact rationals) for screen positions and millimetres.

What the code does, where one might expect otherwise:

- One might expect background pixels (0x000000 and 0xFFFFFF) and rejected
  positions to give a marker no real coordinate can take, such as infinity.
  The code returns the finite value -1 for a rejected position and decodes
  every in-bounds pixel, the cleared background included (it decodes to
  8388.607 mm). `MarkerAmbiguous`, `MarkerCollision` and `BackgroundIsAHit`
  state what the code does.
- One might expect the pixel position to be rounded to the nearest pixel.
  The code passes the unrounded position to the pixel read; the model reads
  the pixel the position falls in (rounding down, see "## Left out").
- The bounds test compares the unrounded position with width - 1 and
  height - 1, so only the left edge of the last column and of the last row
  is accepted: a position strictly between width - 1 and width is rejected
  although it falls in a real pixel (`LastColumnInteriorRejected`).
- The code annotates the screen coordinates as `int`; they are used as
  normalised coordinates in [-1, 1], and the model takes them as reals.

## Model

| member | source | states |
|---|---|---|
| PixelCodec.BitAndLowMask | MeasurePass.py:72 | masking any non-negative integer with 2^k - 1 leaves exactly its remainder by 2^k |
| PixelCodec.RgbIsMask | MeasurePass.py:72 | the 24-bit colour value used by the decode is what `value & 0x00ffffff` keeps |
| PixelCodec.Argb | MeasurePass.py:71-72 | a pixel built from alpha, red, green and blue channels has that alpha and the 24-bit value r·2^16 + g·2^8 + b |
| PixelCodec.AlphaAndRgbSplit | MeasurePass.py:72 | every pixel is its alpha byte above its 24-bit colour value; nothing else is in it |
| PixelCodec.DecodeMicrometres | MeasurePass.py:72-73 | every decoded value lies in [-2^23, 2^23) micrometres |
| PixelCodec.DecodeMillimetres | MeasurePass.py:72-73 | dividing by 1000 and then subtracting 8388.608 gives exactly the biased micrometre value over 1000, and the result lies in [-8388.608, 8388.607] mm |
| PixelCodec.EncodeMicrometres | MeasurePass.py:22 | the shader's packing of v micrometres keeps the given alpha and stores v + 2^23 in the 24 colour bits |
| PixelCodec.DecodeEncode | MeasurePass.py:71-73 | every micrometre value in [-2^23, 2^23) comes back exactly after packing and decoding, in micrometres and in millimetres |
| PixelCodec.EncodeDecode | MeasurePass.py:71-73 | every pixel is the packing of its own decoded value under its own alpha, so the decode loses nothing but alpha |
| PixelCodec.AlphaIgnored | MeasurePass.py:72 | pixels with the same red, green and blue channels decode to the same value whatever their alpha |
| PixelCodec.DifferOnlyInAlpha | MeasurePass.py:72 | two pixels whose difference is a multiple of 2^24 (they differ only in bits 24-31) decode to the same value |
| PixelCodec.DecodeStrictlyMonotone | MeasurePass.py:72-73 | a smaller 24-bit value decodes to a smaller coordinate, and conversely |
| PixelCodec.DecodeInjective | MeasurePass.py:72-73 | two pixels decode to the same coordinate if and only if their 24-bit values are equal |
| PixelCodec.BiasPlacement | MeasurePass.py:73 | the decode is 0 mm exactly for 0x800000, -8388.608 mm exactly for 0x000000 and 8388.607 mm exactly for 0xFFFFFF |
| PixelCodec.MinusOneDecodes | MeasurePass.py:72-73 | the decode is exactly -1 mm if and only if the 24-bit value is 0x7FFC18 |
| PixelCodec.BackgroundDecodes | MeasurePass.py:44 | the clear colour (red, green, blue at full intensity, alpha 0) is the pixel 0x00FFFFFF and decodes to 8388.607 mm |
| MeasurePass.ScreenToPixelLinear | MeasurePass.py:65-66 | screen coordinate -1 maps to pixel 0, 0 to half the window extent and 1 to the full window extent |
| MeasurePass.ScreenToPixelMonotone | MeasurePass.py:65-66 | on a non-empty window, a larger screen coordinate maps to a larger pixel position, and conversely |
| MeasurePass.ScreenPixelRoundTrip | MeasurePass.py:65-66 | on a non-empty window the mapping and the inverse affine map undo each other in both orders |
| MeasurePass.PickedPixel | MeasurePass.py:65-71 | a pixel is read exactly when the mapped position passes the bounds test; the pixel read is inside the image and is the one the position falls in |
| MeasurePass.GetPickedCoordinate | MeasurePass.py:60-75 | every result, rejected or not, lies in [-8388.608, 8388.607] mm |
| MeasurePass.BoundsRejection | MeasurePass.py:68-69 | a position with px < 0, px > width - 1, py < 0 or py > height - 1 gives -1, the same on any two images of that size, so no pixel is read |
| MeasurePass.EmptyImageRejectsAll | MeasurePass.py:68-69 | an output image with no columns or no rows rejects every position |
| MeasurePass.InsideDecodesPixel | MeasurePass.py:71-75 | for an accepted position, any column and row whose unit square contains the mapped position lie inside the image, and the result is that pixel's decoded value |
| MeasurePass.LastColumnInteriorRejected | MeasurePass.py:68-69 | a position strictly between width - 1 and width falls in the last column's pixel yet is rejected with -1 |
| MeasurePass.LastColumnInteriorWitness | MeasurePass.py:65-69 | on a one-pixel image in a one-pixel window, screen x = -0.5 gives px = 0.25 and the result -1 |
| MeasurePass.EveryPixelPickable | MeasurePass.py:65-71 | every pixel, the last column and the last row included, is read and decoded from the screen position that maps onto its left and top edge (for the last column and row, the only accepted position inside them) |
| MeasurePass.MarkerAmbiguous | MeasurePass.py:69-75 | for an accepted position the result is -1 if and only if the pixel's 24-bit value is 0x7FFC18 |
| MeasurePass.MarkerCollision | MeasurePass.py:69-75 | a one-pixel image holding 0x7FFC18, picked at screen (-1, -1) in a one-pixel window, passes the bounds test and still returns -1 |
| MeasurePass.BackgroundIsAHit | MeasurePass.py:71-75 | an accepted position on the cleared background returns 8388.607 mm, not the -1 marker |
| MeasurePass.PickRoundTrip | MeasurePass.py:71-75 | an accepted position on a pixel packed from v micrometres returns v / 1000 mm whatever the pixel's alpha |

## Left out

- `MeasurePass.render` and the constructor (MeasurePass.py:24-57): viewport, clear and bind calls, lazy shader compilation, the scene iteration and batch rendering are calls into the host's OpenGL and scene graph; only the clear colour (line 44) enters the model, as `PixelCodec.Background`.
- `coordinates.shader` is not part of this model; `PixelCodec.EncodeMicrometres` models the packing that line 22 describes, as the decode's inverse.
- `MeasureTool.py`, `MeasureToolHandle.py` and `__init__.py`: host event handling, cosmetic handle meshes and plugin registration. `MeasureTool.py` calls methods the pass does not define, so there is no pick orchestration to model.
- The window size and the output image come from the host renderer; they are parameters of `GetPickedCoordinate`.
- Floating point: the division by 1000 and the subtraction of 8388.608 are modelled exactly over the reals, without IEEE-754 rounding; so is the screen mapping.
- The pixel read with a fractional position: the model reads the pixel whose column and row are the rounded-down position. On the accepted, non-negative positions this is the same as truncation toward zero.
- The pixel read's own out-of-range behaviour: it is never reached, because the bounds test runs first and the rounded-down position of an accepted position lies inside the image.
- The Python result is the integer -1 on rejection and a float otherwise; the model returns the real -1 for both kinds of -1.
