# QR code art pipeline: a verified model of its pixel-buffer stages

This project models the deterministic pixel-buffer pipeline of `image-manipulation.js`. The pipeline fuses a QR module matrix with a photograph.

Every stage takes an RGBA buffer (`ImageData`: a width, a height and a byte plane of `width * height * 4` bytes indexed `(y * width + x) * 4 + c`). It fills a freshly allocated buffer in raster order.

The stages modelled are:
- block scaling (`scale3Image`, `scaleImageByFactor`);
- margin padding (`addMargin`);
- the finder-pattern mask (`generateMask`);
- mask substitution (`setWhereMasked`);
- 3 x 3 centre thinning (`onlyKeepCenterPixelOf9x9Block`);
- threshold binarisation (`convertToBlackAndWhite`);
- duotone recolouring (`applyCustomColors`) with its hex colour parsing and printing (`hexToRgb`, `rgbToHex`);
- seeded noise (`addNoiseToImage` driven by `mulberry32`);
- the render loop of `getQRCodeImageData`;
- the staging and the two "non-transparent pixel wins" overlay loops of `generateQRCodeOverlay`.

Each operator is given twice:
- **A function on `Image` values.** It states the per-pixel rule, and the lemmas are stated about it.
- **A method on `ImageData` objects.** The object holds a byte `array`. The method runs the source's nested loops over that array and is proved to leave exactly the function's result in a fresh buffer: `result.View() == Spec(input.View(), ...)`.

The `mulberry32` closure is a class, `Mulberry32`, whose 32-bit `seed` field each call advances.

Modules:
- `PixelBuffer` (pixel_buffer.dfy): buffers, indexing, and the `ImageData` class.
- `GeometricOps` (geometric_ops.dfy): scaling, margins and thinning.
- `MaskOps` (mask_ops.dfy): the mask and substitution.
- `ColorModel` (color_model.dfy): hex colours, including a model of `parseInt(s, 16)`.
- `ToneOps` (tone_ops.dfy): binarisation and duotone.
- `NoiseOps` (noise_ops.dfy): the generator and the noise pass.
- `QrRender` (qr_render.dfy): the module matrix to pixels.
- `Pipeline` (pipeline.dfy): compositing, the stage functions and the end-to-end properties.

Lenient paths and comments, as the code has them:
- **`setWhereMasked` size mismatch.** On a width or height mismatch the code logs an error and returns the very same input object (image-manipulation.js:204-207), and so does the model (`SetWhereMaskedTo` ensures `result == image`).
- **`onlyKeepCenterPixelOf9x9Block` sides not divisible by 3.** The code logs an error and returns its input (image-manipulation.js:239-242), and so does the model (`OnlyKeepCenterPixelOf9x9Block` ensures `result == image`).
- **The noise damping factor.** A comment in `addNoiseToImage` speaks of halving (image-manipulation.js:872). The code multiplies by 0.15, and so does the model.

## Model

| member | source | states |
|---|---|---|
| PixelBuffer.ImageData.constructor | image-manipulation.js:12 | `new ImageData(w, h)`: a fresh plane of `h * w * 4` bytes, all 0 |
| PixelBuffer.AtOffset | image-manipulation.js:16 | channel c of pixel (x, y) is the byte at flat index `(y * w + x) * 4 + c`, which lies inside the plane |
| PixelBuffer.AtFlat | image-manipulation.js:514 | conversely, every flat index of the plane is channel `i % 4` of pixel `((i / 4) % w, (i / 4) / w)`, so the flat loops visit every pixel once |
| PixelBuffer.Extensionality | image-manipulation.js:12 | two buffers of the same size that agree on every channel of every pixel are equal |
| GeometricOps.ScaleByFactor | image-manipulation.js:46-78 | the scaled buffer is `w * n` by `h * n` |
| GeometricOps.ScalePixel | image-manipulation.js:62-71 | every destination pixel (X, Y) equals, on all four channels, source pixel (X / n, Y / n), which lies inside the source |
| GeometricOps.ScaleBlock | image-manipulation.js:62-71 | every position (x * n + dx, y * n + dy) of the n x n block of source pixel (x, y) holds that pixel |
| GeometricOps.BlocksComplete | image-manipulation.js:54-75 | once the loops have written every block in the source's (y, x, dy, dx) order, the destination is the scaled image |
| GeometricOps.ScaleImageByFactor | image-manipulation.js:46-78 | the nested loops build a fresh buffer equal to `ScaleByFactor(input, scaleFactor)` |
| GeometricOps.Scale3Image | image-manipulation.js:6-38 | scale3Image equals scaleImageByFactor with factor 3 |
| GeometricOps.AddMargin | image-manipulation.js:86-121 | size `(w + 2m, h + 2m)`; a pixel with `x < m`, `x >= m + w`, `y < m` or `y >= m + h` is (255,255,255,255); every other pixel is source pixel (x - m, y - m) |
| GeometricOps.AddMarginRoundTrip | image-manipulation.js:97-113 | padding by m >= 0 and then cropping by -m gives back the original buffer: the interior is the source untouched |
| GeometricOps.AddMarginTo | image-manipulation.js:86-121 | the pixel and channel loops build a fresh buffer equal to `AddMargin(marginSize, input)` |
| GeometricOps.OnlyKeepCenterPixel | image-manipulation.js:238-263 | sides not both multiples of 3 give the input unchanged; otherwise the size is the same and pixel (x, y) keeps its value iff `x % 3 == 1 && y % 3 == 1`, every other pixel being (0,0,0,0) |
| GeometricOps.OnlyKeepCenterPixelIdempotent | image-manipulation.js:249-258 | thinning a thinned buffer changes nothing |
| GeometricOps.OnlyKeepCenterPixelOf9x9Block | image-manipulation.js:238-263 | on a divisibility mismatch the very same object is returned, otherwise a fresh buffer; either way its contents are `OnlyKeepCenterPixel(input)` |
| MaskOps.GenerateMask | image-manipulation.js:131-135 | the mask has the input's width and height |
| MaskOps.ShouldBeMasked | image-manipulation.js:139-170 | the masking decision: the border band, the three finder corners, or the optional fourth square; behaviour stated by MaskPixel, LowerRightOpen, MaskTranspose and FourthSquareOnlyAdds |
| MaskOps.MaskPixel | image-manipulation.js:137-186 | every mask pixel is all-255 or all-0 on its four channels; it is 255 iff it lies in the m-wide border band, or in the left stripe and the upper or lower stripe, or in the right stripe and the upper stripe, or (with add4thSquare) in `w-10 <= x < w-5, h-10 <= y < h-5` |
| MaskOps.LowerRightOpen | image-manipulation.js:148-156 | the lower-right corner is never a finder corner: outside the band and the fourth square it is 0 |
| MaskOps.MaskTranspose | image-manipulation.js:142-169 | on a square buffer the three-corner mask is symmetric about the main diagonal (left-lower mirrors right-upper) |
| MaskOps.FourthSquareOnlyAdds | image-manipulation.js:159-170 | the add4thSquare flag only turns pixels white, and only inside the fixed 5 x 5 square |
| MaskOps.GenerateMaskFor | image-manipulation.js:131-190 | the pixel and channel loops build a fresh buffer equal to `GenerateMask` of the input's size |
| MaskOps.SetWhereMasked | image-manipulation.js:203-231 | the result has the image's size |
| MaskOps.SetWhereMaskedPixel | image-manipulation.js:214-228 | on equal sizes each output pixel is (r, g, b, a) when `(mask channel 0 > 0) XOR invertMask`, and the image pixel otherwise |
| MaskOps.SetWhereMaskedMismatch | image-manipulation.js:204-207 | a width or height mismatch gives the image itself |
| MaskOps.SetWhereMaskedComplement | image-manipulation.js:218-226 | the calls with invertMask false and true substitute complementary pixel sets: at every pixel exactly one of them keeps the image |
| MaskOps.SetWhereMaskedIdempotent | image-manipulation.js:214-228 | substituting twice with the same mask and colour is substituting once |
| MaskOps.SetWhereMaskedTo | image-manipulation.js:203-231 | on a size mismatch the very same object is returned, otherwise a fresh buffer; its contents are `SetWhereMasked(image, mask, ...)` |
| ColorModel.IndexOf | image-manipulation.js:621 | the position found holds the character, and no earlier position does |
| ColorModel.RemoveFirst | image-manipulation.js:621 | `replace('#', '')` leaves a string without '#' as it is and otherwise removes one character |
| ColorModel.StripHash | image-manipulation.js:621 | on a string starting with '#' the replacement drops exactly that first character |
| ColorModel.Substr | image-manipulation.js:622-624 | `substr(start, length)` is at most length long, and is the window itself when it fits |
| ColorModel.TrimStart | image-manipulation.js:622-624 | parseInt's white-space skip never lengthens the string |
| ColorModel.TrimStartSpec | image-manipulation.js:622-624 | parseInt skips exactly the leading white space: the rest is a suffix that does not start with white space |
| ColorModel.HexDigitPlain | image-manipulation.js:622-624 | a hex digit is never white space, a sign or the x of a 0x prefix, so none of parseInt's prefixes consumes it |
| ColorModel.DigitValue | image-manipulation.js:622-624 | every character has a digit value in 0..15 |
| ColorModel.HexRun | image-manipulation.js:622-624 | the run of digits parseInt reads is no longer than the string |
| ColorModel.HexRunSpec | image-manipulation.js:622-624 | parseInt reads the longest run of hex digits: each is a digit, and the next character is not |
| ColorModel.HexValueBound | image-manipulation.js:622-624 | one hex digit denotes less than 16, two less than 256 |
| ColorModel.ParseInt16 | image-manipulation.js:622-624 | `parseInt(s, 16)`: skip leading white space, an optional sign and an optional `0x`, then read the longest hex-digit run, NaN when it is empty; behaviour stated by TrimStartSpec, HexDigitPlain, HexRunSpec, ParseInt16Short and ParseTwoDigits |
| ColorModel.ParseInt16Short | image-manipulation.js:622-624 | parseInt of a two-character piece is NaN or lies in -255..255 |
| ColorModel.ParseTwoDigits | image-manipulation.js:622-624 | two hex digits parse to high * 16 + low |
| ColorModel.ToUint8Clamp | image-manipulation.js:737-744 | a parsed channel stored in a Uint8ClampedArray is a byte and, when already a byte, unchanged |
| ColorModel.HexChar | image-manipulation.js:713 | a value 0..15 prints as one lowercase hex digit whose value it is |
| ColorModel.NatToHex | image-manipulation.js:713 | `toString(16)` of a natural number writes at least one digit |
| ColorModel.NatToHexValue | image-manipulation.js:713 | those digits are hex digits, the first is not a leading zero, and they denote the number |
| ColorModel.ToHex | image-manipulation.js:712-715 | the toHex helper pads to at least two characters |
| ColorModel.ToHexByte | image-manipulation.js:712-715 | a byte prints as exactly two lowercase digits, high digit first, zero padded |
| ColorModel.RgbToHex | image-manipulation.js:711-717 | `#` and each channel through toHex; behaviour stated by RgbToHexShape, RgbToHexDigits and HexRoundTrip |
| ColorModel.RgbToHexShape | image-manipulation.js:711-717 | for bytes, rgbToHex yields '#' plus six lowercase hex digits, two per channel in r, g, b order |
| ColorModel.RgbToHexDigits | image-manipulation.js:711-717 | the exact seven characters rgbToHex writes for three bytes |
| ColorModel.ParseToHex | image-manipulation.js:622-624 | a byte's two printed digits parse back to the byte |
| ColorModel.HexToRgb | image-manipulation.js:620-626 | drop the first `#`, then parse the pieces at 0, 2 and 4 of length 2; behaviour stated by ParseTwoDigits, ParseInt16Short, ParseToHex and HexRoundTrip |
| ColorModel.HexRoundTrip | image-manipulation.js:620-626 | `hexToRgb(rgbToHex(r, g, b)) == (r, g, b)` for bytes |
| ToneOps.LuminanceOfGrey | image-manipulation.js:516 | the luminance weights sum to one: grey v has luminance v |
| ToneOps.ConvertToBlackAndWhite | image-manipulation.js:509-528 | same size; R, G and B are 255 when the pixel's luminance exceeds the threshold and 0 otherwise; alpha is 255 |
| ToneOps.BlackAndWhitePixel | image-manipulation.js:514-525 | every output pixel has R = G = B in {0, 255} and alpha 255, and is white iff luminance > threshold |
| ToneOps.ConvertIsBlackAndWhite | image-manipulation.js:514-525 | the whole output is opaque black and white |
| ToneOps.ConvertFixesAt | image-manipulation.js:516-519 | a black or white pixel keeps every channel under any threshold in [0, 255) |
| ToneOps.ConvertFixesBlackAndWhite | image-manipulation.js:516-519 | a black and white buffer is left as it is by any threshold in [0, 255) |
| ToneOps.ConvertIdempotent | image-manipulation.js:509-528 | binarising twice with a threshold in [0, 255) is binarising once |
| ToneOps.BwBytes | image-manipulation.js:519-524 | the four bytes one pass of the flat loop stores are the spec's bytes of that pixel |
| ToneOps.ConvertToBlackAndWhiteOf | image-manipulation.js:509-528 | the flat loop builds a fresh buffer equal to `ConvertToBlackAndWhite(input, threshold)` |
| ToneOps.Duotone | image-manipulation.js:734-747 | same size; where channel 0 is 0 the pixel takes the dark colour, elsewhere the bright one, alpha 255 |
| ToneOps.DuotonePixel | image-manipulation.js:734-747 | each pixel gets the clamped channels of `hexToRgb(dark)` where channel 0 is 0 and of `hexToRgb(bright)` otherwise, with alpha 255 |
| ToneOps.DuotoneBytesColours | image-manipulation.js:737-745 | colours that parse to bytes are written exactly |
| ToneOps.ApplyPrintedColours | image-manipulation.js:726-750 | colours printed by rgbToHex are applied exactly: the dark bytes where channel 0 is 0, the bright ones elsewhere |
| ToneOps.DuotoneIdentity | image-manipulation.js:734-747 | black and white as the two colours leave a black and white buffer unchanged |
| ToneOps.DuotoneIdentityAt | image-manipulation.js:734-747 | that identity on one channel of one black or white pixel |
| ToneOps.DefaultColoursIdentity | image-manipulation.js:726-750 | the default colours "#000000" and "#ffffff" leave a black and white buffer unchanged |
| ToneOps.DuotoneBytes | image-manipulation.js:736-746 | the four bytes one pass of the flat loop stores are the spec's bytes of that pixel |
| ToneOps.ApplyCustomColors | image-manipulation.js:726-750 | Duotone with both colours parsed by hexToRgb; behaviour stated by DuotonePixel, ApplyPrintedColours, DefaultColoursIdentity and ApplyCustomColorsTo |
| ToneOps.ApplyCustomColorsTo | image-manipulation.js:726-750 | both colours parsed once, then the flat loop builds a fresh buffer equal to `ApplyCustomColors(input, dark, bright)` |
| NoiseOps.Unit | image-manipulation.js:822 | an unsigned 32-bit value divided by 2^32 lies in [0, 1) |
| NoiseOps.Mix | image-manipulation.js:820-822 | the two `Math.imul` steps and the final xorshift on 32 bits; the value Mulberry32.Next returns, via DrawAt |
| NoiseOps.DrawAt | image-manipulation.js:818-823 | every draw of the generator lies in [0, 1) |
| NoiseOps.SeedAfter | image-manipulation.js:819 | the generator state after k calls, each adding 0x6D2B79F5 mod 2^32; behaviour stated by SeedAfterAdd, DrawAt and Mulberry32.Next |
| NoiseOps.SeedAfterAdd | image-manipulation.js:819 | advancing the state a times and then b times is advancing it a + b times |
| NoiseOps.Mulberry32.constructor | image-manipulation.js:817-818 | a fresh generator holds its seed and has served no calls |
| NoiseOps.Mulberry32.Next | image-manipulation.js:818-823 | a call adds 0x6D2B79F5 to the 32-bit state (wrapping), returns the mixed state over 2^32, and that value is call number k of the seed's fixed sequence |
| NoiseOps.Draws | image-manipulation.js:840-878 | one draw per pixel |
| NoiseOps.DrawsInRange | image-manipulation.js:878 | draw k is call k of the generator and lies in [0, 1) |
| NoiseOps.DrawsDrawnFrom | image-manipulation.js:840 | the draw sequence is the seeded generator's |
| NoiseOps.NoiseWith | image-manipulation.js:841-884 | same size; each channel is inverted or copied according to the pixel's flip decision and its draw |
| NoiseOps.AddNoise | image-manipulation.js:833-888 | the output is a function of the buffer, the probability and the seed, of the input's size |
| NoiseOps.AddNoiseDraw | image-manipulation.js:841-878 | pixel (x, y) consumes draw number `y * width + x`: exactly one draw per pixel in raster order |
| NoiseOps.NoisePixel | image-manipulation.js:845-884 | alpha is always copied; a flipped pixel has R, G and B each mapped 0 to 255 and anything else to 0; an unflipped pixel is copied |
| NoiseOps.AdjustedProbability | image-manipulation.js:870-875 | the damping by 0.15 for a non-uniform neighbourhood and again on a block's middle row or column; behaviour stated by AdjustedBounds, AdjustedFromScan, NoFlipBelowZero and FlipAtCertainty |
| NoiseOps.AdjustedBounds | image-manipulation.js:870-875 | for p >= 0 the adjusted probability lies in [0, p], and is p iff p is 0 or the neighbourhood is uniform and `x % 3 != 1 && y % 3 != 1`; for p <= 0 it is never positive |
| NoiseOps.NoFlipBelowZero | image-manipulation.js:878 | a probability of 0 or below never flips a pixel, since draws are never negative |
| NoiseOps.NoiseZero | image-manipulation.js:833-888 | probability 0 or below gives the input back unchanged |
| NoiseOps.FlipAtCertainty | image-manipulation.js:870-884 | at probability 100 or more an undamped pixel is always inverted |
| NoiseOps.NoiseBlackOrWhiteAt | image-manipulation.js:879-883 | a black or white pixel stays black or white |
| NoiseOps.NoiseKeepsBlackAndWhite | image-manipulation.js:833-888 | noise keeps a black and white buffer black and white |
| NoiseOps.RowsMatchStep | image-manipulation.js:853-868 | a neighbourhood row that matches the centre extends the matching rows by one |
| NoiseOps.Uniform | image-manipulation.js:850-867 | every in-bounds pixel of the 3 x 3 neighbourhood has the centre's channel 0; the scan is proved to compute it by NeighbourhoodUniform, and RowsMatchStep states it row by row |
| NoiseOps.NeighbourhoodUniform | image-manipulation.js:850-868 | the early-exit scan returns the uniformity of the clipped 3 x 3 neighbourhood, judged on the input buffer |
| NoiseOps.AdjustedFromScan | image-manipulation.js:870-875 | the probability the code computes is the adjusted probability of the rule |
| NoiseOps.DrawOfPixel | image-manipulation.js:878 | the generator's call number `y * width + x` is the pixel's draw |
| NoiseOps.FlipFromParts | image-manipulation.js:878 | comparing that draw, scaled to percent, with that probability is the flip decision |
| NoiseOps.DecideFlip | image-manipulation.js:850-878 | the scan, the damping and one generator call decide the flip, advancing the generator by one call |
| NoiseOps.NoiseBytes | image-manipulation.js:845-883 | the bytes a pass stores for a pixel are the spec's bytes of that pixel |
| NoiseOps.CopyPixel | image-manipulation.js:845-848 | the copy stores the pixel's four input bytes and nothing else |
| NoiseOps.InvertPixel | image-manipulation.js:880-882 | the inversion stores the inverted R, G and B and leaves alpha and every other byte alone |
| NoiseOps.OverwriteThree | image-manipulation.js:845-882 | copying a pixel and then overwriting R, G and B leaves the inverted colour and the copied alpha |
| NoiseOps.AddNoiseToImage | image-manipulation.js:833-888 | with a generator of its own seeded by seed, the raster loop builds a fresh buffer equal to `AddNoise(input, p, seed)` |
| QrRender.QrText | image-manipulation.js:896-898 | the text handed to the encoder is never empty: "" becomes " ", anything else is kept |
| QrRender.Render | image-manipulation.js:910-931 | the rendered buffer is size x size, the side of the matrix |
| QrRender.ReadModules | image-manipulation.js:916 | reading a buffer back as a matrix gives one entry per pixel |
| QrRender.RenderPixel | image-manipulation.js:916-930 | every pixel is opaque; it is black when module (x, y) is set and white when not |
| QrRender.RenderIsBlackAndWhite | image-manipulation.js:914-931 | the rendered buffer is opaque black and white |
| QrRender.RenderRoundTrip | image-manipulation.js:914-931 | rendering loses nothing: reading the buffer back gives the matrix |
| QrRender.GetQRCodeImageData | image-manipulation.js:910-934 | the render loop builds a fresh size x size buffer equal to `Render(modules)` |
| Pipeline.Overlay | image-manipulation.js:1032-1039 | same size as the base; a top pixel with non-zero alpha replaces all four channels, otherwise the base pixel stays |
| Pipeline.OverlayPixel | image-manipulation.js:1033-1038 | per pixel: the whole top pixel where its alpha is > 0, the base pixel elsewhere |
| Pipeline.OverlayTransparent | image-manipulation.js:1032-1039 | a fully transparent top leaves the base unchanged |
| Pipeline.OverlayOpaque | image-manipulation.js:1032-1039 | a top of the base's size that is nowhere transparent replaces it |
| Pipeline.OverlayIdempotent | image-manipulation.js:1032-1039 | drawing the same top twice is drawing it once |
| Pipeline.AgreeFromSelf | image-manipulation.js:1026-1028 | a copied plane agrees with its source everywhere |
| Pipeline.OverlayWritten | image-manipulation.js:1033-1038 | the four bytes copied for an opaque top pixel extend the overlay prefix |
| Pipeline.OverlaySkipped | image-manipulation.js:1033 | a transparent top pixel leaves the base bytes, which are the overlay's |
| Pipeline.CopyPlane | image-manipulation.js:1026-1028 | the copy loop makes the destination plane equal to the source plane |
| Pipeline.CompositeOver | image-manipulation.js:1022-1039 | copy then overlay loop: a fresh buffer equal to `Overlay(base, top)` |
| Pipeline.CopyImage | image-manipulation.js:1093 | the shine-free copy is a fresh buffer with the same contents |
| Pipeline.Qr | image-manipulation.js:969 | qr is the rendered matrix with a 1-pixel margin: side size + 2 |
| Pipeline.CtrlMask | image-manipulation.js:972 | the mask (margin 1, square 8) has qr's side |
| Pipeline.QrCtrlx3 | image-manipulation.js:975-978 | qr kept where masked, transparent elsewhere, scaled by 3; contents in LayersAt |
| Pipeline.QrWithoutCtrlx3 | image-manipulation.js:981-984 | qr kept where not masked, transparent elsewhere, scaled by 3; contents in LayersAt |
| Pipeline.QrWithoutCtrlThinned | image-manipulation.js:987 | the thinned buffer; contents in LayersAt |
| Pipeline.NoisyPhoto | image-manipulation.js:1015-1019 | the binarised, noised photograph keeps the photograph's size |
| Pipeline.PlusAll | image-manipulation.js:1022-1059 | both overlays keep the base's size; contents in PlusAllPixel |
| Pipeline.GenerateQRCodeOverlay | image-manipulation.js:963-1097 | the composed result is a valid buffer; its size is in FinalSize, its pixels in FinalQrPixel and FinalModuleCentre |
| Pipeline.StageSizes | image-manipulation.js:969-987 | the mask has qr's size, so neither setWhereMasked takes its mismatch exit; both x3 buffers are `3 * (size + 2)` on a side, so the thinning takes its divisible branch |
| Pipeline.FinalSize | image-manipulation.js:1097 | with the photograph fitted to the thinned size, the final buffer is `3 * (size + 2) * scaleFactor` on each side |
| Pipeline.QrOpaque | image-manipulation.js:969 | every qr pixel, margin and modules alike, is opaque |
| Pipeline.Scale3At | image-manipulation.js:978 | pixel (X, Y) of a buffer scaled by 3 is source pixel (X / 3, Y / 3) |
| Pipeline.LayersAt | image-manipulation.js:975-987 | at (X, Y): where the mask is set at (X / 3, Y / 3) the control layer is the opaque qr pixel and the thinned layer is transparent; elsewhere the control layer is transparent and the thinned layer is the opaque qr pixel exactly at block centres |
| Pipeline.PlusAllPixel | image-manipulation.js:1022-1059 | in scaledUploadedImageBW_plusAllQR every pixel of a masked 3 x 3 block and the centre of every unmasked block equals qr pixel (X / 3, Y / 3); every other pixel is the base's |
| Pipeline.QrInterior | image-manipulation.js:969 | inside the margin, qr pixel (i + 1, j + 1) is rendered module (i, j) |
| Pipeline.BlockCentre | image-manipulation.js:1022-1059 | the centre (3x + 1, 3y + 1) of block (x, y) is qr pixel (x, y) |
| Pipeline.CentreOfBlock | image-manipulation.js:1022-1059 | the centre of the block of module (i, j) is rendered module (i, j) |
| Pipeline.ModuleCentre | image-manipulation.js:1052-1059 | whatever the photograph, module (i, j) is readable at its block centre: opaque black when set, opaque white when not |
| Pipeline.ColouredScaledAt | image-manipulation.js:1066-1097 | the recoloured and scaled buffer is `s` times as large, and its pixel (X, Y) is the recolouring of pixel (X / s, Y / s) |
| Pipeline.PlusAllColoured | image-manipulation.js:1022-1066 | recolouring a pixel of a masked block or a block centre gives the recoloured qr pixel (x / 3, y / 3); any other pixel gives the recoloured base pixel |
| Pipeline.ComposedPixel | image-manipulation.js:1022-1097 | in the recoloured, scaled overlay of any base, pixel (X, Y) over a masked block or a block centre is qr pixel (X / s / 3, Y / s / 3) recoloured, and any other pixel is the base's recoloured |
| Pipeline.FinalQrPixel | image-manipulation.js:1015-1097 | in result_colored_xN, every pixel over a masked 3 x 3 block or a block centre is the recoloured qr pixel (dark colour where qr is black, bright elsewhere, opaque); every other pixel is the noisy photograph's recoloured |
| Pipeline.ModuleColour | image-manipulation.js:969-1066 | recolouring qr pixel (i + 1, j + 1) gives the dark colour's channels when module (i, j) is set, the bright colour's when not, and alpha 255 |
| Pipeline.ModuleCentreChannel | image-manipulation.js:1052-1097 | channel c of a final pixel over the centre of module (i, j)'s block is qr pixel (i + 1, j + 1) recoloured |
| Pipeline.ComposedModuleCentre | image-manipulation.js:1052-1097 | for any base, every pixel of the s x s square over the centre of module (i, j)'s block is opaque, in the dark colour when the module is set and the bright colour when not |
| Pipeline.FinalModuleCentre | image-manipulation.js:1015-1097 | whatever the photograph, noise and seed, module (i, j) is readable in result_colored_xN: every pixel over its block centre is opaque and carries `ToUint8Clamp` of the dark colour's channels when set and of the bright colour's when not |
| Pipeline.GenerateQRCodeOverlayFor | image-manipulation.js:963-1097 | the chain of stage methods builds a fresh buffer equal to `GenerateQRCodeOverlay` of its inputs |

## Left out

- `scaleImageToDimensions` (image-manipulation.js:276-501) relies on browser canvas resampling. Its result is an input here: a photograph that must already be `3 * (size + 2)` on each side.
- The `QRCode` library call and its Promise wrapper (image-manipulation.js:900-909, 934-937) are an external encoder. The module matrix is an input, read as `modules[x][y]` where the library writes `modules.get(x, y)`. The `"" -> " "` substitution is kept as `QrText`.
- The dither branch of `generateQRCodeOverlay` (the gamma curve at image-manipulation.js:998-1011) and `floydSteinbergDither` need IEEE floating point. Only the threshold mode is modelled.
- `ditherImage` draws from the unseeded `Math.random`.
- `applyOriginalColors`, `rgbToHsl` and `hslToRgb` are floating-point HSL arithmetic. Only the custom-colour mode is modelled.
- The shine lightness lerp and `overlayDiagonalGradient` (image-manipulation.js:1073-1091, 1100-1134) are floating-point blends. Only shine off (the plain copy at 1093) is modelled.
- Canvas output, `console.error` logging, the debug object returned by `generateQRCodeOverlay` and its `try`/`catch` are side effects and plumbing, and are not modelled.
- ui-handlers.js is not part of this model: it holds DOM listeners, file input and downloads.
- ToneOps.Luminance and NoiseOps.AdjustedProbability are exact reals. Double rounding at an exact threshold or probability boundary is not reproduced.
- NoiseOps.Mulberry32: the seed is a `bv32`, so the generator is modelled only for seeds that are integers. Within the closure, JavaScript accumulates `seed` as a double, but only its value mod 2^32 reaches the bit operations, so the model is exact until the accumulated seed passes 2^53.
- ColorModel.Substr: strings are sequences of Unicode code points, so a character outside the Basic Multilingual Plane counts as one position, where JavaScript's `substr` counts its two UTF-16 code units.
- ColorModel.HexToRgb: for the same reason, a colour string holding a character outside the Basic Multilingual Plane can parse to different channels than in JavaScript (for `"#😀0000ff"` the model reads blue from `"0f"`, giving 15, where JavaScript reads `"00"`, giving 0, because the emoji's second code unit shifts every later position by one). Colour strings from a colour picker are ASCII, where the two agree.
- ColorModel.RgbToHex takes integers only. `Math.round` is the identity on them, and fractional channels are not modelled.
- Pipeline.CompositeOver requires the base and the top to have the same size. The source's loops assume it, and StageSizes and FinalSize show the pipeline always meets it.
- All methods: the source's nested loops are split into a pixel method, a row method and a row-loop method, which together perform the same stores in the same order. Products of coordinates are written through a recursive `Mul`, proved equal to `*` by `MulProduct`.
