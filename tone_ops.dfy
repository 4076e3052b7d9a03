/**
 * Threshold binarisation and duotone recolouring: convertToBlackAndWhite and
 * applyCustomColors of image-manipulation.js.  Both read the input four bytes at a time
 * in one flat loop over the plane.
 */
module ToneOps {
  import opened PixelBuffer
  import opened ColorModel

  // ---------------------------------------------------------------------------
  // Black and white buffers
  // ---------------------------------------------------------------------------

  /** Pixel (x, y) is opaque and either black or white: R = G = B, each 0 or 255, alpha 255. */
  predicate BlackOrWhiteAt(img: Image, x: int, y: int) {
    At(img, x, y, 0) == At(img, x, y, 1) == At(img, x, y, 2) &&
    (At(img, x, y, 0) == 0 || At(img, x, y, 0) == 255) && At(img, x, y, 3) == 255
  }

  /** Every pixel of the buffer is opaque black or opaque white. */
  ghost predicate BlackAndWhite(img: Image) {
    img.Valid() && forall x, y | 0 <= x < img.width && 0 <= y < img.height :: BlackOrWhiteAt(img, x, y)
  }

  // ---------------------------------------------------------------------------
  // convertToBlackAndWhite
  // ---------------------------------------------------------------------------

  /** The luminance weighting of the source, computed exactly. */
  function Luminance(r: byte, g: byte, b: byte): real {
    r as real * 0.299 + g as real * 0.587 + b as real * 0.114
  }

  /** Grey has its own level as luminance; the weights sum to one. */
  lemma LuminanceOfGrey(v: byte)
    ensures Luminance(v, v, v) == v as real
  {
  }

  /** Channel c of pixel (x, y) after binarisation: white when brighter than the threshold. */
  function BwChannel(img: Image, threshold: real, x: int, y: int, c: int): byte {
    if c == 3 then 255
    else if Luminance(At(img, x, y, 0), At(img, x, y, 1), At(img, x, y, 2)) > threshold then 255
    else 0
  }

  /** convertToBlackAndWhite(img, threshold). */
  function ConvertToBlackAndWhite(img: Image, threshold: real): (r: Image)
    requires img.Valid()
    ensures r.Valid() && r.width == img.width && r.height == img.height
    ensures forall x, y, c | 0 <= x < r.width && 0 <= y < r.height && 0 <= c < 4 ::
      At(r, x, y, c) == BwChannel(img, threshold, x, y, c)
  {
    Build(img.width, img.height, (x, y, c) => BwChannel(img, threshold, x, y, c))
  }

  /**
   * The output is opaque black and white, and a pixel is white exactly when the luminance
   * of the input pixel exceeds the threshold.
   */
  lemma BlackAndWhitePixel(img: Image, threshold: real, x: int, y: int)
    requires img.Valid() && InBounds(img, x, y)
    ensures BlackOrWhiteAt(ConvertToBlackAndWhite(img, threshold), x, y)
    ensures At(ConvertToBlackAndWhite(img, threshold), x, y, 0) == 255 <==>
      Luminance(At(img, x, y, 0), At(img, x, y, 1), At(img, x, y, 2)) > threshold
  {
  }

  /** The whole output is black and white. */
  lemma ConvertIsBlackAndWhite(img: Image, threshold: real)
    requires img.Valid()
    ensures BlackAndWhite(ConvertToBlackAndWhite(img, threshold))
  {
    var r := ConvertToBlackAndWhite(img, threshold);
    forall x, y | 0 <= x < r.width && 0 <= y < r.height ensures BlackOrWhiteAt(r, x, y) {
      BlackAndWhitePixel(img, threshold, x, y);
    }
  }

  /**
   * A black and white buffer is left as it is by any threshold from 0 up to, but not
   * including, 255; so binarising twice is binarising once.
   */
  lemma ConvertFixesBlackAndWhite(img: Image, threshold: real)
    requires BlackAndWhite(img) && 0.0 <= threshold < 255.0
    ensures ConvertToBlackAndWhite(img, threshold) == img
  {
    var r := ConvertToBlackAndWhite(img, threshold);
    forall x, y, c | 0 <= x < img.width && 0 <= y < img.height && 0 <= c < 4
      ensures At(r, x, y, c) == At(img, x, y, c)
    {
      assert BlackOrWhiteAt(img, x, y);
      ConvertFixesAt(img, threshold, x, y, c);
    }
    Extensionality(r, img);
  }

  /** One channel of a black or white pixel survives binarisation. */
  lemma ConvertFixesAt(img: Image, threshold: real, x: int, y: int, c: int)
    requires img.Valid() && InBounds(img, x, y) && 0 <= c < 4 && BlackOrWhiteAt(img, x, y) && 0.0 <= threshold < 255.0
    ensures At(ConvertToBlackAndWhite(img, threshold), x, y, c) == At(img, x, y, c)
  {
    var v := At(img, x, y, 0);
    LuminanceOfGrey(v);
    assert At(ConvertToBlackAndWhite(img, threshold), x, y, c) == BwChannel(img, threshold, x, y, c);
    assert BwChannel(img, threshold, x, y, c) == if c == 3 then 255 else if v as real > threshold then 255 else 0;
  }

  lemma ConvertIdempotent(img: Image, threshold: real)
    requires img.Valid() && 0.0 <= threshold < 255.0
    ensures ConvertToBlackAndWhite(ConvertToBlackAndWhite(img, threshold), threshold) ==
      ConvertToBlackAndWhite(img, threshold)
  {
    ConvertIsBlackAndWhite(img, threshold);
    ConvertFixesBlackAndWhite(ConvertToBlackAndWhite(img, threshold), threshold);
  }

  /**
   * The four bytes convertToBlackAndWhite stores for the pixel starting at flat index i:
   * bw three times, then 255.
   */
  lemma BwBytes(img: Image, threshold: real, d: seq<byte>, i: int, bw: byte)
    requires img.Valid() && 0 <= i < |img.data| && i % 4 == 0 && |d| == |img.data|
    requires Agree(d, ConvertToBlackAndWhite(img, threshold).data, i)
    requires i + 2 < |img.data| && bw == if Luminance(img.data[i], img.data[i + 1], img.data[i + 2]) > threshold then 255 else 0
    ensures Agree(d[i := bw][i + 1 := bw][i + 2 := bw][i + 3 := 255], ConvertToBlackAndWhite(img, threshold).data, i + 4)
  {
    var s := ConvertToBlackAndWhite(img, threshold);
    FlatPixel(img, i);
    var x, y := (i / 4) % img.width, (i / 4) / img.width;
    AtOffset(img, x, y, 0);
    AtOffset(img, x, y, 1);
    AtOffset(img, x, y, 2);
    AtOffset(s, x, y, 0);
    AtOffset(s, x, y, 1);
    AtOffset(s, x, y, 2);
    AtOffset(s, x, y, 3);
    AgreePixel(d, s.data, i, bw, bw, bw, 255);
  }

  /** One pass of convertToBlackAndWhite's loop: the pixel starting at flat index i. */
  method BinarisePixel(imageData: ImageData, ghost src: Image, result: ImageData, threshold: real, i: int)
    requires src.Valid() && imageData.width == src.width && imageData.height == src.height && imageData.data[..] == src.data
    requires result.Valid() && result.data != imageData.data && result.width == src.width && result.height == src.height
    requires 0 <= i < imageData.data.Length && i % 4 == 0
    requires Agree(result.data[..], ConvertToBlackAndWhite(src, threshold).data, i)
    modifies result.data
    ensures i + 4 <= result.data.Length
    ensures Agree(result.data[..], ConvertToBlackAndWhite(src, threshold).data, i + 4)
  {
    FlatPixel(src, i);
    var data := imageData.data;
    var gray := Luminance(data[i], data[i + 1], data[i + 2]);
    var bw: byte := if gray > threshold then 255 else 0;
    BwBytes(src, threshold, result.data[..], i, bw);
    ghost var before: seq<byte> := result.data[..];
    result.data[i] := bw;
    result.data[i + 1] := bw;
    result.data[i + 2] := bw;
    result.data[i + 3] := 255;
    assert result.data[..] == before[i := bw][i + 1 := bw][i + 2 := bw][i + 3 := 255];
  }

  /** The flat loop of convertToBlackAndWhite, four bytes per pass. */
  method Binarise(imageData: ImageData, ghost src: Image, result: ImageData, threshold: real)
    requires src.Valid() && imageData.width == src.width && imageData.height == src.height && imageData.data[..] == src.data
    requires result.Valid() && result.data != imageData.data && result.width == src.width && result.height == src.height
    modifies result.data
    ensures result.View() == ConvertToBlackAndWhite(src, threshold)
  {
    ghost var s := ConvertToBlackAndWhite(src, threshold);
    var data := imageData.data;
    var i := 0;
    ghost var k := 0;
    while i < data.Length
      invariant 0 <= i <= data.Length && i == 4 * k
      invariant Agree(result.data[..], s.data, i)
    {
      BinarisePixel(imageData, src, result, threshold, i);
      i, k := i + 4, k + 1;
    }
    AgreeComplete(result, s);
  }

  /** convertToBlackAndWhite: a fresh buffer holding the binarised input. */
  method ConvertToBlackAndWhiteOf(imageData: ImageData, threshold: real) returns (result: ImageData)
    requires imageData.Valid()
    ensures fresh(result) && fresh(result.data) && result.Valid()
    ensures result.View() == ConvertToBlackAndWhite(imageData.View(), threshold)
  {
    result := new ImageData(imageData.width, imageData.height);
    Binarise(imageData, imageData.View(), result, threshold);
  }

  // ---------------------------------------------------------------------------
  // applyCustomColors
  // ---------------------------------------------------------------------------

  /** Channel c (0, 1 or 2) of a parsed colour, as a Uint8ClampedArray store leaves it. */
  function ColourChannel(rgb: ParsedRgb, c: int): byte {
    ToUint8Clamp(if c == 0 then rgb.r else if c == 1 then rgb.g else rgb.b)
  }

  /** Channel c of pixel (x, y) after recolouring: the dark colour where red is 0, else the bright one. */
  function DuotoneChannel(img: Image, dark: ParsedRgb, bright: ParsedRgb, x: int, y: int, c: int): byte {
    if c == 3 then 255
    else if At(img, x, y, 0) == 0 then ColourChannel(dark, c)
    else ColourChannel(bright, c)
  }

  /** The recolouring loop of applyCustomColors once both colours are parsed. */
  function Duotone(img: Image, dark: ParsedRgb, bright: ParsedRgb): (r: Image)
    requires img.Valid()
    ensures r.Valid() && r.width == img.width && r.height == img.height
    ensures forall x, y, c | 0 <= x < r.width && 0 <= y < r.height && 0 <= c < 4 ::
      At(r, x, y, c) == DuotoneChannel(img, dark, bright, x, y, c)
  {
    Build(img.width, img.height, (x, y, c) => DuotoneChannel(img, dark, bright, x, y, c))
  }

  /** applyCustomColors(img, darkColor, brightColor): both colours go through hexToRgb first. */
  function ApplyCustomColors(img: Image, darkColor: string, brightColor: string): Image
    requires img.Valid()
  {
    Duotone(img, HexToRgb(darkColor), HexToRgb(brightColor))
  }

  /**
   * Where channel 0 is 0 the pixel takes the dark colour, elsewhere the bright one, and it
   * is always opaque.
   */
  lemma DuotonePixel(img: Image, dark: ParsedRgb, bright: ParsedRgb, x: int, y: int)
    requires img.Valid() && InBounds(img, x, y)
    ensures var r, rgb := Duotone(img, dark, bright), if At(img, x, y, 0) == 0 then dark else bright;
      At(r, x, y, 0) == ToUint8Clamp(rgb.r) && At(r, x, y, 1) == ToUint8Clamp(rgb.g) &&
      At(r, x, y, 2) == ToUint8Clamp(rgb.b) && At(r, x, y, 3) == 255
  {
  }

  /** Colours that parse to bytes are written as they are. */
  lemma DuotoneBytesColours(img: Image, dr: int, dg: int, db: int, br: int, bg: int, bb: int, x: int, y: int)
    requires img.Valid() && InBounds(img, x, y)
    requires 0 <= dr < 256 && 0 <= dg < 256 && 0 <= db < 256 && 0 <= br < 256 && 0 <= bg < 256 && 0 <= bb < 256
    ensures var r := Duotone(img, ParsedRgb(Some(dr), Some(dg), Some(db)), ParsedRgb(Some(br), Some(bg), Some(bb)));
      if At(img, x, y, 0) == 0 then
        At(r, x, y, 0) == dr && At(r, x, y, 1) == dg && At(r, x, y, 2) == db
      else
        At(r, x, y, 0) == br && At(r, x, y, 1) == bg && At(r, x, y, 2) == bb
  {
    DuotonePixel(img, ParsedRgb(Some(dr), Some(dg), Some(db)), ParsedRgb(Some(br), Some(bg), Some(bb)), x, y);
  }

  /** Colours printed by rgbToHex are applied exactly: the dark one where channel 0 is 0. */
  lemma ApplyPrintedColours(img: Image, dr: int, dg: int, db: int, br: int, bg: int, bb: int, x: int, y: int)
    requires img.Valid() && InBounds(img, x, y)
    requires 0 <= dr < 256 && 0 <= dg < 256 && 0 <= db < 256 && 0 <= br < 256 && 0 <= bg < 256 && 0 <= bb < 256
    ensures var r := ApplyCustomColors(img, RgbToHex(dr, dg, db), RgbToHex(br, bg, bb));
      if At(img, x, y, 0) == 0 then
        At(r, x, y, 0) == dr && At(r, x, y, 1) == dg && At(r, x, y, 2) == db
      else
        At(r, x, y, 0) == br && At(r, x, y, 1) == bg && At(r, x, y, 2) == bb
  {
    HexRoundTrip(dr, dg, db);
    HexRoundTrip(br, bg, bb);
    DuotoneBytesColours(img, dr, dg, db, br, bg, bb, x, y);
  }

  /** Black and opaque white as the two colours leave a black and white buffer as it is. */
  lemma DuotoneIdentity(img: Image)
    requires BlackAndWhite(img)
    ensures Duotone(img, ParsedRgb(Some(0), Some(0), Some(0)), ParsedRgb(Some(255), Some(255), Some(255))) == img
  {
    var r := Duotone(img, ParsedRgb(Some(0), Some(0), Some(0)), ParsedRgb(Some(255), Some(255), Some(255)));
    forall x, y, c | 0 <= x < img.width && 0 <= y < img.height && 0 <= c < 4
      ensures At(r, x, y, c) == At(img, x, y, c)
    {
      assert BlackOrWhiteAt(img, x, y);
      DuotoneIdentityAt(img, x, y, c);
    }
    Extensionality(r, img);
  }

  /** One channel of a black or white pixel survives recolouring in black and white. */
  lemma DuotoneIdentityAt(img: Image, x: int, y: int, c: int)
    requires img.Valid() && InBounds(img, x, y) && 0 <= c < 4 && BlackOrWhiteAt(img, x, y)
    ensures At(Duotone(img, ParsedRgb(Some(0), Some(0), Some(0)), ParsedRgb(Some(255), Some(255), Some(255))), x, y, c)
      == At(img, x, y, c)
  {
    var dark, bright := ParsedRgb(Some(0), Some(0), Some(0)), ParsedRgb(Some(255), Some(255), Some(255));
    DuotonePixel(img, dark, bright, x, y);
  }

  /** The default colours, "#000000" and "#ffffff", leave a black and white buffer as it is. */
  lemma DefaultColoursIdentity(img: Image)
    requires BlackAndWhite(img)
    ensures ApplyCustomColors(img, "#000000", "#ffffff") == img
  {
    assert RgbToHex(0, 0, 0) == "#000000" by {
      RgbToHexDigits(0, 0, 0);
    }
    assert RgbToHex(255, 255, 255) == "#ffffff" by {
      RgbToHexDigits(255, 255, 255);
    }
    HexRoundTrip(0, 0, 0);
    HexRoundTrip(255, 255, 255);
    DuotoneIdentity(img);
  }

  /** The four bytes applyCustomColors stores for the pixel starting at flat index i. */
  lemma DuotoneBytes(img: Image, dark: ParsedRgb, bright: ParsedRgb, d: seq<byte>, i: int, v0: byte, v1: byte, v2: byte)
    requires img.Valid() && 0 <= i < |img.data| && i % 4 == 0 && |d| == |img.data|
    requires Agree(d, Duotone(img, dark, bright).data, i)
    requires var rgb := if img.data[i] == 0 then dark else bright;
      v0 == ToUint8Clamp(rgb.r) && v1 == ToUint8Clamp(rgb.g) && v2 == ToUint8Clamp(rgb.b)
    ensures Agree(d[i := v0][i + 1 := v1][i + 2 := v2][i + 3 := 255], Duotone(img, dark, bright).data, i + 4)
  {
    var s := Duotone(img, dark, bright);
    FlatPixel(img, i);
    var x, y := (i / 4) % img.width, (i / 4) / img.width;
    AtOffset(img, x, y, 0);
    AtOffset(s, x, y, 0);
    AtOffset(s, x, y, 1);
    AtOffset(s, x, y, 2);
    AtOffset(s, x, y, 3);
    AgreePixel(d, s.data, i, v0, v1, v2, 255);
  }

  /** One pass of applyCustomColors' loop: the pixel starting at flat index i. */
  method RecolourPixel(imageData: ImageData, ghost src: Image, result: ImageData, darkRgb: ParsedRgb, brightRgb: ParsedRgb, i: int)
    requires src.Valid() && imageData.width == src.width && imageData.height == src.height && imageData.data[..] == src.data
    requires result.Valid() && result.data != imageData.data && result.width == src.width && result.height == src.height
    requires 0 <= i < imageData.data.Length && i % 4 == 0
    requires Agree(result.data[..], Duotone(src, darkRgb, brightRgb).data, i)
    modifies result.data
    ensures i + 4 <= result.data.Length
    ensures Agree(result.data[..], Duotone(src, darkRgb, brightRgb).data, i + 4)
  {
    FlatPixel(src, i);
    var data := imageData.data;
    var isBlack := data[i] == 0;
    var v0, v1, v2: byte;
    if isBlack {
      v0, v1, v2 := ToUint8Clamp(darkRgb.r), ToUint8Clamp(darkRgb.g), ToUint8Clamp(darkRgb.b);
    } else {
      v0, v1, v2 := ToUint8Clamp(brightRgb.r), ToUint8Clamp(brightRgb.g), ToUint8Clamp(brightRgb.b);
    }
    DuotoneBytes(src, darkRgb, brightRgb, result.data[..], i, v0, v1, v2);
    ghost var before: seq<byte> := result.data[..];
    result.data[i] := v0;
    result.data[i + 1] := v1;
    result.data[i + 2] := v2;
    result.data[i + 3] := 255;
    assert result.data[..] == before[i := v0][i + 1 := v1][i + 2 := v2][i + 3 := 255];
  }

  /** The flat loop of applyCustomColors, with both colours already parsed. */
  method Recolour(imageData: ImageData, ghost src: Image, result: ImageData, darkRgb: ParsedRgb, brightRgb: ParsedRgb)
    requires src.Valid() && imageData.width == src.width && imageData.height == src.height && imageData.data[..] == src.data
    requires result.Valid() && result.data != imageData.data && result.width == src.width && result.height == src.height
    modifies result.data
    ensures result.View() == Duotone(src, darkRgb, brightRgb)
  {
    ghost var s := Duotone(src, darkRgb, brightRgb);
    var data := imageData.data;
    var i := 0;
    ghost var k := 0;
    while i < data.Length
      invariant 0 <= i <= data.Length && i == 4 * k
      invariant Agree(result.data[..], s.data, i)
    {
      RecolourPixel(imageData, src, result, darkRgb, brightRgb, i);
      i, k := i + 4, k + 1;
    }
    AgreeComplete(result, s);
  }

  /** applyCustomColors: both colours parsed once, then a fresh buffer recoloured. */
  method ApplyCustomColorsTo(imageData: ImageData, darkColor: string, brightColor: string) returns (result: ImageData)
    requires imageData.Valid()
    ensures fresh(result) && fresh(result.data) && result.Valid()
    ensures result.View() == ApplyCustomColors(imageData.View(), darkColor, brightColor)
  {
    result := new ImageData(imageData.width, imageData.height);
    var darkRgb := HexToRgb(darkColor);
    var brightRgb := HexToRgb(brightColor);
    Recolour(imageData, imageData.View(), result, darkRgb, brightRgb);
  }
}
