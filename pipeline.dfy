/**
 * The staging and compositing of generateQRCodeOverlay in image-manipulation.js, for the
 * threshold black-and-white mode, the custom duotone colours and no shine.  The QR module
 * matrix and the photograph already fitted to the thinned QR buffer's size are inputs.
 */
module Pipeline {
  import opened PixelBuffer
  import opened GeometricOps
  import opened MaskOps
  import opened ToneOps
  import opened NoiseOps
  import opened QrRender
  import opened ColorModel

  // ---------------------------------------------------------------------------
  // "Non-transparent pixel wins" compositing
  // ---------------------------------------------------------------------------

  /** Channel c of pixel (x, y) of top drawn over base: a top pixel with non-zero alpha replaces all four channels. */
  function OverlayChannel(base: Image, top: Image, x: int, y: int, c: int): byte {
    if At(top, x, y, 3) > 0 then At(top, x, y, c) else At(base, x, y, c)
  }

  /** A copy of base with every non-transparent pixel of top written over it. */
  function Overlay(base: Image, top: Image): (r: Image)
    requires base.Valid()
    ensures r.Valid() && r.width == base.width && r.height == base.height
    ensures forall x, y, c | 0 <= x < r.width && 0 <= y < r.height && 0 <= c < 4 ::
      At(r, x, y, c) == OverlayChannel(base, top, x, y, c)
  {
    Build(base.width, base.height, (x, y, c) => OverlayChannel(base, top, x, y, c))
  }

  /** Where top is transparent the base shows through; elsewhere the whole top pixel is taken. */
  lemma OverlayPixel(base: Image, top: Image, x: int, y: int)
    requires base.Valid() && InBounds(base, x, y)
    ensures var r := Overlay(base, top);
      if At(top, x, y, 3) > 0 then forall c | 0 <= c < 4 :: At(r, x, y, c) == At(top, x, y, c)
      else forall c | 0 <= c < 4 :: At(r, x, y, c) == At(base, x, y, c)
  {
  }

  /** A fully transparent top leaves the base as it is. */
  lemma OverlayTransparent(base: Image, top: Image)
    requires base.Valid()
    requires forall x, y | 0 <= x < base.width && 0 <= y < base.height :: At(top, x, y, 3) == 0
    ensures Overlay(base, top) == base
  {
    var r := Overlay(base, top);
    forall x, y, c | 0 <= x < base.width && 0 <= y < base.height && 0 <= c < 4
      ensures At(r, x, y, c) == At(base, x, y, c)
    {
      OverlayPixel(base, top, x, y);
    }
    Extensionality(r, base);
  }

  /** A top of the base's size that is nowhere transparent replaces the base entirely. */
  lemma OverlayOpaque(base: Image, top: Image)
    requires base.Valid() && top.Valid() && top.width == base.width && top.height == base.height
    requires forall x, y | 0 <= x < base.width && 0 <= y < base.height :: At(top, x, y, 3) > 0
    ensures Overlay(base, top) == top
  {
    var r := Overlay(base, top);
    forall x, y, c | 0 <= x < base.width && 0 <= y < base.height && 0 <= c < 4
      ensures At(r, x, y, c) == At(top, x, y, c)
    {
      OverlayPixel(base, top, x, y);
    }
    Extensionality(r, top);
  }

  /** Drawing the same top twice is drawing it once. */
  lemma OverlayIdempotent(base: Image, top: Image)
    requires base.Valid()
    ensures Overlay(Overlay(base, top), top) == Overlay(base, top)
  {
    var once := Overlay(base, top);
    var twice := Overlay(once, top);
    forall x, y, c | 0 <= x < base.width && 0 <= y < base.height && 0 <= c < 4
      ensures At(twice, x, y, c) == At(once, x, y, c)
    {
      OverlayPixel(base, top, x, y);
      OverlayPixel(once, top, x, y);
    }
    Extensionality(twice, once);
  }

  /** The bytes of d from j onwards are those of s. */
  ghost predicate AgreeFrom(d: seq<byte>, s: seq<byte>, j: int) {
    0 <= j && |d| == |s| && forall i {:trigger ByteAt(s, i)} | j <= i < |s| :: d[i] == ByteAt(s, i)
  }

  /** A plane agrees with itself from the start. */
  lemma AgreeFromSelf(d: seq<byte>)
    ensures AgreeFrom(d, d, 0)
  {
  }

  /** The four top bytes written for an opaque top pixel starting at flat index i. */
  lemma OverlayWritten(d: seq<byte>, base: Image, top: Image, i: int)
    requires base.Valid() && top.Valid() && top.width == base.width && top.height == base.height
    requires 0 <= i && i + 4 <= |top.data| && i % 4 == 0
    requires Agree(d, Overlay(base, top).data, i) && AgreeFrom(d, base.data, i)
    requires top.data[i + 3] > 0
    ensures var d' := d[i := top.data[i]][i + 1 := top.data[i + 1]][i + 2 := top.data[i + 2]][i + 3 := top.data[i + 3]];
      Agree(d', Overlay(base, top).data, i + 4) && AgreeFrom(d', base.data, i + 4)
  {
    var s := Overlay(base, top);
    FlatPixel(top, i);
    var x, y := (i / 4) % top.width, (i / 4) / top.width;
    AtOffset(top, x, y, 0);
    AtOffset(top, x, y, 1);
    AtOffset(top, x, y, 2);
    AtOffset(top, x, y, 3);
    AtOffset(s, x, y, 0);
    AtOffset(s, x, y, 1);
    AtOffset(s, x, y, 2);
    AtOffset(s, x, y, 3);
    AgreePixel(d, s.data, i, top.data[i], top.data[i + 1], top.data[i + 2], top.data[i + 3]);
  }

  /** A transparent top pixel starting at flat index i leaves the base's four bytes, which are the overlay's. */
  lemma OverlaySkipped(d: seq<byte>, base: Image, top: Image, i: int)
    requires base.Valid() && top.Valid() && top.width == base.width && top.height == base.height
    requires 0 <= i && i + 4 <= |top.data| && i % 4 == 0
    requires Agree(d, Overlay(base, top).data, i) && AgreeFrom(d, base.data, i)
    requires top.data[i + 3] == 0
    ensures Agree(d, Overlay(base, top).data, i + 4) && AgreeFrom(d, base.data, i + 4)
  {
    var s := Overlay(base, top);
    SkippedBytes(base, top, i);
    AgreeKept(d, s.data, base.data, i);
  }

  /** Under a transparent top pixel starting at flat index i, the overlay's four bytes are the base's. */
  lemma SkippedBytes(base: Image, top: Image, i: int)
    requires base.Valid() && top.Valid() && top.width == base.width && top.height == base.height
    requires 0 <= i && i + 4 <= |top.data| && i % 4 == 0
    requires top.data[i + 3] == 0
    ensures var s := Overlay(base, top).data;
      |s| == |base.data| && s[i] == base.data[i] && s[i + 1] == base.data[i + 1] &&
      s[i + 2] == base.data[i + 2] && s[i + 3] == base.data[i + 3]
  {
    var s := Overlay(base, top);
    FlatPixel(top, i);
    var x, y := (i / 4) % top.width, (i / 4) / top.width;
    AtOffset(top, x, y, 3);
    AtOffset(base, x, y, 0);
    AtOffset(base, x, y, 1);
    AtOffset(base, x, y, 2);
    AtOffset(base, x, y, 3);
    AtOffset(s, x, y, 0);
    AtOffset(s, x, y, 1);
    AtOffset(s, x, y, 2);
    AtOffset(s, x, y, 3);
  }

  /** Where s and b share four bytes from i, agreement with s up to i and with b from i both move past them. */
  lemma AgreeKept(d: seq<byte>, s: seq<byte>, b: seq<byte>, i: int)
    requires Agree(d, s, i) && AgreeFrom(d, b, i) && |s| == |b| && i + 4 <= |b|
    requires s[i] == b[i] && s[i + 1] == b[i + 1] && s[i + 2] == b[i + 2] && s[i + 3] == b[i + 3]
    ensures Agree(d, s, i + 4) && AgreeFrom(d, b, i + 4)
  {
    assert ByteAt(b, i) == b[i] && ByteAt(b, i + 1) == b[i + 1];
    assert ByteAt(b, i + 2) == b[i + 2] && ByteAt(b, i + 3) == b[i + 3];
    assert forall k {:trigger ByteAt(s, k)} | i <= k < i + 4 :: ByteAt(s, k) == s[k];
  }

  /** The copy loop: every byte of src into dst. */
  method CopyPlane(src: ImageData, dst: ImageData)
    requires src.Valid() && dst.Valid() && src.width == dst.width && src.height == dst.height && dst.data != src.data
    modifies dst.data
    ensures dst.data[..] == src.data[..]
  {
    for i := 0 to src.data.Length
      invariant dst.data[..i] == src.data[..i]
    {
      dst.data[i] := src.data[i];
    }
  }

  /** One pass of an overlay loop: the pixel starting at flat index i. */
  method OverlayPixelStep(top: ImageData, ghost t: Image, result: ImageData, ghost base: Image, i: int)
    requires t.Valid() && top.width == t.width && top.height == t.height && top.data[..] == t.data
    requires base.Valid() && base.width == t.width && base.height == t.height
    requires result.Valid() && result.width == base.width && result.height == base.height && result.data != top.data
    requires 0 <= i < top.data.Length && i % 4 == 0
    requires Agree(result.data[..], Overlay(base, t).data, i) && AgreeFrom(result.data[..], base.data, i)
    modifies result.data
    ensures i + 4 <= top.data.Length
    ensures Agree(result.data[..], Overlay(base, t).data, i + 4) && AgreeFrom(result.data[..], base.data, i + 4)
  {
    FlatPixel(t, i);
    var topData := top.data;
    if topData[i + 3] > 0 {
      OverlayWritten(result.data[..], base, t, i);
      ghost var before: seq<byte> := result.data[..];
      result.data[i] := topData[i];
      result.data[i + 1] := topData[i + 1];
      result.data[i + 2] := topData[i + 2];
      result.data[i + 3] := topData[i + 3];
      assert result.data[..] == before[i := topData[i]][i + 1 := topData[i + 1]][i + 2 := topData[i + 2]][i + 3 := topData[i + 3]];
    } else {
      OverlaySkipped(result.data[..], base, t, i);
    }
  }

  /** An overlay loop over the top buffer's plane, on a result that holds a copy of base. */
  method OverlayLoop(top: ImageData, ghost t: Image, result: ImageData, ghost base: Image)
    requires t.Valid() && top.width == t.width && top.height == t.height && top.data[..] == t.data
    requires base.Valid() && base.width == t.width && base.height == t.height
    requires result.Valid() && result.width == base.width && result.height == base.height && result.data != top.data
    requires result.data[..] == base.data
    modifies result.data
    ensures result.View() == Overlay(base, t)
  {
    ghost var s := Overlay(base, t);
    AgreeFromSelf(base.data);
    var topData := top.data;
    var i := 0;
    ghost var k := 0;
    while i < topData.Length
      invariant 0 <= i <= topData.Length && i == 4 * k
      invariant Agree(result.data[..], s.data, i) && AgreeFrom(result.data[..], base.data, i)
    {
      OverlayPixelStep(top, t, result, base, i);
      i, k := i + 4, k + 1;
    }
    AgreeComplete(result, s);
  }

  /**
   * A fresh buffer of the base's size holding a copy of base with top drawn over it:
   * the steps building scaledUploadedImageBW_plusCtrl and scaledUploadedImageBW_plusAllQR.
   */
  method CompositeOver(base: ImageData, top: ImageData) returns (result: ImageData)
    requires base.Valid() && top.Valid() && top.width == base.width && top.height == base.height
    ensures fresh(result) && fresh(result.data) && result.Valid()
    ensures result.View() == Overlay(base.View(), top.View())
  {
    result := new ImageData(base.width, base.height);
    CopyPlane(base, result);
    OverlayLoop(top, top.View(), result, base.View());
  }

  /** `new ImageData(new Uint8ClampedArray(img.data), w, h)`: a fresh buffer with the same contents. */
  method CopyImage(img: ImageData) returns (result: ImageData)
    requires img.Valid()
    ensures fresh(result) && fresh(result.data) && result.Valid()
    ensures result.View() == img.View()
  {
    result := new ImageData(img.width, img.height);
    CopyPlane(img, result);
  }

  // ---------------------------------------------------------------------------
  // The stages of generateQRCodeOverlay
  // ---------------------------------------------------------------------------

  /** The margin added around the rendered matrix and the side of a finder-pattern square. */
  const QrMargin := 1
  const ControlSquareSize := 8

  /** qr: the rendered matrix with a one-pixel white margin. */
  function Qr(modules: seq<seq<bool>>): (r: Image)
    requires |modules| > 0
    ensures r.Valid() && r.width == |modules| + 2 && r.height == |modules| + 2
  {
    AddMargin(QrMargin, Render(modules))
  }

  /** qrCtrlMask: the finder-pattern mask of qr's size. */
  function CtrlMask(modules: seq<seq<bool>>, add4thSquare: bool): (r: Image)
    requires |modules| > 0
    ensures r.Valid() && r.width == |modules| + 2 && r.height == |modules| + 2
  {
    GenerateMask(|modules| + 2, |modules| + 2, QrMargin, ControlSquareSize, add4thSquare)
  }

  /** qrCtrlx3: qr kept only where masked, transparent elsewhere, scaled by 3. */
  function QrCtrlx3(modules: seq<seq<bool>>, add4thSquare: bool): (r: Image)
    requires |modules| > 0
    ensures r.Valid()
  {
    ScaleByFactor(SetWhereMasked(Qr(modules), CtrlMask(modules, add4thSquare), 0, 0, 0, 0, true), 3)
  }

  /** qrWithoutCtrlx3: qr kept only where not masked, transparent elsewhere, scaled by 3. */
  function QrWithoutCtrlx3(modules: seq<seq<bool>>, add4thSquare: bool): (r: Image)
    requires |modules| > 0
    ensures r.Valid()
  {
    ScaleByFactor(SetWhereMasked(Qr(modules), CtrlMask(modules, add4thSquare), 0, 0, 0, 0, false), 3)
  }

  /** qrWithoutCtrlThinned: only the centre of every 3 x 3 block of qrWithoutCtrlx3. */
  function QrWithoutCtrlThinned(modules: seq<seq<bool>>, add4thSquare: bool): (r: Image)
    requires |modules| > 0
    ensures r.Valid()
  {
    OnlyKeepCenterPixel(QrWithoutCtrlx3(modules, add4thSquare))
  }

  /** scaledUploadedImageBW_Noise: the fitted photograph binarised, then noised. */
  function NoisyPhoto(photo: Image, threshold: real, noiseProbability: real, noiseSeed: bv32): (r: Image)
    requires photo.Valid()
    ensures r.Valid() && r.width == photo.width && r.height == photo.height
  {
    AddNoise(ConvertToBlackAndWhite(photo, threshold), noiseProbability, noiseSeed)
  }

  /** scaledUploadedImageBW_plusAllQR: the finder squares, then the thinned data modules, drawn over base. */
  function PlusAll(modules: seq<seq<bool>>, add4thSquare: bool, base: Image): (r: Image)
    requires |modules| > 0 && base.Valid()
    ensures r.Valid() && r.width == base.width && r.height == base.height
  {
    Overlay(Overlay(base, QrCtrlx3(modules, add4thSquare)), QrWithoutCtrlThinned(modules, add4thSquare))
  }

  /** result_colored_xN of generateQRCodeOverlay: recoloured, then scaled by scaleFactor. */
  function GenerateQRCodeOverlay(modules: seq<seq<bool>>, photo: Image, threshold: real, scaleFactor: int,
                                 noiseProbability: real, darkColor: string, brightColor: string,
                                 noiseSeed: bv32, add4thSquare: bool): (r: Image)
    requires |modules| > 0 && photo.Valid() && scaleFactor > 0
    ensures r.Valid()
  {
    var plusAll := PlusAll(modules, add4thSquare, NoisyPhoto(photo, threshold, noiseProbability, noiseSeed));
    ScaleByFactor(ApplyCustomColors(plusAll, darkColor, brightColor), scaleFactor)
  }

  // ---------------------------------------------------------------------------
  // What the pipeline guarantees
  // ---------------------------------------------------------------------------

  /**
   * The sizes line up: the mask has qr's size, so neither setWhereMasked call takes its
   * mismatch exit; both scaled buffers are 3 * (size + 2) on a side, so the thinning takes
   * its divisible branch; and the fitted photograph must be that size too.
   */
  lemma StageSizes(modules: seq<seq<bool>>, add4thSquare: bool)
    requires |modules| > 0
    ensures var qr, mask := Qr(modules), CtrlMask(modules, add4thSquare);
      qr.width == mask.width && qr.height == mask.height
    ensures var n := |modules|;
      var c3, w3 := QrCtrlx3(modules, add4thSquare), QrWithoutCtrlx3(modules, add4thSquare);
      c3.width == c3.height == w3.width == w3.height == 3 * (n + 2)
    ensures Divisible3(QrWithoutCtrlx3(modules, add4thSquare))
    ensures var t := QrWithoutCtrlThinned(modules, add4thSquare);
      t.width == t.height == 3 * (|modules| + 2)
  {
    MulProduct(|modules| + 2, 3);
  }

  /** The final buffer is 3 * (size + 2) * scaleFactor pixels on a side. */
  lemma FinalSize(modules: seq<seq<bool>>, photo: Image, threshold: real, scaleFactor: int,
                  noiseProbability: real, darkColor: string, brightColor: string,
                  noiseSeed: bv32, add4thSquare: bool)
    requires |modules| > 0 && photo.Valid() && scaleFactor > 0
    requires photo.width == 3 * (|modules| + 2) && photo.height == 3 * (|modules| + 2)
    ensures var r := GenerateQRCodeOverlay(modules, photo, threshold, scaleFactor, noiseProbability,
                                           darkColor, brightColor, noiseSeed, add4thSquare);
      r.width == 3 * (|modules| + 2) * scaleFactor && r.height == 3 * (|modules| + 2) * scaleFactor
  {
    MulProduct(3 * (|modules| + 2), scaleFactor);
  }

  /** Every pixel of qr is opaque: the margin is opaque white and every rendered module is opaque. */
  lemma QrOpaque(modules: seq<seq<bool>>, x: int, y: int)
    requires |modules| > 0 && 0 <= x < |modules| + 2 && 0 <= y < |modules| + 2
    ensures At(Qr(modules), x, y, 3) == 255
  {
    if !IsMargin(QrMargin, |modules|, |modules|, x, y) {
      RenderPixel(modules, x - 1, y - 1);
    }
  }

  /** Pixel (X, Y) of a buffer scaled by 3 is pixel (X / 3, Y / 3) of its source. */
  lemma Scale3At(img: Image, X: int, Y: int, c: int)
    requires img.Valid() && 0 <= X < 3 * img.width && 0 <= Y < 3 * img.height && 0 <= c < 4
    ensures InBounds(ScaleByFactor(img, 3), X, Y)
    ensures InBounds(img, X / 3, Y / 3)
    ensures At(ScaleByFactor(img, 3), X, Y, c) == At(img, X / 3, Y / 3, c)
  {
    ScalePixel(img, 3, X, Y, c);
  }

  /**
   * The four layers at pixel (X, Y) of the 3 * (size + 2) buffers, for the qr pixel
   * (x, y) = (X / 3, Y / 3) it comes from.
   */
  lemma LayersAt(modules: seq<seq<bool>>, add4thSquare: bool, X: int, Y: int, c: int)
    requires |modules| > 0 && 0 <= X < 3 * (|modules| + 2) && 0 <= Y < 3 * (|modules| + 2) && 0 <= c < 4
    ensures var qr, mask, x, y := Qr(modules), CtrlMask(modules, add4thSquare), X / 3, Y / 3;
      var c3, t := QrCtrlx3(modules, add4thSquare), QrWithoutCtrlThinned(modules, add4thSquare);
      if At(mask, x, y, 0) > 0 then
        At(c3, X, Y, 3) == 255 && At(c3, X, Y, c) == At(qr, x, y, c) && At(t, X, Y, 3) == 0
      else
        At(c3, X, Y, 3) == 0 &&
        (X % 3 == 1 && Y % 3 == 1 ==> At(t, X, Y, 3) == 255 && At(t, X, Y, c) == At(qr, x, y, c)) &&
        (!(X % 3 == 1 && Y % 3 == 1) ==> At(t, X, Y, 3) == 0)
  {
    var qr, mask := Qr(modules), CtrlMask(modules, add4thSquare);
    var ctrl := SetWhereMasked(qr, mask, 0, 0, 0, 0, true);
    var without := SetWhereMasked(qr, mask, 0, 0, 0, 0, false);
    var w3 := ScaleByFactor(without, 3);
    StageSizes(modules, add4thSquare);
    Scale3At(ctrl, X, Y, c);
    Scale3At(ctrl, X, Y, 3);
    Scale3At(without, X, Y, c);
    Scale3At(without, X, Y, 3);
    var x, y := X / 3, Y / 3;
    QrOpaque(modules, x, y);
    SetWhereMaskedPixel(qr, mask, 0, 0, 0, 0, true, x, y);
    SetWhereMaskedPixel(qr, mask, 0, 0, 0, 0, false, x, y);
    assert At(QrWithoutCtrlThinned(modules, add4thSquare), X, Y, c) ==
      (if X % 3 == 1 && Y % 3 == 1 then At(w3, X, Y, c) else 0);
    assert At(QrWithoutCtrlThinned(modules, add4thSquare), X, Y, 3) ==
      (if X % 3 == 1 && Y % 3 == 1 then At(w3, X, Y, 3) else 0);
  }

  /**
   * Finder regions and module centres survive compositing: in scaledUploadedImageBW_plusAllQR,
   * every pixel of a masked 3 x 3 block and the centre of every other block is the qr pixel
   * the block comes from; every other pixel is the base's.
   */
  lemma PlusAllPixel(modules: seq<seq<bool>>, add4thSquare: bool, base: Image, X: int, Y: int, c: int)
    requires |modules| > 0 && base.Valid()
    requires base.width == 3 * (|modules| + 2) && base.height == 3 * (|modules| + 2)
    requires 0 <= X < base.width && 0 <= Y < base.height && 0 <= c < 4
    ensures var qr, mask, p := Qr(modules), CtrlMask(modules, add4thSquare), PlusAll(modules, add4thSquare, base);
      if At(mask, X / 3, Y / 3, 0) > 0 || (X % 3 == 1 && Y % 3 == 1) then At(p, X, Y, c) == At(qr, X / 3, Y / 3, c)
      else At(p, X, Y, c) == At(base, X, Y, c)
  {
    var c3, t := QrCtrlx3(modules, add4thSquare), QrWithoutCtrlThinned(modules, add4thSquare);
    var plusCtrl := Overlay(base, c3);
    LayersAt(modules, add4thSquare, X, Y, c);
    OverlayPixel(base, c3, X, Y);
    OverlayPixel(plusCtrl, t, X, Y);
  }

  /**
   * Module (i, j) of the matrix is readable at the centre of its block in scaledUploadedImageBW_plusAllQR:
   * that pixel is opaque, and its colour channels are black when the module is set and white when not,
   * whatever the base holds.
   */
  lemma ModuleCentre(modules: seq<seq<bool>>, add4thSquare: bool, base: Image, i: int, j: int)
    requires |modules| > 0 && base.Valid()
    requires base.width == 3 * (|modules| + 2) && base.height == 3 * (|modules| + 2)
    requires 0 <= i < |modules| && 0 <= j < |modules|
    ensures var p, X, Y := PlusAll(modules, add4thSquare, base), 3 * (i + 1) + 1, 3 * (j + 1) + 1;
      At(p, X, Y, 3) == 255 &&
      (Dark(modules, i, j) ==> At(p, X, Y, 0) == 0 && At(p, X, Y, 1) == 0 && At(p, X, Y, 2) == 0) &&
      (!Dark(modules, i, j) ==> At(p, X, Y, 0) == 255 && At(p, X, Y, 1) == 255 && At(p, X, Y, 2) == 255)
  {
    CentreOfBlock(modules, add4thSquare, base, i, j, 0);
    CentreOfBlock(modules, add4thSquare, base, i, j, 1);
    CentreOfBlock(modules, add4thSquare, base, i, j, 2);
    CentreOfBlock(modules, add4thSquare, base, i, j, 3);
    RenderPixel(modules, i, j);
  }

  /** Channel c at the centre of the block of module (i, j) is channel c of rendered module (i, j). */
  lemma CentreOfBlock(modules: seq<seq<bool>>, add4thSquare: bool, base: Image, i: int, j: int, c: int)
    requires |modules| > 0 && base.Valid()
    requires base.width == 3 * (|modules| + 2) && base.height == 3 * (|modules| + 2)
    requires 0 <= i < |modules| && 0 <= j < |modules| && 0 <= c < 4
    ensures At(PlusAll(modules, add4thSquare, base), 3 * (i + 1) + 1, 3 * (j + 1) + 1, c) == At(Render(modules), i, j, c)
  {
    BlockCentre(modules, add4thSquare, base, i + 1, j + 1, 3 * (i + 1) + 1, 3 * (j + 1) + 1, c);
    QrInterior(modules, i, j, c);
  }

  /** Inside the margin, qr pixel (i + 1, j + 1) is rendered module (i, j). */
  lemma QrInterior(modules: seq<seq<bool>>, i: int, j: int, c: int)
    requires |modules| > 0 && 0 <= i < |modules| && 0 <= j < |modules| && 0 <= c < 4
    ensures At(Qr(modules), i + 1, j + 1, c) == At(Render(modules), i, j, c)
  {
    assert !IsMargin(QrMargin, |modules|, |modules|, i + 1, j + 1);
  }

  /** Channel c at the centre (X, Y) = (3x + 1, 3y + 1) of block (x, y) is channel c of qr pixel (x, y). */
  lemma BlockCentre(modules: seq<seq<bool>>, add4thSquare: bool, base: Image, x: int, y: int, X: int, Y: int, c: int)
    requires |modules| > 0 && base.Valid()
    requires base.width == 3 * (|modules| + 2) && base.height == 3 * (|modules| + 2)
    requires 0 <= x < |modules| + 2 && 0 <= y < |modules| + 2 && 0 <= c < 4
    requires X == 3 * x + 1 && Y == 3 * y + 1
    ensures At(PlusAll(modules, add4thSquare, base), X, Y, c) == At(Qr(modules), x, y, c)
  {
    assert X / 3 == x && X % 3 == 1 && Y / 3 == y && Y % 3 == 1;
    PlusAllPixel(modules, add4thSquare, base, X, Y, c);
  }

  /** A pixel coordinate whose quotient by s lies below W lies below s * W. */
  lemma QuotientBound(X: int, s: int, W: int)
    requires s > 0 && 0 <= X && X / s < W
    ensures X < s * W
  {
    ProductLe(X / s + 1, W, s);
  }

  /**
   * The QR guarantee carried to result_colored_xN: pixel (X, Y) of the final buffer comes from
   * pixel (X / s, Y / s) of scaledUploadedImageBW_plusAllQR.  When that pixel lies in a
   * masked 3 x 3 block or at the centre of any block, the final pixel is qr pixel
   * (X / s / 3, Y / s / 3) recoloured: opaque, the dark colour where qr is black and the
   * bright one elsewhere.  Every other pixel is the noisy photograph's pixel recoloured.
   */
  lemma FinalQrPixel(modules: seq<seq<bool>>, photo: Image, threshold: real, scaleFactor: int,
                     noiseProbability: real, darkColor: string, brightColor: string,
                     noiseSeed: bv32, add4thSquare: bool, X: int, Y: int, c: int)
    requires |modules| > 0 && photo.Valid() && scaleFactor > 0
    requires photo.width == 3 * (|modules| + 2) && photo.height == 3 * (|modules| + 2)
    requires 0 <= X < scaleFactor * photo.width && 0 <= Y < scaleFactor * photo.height && 0 <= c < 4
    ensures var r := GenerateQRCodeOverlay(modules, photo, threshold, scaleFactor, noiseProbability,
                                           darkColor, brightColor, noiseSeed, add4thSquare);
      var dark, bright, PX, PY := HexToRgb(darkColor), HexToRgb(brightColor), X / scaleFactor, Y / scaleFactor;
      if At(CtrlMask(modules, add4thSquare), PX / 3, PY / 3, 0) > 0 || (PX % 3 == 1 && PY % 3 == 1) then
        At(r, X, Y, c) == DuotoneChannel(Qr(modules), dark, bright, PX / 3, PY / 3, c)
      else
        At(r, X, Y, c) ==
          DuotoneChannel(NoisyPhoto(photo, threshold, noiseProbability, noiseSeed), dark, bright, PX, PY, c)
  {
    var noisy := NoisyPhoto(photo, threshold, noiseProbability, noiseSeed);
    ComposedPixel(modules, add4thSquare, noisy, darkColor, brightColor, scaleFactor, X, Y, c);
  }

  /** FinalQrPixel for any base buffer of the QR's size in place of the noisy photograph. */
  lemma ComposedPixel(modules: seq<seq<bool>>, add4thSquare: bool, base: Image, darkColor: string,
                      brightColor: string, s: int, X: int, Y: int, c: int)
    requires |modules| > 0 && base.Valid() && s > 0
    requires base.width == 3 * (|modules| + 2) && base.height == 3 * (|modules| + 2)
    requires 0 <= X < s * base.width && 0 <= Y < s * base.height && 0 <= c < 4
    ensures var r := ScaleByFactor(ApplyCustomColors(PlusAll(modules, add4thSquare, base), darkColor, brightColor), s);
      var dark, bright, PX, PY := HexToRgb(darkColor), HexToRgb(brightColor), X / s, Y / s;
      if At(CtrlMask(modules, add4thSquare), PX / 3, PY / 3, 0) > 0 || (PX % 3 == 1 && PY % 3 == 1) then
        At(r, X, Y, c) == DuotoneChannel(Qr(modules), dark, bright, PX / 3, PY / 3, c)
      else
        At(r, X, Y, c) == DuotoneChannel(base, dark, bright, PX, PY, c)
  {
    var plusAll := PlusAll(modules, add4thSquare, base);
    ColouredScaledAt(plusAll, darkColor, brightColor, s, X, Y, c);
    PlusAllColoured(modules, add4thSquare, base, HexToRgb(darkColor), HexToRgb(brightColor), X / s, Y / s, c);
  }

  /** The recolouring of a pixel of scaledUploadedImageBW_plusAllQR, by where the pixel lies. */
  lemma PlusAllColoured(modules: seq<seq<bool>>, add4thSquare: bool, base: Image, dark: ParsedRgb,
                        bright: ParsedRgb, x: int, y: int, c: int)
    requires |modules| > 0 && base.Valid()
    requires base.width == 3 * (|modules| + 2) && base.height == 3 * (|modules| + 2)
    requires 0 <= x < base.width && 0 <= y < base.height && 0 <= c < 4
    ensures var p := PlusAll(modules, add4thSquare, base);
      if At(CtrlMask(modules, add4thSquare), x / 3, y / 3, 0) > 0 || (x % 3 == 1 && y % 3 == 1) then
        DuotoneChannel(p, dark, bright, x, y, c) == DuotoneChannel(Qr(modules), dark, bright, x / 3, y / 3, c)
      else
        DuotoneChannel(p, dark, bright, x, y, c) == DuotoneChannel(base, dark, bright, x, y, c)
  {
    var p, qr := PlusAll(modules, add4thSquare, base), Qr(modules);
    PlusAllPixel(modules, add4thSquare, base, x, y, 0);
    if At(CtrlMask(modules, add4thSquare), x / 3, y / 3, 0) > 0 || (x % 3 == 1 && y % 3 == 1) {
      SameKeySameColour(p, x, y, qr, x / 3, y / 3, dark, bright, c);
    } else {
      SameKeySameColour(p, x, y, base, x, y, dark, bright, c);
    }
  }

  /** Recolouring looks only at the red channel: equal red, equal recoloured channel. */
  lemma SameKeySameColour(p: Image, px: int, py: int, q: Image, qx: int, qy: int,
                          dark: ParsedRgb, bright: ParsedRgb, c: int)
    requires At(p, px, py, 0) == At(q, qx, qy, 0)
    ensures DuotoneChannel(p, dark, bright, px, py, c) == DuotoneChannel(q, dark, bright, qx, qy, c)
  {
  }

  /** Pixel (X, Y) of a recoloured and scaled buffer is the recolouring of pixel (X / s, Y / s). */
  lemma ColouredScaledAt(p: Image, darkColor: string, brightColor: string, s: int, X: int, Y: int, c: int)
    requires p.Valid() && s > 0 && 0 <= X < s * p.width && 0 <= Y < s * p.height && 0 <= c < 4
    ensures var r := ScaleByFactor(ApplyCustomColors(p, darkColor, brightColor), s);
      r.width == s * p.width && r.height == s * p.height && InBounds(p, X / s, Y / s)
    ensures At(ScaleByFactor(ApplyCustomColors(p, darkColor, brightColor), s), X, Y, c) ==
            DuotoneChannel(p, HexToRgb(darkColor), HexToRgb(brightColor), X / s, Y / s, c)
  {
    ScalePixel(ApplyCustomColors(p, darkColor, brightColor), s, X, Y, c);
  }

  /**
   * Module (i, j) is readable in result_colored_xN: every pixel of the s x s block that the
   * centre of the module's 3 x 3 block becomes is opaque, and holds the dark colour when the
   * module is set and the bright colour when it is not, whatever the photograph.
   */
  lemma FinalModuleCentre(modules: seq<seq<bool>>, photo: Image, threshold: real, scaleFactor: int,
                          noiseProbability: real, darkColor: string, brightColor: string,
                          noiseSeed: bv32, add4thSquare: bool, i: int, j: int, X: int, Y: int)
    requires |modules| > 0 && photo.Valid() && scaleFactor > 0
    requires photo.width == 3 * (|modules| + 2) && photo.height == 3 * (|modules| + 2)
    requires 0 <= i < |modules| && 0 <= j < |modules| && 0 <= X && 0 <= Y
    requires X / scaleFactor == 3 * (i + 1) + 1 && Y / scaleFactor == 3 * (j + 1) + 1
    ensures var r := GenerateQRCodeOverlay(modules, photo, threshold, scaleFactor, noiseProbability,
                                           darkColor, brightColor, noiseSeed, add4thSquare);
      var rgb := if Dark(modules, i, j) then HexToRgb(darkColor) else HexToRgb(brightColor);
      InBounds(r, X, Y) &&
      At(r, X, Y, 0) == ToUint8Clamp(rgb.r) && At(r, X, Y, 1) == ToUint8Clamp(rgb.g) &&
      At(r, X, Y, 2) == ToUint8Clamp(rgb.b) && At(r, X, Y, 3) == 255
  {
    var noisy := NoisyPhoto(photo, threshold, noiseProbability, noiseSeed);
    ComposedModuleCentre(modules, add4thSquare, noisy, darkColor, brightColor, scaleFactor, i, j, X, Y);
  }

  /** FinalModuleCentre for any base buffer of the QR's size in place of the noisy photograph. */
  lemma ComposedModuleCentre(modules: seq<seq<bool>>, add4thSquare: bool, base: Image, darkColor: string,
                             brightColor: string, s: int, i: int, j: int, X: int, Y: int)
    requires |modules| > 0 && base.Valid() && s > 0
    requires base.width == 3 * (|modules| + 2) && base.height == 3 * (|modules| + 2)
    requires 0 <= i < |modules| && 0 <= j < |modules| && 0 <= X && 0 <= Y
    requires X / s == 3 * (i + 1) + 1 && Y / s == 3 * (j + 1) + 1
    ensures var r := ScaleByFactor(ApplyCustomColors(PlusAll(modules, add4thSquare, base), darkColor, brightColor), s);
      var rgb := if Dark(modules, i, j) then HexToRgb(darkColor) else HexToRgb(brightColor);
      InBounds(r, X, Y) &&
      At(r, X, Y, 0) == ToUint8Clamp(rgb.r) && At(r, X, Y, 1) == ToUint8Clamp(rgb.g) &&
      At(r, X, Y, 2) == ToUint8Clamp(rgb.b) && At(r, X, Y, 3) == 255
  {
    var dark, bright := HexToRgb(darkColor), HexToRgb(brightColor);
    var qr := Qr(modules);
    QuotientBound(X, s, base.width);
    QuotientBound(Y, s, base.height);
    ModuleCentreChannel(modules, add4thSquare, base, darkColor, brightColor, s, i, j, X, Y, 0);
    ModuleCentreChannel(modules, add4thSquare, base, darkColor, brightColor, s, i, j, X, Y, 1);
    ModuleCentreChannel(modules, add4thSquare, base, darkColor, brightColor, s, i, j, X, Y, 2);
    ModuleCentreChannel(modules, add4thSquare, base, darkColor, brightColor, s, i, j, X, Y, 3);
    ModuleColour(modules, dark, bright, i, j, 0);
    ModuleColour(modules, dark, bright, i, j, 1);
    ModuleColour(modules, dark, bright, i, j, 2);
    ModuleColour(modules, dark, bright, i, j, 3);
  }

  /** Recolouring qr pixel (i + 1, j + 1) gives the dark colour for a set module and the bright one otherwise. */
  lemma ModuleColour(modules: seq<seq<bool>>, dark: ParsedRgb, bright: ParsedRgb, i: int, j: int, c: int)
    requires |modules| > 0 && 0 <= i < |modules| && 0 <= j < |modules| && 0 <= c < 4
    ensures DuotoneChannel(Qr(modules), dark, bright, i + 1, j + 1, c) ==
            if c == 3 then 255 else ColourChannel(if Dark(modules, i, j) then dark else bright, c)
  {
    QrInterior(modules, i, j, 0);
    RenderPixel(modules, i, j);
  }

  /** Channel c of a final pixel over the centre of module (i, j) is module (i, j) recoloured. */
  lemma ModuleCentreChannel(modules: seq<seq<bool>>, add4thSquare: bool, base: Image, darkColor: string,
                            brightColor: string, s: int, i: int, j: int, X: int, Y: int, c: int)
    requires |modules| > 0 && base.Valid() && s > 0
    requires base.width == 3 * (|modules| + 2) && base.height == 3 * (|modules| + 2)
    requires 0 <= i < |modules| && 0 <= j < |modules| && 0 <= X < s * base.width && 0 <= Y < s * base.height
    requires X / s == 3 * (i + 1) + 1 && Y / s == 3 * (j + 1) + 1 && 0 <= c < 4
    ensures var r := ScaleByFactor(ApplyCustomColors(PlusAll(modules, add4thSquare, base), darkColor, brightColor), s);
      InBounds(r, X, Y) &&
      At(r, X, Y, c) == DuotoneChannel(Qr(modules), HexToRgb(darkColor), HexToRgb(brightColor), i + 1, j + 1, c)
  {
    var plusAll, qr := PlusAll(modules, add4thSquare, base), Qr(modules);
    var PX, PY := X / s, Y / s;
    ColouredScaledAt(plusAll, darkColor, brightColor, s, X, Y, c);
    BlockCentre(modules, add4thSquare, base, i + 1, j + 1, PX, PY, 0);
    SameKeySameColour(plusAll, PX, PY, qr, i + 1, j + 1, HexToRgb(darkColor), HexToRgb(brightColor), c);
  }

  /**
   * generateQRCodeOverlay for the threshold mode, custom colours and no shine, from the QR
   * module matrix and the photograph fitted to the thinned buffer's size.
   */
  method GenerateQRCodeOverlayFor(modules: seq<seq<bool>>, scaledUploadedImage: ImageData, threshold: real,
                                  scaleFactor: int, noiseProbability: real, darkColor: string, brightColor: string,
                                  noiseSeed: bv32, add4thSquare: bool)
    returns (resultColoredXN: ImageData)
    requires |modules| > 0 && scaledUploadedImage.Valid() && scaleFactor > 0
    requires scaledUploadedImage.width == 3 * (|modules| + 2) && scaledUploadedImage.height == 3 * (|modules| + 2)
    ensures fresh(resultColoredXN) && resultColoredXN.Valid()
    ensures resultColoredXN.View() == GenerateQRCodeOverlay(modules, scaledUploadedImage.View(), threshold, scaleFactor,
                                                            noiseProbability, darkColor, brightColor, noiseSeed, add4thSquare)
  {
    StageSizes(modules, add4thSquare);
    var qrNoMargin := GetQRCodeImageData(modules);
    var qr := AddMarginTo(QrMargin, qrNoMargin);
    var qrCtrlMask := GenerateMaskFor(qr, QrMargin, ControlSquareSize, add4thSquare);
    var qrCtrl := SetWhereMaskedTo(qr, qrCtrlMask, 0, 0, 0, 0, true);
    var qrCtrlx3 := Scale3Image(qrCtrl);
    var qrWithoutCtrl := SetWhereMaskedTo(qr, qrCtrlMask, 0, 0, 0, 0, false);
    var qrWithoutCtrlx3 := Scale3Image(qrWithoutCtrl);
    var qrWithoutCtrlThinned := OnlyKeepCenterPixelOf9x9Block(qrWithoutCtrlx3);
    var scaledUploadedImageBW := ConvertToBlackAndWhiteOf(scaledUploadedImage, threshold);
    var scaledUploadedImageBW_Noise := AddNoiseToImage(scaledUploadedImageBW, noiseProbability, noiseSeed);
    var scaledUploadedImageBW_plusCtrl := CompositeOver(scaledUploadedImageBW_Noise, qrCtrlx3);
    var scaledUploadedImageBW_plusAllQR := CompositeOver(scaledUploadedImageBW_plusCtrl, qrWithoutCtrlThinned);
    var resultColored := ApplyCustomColorsTo(scaledUploadedImageBW_plusAllQR, darkColor, brightColor);
    var resultColoredShine := CopyImage(resultColored);
    resultColoredXN := ScaleImageByFactor(resultColoredShine, scaleFactor);
  }
}
