/**
 * The finder-pattern mask and mask substitution: generateMask and setWhereMasked of
 * image-manipulation.js.
 */
module MaskOps {
  import opened PixelBuffer

  // ---------------------------------------------------------------------------
  // Finder-pattern mask
  // ---------------------------------------------------------------------------

  /** Side of the optional fourth square, and its distance from the right and bottom borders. */
  const SquareSize := 5
  const DistanceFromBorder := 5

  /** The m-wide band along the four borders of a w x h buffer. */
  predicate InBorderBand(w: int, h: int, m: int, x: int, y: int) {
    y < m || y >= h - m || x < m || x >= w - m
  }

  /**
   * The three finder-pattern corners: the left stripe meets the upper and the lower stripe,
   * the right stripe meets only the upper one.
   */
  predicate InControlSquare(w: int, h: int, m: int, rectSize: int, x: int, y: int) {
    var isLeftStripe := x < m + rectSize;
    var isRightStripe := x >= w - m - rectSize;
    var isUpperStripe := y < m + rectSize;
    var isLowerStripe := y >= h - m - rectSize;
    (isLeftStripe && (isUpperStripe || isLowerStripe)) || (isRightStripe && isUpperStripe)
  }

  /** The fixed 5 x 5 square that ends 5 pixels before the right and the bottom border. */
  predicate InFourthSquare(w: int, h: int, x: int, y: int) {
    var squareLeft := w - DistanceFromBorder - SquareSize;
    var squareRight := w - DistanceFromBorder;
    var squareTop := h - DistanceFromBorder - SquareSize;
    var squareBottom := h - DistanceFromBorder;
    squareLeft <= x < squareRight && squareTop <= y < squareBottom
  }

  /** generateMask's decision for pixel (x, y). */
  predicate ShouldBeMasked(w: int, h: int, m: int, rectSize: int, add4thSquare: bool, x: int, y: int) {
    InBorderBand(w, h, m, x, y) || InControlSquare(w, h, m, rectSize, x, y)
    || (add4thSquare && InFourthSquare(w, h, x, y))
  }

  /** Every channel of a masked pixel is 255, every channel of an unmasked one 0. */
  function MaskChannel(w: int, h: int, m: int, rectSize: int, add4thSquare: bool, x: int, y: int): byte {
    if ShouldBeMasked(w, h, m, rectSize, add4thSquare, x, y) then 255 else 0
  }

  /** generateMask: a fresh w x h buffer, only w and h of the input being read. */
  function GenerateMask(w: int, h: int, m: int, rectSize: int, add4thSquare: bool): (r: Image)
    requires w > 0 && h > 0
    ensures r.Valid() && r.width == w && r.height == h
  {
    Build(w, h, (x, y, c) => MaskChannel(w, h, m, rectSize, add4thSquare, x, y))
  }

  /**
   * Every mask pixel is (255,255,255,255) or (0,0,0,0), and it is white exactly when it lies
   * in the border band, in one of the three finder corners, or (when asked for) in the square
   * spanning w-10 <= x < w-5, h-10 <= y < h-5.
   */
  lemma MaskPixel(w: int, h: int, m: int, rectSize: int, add4thSquare: bool, x: int, y: int)
    requires w > 0 && h > 0 && 0 <= x < w && 0 <= y < h
    ensures var mask := GenerateMask(w, h, m, rectSize, add4thSquare);
      forall c | 0 <= c < 4 :: At(mask, x, y, c) == At(mask, x, y, 0)
    ensures var v := At(GenerateMask(w, h, m, rectSize, add4thSquare), x, y, 0);
      (v == 255 || v == 0) &&
      (v == 255 <==>
        y < m || y >= h - m || x < m || x >= w - m
        || (x < m + rectSize && y < m + rectSize)
        || (x < m + rectSize && y >= h - m - rectSize)
        || (x >= w - m - rectSize && y < m + rectSize)
        || (add4thSquare && w - 10 <= x < w - 5 && h - 10 <= y < h - 5))
  {
  }

  /** The lower-right corner is left open: outside the band and the fourth square, it is never masked. */
  lemma LowerRightOpen(w: int, h: int, m: int, rectSize: int, add4thSquare: bool, x: int, y: int)
    requires w > 0 && h > 0 && 0 <= x < w && 0 <= y < h
    requires m <= x < w - m && m <= y < h - m && m + rectSize <= x && m + rectSize <= y
    requires !add4thSquare || !(w - 10 <= x < w - 5 && h - 10 <= y < h - 5)
    ensures forall c | 0 <= c < 4 :: At(GenerateMask(w, h, m, rectSize, add4thSquare), x, y, c) == 0
  {
    assert !InBorderBand(w, h, m, x, y) && !InControlSquare(w, h, m, rectSize, x, y);
    assert !(add4thSquare && InFourthSquare(w, h, x, y));
  }

  /** On a square buffer, the mask is symmetric about the main diagonal. */
  lemma {:induction false} MaskTranspose(n: int, m: int, rectSize: int, add4thSquare: bool)
    requires n > 0
    ensures var mask := GenerateMask(n, n, m, rectSize, add4thSquare);
      forall x, y, c | 0 <= x < n && 0 <= y < n && 0 <= c < 4 :: At(mask, x, y, c) == At(mask, y, x, c)
  {
    var mask := GenerateMask(n, n, m, rectSize, add4thSquare);
    forall x, y, c | 0 <= x < n && 0 <= y < n && 0 <= c < 4
      ensures At(mask, x, y, c) == At(mask, y, x, c)
    {
      assert ShouldBeMasked(n, n, m, rectSize, add4thSquare, x, y)
        == ShouldBeMasked(n, n, m, rectSize, add4thSquare, y, x);
    }
  }

  /** The fourth square only adds white pixels, and only inside the square. */
  lemma FourthSquareOnlyAdds(w: int, h: int, m: int, rectSize: int, x: int, y: int, c: int)
    requires w > 0 && h > 0 && 0 <= x < w && 0 <= y < h && 0 <= c < 4
    ensures At(GenerateMask(w, h, m, rectSize, false), x, y, c) <= At(GenerateMask(w, h, m, rectSize, true), x, y, c)
    ensures !InFourthSquare(w, h, x, y) ==>
      At(GenerateMask(w, h, m, rectSize, false), x, y, c) == At(GenerateMask(w, h, m, rectSize, true), x, y, c)
  {
  }

  /** The byte generateMask stores at flat index j = (y*w + x)*4 + c. */
  lemma MaskByte(w: int, h: int, m: int, rectSize: int, add4thSquare: bool, x: int, y: int, c: int, j: int)
    requires w > 0 && h > 0 && 0 <= x < w && 0 <= y < h && 0 <= c < 4 && j == Offset(w, x, y, c)
    ensures 0 <= j < |GenerateMask(w, h, m, rectSize, add4thSquare).data|
    ensures GenerateMask(w, h, m, rectSize, add4thSquare).data[j] ==
      if ShouldBeMasked(w, h, m, rectSize, add4thSquare, x, y) then 255 else 0
  {
    AtOffset(GenerateMask(w, h, m, rectSize, add4thSquare), x, y, c);
  }

  /** The body of generateMask's pixel loop for pixel (x, y): the decision, then the channel loop. */
  method FillMaskPixel(mask: ImageData, marginSize: int, rectSize: int, add4thSquare: bool, x: int, y: int)
    requires mask.Valid() && 0 <= x < mask.width && 0 <= y < mask.height
    requires Agree(mask.data[..], GenerateMask(mask.width, mask.height, marginSize, rectSize, add4thSquare).data,
                   Offset(mask.width, x, y, 0))
    modifies mask.data
    ensures Agree(mask.data[..], GenerateMask(mask.width, mask.height, marginSize, rectSize, add4thSquare).data,
                  Offset(mask.width, x, y, 0) + 4)
  {
    var width, height := mask.width, mask.height;
    ghost var s := GenerateMask(width, height, marginSize, rectSize, add4thSquare);
    var shouldBeMasked := false;
    if y < marginSize || y >= height - marginSize || x < marginSize || x >= width - marginSize {
      shouldBeMasked := true;
    }
    var isLeftStripe := x < marginSize + rectSize;
    var isRightStripe := x >= width - marginSize - rectSize;
    var isUpperStripe := y < marginSize + rectSize;
    var isLowerStripe := y >= height - marginSize - rectSize;
    if (isLeftStripe && (isUpperStripe || isLowerStripe)) || (isRightStripe && isUpperStripe) {
      shouldBeMasked := true;
    }
    if add4thSquare {
      var squareSize := 5;
      var distanceFromBorder := 5;
      var squareLeft := width - distanceFromBorder - squareSize;
      var squareRight := width - distanceFromBorder;
      var squareTop := height - distanceFromBorder - squareSize;
      var squareBottom := height - distanceFromBorder;
      if x >= squareLeft && x < squareRight && y >= squareTop && y < squareBottom {
        shouldBeMasked := true;
      }
    }
    var indexBase := Offset(width, x, y, 0);
    for ch := 0 to 4
      invariant Agree(mask.data[..], s.data, indexBase + ch)
    {
      var index := indexBase + ch;
      MaskByte(width, height, marginSize, rectSize, add4thSquare, x, y, ch, index);
      var newValue: byte := 0;
      if shouldBeMasked {
        newValue := 255;
      } else {
        newValue := 0;
      }
      AgreeByte(mask.data[..], s.data, index, newValue);
      ghost var before: seq<byte> := mask.data[..];
      mask.data[index] := newValue;
      assert mask.data[..] == before[index := newValue];
    }
  }

  /** One row of generateMask's pixel loop. */
  method FillMaskRow(mask: ImageData, marginSize: int, rectSize: int, add4thSquare: bool, y: int)
    requires mask.Valid() && 0 <= y < mask.height
    requires Agree(mask.data[..], GenerateMask(mask.width, mask.height, marginSize, rectSize, add4thSquare).data,
                   Mul(y, mask.width) * 4)
    modifies mask.data
    ensures Agree(mask.data[..], GenerateMask(mask.width, mask.height, marginSize, rectSize, add4thSquare).data,
                  Mul(y + 1, mask.width) * 4)
  {
    var width := mask.width;
    for x := 0 to width
      invariant Agree(mask.data[..], GenerateMask(mask.width, mask.height, marginSize, rectSize, add4thSquare).data,
                      Offset(width, x, y, 0))
    {
      FillMaskPixel(mask, marginSize, rectSize, add4thSquare, x, y);
    }
    RowStep(width, y);
  }

  /** The row loop of generateMask. */
  method FillMask(mask: ImageData, marginSize: int, rectSize: int, add4thSquare: bool)
    requires mask.Valid()
    modifies mask.data
    ensures mask.View() == GenerateMask(mask.width, mask.height, marginSize, rectSize, add4thSquare)
  {
    ghost var s := GenerateMask(mask.width, mask.height, marginSize, rectSize, add4thSquare);
    for y := 0 to mask.height
      invariant Agree(mask.data[..], s.data, Mul(y, mask.width) * 4)
    {
      FillMaskRow(mask, marginSize, rectSize, add4thSquare, y);
    }
    AgreeComplete(mask, s);
  }

  /** generateMask: a fresh buffer of the input's size holding the mask. */
  method GenerateMaskFor(imageData: ImageData, marginSize: int, rectSize: int, add4thSquare: bool)
    returns (mask: ImageData)
    requires imageData.Valid()
    ensures fresh(mask) && fresh(mask.data) && mask.Valid()
    ensures mask.View() == GenerateMask(imageData.width, imageData.height, marginSize, rectSize, add4thSquare)
  {
    mask := new ImageData(imageData.width, imageData.height);
    FillMask(mask, marginSize, rectSize, add4thSquare);
  }

  // ---------------------------------------------------------------------------
  // Mask substitution
  // ---------------------------------------------------------------------------

  /** Channel c of the colour (r, g, b, a). */
  function Channel(r: byte, g: byte, b: byte, a: byte, c: int): byte {
    if c == 0 then r else if c == 1 then g else if c == 2 then b else a
  }

  /** setWhereMasked's decision for pixel (x, y): a non-zero first mask channel, flipped by invertMask. */
  predicate Substituted(mask: Image, invertMask: bool, x: int, y: int) {
    (At(mask, x, y, 0) > 0) != invertMask
  }

  /** Channel c of pixel (x, y) of setWhereMasked's result on buffers of equal size. */
  function SubstChannel(image: Image, mask: Image, r: byte, g: byte, b: byte, a: byte, invertMask: bool,
                        x: int, y: int, c: int): byte {
    if Substituted(mask, invertMask, x, y) then Channel(r, g, b, a, c) else At(image, x, y, c)
  }

  /**
   * setWhereMasked: the image itself on a size mismatch; otherwise every substituted pixel
   * becomes (r, g, b, a) and every other pixel keeps the image's value.
   */
  function SetWhereMasked(image: Image, mask: Image, r: byte, g: byte, b: byte, a: byte, invertMask: bool): (res: Image)
    requires image.Valid() && mask.Valid()
    ensures res.Valid() && res.width == image.width && res.height == image.height
  {
    if image.width != mask.width || image.height != mask.height then image
    else Build(image.width, image.height, (x, y, c) => SubstChannel(image, mask, r, g, b, a, invertMask, x, y, c))
  }

  /** Same-size buffers: each output pixel is (r, g, b, a) when mask channel 0 > 0 XOR invertMask, else the image pixel. */
  lemma SetWhereMaskedPixel(image: Image, mask: Image, r: byte, g: byte, b: byte, a: byte, invertMask: bool,
                            x: int, y: int)
    requires image.Valid() && mask.Valid() && image.width == mask.width && image.height == mask.height
    requires InBounds(image, x, y)
    ensures var res := SetWhereMasked(image, mask, r, g, b, a, invertMask);
      if (At(mask, x, y, 0) > 0) != invertMask then
        At(res, x, y, 0) == r && At(res, x, y, 1) == g && At(res, x, y, 2) == b && At(res, x, y, 3) == a
      else
        forall c | 0 <= c < 4 :: At(res, x, y, c) == At(image, x, y, c)
  {
    AtOffset(mask, x, y, 0);
  }

  /** A size mismatch leaves the image as it is. */
  lemma SetWhereMaskedMismatch(image: Image, mask: Image, r: byte, g: byte, b: byte, a: byte, invertMask: bool)
    requires image.Valid() && mask.Valid() && (image.width != mask.width || image.height != mask.height)
    ensures SetWhereMasked(image, mask, r, g, b, a, invertMask) == image
  {
  }

  /**
   * The calls with invertMask false and true substitute complementary pixel sets: on every
   * pixel exactly one of the two results keeps the image's value.
   */
  lemma SetWhereMaskedComplement(image: Image, mask: Image, r: byte, g: byte, b: byte, a: byte, x: int, y: int)
    requires image.Valid() && mask.Valid() && image.width == mask.width && image.height == mask.height
    requires InBounds(image, x, y)
    ensures var p := SetWhereMasked(image, mask, r, g, b, a, false);
      var q := SetWhereMasked(image, mask, r, g, b, a, true);
      forall c | 0 <= c < 4 ::
        if At(mask, x, y, 0) > 0 then At(p, x, y, c) == Channel(r, g, b, a, c) && At(q, x, y, c) == At(image, x, y, c)
        else At(p, x, y, c) == At(image, x, y, c) && At(q, x, y, c) == Channel(r, g, b, a, c)
  {
  }

  /** Substituting twice with the same mask and colour is substituting once. */
  lemma {:induction false} SetWhereMaskedIdempotent(image: Image, mask: Image, r: byte, g: byte, b: byte, a: byte,
                                                   invertMask: bool)
    requires image.Valid() && mask.Valid()
    ensures var once := SetWhereMasked(image, mask, r, g, b, a, invertMask);
      SetWhereMasked(once, mask, r, g, b, a, invertMask) == once
  {
    var once := SetWhereMasked(image, mask, r, g, b, a, invertMask);
    var twice := SetWhereMasked(once, mask, r, g, b, a, invertMask);
    if image.width == mask.width && image.height == mask.height {
      forall x, y, c | 0 <= x < once.width && 0 <= y < once.height && 0 <= c < 4
        ensures At(twice, x, y, c) == At(once, x, y, c)
      {
      }
      Extensionality(twice, once);
    }
  }

  /**
   * The four bytes setWhereMasked stores for pixel (x, y), whose first byte sits at o: the
   * substitute colour when the decision holds, the image's bytes otherwise.
   */
  lemma SubstPixel(d: seq<byte>, image: Image, mask: Image, r: byte, g: byte, b: byte, a: byte, invertMask: bool,
                   x: int, y: int, o: int, v0: byte, v1: byte, v2: byte, v3: byte)
    requires image.Valid() && mask.Valid() && image.width == mask.width && image.height == mask.height
    requires InBounds(image, x, y) && |d| == |image.data| && o == Offset(image.width, x, y, 0)
    requires Agree(d, SetWhereMasked(image, mask, r, g, b, a, invertMask).data, o)
    requires o + 3 < |image.data|
    requires var sub := (mask.data[o] > 0) != invertMask;
      v0 == (if sub then r else image.data[o]) && v1 == (if sub then g else image.data[o + 1]) &&
      v2 == (if sub then b else image.data[o + 2]) && v3 == (if sub then a else image.data[o + 3])
    ensures Agree(d[o := v0][o + 1 := v1][o + 2 := v2][o + 3 := v3],
                  SetWhereMasked(image, mask, r, g, b, a, invertMask).data, o + 4)
  {
    var s := SetWhereMasked(image, mask, r, g, b, a, invertMask);
    AtOffset(mask, x, y, 0);
    AtOffset(image, x, y, 0);
    AtOffset(image, x, y, 1);
    AtOffset(image, x, y, 2);
    AtOffset(image, x, y, 3);
    AtOffset(s, x, y, 0);
    AtOffset(s, x, y, 1);
    AtOffset(s, x, y, 2);
    AtOffset(s, x, y, 3);
    AgreePixel(d, s.data, o, v0, v1, v2, v3);
  }

  /** The body of setWhereMasked's pixel loop for pixel (x, y). */
  method SubstitutePixel(image: ImageData, ghost src: Image, mask: ImageData, ghost msk: Image, result: ImageData,
                         r: byte, g: byte, b: byte, a: byte, invertMask: bool, x: int, y: int)
    requires src.Valid() && image.width == src.width && image.height == src.height && image.data[..] == src.data
    requires msk.Valid() && mask.width == msk.width && mask.height == msk.height && mask.data[..] == msk.data
    requires src.width == msk.width && src.height == msk.height
    requires result.Valid() && result.data != image.data && result.data != mask.data
    requires result.width == src.width && result.height == src.height && 0 <= x < src.width && 0 <= y < src.height
    requires Agree(result.data[..], SetWhereMasked(src, msk, r, g, b, a, invertMask).data, Offset(result.width, x, y, 0))
    modifies result.data
    ensures Agree(result.data[..], SetWhereMasked(src, msk, r, g, b, a, invertMask).data, Offset(result.width, x, y, 0) + 4)
  {
    var indexBase := Offset(image.width, x, y, 0);
    AtOffset(src, x, y, 3);
    var shouldBeMasked := mask.data[indexBase] > 0;
    if invertMask {
      shouldBeMasked := !shouldBeMasked;
    }
    var v0: byte := if shouldBeMasked then r else image.data[indexBase];
    var v1: byte := if shouldBeMasked then g else image.data[indexBase + 1];
    var v2: byte := if shouldBeMasked then b else image.data[indexBase + 2];
    var v3: byte := if shouldBeMasked then a else image.data[indexBase + 3];
    SubstPixel(result.data[..], src, msk, r, g, b, a, invertMask, x, y, indexBase, v0, v1, v2, v3);
    ghost var before: seq<byte> := result.data[..];
    result.data[indexBase] := v0;
    result.data[indexBase + 1] := v1;
    result.data[indexBase + 2] := v2;
    result.data[indexBase + 3] := v3;
    assert result.data[..] == before[indexBase := v0][indexBase + 1 := v1][indexBase + 2 := v2][indexBase + 3 := v3];
  }

  /** One row of setWhereMasked's pixel loop. */
  method SubstituteRow(image: ImageData, ghost src: Image, mask: ImageData, ghost msk: Image, result: ImageData,
                       r: byte, g: byte, b: byte, a: byte, invertMask: bool, y: int)
    requires src.Valid() && image.width == src.width && image.height == src.height && image.data[..] == src.data
    requires msk.Valid() && mask.width == msk.width && mask.height == msk.height && mask.data[..] == msk.data
    requires src.width == msk.width && src.height == msk.height
    requires result.Valid() && result.data != image.data && result.data != mask.data
    requires result.width == src.width && result.height == src.height && 0 <= y < src.height
    requires Agree(result.data[..], SetWhereMasked(src, msk, r, g, b, a, invertMask).data, Mul(y, result.width) * 4)
    modifies result.data
    ensures Agree(result.data[..], SetWhereMasked(src, msk, r, g, b, a, invertMask).data, Mul(y + 1, result.width) * 4)
  {
    var width := result.width;
    for x := 0 to width
      invariant Agree(result.data[..], SetWhereMasked(src, msk, r, g, b, a, invertMask).data, Offset(width, x, y, 0))
    {
      SubstitutePixel(image, src, mask, msk, result, r, g, b, a, invertMask, x, y);
    }
    RowStep(width, y);
  }

  /** The row loop of setWhereMasked, run once the sizes are known to match. */
  method SubstituteRows(image: ImageData, ghost src: Image, mask: ImageData, ghost msk: Image, result: ImageData,
                        r: byte, g: byte, b: byte, a: byte, invertMask: bool)
    requires src.Valid() && image.width == src.width && image.height == src.height && image.data[..] == src.data
    requires msk.Valid() && mask.width == msk.width && mask.height == msk.height && mask.data[..] == msk.data
    requires src.width == msk.width && src.height == msk.height
    requires result.Valid() && result.data != image.data && result.data != mask.data
    requires result.width == src.width && result.height == src.height
    modifies result.data
    ensures result.View() == SetWhereMasked(src, msk, r, g, b, a, invertMask)
  {
    ghost var s := SetWhereMasked(src, msk, r, g, b, a, invertMask);
    for y := 0 to result.height
      invariant Agree(result.data[..], s.data, Mul(y, result.width) * 4)
    {
      SubstituteRow(image, src, mask, msk, result, r, g, b, a, invertMask, y);
    }
    AgreeComplete(result, s);
  }

  /**
   * setWhereMasked: on a size mismatch the very same image object is returned; otherwise a
   * fresh buffer with the substitution applied.
   */
  method SetWhereMaskedTo(image: ImageData, mask: ImageData, r: byte, g: byte, b: byte, a: byte, invertMask: bool)
    returns (result: ImageData)
    requires image.Valid() && mask.Valid()
    ensures result.Valid()
    ensures (image.width != mask.width || image.height != mask.height) ==> result == image
    ensures (image.width == mask.width && image.height == mask.height) ==> fresh(result) && fresh(result.data)
    ensures result.View() == SetWhereMasked(image.View(), mask.View(), r, g, b, a, invertMask)
  {
    if image.width != mask.width || image.height != mask.height {
      return image;
    }
    result := new ImageData(image.width, image.height);
    SubstituteRows(image, image.View(), mask, mask.View(), result, r, g, b, a, invertMask);
  }
}
