/**
 * Block scaling, margin padding and centre thinning: scale3Image, scaleImageByFactor,
 * addMargin and onlyKeepCenterPixelOf9x9Block of image-manipulation.js.
 */
module GeometricOps {
  import opened PixelBuffer

  // ---------------------------------------------------------------------------
  // Block scaling
  // ---------------------------------------------------------------------------

  /** Every pixel becomes an n x n block: destination pixel (X, Y) is source pixel (X / n, Y / n). */
  function ScaleByFactor(img: Image, n: int): (r: Image)
    requires img.Valid() && n > 0
    ensures r.Valid() && r.width == Mul(img.width, n) && r.height == Mul(img.height, n)
  {
    MulPositive(img.width, n);
    MulPositive(img.height, n);
    Build(Mul(img.width, n), Mul(img.height, n), (x, y, c) => At(img, x / n, y / n, c))
  }

  /** Coordinate `d` of the block that source coordinate `a` becomes: a * n + d. */
  function Blk(n: int, a: int, d: int): int {
    Mul(a, n) + d
  }

  /** A coordinate below bound * n splits into a block below bound and an offset inside the block. */
  lemma BlkSplit(n: int, bound: int, X: int)
    requires n > 0 && 0 <= X < Mul(bound, n)
    ensures 0 <= X / n < bound && 0 <= X % n < n && X == Blk(n, X / n, X % n)
  {
    MulProduct(bound, n);
    DivBound(X, n, bound);
    MulProduct(X / n, n);
  }

  /** Offset d inside block a of size n is below bound * n when a is below bound. */
  lemma BlkBound(n: int, bound: int, a: int, d: int)
    requires n > 0 && 0 <= a < bound && 0 <= d < n
    ensures 0 <= Blk(n, a, d) < Mul(bound, n)
    ensures Blk(n, a, d) / n == a && Blk(n, a, d) % n == d
  {
    MulLe(a + 1, bound, n);
    RowStep(n, a);
    MulNonneg(a, n);
    MulProduct(a, n);
    DivModUnique(n, a, d);
  }

  /**
   * The n x n block that source pixel (x, y) becomes holds that pixel's four channels
   * in every one of its n * n positions.
   */
  lemma ScaleBlock(img: Image, n: int, x: int, y: int, dx: int, dy: int, c: int)
    requires img.Valid() && n > 0 && InBounds(img, x, y)
    requires 0 <= dx < n && 0 <= dy < n && 0 <= c < 4
    ensures InBounds(ScaleByFactor(img, n), Blk(n, x, dx), Blk(n, y, dy))
    ensures At(ScaleByFactor(img, n), Blk(n, x, dx), Blk(n, y, dy), c) == At(img, x, y, c)
  {
    BlkBound(n, img.width, x, dx);
    BlkBound(n, img.height, y, dy);
  }

  /**
   * The scaled buffer is n * w by n * h, and every destination pixel (X, Y) holds, on all
   * four channels, source pixel (X / n, Y / n), which lies inside the source.
   */
  lemma ScalePixel(img: Image, n: int, X: int, Y: int, c: int)
    requires img.Valid() && n > 0 && 0 <= X < n * img.width && 0 <= Y < n * img.height && 0 <= c < 4
    ensures ScaleByFactor(img, n).width == n * img.width && ScaleByFactor(img, n).height == n * img.height
    ensures InBounds(img, X / n, Y / n)
    ensures At(ScaleByFactor(img, n), X, Y, c) == At(img, X / n, Y / n, c)
  {
    MulProduct(img.width, n);
    MulProduct(img.height, n);
    BlkSplit(n, img.width, X);
    BlkSplit(n, img.height, Y);
  }

  /** Lexicographic raster order of (source y, source x, dy, dx) positions. */
  predicate Before(sy: int, sx: int, ddy: int, ddx: int, y: int, x: int, dy: int, dx: int) {
    sy < y || (sy == y && (sx < x || (sx == x && (ddy < dy || (ddy == dy && ddx < dx)))))
  }

  /** Every block position before (y, x, dy, dx) in the source's loop order already holds its pixel. */
  ghost predicate BlocksWritten(dst: Image, src: Image, n: int, y: int, x: int, dy: int, dx: int) {
    forall sy, sx, ddy, ddx, c |
      0 <= sy < src.height && 0 <= sx < src.width && 0 <= ddy < n && 0 <= ddx < n && 0 <= c < 4 &&
      Before(sy, sx, ddy, ddx, y, x, dy, dx)
      :: At(dst, Blk(n, sx, ddx), Blk(n, sy, ddy), c) == At(src, sx, sy, c)
  }

  /** Writing the current block position extends the written region by one position. */
  lemma BlockWriteStep(dst: Image, src: Image, n: int, y: int, x: int, dy: int, dx: int)
    requires src.Valid() && n > 0 && InBounds(src, x, y) && 0 <= dy < n && 0 <= dx < n
    requires dst.Valid() && dst.width == Mul(src.width, n) && dst.height == Mul(src.height, n)
    requires BlocksWritten(dst, src, n, y, x, dy, dx)
    ensures InBounds(dst, Blk(n, x, dx), Blk(n, y, dy))
    ensures BlocksWritten(WritePixel(dst, Blk(n, x, dx), Blk(n, y, dy),
      At(src, x, y, 0), At(src, x, y, 1), At(src, x, y, 2), At(src, x, y, 3)), src, n, y, x, dy, dx + 1)
  {
    BlkBound(n, src.width, x, dx);
    BlkBound(n, src.height, y, dy);
    var X, Y := Blk(n, x, dx), Blk(n, y, dy);
    var dst' := WritePixel(dst, X, Y, At(src, x, y, 0), At(src, x, y, 1), At(src, x, y, 2), At(src, x, y, 3));
    forall sy, sx, ddy, ddx, c |
      0 <= sy < src.height && 0 <= sx < src.width && 0 <= ddy < n && 0 <= ddx < n && 0 <= c < 4 &&
      Before(sy, sx, ddy, ddx, y, x, dy, dx + 1)
      ensures At(dst', Blk(n, sx, ddx), Blk(n, sy, ddy), c) == At(src, sx, sy, c)
    {
      BlkBound(n, src.width, sx, ddx);
      BlkBound(n, src.height, sy, ddy);
    }
  }

  /** Once every source row has been written, the destination is the scaled image. */
  lemma BlocksComplete(dst: Image, src: Image, n: int)
    requires src.Valid() && n > 0
    requires dst.Valid() && dst.width == Mul(src.width, n) && dst.height == Mul(src.height, n)
    requires BlocksWritten(dst, src, n, src.height, 0, 0, 0)
    ensures dst == ScaleByFactor(src, n)
  {
    var s := ScaleByFactor(src, n);
    forall X, Y, c | 0 <= X < dst.width && 0 <= Y < dst.height && 0 <= c < 4
      ensures At(dst, X, Y, c) == At(s, X, Y, c)
    {
      BlkSplit(n, src.width, X);
      BlkSplit(n, src.height, Y);
    }
    Extensionality(dst, s);
  }

  /**
   * The dy / dx loops of scaleImageByFactor for source pixel (x, y): the pixel's channels
   * r, g, b, a are written into every position of its block.
   */
  method CopyBlock(newImageData: ImageData, ghost src: Image, scaleFactor: int, x: int, y: int,
                   r: byte, g: byte, b: byte, a: byte)
    requires src.Valid() && scaleFactor > 0 && InBounds(src, x, y)
    requires newImageData.Valid()
    requires newImageData.width == Mul(src.width, scaleFactor) && newImageData.height == Mul(src.height, scaleFactor)
    requires r == At(src, x, y, 0) && g == At(src, x, y, 1) && b == At(src, x, y, 2) && a == At(src, x, y, 3)
    requires BlocksWritten(newImageData.View(), src, scaleFactor, y, x, 0, 0)
    modifies newImageData.data
    ensures BlocksWritten(newImageData.View(), src, scaleFactor, y, x + 1, 0, 0)
  {
    var newWidth := newImageData.width;
    var dy := 0;
    while dy < scaleFactor
      invariant 0 <= dy <= scaleFactor
      invariant BlocksWritten(newImageData.View(), src, scaleFactor, y, x, dy, 0)
    {
      var dx := 0;
      while dx < scaleFactor
        invariant 0 <= dx <= scaleFactor
        invariant BlocksWritten(newImageData.View(), src, scaleFactor, y, x, dy, dx)
      {
        var newX := Mul(x, scaleFactor) + dx;
        var newY := Mul(y, scaleFactor) + dy;
        var newIndex := Offset(newWidth, newX, newY, 0);
        ghost var before := newImageData.View();
        BlockWriteStep(before, src, scaleFactor, y, x, dy, dx);
        AtOffset(before, newX, newY, 3);
        newImageData.data[newIndex] := r;
        newImageData.data[newIndex + 1] := g;
        newImageData.data[newIndex + 2] := b;
        newImageData.data[newIndex + 3] := a;
        assert newImageData.View() == WritePixel(before, newX, newY, r, g, b, a);
        dx := dx + 1;
      }
      dy := dy + 1;
    }
  }

  /** The x loop of scaleImageByFactor for source row y: every pixel of the row becomes its block. */
  method ScaleRow(imageData: ImageData, ghost src: Image, newImageData: ImageData, scaleFactor: int, y: int)
    requires src.Valid() && imageData.width == src.width && imageData.height == src.height && imageData.data[..] == src.data
    requires newImageData.Valid() && newImageData.data != imageData.data && scaleFactor > 0
    requires newImageData.width == Mul(src.width, scaleFactor) && newImageData.height == Mul(src.height, scaleFactor)
    requires 0 <= y < src.height
    requires BlocksWritten(newImageData.View(), src, scaleFactor, y, 0, 0, 0)
    modifies newImageData.data
    ensures BlocksWritten(newImageData.View(), src, scaleFactor, y + 1, 0, 0, 0)
  {
    var oldWidth := imageData.width;
    var x := 0;
    while x < oldWidth
      invariant 0 <= x <= oldWidth
      invariant BlocksWritten(newImageData.View(), src, scaleFactor, y, x, 0, 0)
    {
      var oldIndex := Offset(oldWidth, x, y, 0);
      AtOffset(src, x, y, 0);
      AtOffset(src, x, y, 1);
      AtOffset(src, x, y, 2);
      AtOffset(src, x, y, 3);
      var r := imageData.data[oldIndex];
      var g := imageData.data[oldIndex + 1];
      var b := imageData.data[oldIndex + 2];
      var a := imageData.data[oldIndex + 3];
      CopyBlock(newImageData, src, scaleFactor, x, y, r, g, b, a);
      x := x + 1;
    }
  }

  /** scaleImageByFactor: each source pixel is copied into an n x n block of a fresh buffer. */
  method ScaleImageByFactor(imageData: ImageData, scaleFactor: int) returns (newImageData: ImageData)
    requires imageData.Valid() && scaleFactor > 0
    ensures fresh(newImageData) && fresh(newImageData.data) && newImageData.Valid()
    ensures newImageData.View() == ScaleByFactor(imageData.View(), scaleFactor)
  {
    var oldWidth, oldHeight := imageData.width, imageData.height;
    var newWidth, newHeight := Mul(oldWidth, scaleFactor), Mul(oldHeight, scaleFactor);
    MulPositive(oldWidth, scaleFactor);
    MulPositive(oldHeight, scaleFactor);
    newImageData := new ImageData(newWidth, newHeight);
    ghost var src := imageData.View();
    for y := 0 to oldHeight
      invariant BlocksWritten(newImageData.View(), src, scaleFactor, y, 0, 0, 0)
    {
      ScaleRow(imageData, src, newImageData, scaleFactor, y);
    }
    BlocksComplete(newImageData.View(), src, scaleFactor);
  }

  /** scale3Image: the same block copy with the factor fixed at 3. */
  method Scale3Image(imageData: ImageData) returns (newImageData: ImageData)
    requires imageData.Valid()
    ensures fresh(newImageData) && fresh(newImageData.data) && newImageData.Valid()
    ensures newImageData.View() == ScaleByFactor(imageData.View(), 3)
  {
    var oldWidth, oldHeight := imageData.width, imageData.height;
    var newWidth, newHeight := Mul(oldWidth, 3), Mul(oldHeight, 3);
    MulPositive(oldWidth, 3);
    MulPositive(oldHeight, 3);
    newImageData := new ImageData(newWidth, newHeight);
    ghost var src := imageData.View();
    for y := 0 to oldHeight
      invariant BlocksWritten(newImageData.View(), src, 3, y, 0, 0, 0)
    {
      ScaleRow(imageData, src, newImageData, 3, y);
    }
    BlocksComplete(newImageData.View(), src, 3);
  }

  // ---------------------------------------------------------------------------
  // Margin padding
  // ---------------------------------------------------------------------------

  /** The full-intensity byte value: white on a colour channel, opaque on alpha. */
  const Opaque: byte := 255

  /** The band `addMargin` paints white: within m of the padded buffer's border. */
  predicate IsMargin(m: int, width: int, height: int, x: int, y: int) {
    y < m || y >= m + height || x < m || x >= m + width
  }

  /**
   * addMargin(m, img): a buffer m pixels larger on every side whose band is opaque white
   * and whose interior is img shifted by (m, m).  A negative m yields no band and crops.
   */
  function AddMargin(m: int, img: Image): (r: Image)
    requires img.Valid() && img.width + 2 * m > 0 && img.height + 2 * m > 0
    ensures r.Valid() && r.width == img.width + 2 * m && r.height == img.height + 2 * m
    ensures forall x, y, c | 0 <= x < r.width && 0 <= y < r.height && 0 <= c < 4 ::
      At(r, x, y, c) == MarginChannel(m, img, x, y, c)
  {
    Build(img.width + 2 * m, img.height + 2 * m, (x, y, c) => MarginChannel(m, img, x, y, c))
  }

  /** Channel c of pixel (x, y) of addMargin(m, img): white in the band, else the shifted source. */
  function MarginChannel(m: int, img: Image, x: int, y: int, c: int): byte {
    if IsMargin(m, img.width, img.height, x, y) then 255 else At(img, x - m, y - m, c)
  }

  /** Padding by m and then by -m gives back the original buffer. */
  lemma AddMarginRoundTrip(m: int, img: Image)
    requires img.Valid() && m >= 0
    ensures AddMargin(-m, AddMargin(m, img)) == img
  {
    var p := AddMargin(m, img);
    var q := AddMargin(-m, p);
    forall x, y, c | 0 <= x < img.width && 0 <= y < img.height && 0 <= c < 4
      ensures At(q, x, y, c) == At(img, x, y, c)
    {
      MarginRoundTripAt(m, img, p, q, x, y, c);
    }
    Extensionality(q, img);
  }

  /** One byte of the round trip: the cropped byte at (x, y) is the padded byte at (x+m, y+m). */
  lemma MarginRoundTripAt(m: int, img: Image, p: Image, q: Image, x: int, y: int, c: int)
    requires img.Valid() && m >= 0 && p == AddMargin(m, img) && q == AddMargin(-m, p)
    requires 0 <= x < img.width && 0 <= y < img.height && 0 <= c < 4
    ensures At(q, x, y, c) == At(img, x, y, c)
  {
    assert At(q, x, y, c) == MarginChannel(-m, p, x, y, c);
    assert !IsMargin(-m, p.width, p.height, x, y);
    assert At(p, x + m, y + m, c) == MarginChannel(m, img, x + m, y + m, c);
    assert !IsMargin(m, img.width, img.height, x + m, y + m);
  }

  /**
   * The byte addMargin stores at flat index j = (y*nw + x)*4 + c of the padded plane, nw being
   * the padded width: 255 in the band, else the byte at the shifted index of the source plane.
   */
  lemma MarginByte(m: int, img: Image, nw: int, x: int, y: int, c: int, j: int)
    requires img.Valid() && nw == img.width + 2 * m && nw > 0 && img.height + 2 * m > 0
    requires 0 <= x < nw && 0 <= y < img.height + 2 * m && 0 <= c < 4 && j == Offset(nw, x, y, c)
    ensures 0 <= j < |AddMargin(m, img).data|
    ensures !IsMargin(m, img.width, img.height, x, y) ==>
      0 <= Offset(img.width, x - m, y - m, c) < |img.data|
    ensures AddMargin(m, img).data[j] ==
      if IsMargin(m, img.width, img.height, x, y) then 255 else img.data[Offset(img.width, x - m, y - m, c)]
  {
    AtOffset(AddMargin(m, img), x, y, c);
    if !IsMargin(m, img.width, img.height, x, y) {
      AtOffset(img, x - m, y - m, c);
    }
  }

  /**
   * The channel loop of addMargin for pixel (x, y) of the padded buffer `result`: each of
   * the four channels becomes 255 in the band and the shifted source byte elsewhere.
   */
  method FillMarginPixel(marginSize: int, imageData: ImageData, ghost src: Image, result: ImageData, x: int, y: int)
    requires src.Valid() && imageData.width == src.width && imageData.height == src.height && imageData.data[..] == src.data
    requires result.Valid() && result.data != imageData.data
    requires result.width == src.width + 2 * marginSize && result.height == src.height + 2 * marginSize
    requires 0 <= x < result.width && 0 <= y < result.height
    requires Agree(result.data[..], AddMargin(marginSize, src).data, Offset(result.width, x, y, 0))
    modifies result.data
    ensures Agree(result.data[..], AddMargin(marginSize, src).data, Offset(result.width, x, y, 0) + 4)
  {
    var width, height := imageData.width, imageData.height;
    var newWidth := result.width;
    ghost var s := AddMargin(marginSize, src);
    var isMargin := y < marginSize || y >= marginSize + height
                 || x < marginSize || x >= marginSize + width;
    var indexBaseNew := Offset(newWidth, x, y, 0);
    var indexBaseOld := Offset(width, x - marginSize, y - marginSize, 0);
    for ch := 0 to 4
      invariant Agree(result.data[..], s.data, indexBaseNew + ch)
    {
      var indexNew := indexBaseNew + ch;
      var indexOld := indexBaseOld + ch;
      MarginByte(marginSize, src, newWidth, x, y, ch, indexNew);
      var newValue: byte := 0;
      if isMargin {
        newValue := 255;
      } else {
        newValue := imageData.data[indexOld];
      }
      AgreeByte(result.data[..], s.data, indexNew, newValue);
      ghost var before: seq<byte> := result.data[..];
      result.data[indexNew] := newValue;
      assert result.data[..] == before[indexNew := newValue];
    }
  }

  /** One row of the pixel loop of addMargin: every pixel of row y of the padded buffer is filled. */
  method FillMarginRow(marginSize: int, imageData: ImageData, ghost src: Image, result: ImageData, y: int)
    requires src.Valid() && imageData.width == src.width && imageData.height == src.height && imageData.data[..] == src.data
    requires result.Valid() && result.data != imageData.data
    requires result.width == src.width + 2 * marginSize && result.height == src.height + 2 * marginSize
    requires 0 <= y < result.height
    requires Agree(result.data[..], AddMargin(marginSize, src).data, Mul(y, result.width) * 4)
    modifies result.data
    ensures Agree(result.data[..], AddMargin(marginSize, src).data, Mul(y + 1, result.width) * 4)
  {
    var newWidth := result.width;
    for x := 0 to newWidth
      invariant Agree(result.data[..], AddMargin(marginSize, src).data, Offset(newWidth, x, y, 0))
    {
      FillMarginPixel(marginSize, imageData, src, result, x, y);
    }
    RowStep(newWidth, y);
  }

  /**
   * addMargin: a fresh buffer, marginSize pixels larger on every side, whose band is opaque
   * white and whose interior is the input.
   */
  method AddMarginTo(marginSize: int, imageData: ImageData) returns (result: ImageData)
    requires imageData.Valid() && imageData.width + 2 * marginSize > 0 && imageData.height + 2 * marginSize > 0
    ensures fresh(result) && fresh(result.data) && result.Valid()
    ensures result.View() == AddMargin(marginSize, imageData.View())
  {
    var width, height := imageData.width, imageData.height;
    var newWidth, newHeight := width + 2 * marginSize, height + 2 * marginSize;
    result := new ImageData(newWidth, newHeight);
    FillMarginRows(marginSize, imageData, imageData.View(), result);
  }

  /** The row loop of addMargin: every row of the padded buffer `result` is filled. */
  method FillMarginRows(marginSize: int, imageData: ImageData, ghost src: Image, result: ImageData)
    requires src.Valid() && imageData.width == src.width && imageData.height == src.height && imageData.data[..] == src.data
    requires result.Valid() && result.data != imageData.data
    requires result.width == src.width + 2 * marginSize && result.height == src.height + 2 * marginSize
    modifies result.data
    ensures result.View() == AddMargin(marginSize, src)
  {
    ghost var s := AddMargin(marginSize, src);
    for y := 0 to result.height
      invariant Agree(result.data[..], s.data, Mul(y, result.width) * 4)
    {
      FillMarginRow(marginSize, imageData, src, result, y);
    }
    AgreeComplete(result, s);
  }

  // ---------------------------------------------------------------------------
  // Centre thinning
  // ---------------------------------------------------------------------------

  /** Sides divisible by 3, the only case onlyKeepCenterPixelOf9x9Block transforms. */
  predicate Divisible3(img: Image) {
    img.width % 3 == 0 && img.height % 3 == 0
  }

  /**
   * onlyKeepCenterPixelOf9x9Block: the input itself when a side is not a multiple of 3;
   * otherwise only the centre (1, 1) of every 3 x 3 block keeps its value, the rest become (0,0,0,0).
   */
  function OnlyKeepCenterPixel(img: Image): (r: Image)
    requires img.Valid()
    ensures !Divisible3(img) ==> r == img
    ensures r.Valid() && r.width == img.width && r.height == img.height
    ensures Divisible3(img) ==> forall x, y, c | 0 <= x < r.width && 0 <= y < r.height && 0 <= c < 4 ::
      At(r, x, y, c) == (if x % 3 == 1 && y % 3 == 1 then At(img, x, y, c) else 0)
  {
    if !Divisible3(img) then img
    else Build(img.width, img.height, (x, y, c) => CentreChannel(img, x, y, c))
  }

  /** Channel c of pixel (x, y) of a thinned buffer: kept at block centres, 0 elsewhere. */
  function CentreChannel(img: Image, x: int, y: int, c: int): byte {
    if x % 3 == 1 && y % 3 == 1 then At(img, x, y, c) else 0
  }

  /** Thinning an already thinned buffer changes nothing. */
  lemma OnlyKeepCenterPixelIdempotent(img: Image)
    requires img.Valid()
    ensures OnlyKeepCenterPixel(OnlyKeepCenterPixel(img)) == OnlyKeepCenterPixel(img)
  {
    var t := OnlyKeepCenterPixel(img);
    if Divisible3(img) {
      Extensionality(OnlyKeepCenterPixel(t), t);
    }
  }

  /** The byte a thinned plane holds at flat index (y*width + x)*4 + c. */
  lemma CentreByte(img: Image, x: int, y: int, c: int)
    requires img.Valid() && Divisible3(img) && InBounds(img, x, y) && 0 <= c < 4
    ensures 0 <= Offset(img.width, x, y, c) < |img.data| == |OnlyKeepCenterPixel(img).data|
    ensures OnlyKeepCenterPixel(img).data[Offset(img.width, x, y, c)] ==
      if x % 3 == 1 && y % 3 == 1 then img.data[Offset(img.width, x, y, c)] else 0
  {
    AtOffset(OnlyKeepCenterPixel(img), x, y, c);
    AtOffset(img, x, y, c);
  }

  /**
   * Storing the four kept-or-cleared channels of pixel (x, y) at its offset o extends the
   * prefix of the plane that agrees with the thinned buffer by that pixel.
   */
  lemma CentrePixel(d: seq<byte>, img: Image, x: int, y: int, o: int, r: byte, g: byte, b: byte, a: byte)
    requires img.Valid() && Divisible3(img) && InBounds(img, x, y) && |d| == |img.data|
    requires o == Offset(img.width, x, y, 0) && Agree(d, OnlyKeepCenterPixel(img).data, o)
    requires o + 3 < |img.data|
    requires r == (if x % 3 == 1 && y % 3 == 1 then img.data[o] else 0)
    requires g == (if x % 3 == 1 && y % 3 == 1 then img.data[o + 1] else 0)
    requires b == (if x % 3 == 1 && y % 3 == 1 then img.data[o + 2] else 0)
    requires a == (if x % 3 == 1 && y % 3 == 1 then img.data[o + 3] else 0)
    ensures Agree(d[o := r][o + 1 := g][o + 2 := b][o + 3 := a], OnlyKeepCenterPixel(img).data, o + 4)
  {
    CentreByte(img, x, y, 0);
    CentreByte(img, x, y, 1);
    CentreByte(img, x, y, 2);
    CentreByte(img, x, y, 3);
    AgreePixel(d, OnlyKeepCenterPixel(img).data, o, r, g, b, a);
  }

  /** The body of the pixel loop of onlyKeepCenterPixelOf9x9Block, for pixel (x, y). */
  method ThinPixel(image: ImageData, ghost src: Image, result: ImageData, x: int, y: int)
    requires src.Valid() && Divisible3(src) && image.width == src.width && image.data[..] == src.data
    requires result.Valid() && result.data != image.data
    requires result.width == src.width && result.height == src.height && 0 <= x < src.width && 0 <= y < src.height
    requires Agree(result.data[..], OnlyKeepCenterPixel(src).data, Offset(result.width, x, y, 0))
    modifies result.data
    ensures Agree(result.data[..], OnlyKeepCenterPixel(src).data, Offset(result.width, x, y, 0) + 4)
  {
    var indexBase := Offset(image.width, x, y, 0);
    var shouldBeKept := x % 3 == 1 && y % 3 == 1;
    AtOffset(src, x, y, 3);
    var r: byte := if shouldBeKept then image.data[indexBase] else 0;
    var g: byte := if shouldBeKept then image.data[indexBase + 1] else 0;
    var b: byte := if shouldBeKept then image.data[indexBase + 2] else 0;
    var a: byte := if shouldBeKept then image.data[indexBase + 3] else 0;
    CentrePixel(result.data[..], src, x, y, indexBase, r, g, b, a);
    ghost var before: seq<byte> := result.data[..];
    result.data[indexBase] := r;
    result.data[indexBase + 1] := g;
    result.data[indexBase + 2] := b;
    result.data[indexBase + 3] := a;
    assert result.data[..] == before[indexBase := r][indexBase + 1 := g][indexBase + 2 := b][indexBase + 3 := a];
  }

  /** One row of the pixel loop of onlyKeepCenterPixelOf9x9Block. */
  method ThinRow(image: ImageData, ghost src: Image, result: ImageData, y: int)
    requires src.Valid() && Divisible3(src) && image.width == src.width && image.data[..] == src.data
    requires result.Valid() && result.data != image.data
    requires result.width == src.width && result.height == src.height && 0 <= y < src.height
    requires Agree(result.data[..], OnlyKeepCenterPixel(src).data, Mul(y, result.width) * 4)
    modifies result.data
    ensures Agree(result.data[..], OnlyKeepCenterPixel(src).data, Mul(y + 1, result.width) * 4)
  {
    var width := result.width;
    for x := 0 to width
      invariant Agree(result.data[..], OnlyKeepCenterPixel(src).data, Offset(width, x, y, 0))
    {
      ThinPixel(image, src, result, x, y);
    }
    RowStep(width, y);
  }

  /** The row loop of onlyKeepCenterPixelOf9x9Block, run once the sides are known to be multiples of 3. */
  method ThinRows(image: ImageData, ghost src: Image, result: ImageData)
    requires image.Valid() && src == image.View() && Divisible3(src)
    requires result.Valid() && result.data != image.data
    requires result.width == src.width && result.height == src.height
    modifies result.data
    ensures result.View() == OnlyKeepCenterPixel(src)
  {
    ghost var s := OnlyKeepCenterPixel(src);
    var y := 0;
    while y < image.height
      invariant 0 <= y <= image.height
      invariant Agree(result.data[..], s.data, Mul(y, result.width) * 4)
    {
      ThinRow(image, src, result, y);
      y := y + 1;
    }
    AgreeComplete(result, s);
  }

  /**
   * onlyKeepCenterPixelOf9x9Block: on a size mismatch the very same object is returned;
   * otherwise a fresh, thinned buffer.
   */
  method OnlyKeepCenterPixelOf9x9Block(image: ImageData) returns (result: ImageData)
    requires image.Valid()
    ensures result.Valid()
    ensures !Divisible3(image.View()) ==> result == image
    ensures Divisible3(image.View()) ==> fresh(result) && fresh(result.data)
    ensures result.View() == OnlyKeepCenterPixel(image.View())
  {
    if image.width % 3 != 0 || image.height % 3 != 0 {
      return image;
    }
    result := new ImageData(image.width, image.height);
    ThinRows(image, image.View(), result);
  }
}
