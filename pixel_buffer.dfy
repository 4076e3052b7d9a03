/**
 * RGBA pixel buffers: the ImageData objects that every stage of image-manipulation.js
 * reads and allocates.  A buffer has a width, a height and a row-major byte plane of
 * width*height*4 bytes; channel c of pixel (x, y) sits at (y*width + x)*4 + c.
 *
 * Each operator is given twice: as a function on `Image` values, which states the
 * per-pixel rule, and as a method on `ImageData` objects, which runs the source's
 * loops and is proved to produce exactly that value.
 */
module PixelBuffer {

  /** An element of a Uint8ClampedArray. */
  type byte = b: int | 0 <= b < 256

  /** The value held by an ImageData object. */
  datatype Image = Image(width: int, height: int, data: seq<byte>)
  {
    /** `new ImageData(w, h)` refuses a zero side, and the plane holds height rows of width four-byte pixels. */
    predicate Valid() {
      width > 0 && height > 0 && |data| == Mul(height, width) * 4
    }
  }

  /**
   * The product a * b, written as repeated addition.  Sizes and offsets are stated with it so
   * that the verifier sees a product of two variables as one term whose unfolding is linear,
   * `Mul(a, b) == Mul(a - 1, b) + b`; MulProduct ties it to `*`.
   */
  function Mul(a: int, b: int): int
    decreases if a < 0 then -a else a
  {
    if a == 0 then 0 else if a > 0 then Mul(a - 1, b) + b else Mul(a + 1, b) - b
  }

  lemma {:induction false} MulProduct(a: int, b: int)
    ensures Mul(a, b) == a * b
    decreases if a < 0 then -a else a
  {
    if a > 0 {
      MulProduct(a - 1, b);
    } else if a < 0 {
      MulProduct(a + 1, b);
    }
  }

  /** One more row: Mul(y + 1, w) is Mul(y, w) and w more. */
  lemma RowStep(w: int, y: int)
    ensures Mul(y + 1, w) == Mul(y, w) + w
  {
    MulProduct(y + 1, w);
    MulProduct(y, w);
  }

  lemma MulLe(a: int, b: int, w: int)
    requires a <= b && w >= 0
    ensures Mul(a, w) <= Mul(b, w)
  {
    MulProduct(a, w);
    MulProduct(b, w);
    assert a * w <= b * w;
  }

  lemma MulNonneg(a: int, w: int)
    requires a >= 0 && w >= 0
    ensures Mul(a, w) >= 0
  {
    MulProduct(a, w);
  }

  lemma MulPositive(a: int, w: int)
    requires a > 0 && w > 0
    ensures Mul(a, w) > 0
  {
    MulProduct(a, w);
  }

  /** Flat offset of channel c of pixel (x, y): the source's `(y * width + x) * 4 + c`. */
  function Offset(width: int, x: int, y: int, c: int): int {
    (Mul(y, width) + x) * 4 + c
  }

  lemma ProductLe(a: int, b: int, w: int)
    requires a <= b && w >= 0
    ensures a * w <= b * w
  {
  }

  /** Euclidean division by a positive n recovers quotient and remainder. */
  lemma DivModUnique(n: int, q: int, r: int)
    requires n > 0 && 0 <= r < n
    ensures (q * n + r) / n == q && (q * n + r) % n == r
  {
    var a := q * n + r;
    var q', r' := a / n, a % n;
    assert a == q' * n + r' && 0 <= r' < n;
    if q' < q {
      assert (q' + 1) * n == q' * n + n;
      ProductLe(q' + 1, q, n);
    } else if q < q' {
      assert (q + 1) * n == q * n + n;
      ProductLe(q + 1, q', n);
    }
  }

  /** A non-negative k below h * w lies in row k / w of a plane w wide. */
  lemma DivBound(k: int, w: int, h: int)
    requires w > 0 && 0 <= k < h * w
    ensures 0 <= k / w < h && k == (k / w) * w + k % w
  {
    var q := k / w;
    assert k == q * w + k % w;
    if q >= h {
      ProductLe(h, q, w);
    }
  }

  /** Every in-range pixel has its four channels inside the plane. */
  lemma OffsetInRange(w: int, h: int, x: int, y: int, c: int)
    requires w > 0 && 0 <= x < w && 0 <= y < h && 0 <= c < 4
    ensures 0 <= Mul(y, w) + x < Mul(h, w)
    ensures 0 <= Offset(w, x, y, c) < Mul(h, w) * 4
  {
    MulLe(y + 1, h, w);
    RowStep(w, y);
    MulNonneg(y, w);
  }

  /** The offset of an in-range pixel determines the pixel and the channel. */
  lemma OffsetDecompose(w: int, x: int, y: int, c: int)
    requires w > 0 && 0 <= x < w && 0 <= c < 4
    ensures Offset(w, x, y, c) / 4 == Mul(y, w) + x && Offset(w, x, y, c) % 4 == c
    ensures (Mul(y, w) + x) / w == y && (Mul(y, w) + x) % w == x
  {
    MulProduct(y, w);
    DivModUnique(4, Mul(y, w) + x, c);
    DivModUnique(w, y, x);
  }

  /** Every flat index of the plane is the offset of a unique in-range pixel and channel. */
  lemma FlatIndex(w: int, h: int, i: int)
    requires w > 0 && h > 0 && 0 <= i < Mul(h, w) * 4
    ensures 0 <= (i / 4) % w < w && 0 <= (i / 4) / w < h
    ensures Offset(w, (i / 4) % w, (i / 4) / w, i % 4) == i
  {
    var k := i / 4;
    MulProduct(h, w);
    DivBound(k, w, h);
    MulProduct(k / w, w);
  }

  /** A flat index that starts a pixel is that pixel's offset, and the whole pixel lies in the plane. */
  lemma FlatPixel(img: Image, i: int)
    requires img.Valid() && 0 <= i < |img.data| && i % 4 == 0
    ensures InBounds(img, (i / 4) % img.width, (i / 4) / img.width)
    ensures Offset(img.width, (i / 4) % img.width, (i / 4) / img.width, 0) == i
    ensures i + 4 <= |img.data|
  {
    FlatIndex(img.width, img.height, i);
  }

  predicate InBounds(img: Image, x: int, y: int) {
    0 <= x < img.width && 0 <= y < img.height
  }

  /** Channel c of pixel (x, y); 0 outside the buffer, so that per-pixel rules can be total. */
  function At(img: Image, x: int, y: int, c: int): byte
  {
    if img.Valid() && InBounds(img, x, y) && 0 <= c < 4 then
      OffsetInRange(img.width, img.height, x, y, c);
      img.data[Offset(img.width, x, y, c)]
    else
      0
  }

  /** Reading channel c of pixel (x, y) is reading the source's flat index. */
  lemma AtOffset(img: Image, x: int, y: int, c: int)
    requires img.Valid() && InBounds(img, x, y) && 0 <= c < 4
    ensures 0 <= Offset(img.width, x, y, c) < |img.data|
    ensures At(img, x, y, c) == img.data[Offset(img.width, x, y, c)]
  {
    OffsetInRange(img.width, img.height, x, y, c);
  }

  /** Reading flat index i is reading the pixel and channel it encodes. */
  lemma AtFlat(img: Image, i: int)
    requires img.Valid() && 0 <= i < |img.data|
    ensures InBounds(img, (i / 4) % img.width, (i / 4) / img.width)
    ensures img.data[i] == At(img, (i / 4) % img.width, (i / 4) / img.width, i % 4)
  {
    FlatIndex(img.width, img.height, i);
  }

  /**
   * The bytes of the pixels from (x, y) onwards, in raster order, of a w x h buffer whose
   * channel c of pixel (x, y) is f(x, y, c).
   */
  function Plane(w: int, h: int, x: int, y: int, f: (int, int, int) -> byte): (p: seq<byte>)
    requires w > 0 && 0 <= x <= w && 0 <= y <= h && (y == h ==> x == 0)
    ensures |p| == (Mul(h - y, w) - x) * 4
    decreases h - y, w - x
  {
    if y == h then []
    else if x == w then
      RowStep(w, h - (y + 1));
      Plane(w, h, 0, y + 1, f)
    else [f(x, y, 0), f(x, y, 1), f(x, y, 2), f(x, y, 3)] + Plane(w, h, x + 1, y, f)
  }

  /** Raster position of pixel (x, y) relative to pixel (x0, y0). */
  lemma {:induction false} PlaneAt(w: int, h: int, x0: int, y0: int, f: (int, int, int) -> byte, x: int, y: int, c: int)
    requires w > 0 && 0 <= x0 <= w && 0 <= y0 <= h && (y0 == h ==> x0 == 0)
    requires 0 <= x < w && y0 <= y < h && (y == y0 ==> x0 <= x) && 0 <= c < 4
    ensures 0 <= Offset(w, x, y, c) - Offset(w, x0, y0, 0) < |Plane(w, h, x0, y0, f)|
    ensures Plane(w, h, x0, y0, f)[Offset(w, x, y, c) - Offset(w, x0, y0, 0)] == f(x, y, c)
    decreases h - y0, w - x0
  {
    var p := Plane(w, h, x0, y0, f);
    var d := Offset(w, x, y, c) - Offset(w, x0, y0, 0);
    if x0 == w {
      RowStep(w, y0);
      assert p == Plane(w, h, 0, y0 + 1, f);
      PlaneAt(w, h, 0, y0 + 1, f, x, y, c);
    } else {
      var head := [f(x0, y0, 0), f(x0, y0, 1), f(x0, y0, 2), f(x0, y0, 3)];
      var rest := Plane(w, h, x0 + 1, y0, f);
      assert p == head + rest;
      if y == y0 && x == x0 {
        assert p[d] == head[c];
      } else {
        PlaneAt(w, h, x0 + 1, y0, f, x, y, c);
        assert p[d] == rest[d - 4];
      }
    }
  }

  /**
   * The buffer of size w x h whose channel c of pixel (x, y) is f(x, y, c), laid out
   * in the source's raster order.
   */
  function Build(w: int, h: int, f: (int, int, int) -> byte): (r: Image)
    requires w > 0 && h > 0
    ensures r.Valid() && r.width == w && r.height == h
    ensures forall x, y, c | 0 <= x < w && 0 <= y < h && 0 <= c < 4 :: At(r, x, y, c) == f(x, y, c)
  {
    var r := Image(w, h, Plane(w, h, 0, 0, f));
    assert forall x, y, c | 0 <= x < w && 0 <= y < h && 0 <= c < 4 :: At(r, x, y, c) == f(x, y, c) by {
      forall x, y, c | 0 <= x < w && 0 <= y < h && 0 <= c < 4 ensures At(r, x, y, c) == f(x, y, c) {
        PlaneAt(w, h, 0, 0, f, x, y, c);
      }
    }
    r
  }

  /** Two buffers of the same size that agree on every pixel and channel are the same buffer. */
  lemma Extensionality(a: Image, b: Image)
    requires a.Valid() && b.Valid() && a.width == b.width && a.height == b.height
    requires forall x, y, c | 0 <= x < a.width && 0 <= y < a.height && 0 <= c < 4 :: At(a, x, y, c) == At(b, x, y, c)
    ensures a == b
  {
    forall i | 0 <= i < |a.data| ensures a.data[i] == b.data[i] {
      AtFlat(a, i);
      AtFlat(b, i);
    }
  }

  /** Overwriting one byte of the plane changes exactly one channel of one pixel. */
  lemma AtUpdate(img: Image, x: int, y: int, c: int, v: byte)
    requires img.Valid() && InBounds(img, x, y) && 0 <= c < 4
    ensures 0 <= Offset(img.width, x, y, c) < |img.data|
    ensures forall X, Y, C ::
      At(Image(img.width, img.height, img.data[Offset(img.width, x, y, c) := v]), X, Y, C)
      == (if X == x && Y == y && C == c then v else At(img, X, Y, C))
  {
    var w := img.width;
    var o := Offset(w, x, y, c);
    OffsetInRange(w, img.height, x, y, c);
    var img' := Image(w, img.height, img.data[o := v]);
    forall X, Y, C ensures At(img', X, Y, C) == if X == x && Y == y && C == c then v else At(img, X, Y, C) {
      if InBounds(img, X, Y) && 0 <= C < 4 {
        OffsetInRange(w, img.height, X, Y, C);
        OffsetDecompose(w, X, Y, C);
        OffsetDecompose(w, x, y, c);
      }
    }
  }

  /** `dst` with the four channels of pixel (x, y) overwritten, as four consecutive byte stores do. */
  function WritePixel(dst: Image, x: int, y: int, r: byte, g: byte, b: byte, a: byte): (res: Image)
    requires dst.Valid() && InBounds(dst, x, y)
    ensures res.Valid() && res.width == dst.width && res.height == dst.height
    ensures forall X, Y, C ::
      At(res, X, Y, C) == (if X == x && Y == y && 0 <= C < 4 then [r, g, b, a][C] else At(dst, X, Y, C))
  {
    var w, o := dst.width, Offset(dst.width, x, y, 0);
    AtUpdate(dst, x, y, 0, r);
    var d1 := Image(w, dst.height, dst.data[o := r]);
    AtUpdate(d1, x, y, 1, g);
    var d2 := Image(w, dst.height, d1.data[o + 1 := g]);
    AtUpdate(d2, x, y, 2, b);
    var d3 := Image(w, dst.height, d2.data[o + 2 := b]);
    AtUpdate(d3, x, y, 3, a);
    Image(w, dst.height, d3.data[o + 3 := a])
  }

  /** Byte i of plane s. */
  function ByteAt(s: seq<byte>, i: int): byte
    requires 0 <= i < |s|
  {
    s[i]
  }

  /** The first j bytes of d are those of s. */
  ghost predicate Agree(d: seq<byte>, s: seq<byte>, j: int) {
    0 <= j <= |d| && j <= |s| && forall i {:trigger ByteAt(s, i)} | 0 <= i < j :: d[i] == ByteAt(s, i)
  }

  /** A store at or beyond j keeps the first j bytes. */
  lemma AgreeStore(d: seq<byte>, s: seq<byte>, j: int, i: int, v: byte)
    requires Agree(d, s, j) && j <= i < |d|
    ensures Agree(d[i := v], s, j)
  {
  }

  /** Storing byte j of s at position j extends the agreeing prefix by one byte. */
  lemma AgreeByte(d: seq<byte>, s: seq<byte>, j: int, v: byte)
    requires Agree(d, s, j) && j < |d| && j < |s| && v == s[j]
    ensures Agree(d[j := v], s, j + 1)
  {
    AgreeStore(d, s, j, j, v);
  }

  /** Storing the four bytes of s at positions j .. j + 3 extends the agreeing prefix by one pixel. */
  lemma AgreePixel(d: seq<byte>, s: seq<byte>, j: int, v0: byte, v1: byte, v2: byte, v3: byte)
    requires Agree(d, s, j) && j + 4 <= |d| && j + 4 <= |s|
    requires v0 == s[j] && v1 == s[j + 1] && v2 == s[j + 2] && v3 == s[j + 3]
    ensures Agree(d[j := v0][j + 1 := v1][j + 2 := v2][j + 3 := v3], s, j + 4)
  {
    AgreeByte(d, s, j, v0);
    AgreeByte(d[j := v0], s, j + 1, v1);
    AgreeByte(d[j := v0][j + 1 := v1], s, j + 2, v2);
    AgreeByte(d[j := v0][j + 1 := v1][j + 2 := v2], s, j + 3, v3);
  }

  /** An agreeing prefix agrees byte by byte. */
  lemma AgreeBytes(d: seq<byte>, s: seq<byte>, j: int)
    requires Agree(d, s, j)
    ensures forall i | 0 <= i < j :: d[i] == s[i]
  {
    forall i | 0 <= i < j ensures d[i] == s[i] {
      assert ByteAt(s, i) == s[i];
    }
  }

  /** An RGBA image object as the browser provides it: immutable width and height, a mutable plane. */
  class ImageData {
    const width: int
    const height: int
    const data: array<byte>

    ghost predicate Valid()
      reads this
    {
      width > 0 && height > 0 && data.Length == Mul(height, width) * 4
    }

    /** The value currently held. */
    ghost function View(): (img: Image)
      reads this, data
      requires Valid()
      ensures img.Valid() && img.width == width && img.height == height
    {
      Image(width, height, data[..])
    }

    /** `new ImageData(w, h)`: a fresh, fully transparent black buffer. */
    constructor (w: int, h: int)
      requires w > 0 && h > 0
      ensures Valid() && width == w && height == h && fresh(data)
      ensures forall i | 0 <= i < data.Length :: data[i] == 0
    {
      width, height := w, h;
      MulProduct(h, w);
      data := new byte[w * h * 4](i => 0);
    }
  }

  /** A buffer whose whole plane agrees with the plane of `s` holds `s`. */
  lemma AgreeComplete(d: ImageData, s: Image)
    requires d.Valid() && s.Valid() && d.width == s.width && d.height == s.height
    requires Agree(d.data[..], s.data, Mul(d.height, d.width) * 4)
    ensures d.View() == s
  {
    AgreeBytes(d.data[..], s.data, |s.data|);
    assert d.data[..] == s.data;
  }
}
