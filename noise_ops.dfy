/**
 * Seeded noise: mulberry32 and addNoiseToImage of image-manipulation.js.  The generator is
 * an object whose 32-bit state every draw advances; the noise pass takes exactly one draw
 * per pixel, in raster order, and inverts the pixel's colour channels when that draw falls
 * below the pixel's adjusted probability.
 */
module NoiseOps {
  import opened PixelBuffer
  import opened ToneOps

  // ---------------------------------------------------------------------------
  // mulberry32
  // ---------------------------------------------------------------------------

  /** The constant each call adds to the state. */
  const Increment: bv32 := 0x6D2B79F5

  /** 2^32, the divisor that maps an unsigned 32-bit value into [0, 1). */
  const TwoTo32: real := 4294967296.0

  /**
   * The output mixing of one call, applied to the freshly advanced state.  `Math.imul` is
   * the wrapping 32-bit product, `>>>` the logical shift, and the addition inside `^=`
   * wraps as well, because only its low 32 bits reach the exclusive or.
   */
  function Mix(t: bv32): bv32 {
    var t1 := (t ^ (t >> 15)) * (t | 1);
    var t2 := t1 ^ (t1 + (t1 ^ (t1 >> 7)) * (t1 | 61));
    t2 ^ (t2 >> 14)
  }

  /** An unsigned 32-bit value as a fraction of 2^32. */
  function Unit(u: bv32): (r: real)
    ensures 0.0 <= r < 1.0
  {
    (u as int) as real / TwoTo32
  }

  /** The state after k calls of a generator seeded with seed. */
  function SeedAfter(seed: bv32, k: int): bv32
    decreases k
  {
    if k <= 0 then seed else SeedAfter(seed, k - 1) + Increment
  }

  /** The value returned by call number k (counted from 0) of a generator seeded with seed. */
  function DrawAt(seed: bv32, k: int): (r: real)
    ensures 0.0 <= r < 1.0
  {
    Unit(Mix(SeedAfter(seed, k + 1)))
  }

  /** Continuing a generator after a calls is starting one from the state it has reached. */
  lemma {:induction false} SeedAfterAdd(seed: bv32, a: nat, b: nat)
    ensures SeedAfter(SeedAfter(seed, a), b) == SeedAfter(seed, a + b)
    decreases b
  {
    if b > 0 {
      SeedAfterAdd(seed, a, b - 1);
    }
  }

  /**
   * The closure returned by mulberry32(seed): its captured seed is the object's field.
   * The ghost fields record the seed it was created with and how many calls it has served.
   */
  class Mulberry32 {
    var seed: bv32
    ghost const origin: bv32
    ghost var calls: nat

    /** The state is the creation seed advanced once per call served. */
    ghost predicate Valid()
      reads this
    {
      seed == SeedAfter(origin, calls)
    }

    constructor (seed0: bv32)
      ensures Valid() && seed == seed0 && origin == seed0 && calls == 0
    {
      seed, origin, calls := seed0, seed0, 0;
    }

    /** One call of the closure: advance the state, then mix it into a fraction. */
    method Next() returns (r: real)
      requires Valid()
      modifies this
      ensures Valid() && seed == old(seed) + Increment && calls == old(calls) + 1
      ensures r == Unit(Mix(seed)) && r == DrawAt(origin, old(calls))
    {
      seed := seed + Increment;
      calls := calls + 1;
      r := Unit(Mix(seed));
    }
  }

  // ---------------------------------------------------------------------------
  // addNoiseToImage
  // ---------------------------------------------------------------------------

  /** Neighbour (nx, ny) is outside the buffer or has the centre's channel 0. */
  predicate MatchesCentre(img: Image, x: int, y: int, nx: int, ny: int) {
    !InBounds(img, nx, ny) || At(img, nx, ny, 0) == At(img, x, y, 0)
  }

  /** Every neighbour of (x, y) in the rows from y - 1 up to, not including, bottom matches the centre. */
  predicate RowsMatch(img: Image, x: int, y: int, bottom: int) {
    forall ny, nx | y - 1 <= ny < bottom && x - 1 <= nx <= x + 1 :: MatchesCentre(img, x, y, nx, ny)
  }

  /**
   * The 3 x 3 neighbourhood of (x, y), clipped to the buffer, has one colour: judged on
   * channel 0 of the input buffer.
   */
  predicate Uniform(img: Image, x: int, y: int) {
    RowsMatch(img, x, y, y + 2)
  }

  /**
   * The probability (in percent) used for pixel (x, y): damped by 0.15 when the
   * neighbourhood is not uniform, and by 0.15 again on the centre row or column of a 3 x 3 block.
   */
  function AdjustedProbability(p: real, uniform: bool, x: int, y: int): real {
    var a := if uniform then p else p * 0.15;
    if x % 3 == 1 || y % 3 == 1 then a * 0.15 else a
  }

  /** The draws of a generator seeded with seed, one per pixel of an n-pixel buffer, in raster order. */
  function Draws(seed: bv32, n: nat): (ds: seq<real>)
    ensures |ds| == n
  {
    seq(n, k => DrawAt(seed, k))
  }

  /** Every draw lies in [0, 1). */
  lemma DrawsInRange(seed: bv32, n: nat, k: int)
    requires 0 <= k < n
    ensures Draws(seed, n)[k] == DrawAt(seed, k) && 0.0 <= Draws(seed, n)[k] < 1.0
  {
  }

  /** Draw k of the sequence is call number k of a generator seeded with seed. */
  ghost predicate DrawnFrom(seed: bv32, draws: seq<real>) {
    forall k {:trigger DrawAt(seed, k)} | 0 <= k < |draws| :: draws[k] == DrawAt(seed, k)
  }

  /** The draws of a seeded generator are drawn from it. */
  lemma DrawsDrawnFrom(seed: bv32, n: nat)
    ensures DrawnFrom(seed, Draws(seed, n))
  {
    forall k | 0 <= k < n
      ensures Draws(seed, n)[k] == DrawAt(seed, k)
    {
      DrawsInRange(seed, n, k);
    }
  }

  /** The draw consumed by pixel (x, y): number y * width + x of the sequence. */
  function DrawFor(img: Image, draws: seq<real>, x: int, y: int): real {
    var k := Mul(y, img.width) + x;
    if 0 <= k < |draws| then draws[k] else 0.0
  }

  /** Pixel (x, y) is inverted: its draw, scaled to percent, falls below its adjusted probability. */
  predicate Flips(img: Image, p: real, draw: real, x: int, y: int) {
    draw * 100.0 < AdjustedProbability(p, Uniform(img, x, y), x, y)
  }

  /** Black becomes white, anything else black. */
  function Invert(v: byte): byte {
    if v == 0 then 255 else 0
  }

  /** Channel c of pixel (x, y) after the noise pass with the given draws. */
  function NoiseChannel(img: Image, p: real, draws: seq<real>, x: int, y: int, c: int): byte {
    if c < 3 && Flips(img, p, DrawFor(img, draws, x, y), x, y) then Invert(At(img, x, y, c)) else At(img, x, y, c)
  }

  /** The noise pass driven by a given sequence of draws, one per pixel in raster order. */
  function NoiseWith(img: Image, p: real, draws: seq<real>): (r: Image)
    requires img.Valid()
    ensures r.Valid() && r.width == img.width && r.height == img.height
    ensures forall x, y, c | 0 <= x < r.width && 0 <= y < r.height && 0 <= c < 4 ::
      At(r, x, y, c) == NoiseChannel(img, p, draws, x, y, c)
  {
    Build(img.width, img.height, (x, y, c) => NoiseChannel(img, p, draws, x, y, c))
  }

  /**
   * addNoiseToImage(img, p, seed) as a value: the noise pass driven by the draws of a
   * generator seeded with seed, so a function of the buffer, the probability and the seed.
   */
  function AddNoise(img: Image, p: real, seed: bv32): (r: Image)
    requires img.Valid()
    ensures r.Valid() && r.width == img.width && r.height == img.height
  {
    MulNonneg(img.height, img.width);
    NoiseWith(img, p, Draws(seed, Mul(img.height, img.width)))
  }

  /** Pixel (x, y) of addNoiseToImage's output consumes draw number y * width + x of the generator. */
  lemma AddNoiseDraw(img: Image, seed: bv32, x: int, y: int)
    requires img.Valid() && InBounds(img, x, y)
    ensures Mul(img.height, img.width) >= 0
    ensures DrawFor(img, Draws(seed, Mul(img.height, img.width)), x, y) == DrawAt(seed, Mul(y, img.width) + x)
  {
    OffsetInRange(img.width, img.height, x, y, 0);
    DrawsInRange(seed, Mul(img.height, img.width), Mul(y, img.width) + x);
  }

  /** Each pixel is copied or has its colour channels inverted; alpha is always copied. */
  lemma NoisePixel(img: Image, p: real, draws: seq<real>, x: int, y: int)
    requires img.Valid() && InBounds(img, x, y)
    ensures var r, flip := NoiseWith(img, p, draws), Flips(img, p, DrawFor(img, draws, x, y), x, y);
      At(r, x, y, 3) == At(img, x, y, 3) &&
      (flip ==>
        At(r, x, y, 0) == Invert(At(img, x, y, 0)) && At(r, x, y, 1) == Invert(At(img, x, y, 1)) &&
        At(r, x, y, 2) == Invert(At(img, x, y, 2))) &&
      (!flip ==>
        At(r, x, y, 0) == At(img, x, y, 0) && At(r, x, y, 1) == At(img, x, y, 1) &&
        At(r, x, y, 2) == At(img, x, y, 2))
  {
  }

  /**
   * For a probability p >= 0 the adjusted probability lies in [0, p], and it is p itself
   * exactly when p is 0 or the pixel is undamped: a uniform neighbourhood off the centre
   * row and column.  For p <= 0 it is never positive.
   */
  lemma AdjustedBounds(p: real, uniform: bool, x: int, y: int)
    ensures p >= 0.0 ==> 0.0 <= AdjustedProbability(p, uniform, x, y) <= p
    ensures p >= 0.0 ==> (AdjustedProbability(p, uniform, x, y) == p <==>
      p == 0.0 || (uniform && x % 3 != 1 && y % 3 != 1))
    ensures p <= 0.0 ==> AdjustedProbability(p, uniform, x, y) <= 0.0
  {
    var a := if uniform then p else p * 0.15;
    if p > 0.0 {
      assert uniform ==> a == p;
      assert !uniform ==> a < p;
      assert 0.0 < a <= p;
      assert a * 0.15 < a;
    }
  }

  /** Probability 0 or below never flips a pixel, because draws are never negative. */
  lemma NoFlipBelowZero(img: Image, p: real, draw: real, x: int, y: int)
    requires p <= 0.0 && draw >= 0.0
    ensures !Flips(img, p, draw, x, y)
  {
    AdjustedBounds(p, Uniform(img, x, y), x, y);
  }

  /** A probability of 0 (or below) leaves the buffer as it is. */
  lemma NoiseZero(img: Image, p: real, seed: bv32)
    requires img.Valid() && p <= 0.0
    ensures AddNoise(img, p, seed) == img
  {
    var r := AddNoise(img, p, seed);
    MulNonneg(img.height, img.width);
    var draws := Draws(seed, Mul(img.height, img.width));
    assert r == NoiseWith(img, p, draws);
    forall x, y, c | 0 <= x < img.width && 0 <= y < img.height && 0 <= c < 4
      ensures At(r, x, y, c) == At(img, x, y, c)
    {
      AddNoiseDraw(img, seed, x, y);
      NoFlipBelowZero(img, p, DrawFor(img, draws, x, y), x, y);
    }
    Extensionality(r, img);
  }

  /**
   * At probability 100 or more an undamped pixel (uniform neighbourhood, off the centre
   * row and column) is always inverted, because draws are below 1.
   */
  lemma FlipAtCertainty(img: Image, p: real, seed: bv32, x: int, y: int)
    requires img.Valid() && InBounds(img, x, y)
    requires p >= 100.0 && Uniform(img, x, y) && x % 3 != 1 && y % 3 != 1
    ensures var r := AddNoise(img, p, seed);
      At(r, x, y, 0) == Invert(At(img, x, y, 0)) && At(r, x, y, 1) == Invert(At(img, x, y, 1)) &&
      At(r, x, y, 2) == Invert(At(img, x, y, 2))
  {
    MulNonneg(img.height, img.width);
    var draws := Draws(seed, Mul(img.height, img.width));
    AddNoiseDraw(img, seed, x, y);
    assert AdjustedProbability(p, Uniform(img, x, y), x, y) == p;
    assert Flips(img, p, DrawFor(img, draws, x, y), x, y);
    NoisePixel(img, p, draws, x, y);
  }

  /** One pixel of a black and white buffer is black or white after the noise pass. */
  lemma NoiseBlackOrWhiteAt(img: Image, p: real, draws: seq<real>, x: int, y: int)
    requires img.Valid() && InBounds(img, x, y) && BlackOrWhiteAt(img, x, y)
    ensures BlackOrWhiteAt(NoiseWith(img, p, draws), x, y)
  {
    NoisePixel(img, p, draws, x, y);
  }

  /** Noise keeps a black and white buffer black and white. */
  lemma NoiseKeepsBlackAndWhite(img: Image, p: real, seed: bv32)
    requires BlackAndWhite(img)
    ensures BlackAndWhite(AddNoise(img, p, seed))
  {
    var r := AddNoise(img, p, seed);
    MulNonneg(img.height, img.width);
    var draws := Draws(seed, Mul(img.height, img.width));
    assert r == NoiseWith(img, p, draws);
    forall x, y | 0 <= x < r.width && 0 <= y < r.height
      ensures BlackOrWhiteAt(r, x, y)
    {
      assert BlackOrWhiteAt(img, x, y);
      NoiseBlackOrWhiteAt(img, p, draws, x, y);
    }
  }

  /** Rows y - 1 .. bottom - 1 matching, and every neighbour in row bottom matching, is rows up to bottom + 1 matching. */
  lemma RowsMatchStep(img: Image, x: int, y: int, bottom: int)
    requires RowsMatch(img, x, y, bottom)
    requires forall nx | x - 1 <= nx < x + 2 :: MatchesCentre(img, x, y, nx, bottom)
    ensures RowsMatch(img, x, y, bottom + 1)
  {
    forall ny, nx | y - 1 <= ny < bottom + 1 && x - 1 <= nx <= x + 1
      ensures MatchesCentre(img, x, y, nx, ny)
    {
      if ny == bottom {
        assert MatchesCentre(img, x, y, nx, bottom);
      }
    }
  }

  /**
   * The neighbourhood scan of addNoiseToImage: rows dy = -1 .. 1, columns dx = -1 .. 1,
   * neighbours outside the buffer skipped, and both loops left at the first mismatch.
   */
  method NeighbourhoodUniform(imageData: ImageData, ghost src: Image, x: int, y: int) returns (allSameColor: bool)
    requires src.Valid() && imageData.width == src.width && imageData.height == src.height && imageData.data[..] == src.data
    requires InBounds(src, x, y)
    ensures allSameColor == Uniform(src, x, y)
  {
    var width, height := imageData.width, imageData.height;
    var data := imageData.data;
    AtOffset(src, x, y, 0);
    var centerColor := data[Offset(width, x, y, 0)];
    allSameColor := true;
    for dy := -1 to 2
      invariant allSameColor ==> RowsMatch(src, x, y, y + dy)
      invariant !allSameColor ==> !Uniform(src, x, y)
    {
      ghost var row := y + dy;
      for dx := -1 to 2
        invariant allSameColor ==> forall nx | x - 1 <= nx < x + dx :: MatchesCentre(src, x, y, nx, row)
        invariant !allSameColor ==> !Uniform(src, x, y)
      {
        var nx, ny := x + dx, y + dy;
        if nx < 0 || nx >= width || ny < 0 || ny >= height {
          continue;
        }
        var neighborIndex := Offset(width, nx, ny, 0);
        AtOffset(src, nx, ny, 0);
        if data[neighborIndex] != centerColor {
          assert !MatchesCentre(src, x, y, nx, ny);
          allSameColor := false;
          break;
        }
      }
      if !allSameColor {
        break;
      }
      RowsMatchStep(src, x, y, y + dy);
    }
  }

  /** The four bytes addNoiseToImage leaves for pixel (x, y), at flat offset o. */
  lemma NoiseBytes(d: seq<byte>, img: Image, p: real, draws: seq<real>, x: int, y: int, o: int, flip: bool,
                   v0: byte, v1: byte, v2: byte, v3: byte)
    requires img.Valid() && InBounds(img, x, y) && |d| == |img.data| && o == Offset(img.width, x, y, 0)
    requires Agree(d, NoiseWith(img, p, draws).data, o) && o + 3 < |img.data|
    requires flip == Flips(img, p, DrawFor(img, draws, x, y), x, y)
    requires v0 == (if flip then Invert(img.data[o]) else img.data[o])
    requires v1 == (if flip then Invert(img.data[o + 1]) else img.data[o + 1])
    requires v2 == (if flip then Invert(img.data[o + 2]) else img.data[o + 2])
    requires v3 == img.data[o + 3]
    ensures Agree(d[o := v0][o + 1 := v1][o + 2 := v2][o + 3 := v3], NoiseWith(img, p, draws).data, o + 4)
  {
    var s := NoiseWith(img, p, draws);
    NoisePixel(img, p, draws, x, y);
    AtOffset(img, x, y, 0);
    AtOffset(img, x, y, 1);
    AtOffset(img, x, y, 2);
    AtOffset(img, x, y, 3);
    AtOffset(s, x, y, 0);
    AtOffset(s, x, y, 1);
    AtOffset(s, x, y, 2);
    AtOffset(s, x, y, 3);
    AgreePixel(d, s.data, o, v0, v1, v2, v3);
  }

  /** The adjusted probability as the pixel loop computes it, from the scan's verdict. */
  lemma AdjustedFromScan(p: real, allSameColor: bool, x: int, y: int, adjusted: real)
    requires var a := if allSameColor then p else p * 0.15;
      adjusted == if x % 3 == 1 || y % 3 == 1 then a * 0.15 else a
    ensures adjusted == AdjustedProbability(p, allSameColor, x, y)
  {
  }

  /** The pixel loop's comparison, from the scan's verdict, the adjusted probability and the draw, is Flips. */
  lemma FlipFromParts(img: Image, p: real, draws: seq<real>, x: int, y: int, draw: real, adjusted: real, allSame: bool)
    requires draw == DrawFor(img, draws, x, y) && allSame == Uniform(img, x, y)
    requires adjusted == AdjustedProbability(p, allSame, x, y)
    ensures (draw * 100.0 < adjusted) == Flips(img, p, DrawFor(img, draws, x, y), x, y)
  {
  }

  /** The draw of pixel (x, y) is entry y * width + x of a sequence with one draw per pixel. */
  lemma DrawOfPixel(img: Image, draws: seq<real>, x: int, y: int)
    requires img.Valid() && InBounds(img, x, y) && |draws| == Mul(img.height, img.width)
    ensures 0 <= Mul(y, img.width) + x < |draws| && DrawFor(img, draws, x, y) == draws[Mul(y, img.width) + x]
  {
    OffsetInRange(img.width, img.height, x, y, 0);
  }

  /**
   * The middle of one pass of the pixel loop: scan the neighbourhood, adjust the
   * probability, take one draw, and decide whether the pixel is inverted.
   */
  method DecideFlip(imageData: ImageData, ghost src: Image, rand: Mulberry32, ghost seed: bv32, ghost draws: seq<real>,
                    noiseProbability: real, x: int, y: int) returns (flip: bool)
    requires src.Valid() && imageData.width == src.width && imageData.height == src.height && imageData.data[..] == src.data
    requires InBounds(src, x, y)
    requires |draws| == Mul(src.height, src.width) && DrawnFrom(seed, draws)
    requires rand.Valid() && rand.origin == seed && rand.calls == Mul(y, src.width) + x
    modifies rand
    ensures rand.Valid() && rand.calls == Mul(y, src.width) + x + 1
    ensures flip == Flips(src, noiseProbability, DrawFor(src, draws, x, y), x, y)
  {
    var allSameColor := NeighbourhoodUniform(imageData, src, x, y);
    var adjustedProbability := if allSameColor then noiseProbability else noiseProbability * 0.15;
    if x % 3 == 1 || y % 3 == 1 {
      adjustedProbability := adjustedProbability * 0.15;
    }
    AdjustedFromScan(noiseProbability, allSameColor, x, y, adjustedProbability);
    var draw := rand.Next();
    DrawOfPixel(src, draws, x, y);
    FlipFromParts(src, noiseProbability, draws, x, y, draw, adjustedProbability, allSameColor);
    flip := draw * 100.0 < adjustedProbability;
  }

  /** The copy at the start of a pass: the four bytes of the pixel at flat offset index. */
  method CopyPixel(imageData: ImageData, result: ImageData, index: int)
    requires 0 <= index && index + 3 < imageData.data.Length && index + 3 < result.data.Length
    requires result.data != imageData.data
    modifies result.data
    ensures var d := imageData.data;
      result.data[..] == old(result.data[..])[index := d[index]][index + 1 := d[index + 1]]
        [index + 2 := d[index + 2]][index + 3 := d[index + 3]]
  {
    var data := imageData.data;
    result.data[index] := data[index];
    result.data[index + 1] := data[index + 1];
    result.data[index + 2] := data[index + 2];
    result.data[index + 3] := data[index + 3];
  }

  /** The inversion of a flipped pixel: its three colour bytes, alpha left alone. */
  method InvertPixel(imageData: ImageData, result: ImageData, index: int)
    requires 0 <= index && index + 3 < imageData.data.Length && index + 3 < result.data.Length
    requires result.data != imageData.data
    modifies result.data
    ensures var d := imageData.data;
      result.data[..] == old(result.data[..])[index := Invert(d[index])][index + 1 := Invert(d[index + 1])]
        [index + 2 := Invert(d[index + 2])]
  {
    var data := imageData.data;
    result.data[index] := if data[index] == 0 then 255 else 0;
    result.data[index + 1] := if data[index + 1] == 0 then 255 else 0;
    result.data[index + 2] := if data[index + 2] == 0 then 255 else 0;
  }

  /** Overwriting the first three of four freshly stored bytes leaves the fourth. */
  lemma OverwriteThree(d: seq<byte>, o: int, a0: byte, a1: byte, a2: byte, a3: byte, b0: byte, b1: byte, b2: byte)
    requires 0 <= o && o + 3 < |d|
    ensures d[o := a0][o + 1 := a1][o + 2 := a2][o + 3 := a3][o := b0][o + 1 := b1][o + 2 := b2] ==
      d[o := b0][o + 1 := b1][o + 2 := b2][o + 3 := a3]
  {
  }

  /** One pass of addNoiseToImage's pixel loop: copy the pixel, then invert it if the draw says so. */
  method NoisePixelStep(imageData: ImageData, ghost src: Image, result: ImageData, rand: Mulberry32, ghost seed: bv32,
                        ghost draws: seq<real>, noiseProbability: real, x: int, y: int)
    requires src.Valid() && imageData.width == src.width && imageData.height == src.height && imageData.data[..] == src.data
    requires result.Valid() && result.data != imageData.data && result.width == src.width && result.height == src.height
    requires 0 <= x < src.width && 0 <= y < src.height
    requires |draws| == Mul(src.height, src.width) && DrawnFrom(seed, draws)
    requires rand.Valid() && rand.origin == seed && rand.calls == Mul(y, src.width) + x
    requires Agree(result.data[..], NoiseWith(src, noiseProbability, draws).data, Offset(result.width, x, y, 0))
    modifies result.data, rand
    ensures rand.Valid() && rand.calls == Mul(y, src.width) + x + 1
    ensures Agree(result.data[..], NoiseWith(src, noiseProbability, draws).data, Offset(result.width, x, y, 0) + 4)
  {
    var width := imageData.width;
    var data := imageData.data;
    var index := Offset(width, x, y, 0);
    AtOffset(src, x, y, 3);
    ghost var before: seq<byte> := result.data[..];
    CopyPixel(imageData, result, index);
    var flip := DecideFlip(imageData, src, rand, seed, draws, noiseProbability, x, y);
    if flip {
      InvertPixel(imageData, result, index);
      OverwriteThree(before, index, data[index], data[index + 1], data[index + 2], data[index + 3],
                     Invert(data[index]), Invert(data[index + 1]), Invert(data[index + 2]));
      NoiseBytes(before, src, noiseProbability, draws, x, y, index, flip,
                 Invert(data[index]), Invert(data[index + 1]), Invert(data[index + 2]), data[index + 3]);
    } else {
      NoiseBytes(before, src, noiseProbability, draws, x, y, index, flip,
                 data[index], data[index + 1], data[index + 2], data[index + 3]);
    }
  }

  /** One row of addNoiseToImage's pixel loop. */
  method NoiseRow(imageData: ImageData, ghost src: Image, result: ImageData, rand: Mulberry32, ghost seed: bv32,
                  ghost draws: seq<real>, noiseProbability: real, y: int)
    requires src.Valid() && imageData.width == src.width && imageData.height == src.height && imageData.data[..] == src.data
    requires result.Valid() && result.data != imageData.data && result.width == src.width && result.height == src.height
    requires 0 <= y < src.height
    requires |draws| == Mul(src.height, src.width) && DrawnFrom(seed, draws)
    requires rand.Valid() && rand.origin == seed && rand.calls == Mul(y, src.width)
    requires Agree(result.data[..], NoiseWith(src, noiseProbability, draws).data, Mul(y, result.width) * 4)
    modifies result.data, rand
    ensures rand.Valid() && rand.calls == Mul(y + 1, src.width)
    ensures Agree(result.data[..], NoiseWith(src, noiseProbability, draws).data, Mul(y + 1, result.width) * 4)
  {
    var width := imageData.width;
    for x := 0 to width
      invariant rand.Valid() && rand.calls == Mul(y, width) + x
      invariant Agree(result.data[..], NoiseWith(src, noiseProbability, draws).data, Offset(width, x, y, 0))
    {
      NoisePixelStep(imageData, src, result, rand, seed, draws, noiseProbability, x, y);
    }
    RowStep(width, y);
  }

  /** The row loop of addNoiseToImage: one draw per pixel, in raster order. */
  method NoiseRows(imageData: ImageData, ghost src: Image, result: ImageData, rand: Mulberry32, ghost seed: bv32,
                   ghost draws: seq<real>, noiseProbability: real)
    requires src.Valid() && imageData.width == src.width && imageData.height == src.height && imageData.data[..] == src.data
    requires result.Valid() && result.data != imageData.data && result.width == src.width && result.height == src.height
    requires |draws| == Mul(src.height, src.width) && DrawnFrom(seed, draws)
    requires rand.Valid() && rand.origin == seed && rand.calls == 0
    modifies result.data, rand
    ensures rand.Valid() && rand.calls == Mul(src.height, src.width)
    ensures result.View() == NoiseWith(src, noiseProbability, draws)
  {
    ghost var s := NoiseWith(src, noiseProbability, draws);
    for y := 0 to result.height
      invariant rand.Valid() && rand.calls == Mul(y, src.width)
      invariant Agree(result.data[..], s.data, Mul(y, result.width) * 4)
    {
      NoiseRow(imageData, src, result, rand, seed, draws, noiseProbability, y);
    }
    AgreeComplete(result, s);
  }

  /** addNoiseToImage: a fresh buffer, and a generator of its own seeded with seed. */
  method AddNoiseToImage(imageData: ImageData, noiseProbability: real, seed: bv32) returns (result: ImageData)
    requires imageData.Valid()
    ensures fresh(result) && fresh(result.data) && result.Valid()
    ensures result.View() == AddNoise(imageData.View(), noiseProbability, seed)
  {
    result := new ImageData(imageData.width, imageData.height);
    var rand := new Mulberry32(seed);
    MulNonneg(imageData.height, imageData.width);
    DrawsDrawnFrom(seed, Mul(imageData.height, imageData.width));
    NoiseRows(imageData, imageData.View(), result, rand, seed, Draws(seed, Mul(imageData.height, imageData.width)),
              noiseProbability);
  }
}
