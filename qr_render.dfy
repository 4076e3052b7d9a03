/**
 * Rendering a QR module matrix as pixels: the render loop of getQRCodeImageData in
 * image-manipulation.js.  The matrix itself comes from the QRCode library, which is not
 * part of this model; it is an input here, read the way the library's `modules.get(x, y)`
 * reads it, as `modules[x][y]`.
 */
module QrRender {
  import opened PixelBuffer
  import opened ToneOps

  /** The text handed to the QR encoder: the empty string is replaced by a single space. */
  function QrText(text: string): (t: string)
    ensures |t| > 0
    ensures text != "" ==> t == text
    ensures text == "" ==> t == " "
  {
    if text == "" then " " else text
  }

  /** A module matrix of side |modules| > 0, as an encoder returns it. */
  ghost predicate IsSquare(modules: seq<seq<bool>>) {
    |modules| > 0 && forall i | 0 <= i < |modules| :: |modules[i]| == |modules|
  }

  /** modules.get(x, y): module (x, y) is set; out-of-range positions read as unset. */
  predicate Dark(modules: seq<seq<bool>>, x: int, y: int) {
    0 <= x < |modules| && 0 <= y < |modules[x]| && modules[x][y]
  }

  /** Channel c of pixel (x, y): set modules are opaque black, the others opaque white. */
  function ModuleChannel(modules: seq<seq<bool>>, x: int, y: int, c: int): byte {
    if c == 3 then 255 else if Dark(modules, x, y) then 0 else 255
  }

  /** The buffer the render loop fills: one pixel per module, the side of the matrix. */
  function Render(modules: seq<seq<bool>>): (r: Image)
    requires |modules| > 0
    ensures r.Valid() && r.width == |modules| && r.height == |modules|
  {
    Build(|modules|, |modules|, (x, y, c) => ModuleChannel(modules, x, y, c))
  }

  /** Reading a black-and-white buffer back as a matrix: a pixel with red 0 is a set module. */
  function ReadModules(img: Image): (m: seq<seq<bool>>)
    requires img.width >= 0 && img.height >= 0
    ensures |m| == img.width && forall x | 0 <= x < img.width :: |m[x]| == img.height
  {
    seq(img.width, x => seq(img.height, y => At(img, x, y, 0) == 0))
  }

  /** Pixel (x, y) is opaque, and its colour channels are all 0 when module (x, y) is set and all 255 when not. */
  lemma RenderPixel(modules: seq<seq<bool>>, x: int, y: int)
    requires |modules| > 0 && 0 <= x < |modules| && 0 <= y < |modules|
    ensures var img := Render(modules);
      At(img, x, y, 3) == 255 &&
      (Dark(modules, x, y) ==> At(img, x, y, 0) == 0 && At(img, x, y, 1) == 0 && At(img, x, y, 2) == 0) &&
      (!Dark(modules, x, y) ==> At(img, x, y, 0) == 255 && At(img, x, y, 1) == 255 && At(img, x, y, 2) == 255)
  {
  }

  /** The rendered buffer is opaque black and white. */
  lemma RenderIsBlackAndWhite(modules: seq<seq<bool>>)
    requires |modules| > 0
    ensures BlackAndWhite(Render(modules))
  {
    var img := Render(modules);
    forall x, y | 0 <= x < img.width && 0 <= y < img.height ensures BlackOrWhiteAt(img, x, y) {
      RenderPixel(modules, x, y);
    }
  }

  /** Rendering loses nothing: the matrix is read back from the buffer module for module. */
  lemma {:induction false} RenderRoundTrip(modules: seq<seq<bool>>)
    requires IsSquare(modules)
    ensures ReadModules(Render(modules)) == modules
  {
    var img := Render(modules);
    var back := ReadModules(img);
    forall x | 0 <= x < |modules| ensures back[x] == modules[x] {
      forall y | 0 <= y < |modules| ensures back[x][y] == modules[x][y] {
        RenderPixel(modules, x, y);
      }
    }
  }

  /** The four bytes stored for pixel (x, y), starting at flat offset o. */
  lemma ModuleBytes(d: seq<byte>, modules: seq<seq<bool>>, x: int, y: int, o: int, v: byte)
    requires |modules| > 0 && 0 <= x < |modules| && 0 <= y < |modules|
    requires o == Offset(|modules|, x, y, 0) && 0 <= o && o + 4 <= |d| == |Render(modules).data|
    requires Agree(d, Render(modules).data, o)
    requires v == if Dark(modules, x, y) then 0 else 255
    ensures Agree(d[o := v][o + 1 := v][o + 2 := v][o + 3 := 255], Render(modules).data, o + 4)
  {
    var s := Render(modules);
    AtOffset(s, x, y, 0);
    AtOffset(s, x, y, 1);
    AtOffset(s, x, y, 2);
    AtOffset(s, x, y, 3);
    AgreePixel(d, s.data, o, v, v, v, 255);
  }

  /** One pass of the render loop: pixel (x, y) from module (x, y). */
  method RenderPixelStep(modules: seq<seq<bool>>, imageData: ImageData, x: int, y: int)
    requires |modules| > 0 && 0 <= x < |modules| && 0 <= y < |modules|
    requires imageData.Valid() && imageData.width == |modules| && imageData.height == |modules|
    requires Agree(imageData.data[..], Render(modules).data, Offset(|modules|, x, y, 0))
    modifies imageData.data
    ensures Agree(imageData.data[..], Render(modules).data, Offset(|modules|, x, y, 0) + 4)
  {
    var size := |modules|;
    var data := imageData.data;
    OffsetInRange(size, size, x, y, 3);
    var value := if 0 <= y < |modules[x]| && modules[x][y] then 1 else 0;
    var pixelIndex := Offset(size, x, y, 0);
    ghost var v: byte := if value == 1 then 0 else 255;
    ModuleBytes(data[..], modules, x, y, pixelIndex, v);
    ghost var before: seq<byte> := data[..];
    if value == 1 {
      data[pixelIndex] := 0;
      data[pixelIndex + 1] := 0;
      data[pixelIndex + 2] := 0;
      data[pixelIndex + 3] := 255;
    } else {
      data[pixelIndex] := 255;
      data[pixelIndex + 1] := 255;
      data[pixelIndex + 2] := 255;
      data[pixelIndex + 3] := 255;
    }
    assert data[..] == before[pixelIndex := v][pixelIndex + 1 := v][pixelIndex + 2 := v][pixelIndex + 3 := 255];
  }

  /** One row of the render loop. */
  method RenderRow(modules: seq<seq<bool>>, imageData: ImageData, y: int)
    requires |modules| > 0 && 0 <= y < |modules|
    requires imageData.Valid() && imageData.width == |modules| && imageData.height == |modules|
    requires Agree(imageData.data[..], Render(modules).data, Mul(y, |modules|) * 4)
    modifies imageData.data
    ensures Agree(imageData.data[..], Render(modules).data, Mul(y + 1, |modules|) * 4)
  {
    var size := |modules|;
    for x := 0 to size
      invariant Agree(imageData.data[..], Render(modules).data, Offset(size, x, y, 0))
    {
      RenderPixelStep(modules, imageData, x, y);
    }
    RowStep(size, y);
  }

  /** The row loop of the render loop. */
  method RenderRows(modules: seq<seq<bool>>, imageData: ImageData)
    requires |modules| > 0
    requires imageData.Valid() && imageData.width == |modules| && imageData.height == |modules|
    modifies imageData.data
    ensures imageData.View() == Render(modules)
  {
    ghost var s := Render(modules);
    for y := 0 to |modules|
      invariant Agree(imageData.data[..], s.data, Mul(y, |modules|) * 4)
    {
      RenderRow(modules, imageData, y);
    }
    AgreeComplete(imageData, s);
  }

  /** getQRCodeImageData once the encoder has produced its module matrix: a fresh size x size buffer. */
  method GetQRCodeImageData(modules: seq<seq<bool>>) returns (imageData: ImageData)
    requires |modules| > 0
    ensures fresh(imageData) && fresh(imageData.data) && imageData.Valid()
    ensures imageData.View() == Render(modules)
  {
    var size := |modules|;
    imageData := new ImageData(size, size);
    RenderRows(modules, imageData);
  }
}
