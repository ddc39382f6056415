/** `Util.bitmapToTensor`: an arbitrary-size colour image becomes a
    (3, width, height) tensor. The image is scaled so that it covers the target
    rectangle ("fill"), centre-cropped to exactly the target, and its pixels are
    written channel by channel into a planar buffer. */
module ImagePreprocess {
  import opened JavaInt
  import opened Tensors
  import opened Arithmetic

  datatype Channel = Red | Green | Blue

  /** A pixel as the three channel values `Color.red`, `Color.green` and
      `Color.blue` extract from it. */
  datatype Pixel = Pixel(red: int, green: int, blue: int) {
    function Component(c: Channel): int {
      if c == Red then red else if c == Green then green else blue
    }
  }

  /** A decoded bitmap: its pixels in row-major order. */
  datatype Bitmap = Bitmap(width: int, height: int, pixels: seq<Pixel>) {

    predicate Valid() {
      0 < width && 0 < height && |pixels| == width * height
    }

    /** The pixel in column `col` of row `row`. */
    function At(col: int, row: int): Pixel
      requires Valid() && 0 <= col < width && 0 <= row < height
    {
      pixels[RowMajor(row, col, width, height)]
    }
  }

  /** Android's `Bitmap.createScaledBitmap` is a library call: the model takes it
      as a parameter and relies only on the size of the bitmap it returns. */
  ghost predicate ResizesExactly(resample: (Bitmap, int, int) -> Bitmap) {
    forall b: Bitmap, w: int, h: int :: 0 < w && 0 < h ==>
      resample(b, w, h).Valid() && resample(b, w, h).width == w && resample(b, w, h).height == h
  }

  // ---------------------------------------------------------------------------
  // Geometry: scaling and crop offsets (pure integer arithmetic)
  // ---------------------------------------------------------------------------

  /** The products at `Util.java` lines 92 and 95 are Java `int` products; the branch taken
      needs its product to fit in an `int` for the scaled size to be meaningful. */
  predicate NoScaleOverflow(w: int, h: int, width: int, height: int) {
    if w * height > width * h then InRange(w * height) else InRange(h * width)
  }

  /** The size the bitmap is scaled to. The comparison is done on `long`
      products, which cannot overflow for `int` operands; the scaled side is
      computed with `int` arithmetic. */
  function ScaledSize(w: int, h: int, width: int, height: int): (int, int)
    requires 0 < w && 0 < h
  {
    if w * height > width * h then
      (Div(Mul(w, height), h), height)
    else
      (width, Div(Mul(h, width), w))
  }

  /** "Fill" scaling: one side matches the target exactly, the other covers it,
      and the scaled side is the floor of the aspect-preserving length. */
  lemma ScaleCoversTarget(w: int, h: int, width: int, height: int)
    requires InRange(w) && InRange(h) && 0 < w && 0 < h
    requires InRange(width) && InRange(height) && 0 <= width && 0 <= height
    requires NoScaleOverflow(w, h, width, height)
    ensures var s := ScaledSize(w, h, width, height);
      var sw, sh := s.0, s.1;
      if w * height > width * h then
        sh == height && width <= sw && sw * h <= w * height < sw * h + h
      else
        sw == width && height <= sh && sh * w <= h * width < sh * w + w
  {
    var s := ScaledSize(w, h, width, height);
    if w * height > width * h {
      var a := w * height;
      NonNegativeProduct(w, height);
      assert InRange(a) && 0 <= a && Mul(w, height) == a;
      var q := Div(a, h);
      assert q == s.0 && q * h <= a < q * h + h;
      BelowFloorQuotient(width, q, h, a);
    } else {
      var a := h * width;
      NonNegativeProduct(h, width);
      assert InRange(a) && 0 <= a && Mul(h, width) == a;
      var q := Div(a, w);
      assert q == s.1 && q * w <= a < q * w + w;
      assert height * w == w * height;
      BelowFloorQuotient(height, q, w, a);
    }
  }

  /** When the source already has the target's aspect ratio, scaling yields the
      target size exactly and no cropping happens. */
  lemma ScaleSameAspect(w: int, h: int, width: int, height: int)
    requires InRange(w) && InRange(h) && 0 < w && 0 < h
    requires InRange(width) && InRange(height) && 0 <= width && 0 <= height
    requires InRange(h * width)
    requires w * height == width * h
    ensures ScaledSize(w, h, width, height) == (width, height)
  {
    ScaleCoversTarget(w, h, width, height);
    var sh := ScaledSize(w, h, width, height).1;
    if sh > height {
      MulMonotone(height + 1, sh, w);
      assert false;
    }
  }

  /** The crop offsets of `Util.java` lines 99-100: the floor of half the excess on each axis. */
  function CropOffsets(sw: int, sh: int, width: int, height: int): (r: (int, int))
    ensures InRange(sw) && InRange(width) && 0 <= width <= sw ==>
      0 <= r.0 && r.0 + width <= sw && r.0 <= sw - width - r.0 <= r.0 + 1
    ensures InRange(sh) && InRange(height) && 0 <= height <= sh ==>
      0 <= r.1 && r.1 + height <= sh && r.1 <= sh - height - r.1 <= r.1 + 1
  {
    (ShiftRightOne(Sub(sw, width)), ShiftRightOne(Sub(sh, height)))
  }

  /** The geometry of `Util.java` lines 89-100 together: the crop window lies inside the
      scaled bitmap. */
  lemma CropWindowInside(w: int, h: int, width: int, height: int)
    requires InRange(w) && InRange(h) && 0 < w && 0 < h
    requires InRange(width) && InRange(height) && 0 <= width && 0 <= height
    requires NoScaleOverflow(w, h, width, height)
    ensures var s := ScaledSize(w, h, width, height);
      var c := CropOffsets(s.0, s.1, width, height);
      0 <= c.0 && c.0 + width <= s.0 && 0 <= c.1 && c.1 + height <= s.1
  {
    ScaleCoversTarget(w, h, width, height);
  }

  /** The wide example: a 400x100 image for a 224x224 target is scaled by
      height to 896x224 and then cropped on the width only. */
  lemma WideImageExample()
    ensures ScaledSize(400, 100, 224, 224) == (896, 224)
    ensures CropOffsets(896, 224, 224, 224) == (336, 0)
  {
  }

  // ---------------------------------------------------------------------------
  // Pixels: the crop window and the channel-planar layout
  // ---------------------------------------------------------------------------

  /** `bitmap.getPixels(pixels, 0, width, x, y, width, height)`: the window of
      `width` x `height` pixels at (x, y), row by row, with stride `width`. */
  function Crop(b: Bitmap, x: int, y: int, width: int, height: int): (r: seq<Pixel>)
    requires b.Valid() && 0 <= width && 0 <= height
    requires 0 <= x && x + width <= b.width && 0 <= y && y + height <= b.height
    ensures |r| == width * height
    ensures forall row, col :: 0 <= row < height && 0 <= col < width ==>
      r[RowMajor(row, col, width, height)] == b.At(x + col, y + row)
  {
    var r := seq(width * height, i requires 0 <= i < width * height => WindowPixel(b, x, y, width, height, i));
    forall row, col | 0 <= row < height && 0 <= col < width
      ensures r[RowMajor(row, col, width, height)] == b.At(x + col, y + row)
    {
      WindowPixelAt(b, x, y, width, height, row, col);
    }
    r
  }

  /** Pixel `i` of the crop window, counted row by row. */
  function WindowPixel(b: Bitmap, x: int, y: int, width: int, height: int, i: int): Pixel
    requires b.Valid() && 0 <= width && 0 <= height
    requires 0 <= x && x + width <= b.width && 0 <= y && y + height <= b.height
    requires 0 <= i < width * height
  {
    WindowCell(i, width, height);
    b.At(x + i % width, y + i / width)
  }

  lemma WindowPixelAt(b: Bitmap, x: int, y: int, width: int, height: int, row: int, col: int)
    requires b.Valid() && 0 <= width && 0 <= height
    requires 0 <= x && x + width <= b.width && 0 <= y && y + height <= b.height
    requires 0 <= row < height && 0 <= col < width
    ensures WindowPixel(b, x, y, width, height, RowMajor(row, col, width, height)) == b.At(x + col, y + row)
  {
    RowMajorSplit(row, col, width, height);
  }

  /** Row-major offset of (row, col) in a `width` x `height` grid. */
  function RowMajor(row: int, col: int, width: int, height: int): (r: int)
    requires 0 <= row < height && 0 <= col < width
    ensures 0 <= r < width * height
  {
    MulMonotone(row + 1, height, width);
    NonNegativeProduct(row, width);
    row * width + col
  }

  lemma RowMajorSplit(row: int, col: int, width: int, height: int)
    requires 0 <= row < height && 0 <= col < width
    ensures RowMajor(row, col, width, height) / width == row
    ensures RowMajor(row, col, width, height) % width == col
  {
    var i := RowMajor(row, col, width, height);
    NonNegativeProduct(row, width);
    assert i == width * row + col;
    DivModUnique(i, width, row, col);
  }

  lemma WindowCell(i: int, width: int, height: int)
    requires 0 <= width && 0 <= height && 0 <= i < width * height
    ensures 0 < width && 0 <= i % width < width && 0 <= i / width < height
  {
    if width == 0 {
      assert false;
    }
    var q, m := i / width, i % width;
    assert i == width * q + m && 0 <= m < width;
    assert width * q == q * width;
    if q < 0 {
      MulMonotone(q, -1, width);
      assert false;
    }
    if q >= height {
      MulMonotone(height, q, width);
      assert false;
    }
  }

  /** One channel's block of the planar buffer: that channel's normalised value
      of every pixel, in pixel order. */
  function ChannelBlock(pixels: seq<Pixel>, c: Channel, norm: (Channel, int) -> real): seq<real> {
    seq(|pixels|, i requires 0 <= i < |pixels| => norm(c, pixels[i].Component(c)))
  }

  /** The channel-planar layout: the red block, then the green block, then the
      blue block. */
  function Planar(pixels: seq<Pixel>, norm: (Channel, int) -> real): seq<real> {
    ChannelBlock(pixels, Red, norm) + ChannelBlock(pixels, Green, norm) + ChannelBlock(pixels, Blue, norm)
  }

  /** Pixel `i`'s red value sits at `i`, its green value `n` further and its blue
      value `2n` further, where `n` is the pixel count. */
  lemma PlanarSlots(pixels: seq<Pixel>, norm: (Channel, int) -> real)
    ensures |Planar(pixels, norm)| == 3 * |pixels|
    ensures forall i :: 0 <= i < |pixels| ==>
      && Planar(pixels, norm)[i] == norm(Red, pixels[i].red)
      && Planar(pixels, norm)[i + |pixels|] == norm(Green, pixels[i].green)
      && Planar(pixels, norm)[i + 2 * |pixels|] == norm(Blue, pixels[i].blue)
  {
    forall i | 0 <= i < |pixels|
      ensures Planar(pixels, norm)[i] == norm(Red, pixels[i].red)
      ensures Planar(pixels, norm)[i + |pixels|] == norm(Green, pixels[i].green)
      ensures Planar(pixels, norm)[i + 2 * |pixels|] == norm(Blue, pixels[i].blue)
    {
      PlanarSlot(pixels, norm, i);
    }
  }

  /** The three slots of one pixel. */
  lemma PlanarSlot(pixels: seq<Pixel>, norm: (Channel, int) -> real, i: int)
    requires 0 <= i < |pixels|
    ensures |Planar(pixels, norm)| == 3 * |pixels|
    ensures Planar(pixels, norm)[i] == norm(Red, pixels[i].red)
    ensures Planar(pixels, norm)[i + |pixels|] == norm(Green, pixels[i].green)
    ensures Planar(pixels, norm)[i + 2 * |pixels|] == norm(Blue, pixels[i].blue)
  {
    var red, green, blue := ChannelBlock(pixels, Red, norm), ChannelBlock(pixels, Green, norm), ChannelBlock(pixels, Blue, norm);
    assert Planar(pixels, norm) == red + green + blue;
    assert red[i] == norm(Red, pixels[i].Component(Red));
    assert green[i] == norm(Green, pixels[i].Component(Green));
    assert blue[i] == norm(Blue, pixels[i].Component(Blue));
  }


  /** The pixels the tensor is built from: the centre crop of the scaled bitmap. */
  function Window(bitmap: Bitmap, width: int, height: int, resample: (Bitmap, int, int) -> Bitmap): (r: seq<Pixel>)
    requires bitmap.Valid() && InRange(bitmap.width) && InRange(bitmap.height)
    requires InRange(width) && InRange(height) && 0 < width && 0 < height
    requires NoScaleOverflow(bitmap.width, bitmap.height, width, height)
    requires ResizesExactly(resample)
    ensures |r| == width * height
  {
    var s := ScaledSize(bitmap.width, bitmap.height, width, height);
    CropWindowInside(bitmap.width, bitmap.height, width, height);
    var c := CropOffsets(s.0, s.1, width, height);
    Crop(resample(bitmap, s.0, s.1), c.0, c.1, width, height)
  }

  /** The loop of `Util.java` lines 103-110: every pixel's red, green and blue values are
      written at its own index in the red, green and blue block. The ghost
      result `stores` counts how often each slot of the buffer was written. */
  method FillPlanar(pixels: seq<Pixel>, norm: (Channel, int) -> real)
    returns (image: array<real>, ghost stores: seq<int>)
    ensures fresh(image)
    ensures image[..] == Planar(pixels, norm)
    ensures |stores| == image.Length && forall j :: 0 <= j < |stores| ==> stores[j] == 1
  {
    ghost var planar := Planar(pixels, norm);
    PlanarSlots(pixels, norm);
    image := new real[|pixels| * 3];
    var greenShift := |pixels|;
    var blueShift := 2 * greenShift;
    stores := seq(|pixels| * 3, j => 0);
    var i := 0;
    while i < |pixels|
      invariant 0 <= i <= greenShift && blueShift == 2 * greenShift
      invariant |stores| == image.Length == |planar| == 3 * greenShift
      invariant forall j :: 0 <= j < |stores| ==> stores[j] == StoresBefore(greenShift, i, j)
      invariant forall j :: 0 <= j < image.Length && StoresBefore(greenShift, i, j) == 1 ==> image[j] == planar[j]
    {
      stores := WritePixel(image, pixels, norm, i, greenShift, blueShift, stores);
      StoresStep(greenShift, i);
      i := i + 1;
    }
    assert forall j :: 0 <= j < image.Length ==> image[j] == planar[j] by {
      forall j | 0 <= j < image.Length ensures image[j] == planar[j] {
        assert StoresBefore(greenShift, i, j) == 1;
      }
    }
  }

  /** The body of the loop of `Util.java` lines 106-110: pixel `i`'s three channel values
      go to its slot in each block, and each of those slots gets one more write
      in the ghost count `stores`. */
  method WritePixel(image: array<real>, pixels: seq<Pixel>, norm: (Channel, int) -> real,
                    i: int, greenShift: int, blueShift: int, ghost stores: seq<int>)
    returns (ghost stores': seq<int>)
    requires 0 <= i < |pixels| == greenShift && blueShift == 2 * greenShift
    requires image.Length == |stores| == 3 * greenShift
    modifies image
    ensures forall j :: 0 <= j < image.Length ==>
      image[j] == (if j == i then norm(Red, pixels[i].red)
                   else if j == i + greenShift then norm(Green, pixels[i].green)
                   else if j == i + blueShift then norm(Blue, pixels[i].blue)
                   else old(image[j]))
    ensures stores' == stores[i := stores[i] + 1][i + greenShift := stores[i + greenShift] + 1][i + blueShift := stores[i + blueShift] + 1]
  {
    stores' := stores;
    image[i] := norm(Red, pixels[i].red);
    stores' := stores'[i := stores'[i] + 1];
    image[i + greenShift] := norm(Green, pixels[i].green);
    stores' := stores'[i + greenShift := stores'[i + greenShift] + 1];
    image[i + blueShift] := norm(Blue, pixels[i].blue);
    stores' := stores'[i + blueShift := stores'[i + blueShift] + 1];
  }

  /** How often slot `j` of a planar buffer for `n` pixels has been written once
      the first `i` pixels are done: once if its pixel is among them. */
  function StoresBefore(n: int, i: int, j: int): int {
    var pixel := if j < n then j else if j < 2 * n then j - n else j - 2 * n;
    if pixel < i then 1 else 0
  }

  /** Doing pixel `i` adds one write to its three slots and to no other. */
  lemma StoresStep(n: int, i: int)
    requires 0 <= i < n
    ensures forall j :: 0 <= j < 3 * n ==>
      StoresBefore(n, i + 1, j) == if j == i || j == i + n || j == i + 2 * n then 1 else StoresBefore(n, i, j)
  {
    forall j | 0 <= j < 3 * n
      ensures StoresBefore(n, i + 1, j) == if j == i || j == i + n || j == i + 2 * n then 1 else StoresBefore(n, i, j)
    {
      var p := if j < n then j else if j < 2 * n then j - n else j - 2 * n;
      assert StoresBefore(n, i, j) == if p < i then 1 else 0;
      assert StoresBefore(n, i + 1, j) == if p < i + 1 then 1 else 0;
      assert p == i <==> (j == i || j == i + n || j == i + 2 * n);
    }
  }

  /** The tensor `bitmapToTensor` returns: shape (3, width, height) whatever the
      source's aspect ratio, holding the planar layout of the crop window. */
  function Preprocessed(bitmap: Bitmap, width: int, height: int,
                        resample: (Bitmap, int, int) -> Bitmap, norm: (Channel, int) -> real): (t: Tensor)
    requires bitmap.Valid() && InRange(bitmap.width) && InRange(bitmap.height)
    requires 0 < width && 0 < height && InRange(width) && InRange(height)
    requires NoScaleOverflow(bitmap.width, bitmap.height, width, height)
    requires ResizesExactly(resample)
    ensures t.Valid() && t.channels == 3 && t.width == width && t.height == height
  {
    var pixels := Window(bitmap, width, height, resample);
    PlanarSlots(pixels, norm);
    Tensor(Planar(pixels, norm), 3, width, height)
  }

  /** End to end: the value at (channel, row, col) of the tensor is the
      normalised channel value of the scaled bitmap's pixel at the crop offset
      plus (col, row). */
  lemma PreprocessedPixel(bitmap: Bitmap, width: int, height: int,
                          resample: (Bitmap, int, int) -> Bitmap, norm: (Channel, int) -> real,
                          row: int, col: int)
    requires bitmap.Valid() && InRange(bitmap.width) && InRange(bitmap.height)
    requires 0 < width && 0 < height && InRange(width) && InRange(height)
    requires NoScaleOverflow(bitmap.width, bitmap.height, width, height)
    requires ResizesExactly(resample)
    requires 0 <= row < height && 0 <= col < width
    ensures var s := ScaledSize(bitmap.width, bitmap.height, width, height);
      var c := CropOffsets(s.0, s.1, width, height);
      var scaled := resample(bitmap, s.0, s.1);
      var data := Preprocessed(bitmap, width, height, resample, norm).data;
      var p, n := RowMajor(row, col, width, height), width * height;
      && 0 <= c.0 + col < scaled.width && 0 <= c.1 + row < scaled.height && scaled.Valid()
      && data[p] == norm(Red, scaled.At(c.0 + col, c.1 + row).red)
      && data[p + n] == norm(Green, scaled.At(c.0 + col, c.1 + row).green)
      && data[p + 2 * n] == norm(Blue, scaled.At(c.0 + col, c.1 + row).blue)
  {
    var s := ScaledSize(bitmap.width, bitmap.height, width, height);
    CropWindowInside(bitmap.width, bitmap.height, width, height);
    var pixels := Window(bitmap, width, height, resample);
    PlanarSlots(pixels, norm);
  }

  /** `Util.bitmapToTensor(bitmap, width, height)`. The per-channel
      normalisation `(c / 255 - mean) / std` is floating-point arithmetic and is
      taken as the parameter `norm`; `Bitmap.createScaledBitmap` is the
      parameter `resample`. `width * height * 3` must fit in an `int`, the size
      of the buffer. */
  method BitmapToTensor(bitmap: Bitmap, width: int, height: int,
                        resample: (Bitmap, int, int) -> Bitmap, norm: (Channel, int) -> real)
    returns (t: Tensor)
    requires bitmap.Valid() && InRange(bitmap.width) && InRange(bitmap.height)
    requires 0 < width && 0 < height && InRange(width) && InRange(height) && InRange(3 * (width * height))
    requires NoScaleOverflow(bitmap.width, bitmap.height, width, height)
    requires ResizesExactly(resample)
    ensures t == Preprocessed(bitmap, width, height, resample, norm)
  {
    var pixels := Window(bitmap, width, height, resample);
    var image, stores := FillPlanar(pixels, norm);
    t := Tensor(image[..], 3, width, height);
  }
}
