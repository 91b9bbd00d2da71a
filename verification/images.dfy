/**
 * The canonical RGBA8 image: `Pixel` and `Image` of image.hpp, with the pixel
 * accessors, fill and the two raw-layout converters of image.cpp. An image is a
 * value; the member functions that mutate in the source return the new value.
 * Throwing `std::out_of_range` is the `Err(OutOfRange)` outcome.
 */
module Images {
  import Arith

  /** `uint8_t` */
  type Byte = b: int | 0 <= b < 256

  /** One more than the largest `uint32_t`. */
  const U32Modulus: nat := 0x1_0000_0000

  datatype Pixel = Pixel(r: Byte, g: Byte, b: Byte, a: Byte)

  /**
   * `OutOfRange` is the `std::out_of_range` of the bounds check; `OutsideBuffer`
   * is a read past the end of the byte buffer, undefined behaviour in the source.
   */
  datatype Fault = OutOfRange | OutsideBuffer

  datatype Result<T> = Ok(value: T) | Err(fault: Fault)

  /**
   * Dimensions whose byte count and pixel offsets fit the `uint32_t`
   * arithmetic in which image.cpp computes them.
   */
  predicate Addressable(w: nat, h: nat)
  {
    w < U32Modulus && h < U32Modulus && w * h * 4 < U32Modulus
  }

  /** Row-major pixels: the pixel at column `x`, row `y` is `pixels[y * width + x]`. */
  datatype Raster = Raster(width: nat, height: nat, pixels: seq<Pixel>)
  {
    predicate Valid()
    {
      Addressable(width, height) && |pixels| == width * height
    }
  }

  type Image = img: Raster | img.Valid() witness Raster(0, 0, [])

  // ---------------------------------------------------------------------------
  // Pixel

  /** `Pixel::operator==`: channel by channel. */
  function SamePixel(p: Pixel, q: Pixel): (eq: bool)
    ensures eq <==> p == q
  {
    p.r == q.r && p.g == q.g && p.b == q.b && p.a == q.a
  }

  /** `Pixel::operator!=`: the negation of `==`. */
  function DifferentPixel(p: Pixel, q: Pixel): (ne: bool)
    ensures ne <==> p != q
  {
    !SamePixel(p, q)
  }

  /** Channel `k` of a pixel in memory order r, g, b, a. */
  function Channel(p: Pixel, k: nat): Byte
    requires k < 4
  {
    if k == 0 then p.r else if k == 1 then p.g else if k == 2 then p.b else p.a
  }

  // ---------------------------------------------------------------------------
  // Construction, copy and move

  /** `Image()`: the default-constructed image. */
  function DefaultImage(): (img: Image)
    ensures img.width == 0 && img.height == 0
    ensures Empty(img) && Size(img) == 0
  {
    Raster(0, 0, [])
  }

  /** `Image(w, h)`: a zero-filled buffer of `w*h*4` bytes. */
  function NewImage(w: nat, h: nat): (img: Image)
    requires Addressable(w, h)
    ensures img.width == w && img.height == h
    ensures Size(img) == w * h * 4
    ensures forall i :: 0 <= i < |Bytes(img)| ==> Bytes(img)[i] == 0
    ensures forall x: nat, y: nat :: x < w && y < h ==> GetPixel(img, x, y) == Ok(Pixel(0, 0, 0, 0))
  {
    Tabulate(w, h, (x, y) => Pixel(0, 0, 0, 0))
  }

  /**
   * The byte count `width * height * 4` as the constructor evaluates it: in
   * `uint32_t`, so it wraps for large images. `NewImage` is the constructor
   * for the dimensions where it does not.
   */
  function ConstructedByteCount(w: nat, h: nat): (n: nat)
    requires w < U32Modulus && h < U32Modulus
    ensures n < U32Modulus
    ensures Addressable(w, h) ==> n == w * h * 4
  {
    (w * h * 4) % U32Modulus
  }

  /**
   * A 32768x32768 image is constructed with an empty buffer, although its
   * dimensions make every coordinate below 32768 pass the bounds check of
   * `get_pixel` and `set_pixel`.
   */
  lemma ConstructedByteCountWraps()
    ensures ConstructedByteCount(0x8000, 0x8000) == 0
    ensures !Addressable(0x8000, 0x8000)
  {
  }

  /**
   * What `Image(w, h)` leaves behind for any `uint32_t` dimensions: the
   * dimensions and a byte buffer whose length need not match them.
   */
  datatype Buffer = Buffer(width: nat, height: nat, data: seq<Byte>)

  /** The byte offset `(y * width + x) * 4` as `get_pixel` evaluates it: in `uint32_t`. */
  function WrappedOffset(w: nat, x: nat, y: nat): (o: nat)
    ensures o < U32Modulus && o <= (y * w + x) * 4
    ensures (y * w + x) * 4 < U32Modulus ==> o == (y * w + x) * 4
  {
    ((y * w + x) * 4) % U32Modulus
  }

  /**
   * `get_pixel(x, y)` on such a buffer: out of range outside the dimensions,
   * and outside the buffer when the four bytes at the wrapped offset run past
   * its end.
   */
  function ReadBuffer(buf: Buffer, x: nat, y: nat): (r: Result<Pixel>)
    ensures r == Err(OutOfRange) <==> x >= buf.width || y >= buf.height
    ensures r == Err(OutsideBuffer) <==>
              x < buf.width && y < buf.height && WrappedOffset(buf.width, x, y) + 4 > |buf.data|
  {
    if x >= buf.width || y >= buf.height then Err(OutOfRange)
    else
      var o := WrappedOffset(buf.width, x, y);
      if o + 4 > |buf.data| then Err(OutsideBuffer)
      else Ok(Pixel(buf.data[o], buf.data[o + 1], buf.data[o + 2], buf.data[o + 3]))
  }

  /** `Image(w, h)` as written: a zero-filled buffer of the wrapped byte count. */
  function ConstructAsWritten(w: nat, h: nat): (buf: Buffer)
    requires w < U32Modulus && h < U32Modulus
    ensures buf.width == w && buf.height == h
    ensures |buf.data| == ConstructedByteCount(w, h)
    ensures forall i :: 0 <= i < |buf.data| ==> buf.data[i] == 0
  {
    Buffer(w, h, seq(ConstructedByteCount(w, h), _ => 0))
  }

  /**
   * `Image(w, h)` as evidently intended: the byte count is computed without
   * wrapping, so every coordinate inside the dimensions reads transparent
   * black, and on the dimensions where nothing wraps the buffer is the one
   * `NewImage` holds.
   */
  function Construct(w: nat, h: nat): (buf: Buffer)
    requires w < U32Modulus && h < U32Modulus
    ensures buf.width == w && buf.height == h
    ensures |buf.data| == w * h * 4
    ensures forall x: nat, y: nat :: x < w && y < h ==> ReadBuffer(buf, x, y) == Ok(Pixel(0, 0, 0, 0))
    ensures Addressable(w, h) ==> buf.data == Bytes(NewImage(w, h))
  {
    var buf := Buffer(w, h, seq(w * h * 4, _ => 0));
    forall x: nat, y: nat | x < w && y < h
      ensures ReadBuffer(buf, x, y) == Ok(Pixel(0, 0, 0, 0))
    {
      ZeroBufferReads(buf, x, y);
    }
    assert Addressable(w, h) ==> buf.data == Bytes(NewImage(w, h)) by {
      if Addressable(w, h) {
        ZeroBytesAgree(buf.data, Bytes(NewImage(w, h)));
      }
    }
    buf
  }

  /** An in-range read of a zero-filled buffer of `width*height*4` bytes gives transparent black. */
  lemma ZeroBufferReads(buf: Buffer, x: nat, y: nat)
    requires |buf.data| == buf.width * buf.height * 4
    requires forall i :: 0 <= i < |buf.data| ==> buf.data[i] == 0
    requires x < buf.width && y < buf.height
    ensures ReadBuffer(buf, x, y) == Ok(Pixel(0, 0, 0, 0))
  {
    Arith.IndexInGrid(x, y, buf.width, buf.height);
  }

  lemma ZeroBytesAgree(a: seq<Byte>, b: seq<Byte>)
    requires |a| == |b|
    requires forall i :: 0 <= i < |a| ==> a[i] == 0
    requires forall i :: 0 <= i < |b| ==> b[i] == 0
    ensures a == b
  {
  }

  /**
   * On a 32768x32768 image the bounds check admits `(0, 0)`, but the
   * as-written buffer is empty, so the read runs past its end; the intended
   * constructor reads transparent black there.
   */
  lemma ConstructAsWrittenReadsOutside()
    ensures ReadBuffer(ConstructAsWritten(0x8000, 0x8000), 0, 0) == Err(OutsideBuffer)
    ensures ReadBuffer(Construct(0x8000, 0x8000), 0, 0) == Ok(Pixel(0, 0, 0, 0))
  {
    ConstructedByteCountWraps();
  }

  /**
   * The offset wraps along with the byte count: on a 32769x32768 image the
   * as-written buffer has 131072 bytes, and `(1, 32767)`, whose offset is
   * 2^32, reads the first pixel of it instead of running past its end.
   */
  lemma WrappedOffsetReadsStart()
    ensures |ConstructAsWritten(0x8001, 0x8000).data| == 0x2_0000
    ensures WrappedOffset(0x8001, 1, 0x7FFF) == 0
    ensures ReadBuffer(ConstructAsWritten(0x8001, 0x8000), 1, 0x7FFF) == Ok(Pixel(0, 0, 0, 0))
  {
    assert (0x7FFF * 0x8001 + 1) * 4 == U32Modulus;
  }

  /**
   * The move constructor and move assignment: the destination takes the
   * source's dimensions and buffer, and the source is left 0x0 with an empty buffer.
   */
  function Move(src: Image): (r: (Image, Image))
    ensures r.0.width == src.width && r.0.height == src.height && Bytes(r.0) == Bytes(src)
    ensures r.1.width == 0 && r.1.height == 0 && Empty(r.1)
  {
    (src, DefaultImage())
  }

  // ---------------------------------------------------------------------------
  // Accessors

  /** The `data_` buffer: four bytes per pixel, row-major, in r, g, b, a order. */
  function Bytes(img: Image): (bytes: seq<Byte>)
    ensures |bytes| == 4 * |img.pixels|
  {
    seq(4 * |img.pixels|, j requires 0 <= j < 4 * |img.pixels| => Channel(img.pixels[j / 4], j % 4))
  }

  /** `empty()` tests the buffer length, which is zero exactly when a dimension is. */
  function Empty(img: Image): (e: bool)
    ensures e <==> img.width == 0 || img.height == 0
  {
    |Bytes(img)| == 0
  }

  /** `size()`: the buffer length in bytes. */
  function Size(img: Image): (n: nat)
    ensures n == img.width * img.height * 4
  {
    |Bytes(img)|
  }

  /**
   * `stride()`: `width_ * 4`, evaluated in `uint32_t`. When the image has a row,
   * `height` rows of `stride` bytes make up the whole buffer.
   */
  function Stride(img: Image): (s: nat)
    ensures img.height > 0 ==> s == 4 * img.width && s * img.height == Size(img)
  {
    assert img.height > 0 ==> 4 * img.width < U32Modulus by {
      if img.height > 0 {
        Arith.MulMonotone(1, img.height, img.width * 4);
      }
    }
    (img.width * 4) % U32Modulus
  }

  predicate InBounds(img: Image, x: nat, y: nat)
  {
    x < img.width && y < img.height
  }

  /** The pixel at an in-range coordinate. */
  function PixelAt(img: Image, x: nat, y: nat): Pixel
    requires InBounds(img, x, y)
  {
    Arith.IndexInGrid(x, y, img.width, img.height);
    img.pixels[y * img.width + x]
  }

  /** `get_pixel(x, y)`: throws `out_of_range` outside the image. */
  function GetPixel(img: Image, x: nat, y: nat): (r: Result<Pixel>)
    ensures r.Ok? <==> InBounds(img, x, y)
    ensures r.Ok? ==> r.value == PixelAt(img, x, y)
  {
    if x >= img.width || y >= img.height then Err(OutOfRange) else Ok(PixelAt(img, x, y))
  }

  /** `get_pixel(x, y)` reads the four bytes at offset `(y * width + x) * 4`, in r, g, b, a order. */
  lemma GetPixelReadsOffset(img: Image, x: nat, y: nat)
    requires InBounds(img, x, y)
    ensures (y * img.width + x) * 4 + 3 < |Bytes(img)|
    ensures var o := (y * img.width + x) * 4;
            GetPixel(img, x, y)
            == Ok(Pixel(Bytes(img)[o], Bytes(img)[o + 1], Bytes(img)[o + 2], Bytes(img)[o + 3]))
  {
    var i := y * img.width + x;
    Arith.IndexInGrid(x, y, img.width, img.height);
    var bytes := Bytes(img);
    assert bytes[i * 4] == img.pixels[i].r;
    assert bytes[i * 4 + 1] == img.pixels[i].g;
    assert bytes[i * 4 + 2] == img.pixels[i].b;
    assert bytes[i * 4 + 3] == img.pixels[i].a;
  }

  /** The pixel with row-major index `i` is the one at column `i % width`, row `i / width`. */
  lemma PixelAtIndex(img: Image, i: nat)
    requires i < |img.pixels|
    ensures img.width > 0 && InBounds(img, Arith.Col(i, img.width), Arith.Row(i, img.width))
    ensures PixelAt(img, Arith.Col(i, img.width), Arith.Row(i, img.width)) == img.pixels[i]
  {
    Arith.IndexSplit(i, img.width, img.height);
  }

  // ---------------------------------------------------------------------------
  // Mutators, as functions returning the updated image

  /**
   * `set_pixel(x, y, p)`: throws `out_of_range` outside the image (leaving it
   * as it was); otherwise the pixel at `(x, y)` becomes `p` and nothing else changes.
   */
  function SetPixel(img: Image, x: nat, y: nat, p: Pixel): (r: Result<Image>)
    ensures r.Ok? <==> InBounds(img, x, y)
    ensures r.Ok? ==> r.value.width == img.width && r.value.height == img.height
    ensures r.Ok? ==> GetPixel(r.value, x, y) == Ok(p)
    ensures r.Ok? ==> forall x': nat, y': nat :: InBounds(img, x', y') && (x' != x || y' != y)
                        ==> GetPixel(r.value, x', y') == GetPixel(img, x', y')
  {
    if x >= img.width || y >= img.height then Err(OutOfRange)
    else
      Arith.IndexInGrid(x, y, img.width, img.height);
      var updated: Image := Raster(img.width, img.height, img.pixels[y * img.width + x := p]);
      UpdateKeepsOthers(img, updated, x, y);
      Ok(updated)
  }

  /** `set_pixel(x, y, r, g, b, a = 255)`: alpha defaults to opaque. */
  function SetRgba(img: Image, x: nat, y: nat, red: Byte, green: Byte, blue: Byte, alpha: Byte := 255)
    : (r: Result<Image>)
    ensures r.Ok? <==> InBounds(img, x, y)
    ensures r.Ok? ==> GetPixel(r.value, x, y) == Ok(Pixel(red, green, blue, alpha))
  {
    SetPixel(img, x, y, Pixel(red, green, blue, alpha))
  }

  lemma UpdateKeepsOthers(img: Image, updated: Image, x: nat, y: nat)
    requires InBounds(img, x, y)
    requires updated.width == img.width && updated.height == img.height
    requires forall i :: 0 <= i < |img.pixels| && i != y * img.width + x ==> updated.pixels[i] == img.pixels[i]
    ensures forall x': nat, y': nat :: InBounds(img, x', y') && (x' != x || y' != y)
              ==> PixelAt(updated, x', y') == PixelAt(img, x', y')
  {
    forall x': nat, y': nat | InBounds(img, x', y') && (x' != x || y' != y)
      ensures PixelAt(updated, x', y') == PixelAt(img, x', y')
    {
      OtherIndex(img, x, y, x', y');
    }
  }

  lemma OtherIndex(img: Image, x: nat, y: nat, x': nat, y': nat)
    requires InBounds(img, x, y) && InBounds(img, x', y') && (x' != x || y' != y)
    ensures y' * img.width + x' != y * img.width + x
    ensures y' * img.width + x' < |img.pixels|
  {
    Arith.IndexInGrid(x', y', img.width, img.height);
    if y' * img.width + x' == y * img.width + x {
      Arith.IndexInjective(x', y', x, y, img.width);
    }
  }

  /** `fill(p)`: every pixel becomes `p`; the dimensions are unchanged. */
  function Fill(img: Image, p: Pixel): (r: Image)
    ensures r.width == img.width && r.height == img.height
    ensures forall x: nat, y: nat :: InBounds(r, x, y) ==> GetPixel(r, x, y) == Ok(p)
  {
    Tabulate(img.width, img.height, (x, y) => p)
  }

  /** `fill(r, g, b, a = 255)`: alpha defaults to opaque. */
  function FillRgba(img: Image, red: Byte, green: Byte, blue: Byte, alpha: Byte := 255): (r: Image)
    ensures r.width == img.width && r.height == img.height
    ensures forall x: nat, y: nat :: InBounds(r, x, y) ==> GetPixel(r, x, y) == Ok(Pixel(red, green, blue, alpha))
  {
    Fill(img, Pixel(red, green, blue, alpha))
  }

  // ---------------------------------------------------------------------------
  // Raw-layout converters

  /**
   * `from_bgra(data, w, h)`: the four source bytes of pixel `i = y * w + x` are
   * b, g, r, a; the image gets them as r, g, b, a. The source reads
   * `w * h * 4` bytes through a raw pointer, which the caller must supply.
   */
  function FromBgra(src: seq<Byte>, w: nat, h: nat): (img: Image)
    requires Addressable(w, h) && |src| >= w * h * 4
    ensures img.width == w && img.height == h
    ensures forall i :: 0 <= i < w * h ==>
              img.pixels[i] == Pixel(src[4 * i + 2], src[4 * i + 1], src[4 * i], src[4 * i + 3])
  {
    Raster(w, h, seq(w * h, i requires 0 <= i < w * h => Pixel(src[4 * i + 2], src[4 * i + 1], src[4 * i], src[4 * i + 3])))
  }

  /**
   * `from_rgb(data, w, h)`: three source bytes per pixel, alpha always 255.
   * The caller must supply `w * h * 3` bytes.
   */
  function FromRgb(src: seq<Byte>, w: nat, h: nat): (img: Image)
    requires Addressable(w, h) && |src| >= w * h * 3
    ensures img.width == w && img.height == h
    ensures forall i :: 0 <= i < w * h ==> img.pixels[i] == Pixel(src[3 * i], src[3 * i + 1], src[3 * i + 2], 255)
  {
    Raster(w, h, seq(w * h, i requires 0 <= i < w * h => Pixel(src[3 * i], src[3 * i + 1], src[3 * i + 2], 255)))
  }

  /** Exchanging bytes 0 and 2 of every 4-byte group: BGRA <-> RGBA. */
  function SwapRedBlue(s: seq<Byte>): (t: seq<Byte>)
    requires |s| % 4 == 0
    ensures |t| == |s|
  {
    seq(|s|, j requires 0 <= j < |s| =>
      if j % 4 == 0 then s[j + 2] else if j % 4 == 2 then s[j - 2] else s[j])
  }

  /** The r, g, b bytes of every pixel, three per pixel: the layout `from_rgb` reads. */
  function RgbBytes(img: Image): (bytes: seq<Byte>)
    ensures |bytes| == 3 * |img.pixels|
  {
    seq(3 * |img.pixels|, j requires 0 <= j < 3 * |img.pixels| => Channel(img.pixels[j / 3], j % 3))
  }

  /** The buffer `from_bgra` builds is its input with red and blue exchanged in every pixel. */
  lemma FromBgraSwapsRedBlue(src: seq<Byte>, w: nat, h: nat)
    requires Addressable(w, h) && |src| >= w * h * 4
    ensures Bytes(FromBgra(src, w, h)) == SwapRedBlue(src[..w * h * 4])
  {
    var img := FromBgra(src, w, h);
    var n := w * h * 4;
    var lhs, rhs := Bytes(img), SwapRedBlue(src[..n]);
    forall j | 0 <= j < n
      ensures lhs[j] == rhs[j]
    {
      var i := j / 4;
      assert img.pixels[i] == Pixel(src[4 * i + 2], src[4 * i + 1], src[4 * i], src[4 * i + 3]);
    }
  }

  /** Exchanging red and blue twice restores the original byte order. */
  lemma SwapRedBlueInvolution(s: seq<Byte>)
    requires |s| % 4 == 0
    ensures SwapRedBlue(SwapRedBlue(s)) == s
  {
    var t := SwapRedBlue(SwapRedBlue(s));
    forall j | 0 <= j < |s|
      ensures t[j] == s[j]
    {
    }
  }

  /** `from_rgb` keeps every colour byte: reading the image back as RGB returns the input. */
  lemma FromRgbRoundTrip(src: seq<Byte>, w: nat, h: nat)
    requires Addressable(w, h) && |src| >= w * h * 3
    ensures RgbBytes(FromRgb(src, w, h)) == src[..w * h * 3]
    ensures forall x: nat, y: nat :: x < w && y < h ==> PixelAt(FromRgb(src, w, h), x, y).a == 255
  {
    var img := FromRgb(src, w, h);
    var n := w * h * 3;
    var lhs := RgbBytes(img);
    forall j | 0 <= j < n
      ensures lhs[j] == src[j]
    {
      var i := j / 3;
      assert img.pixels[i] == Pixel(src[3 * i], src[3 * i + 1], src[3 * i + 2], 255);
    }
    forall x: nat, y: nat | x < w && y < h
      ensures PixelAt(img, x, y).a == 255
    {
      Arith.IndexInGrid(x, y, w, h);
    }
  }

  // ---------------------------------------------------------------------------
  // Building an image pixel by pixel

  /**
   * The image of the given size whose pixel at `(x, y)` is `f(x, y)`: what the
   * source's nested `for y / for x / set_pixel` loops over a fresh `Image(w, h)` build.
   */
  function Tabulate(w: nat, h: nat, f: (nat, nat) -> Pixel): (img: Image)
    requires Addressable(w, h)
    ensures img.width == w && img.height == h
    ensures forall x: nat, y: nat :: x < w && y < h ==> PixelAt(img, x, y) == f(x, y)
  {
    var n := w * h;
    var px := seq(n, i requires 0 <= i < n => if w == 0 then f(0, 0) else f(Arith.Col(i, w), Arith.Row(i, w)));
    assert Raster(w, h, px).Valid();
    var img: Image := Raster(w, h, px);
    TabulateAt(img, f);
    img
  }

  lemma TabulateAt(img: Image, f: (nat, nat) -> Pixel)
    requires img.width > 0 ==> forall i :: 0 <= i < |img.pixels| ==> img.pixels[i] == f(Arith.Col(i, img.width), Arith.Row(i, img.width))
    ensures forall x: nat, y: nat :: InBounds(img, x, y) ==> PixelAt(img, x, y) == f(x, y)
  {
    forall x: nat, y: nat | InBounds(img, x, y)
      ensures PixelAt(img, x, y) == f(x, y)
    {
      Arith.IndexInGrid(x, y, img.width, img.height);
      Arith.IndexDecompose(x, y, img.width);
    }
  }
}
