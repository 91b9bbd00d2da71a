/**
 * The pixel-format normaliser of capture.cpp: `extract_channel` and
 * `Capture::ximage_to_image`, which turn a server image with arbitrary channel
 * masks into the canonical RGBA8 image.
 */
module Capture {
  import opened Bits
  import opened Images
  import opened XImages
  import opened Wrappers
  import Arith

  // ---------------------------------------------------------------------------
  // Channel extraction

  /**
   * `n / d` rounded to the nearest integer, halves upwards: `std::lround` of a
   * non-negative quotient. For the channel rescale with a shifted mask below
   * 2^32 the quotient is never within a `double` rounding error of a half, so
   * the source's arithmetic lands on the same value; wider masks can differ
   * by one.
   */
  function RoundHalfUp(n: nat, d: nat): (r: nat)
    requires d > 0
    ensures 2 * d * r <= 2 * n + d < 2 * d * (r + 1)
  {
    var r := (2 * n + d) / (2 * d);
    assert 2 * n + d == r * (2 * d) + (2 * n + d) % (2 * d);
    r
  }

  /**
   * `lround(min(255.0, value * 255.0 / max_val))`: the raw field value rescaled
   * from `0..max_val` to `0..255`. Within the field's range the clamp never
   * changes the result: it is the rounded quotient itself.
   */
  function Rescale(value: nat, maxVal: nat): (c: Byte)
    requires maxVal > 0
    ensures value <= maxVal ==> c == RoundHalfUp(255 * value, maxVal)
    ensures value == 0 ==> c == 0
    ensures value >= maxVal ==> c == 255
  {
    if value >= maxVal then
      assert value == maxVal ==> RoundHalfUp(255 * value, maxVal) == 255 by {
        if value == maxVal {
          Arith.DivModUnique(2 * (255 * value) + maxVal, 2 * maxVal, 255, maxVal);
        }
      }
      255
    else
      var q := RoundHalfUp(255 * value, maxVal);
      assert q < 256 by {
        if q >= 256 {
          Arith.MulMonotone(256, q, 2 * maxVal);
        }
      }
      assert value == 0 ==> q == 0 by {
        if value == 0 {
          Arith.DivModUnique(maxVal, 2 * maxVal, 0, maxVal);
        }
      }
      q
  }

  /** `shift`: the position of the mask's lowest set bit. */
  function MaskShift(mask: Word): (s: nat)
    requires mask != 0
    ensures s < WordBits
  {
    LowestSetBitInWord(mask);
    LowestSetBit(mask)
  }

  /** `mask >> shift`: the largest raw value of the channel's field. */
  function FieldMax(mask: Word): (m: nat)
    requires mask != 0
    ensures m > 0 && m % 2 == 1
  {
    Shr(mask, MaskShift(mask))
  }

  /** `(pixel & mask) >> shift`: the raw value of the channel's field. */
  function FieldValue(pixel: Word, mask: Word): (v: nat)
    requires mask != 0
    ensures v <= FieldMax(mask)
  {
    AndBelowRight(pixel, mask);
    ShrMonotone(And(pixel, mask), mask, MaskShift(mask));
    Shr(And(pixel, mask), MaskShift(mask))
  }

  /**
   * `extract_channel(pixel, mask)`: 0 for an absent channel; otherwise the
   * field value rescaled so that an all-zero field is 0 and an all-one field 255.
   */
  function ExtractChannel(pixel: Word, mask: Word): (c: Byte)
    ensures mask == 0 ==> c == 0
    ensures And(pixel, mask) == 0 ==> c == 0
    ensures mask != 0 && And(pixel, mask) == mask ==> c == 255
    ensures mask != 0 ==> c == RoundHalfUp(255 * FieldValue(pixel, mask), FieldMax(mask))
  {
    if mask == 0 then 0
    else
      ShrOfZero(MaskShift(mask));
      Rescale(FieldValue(pixel, mask), FieldMax(mask))
  }

  /** The channel value depends only on the pixel's bits under the mask. */
  lemma ExtractChannelMaskedOnly(pixel: Word, mask: Word)
    ensures And(pixel, mask) < WordModulus
    ensures ExtractChannel(pixel, mask) == ExtractChannel(And(pixel, mask), mask)
  {
    AndBelowLeft(pixel, mask);
    AndIdempotent(pixel, mask);
  }

  /**
   * `extract_channel` as the source computes it: a loop for the shift, a
   * population count whose zero case cannot arise, and the rescale.
   */
  method ExtractChannelScan(pixel: Word, mask: Word) returns (c: Byte)
    ensures c == ExtractChannel(pixel, mask)
  {
    if mask == 0 {
      return 0;
    }
    var shift := ShiftLoop(mask);
    var shiftedMask := Shr(mask, shift);
    var bits := BitCountLoop(shiftedMask);
    // The source returns 0 when `bits == 0`; a non-zero mask always has a set bit.
    assert bits > 0;
    var value := Shr(And(pixel, mask), shift);
    c := Rescale(value, shiftedMask);
  }

  /** The first loop of `extract_channel`: counts the mask's trailing zero bits. */
  method ShiftLoop(mask: Word) returns (shift: nat)
    requires mask != 0
    ensures shift == MaskShift(mask)
  {
    LowestSetBitInWord(mask);
    shift := 0;
    while Bit(mask, shift) == 0 && shift < WordBits
      invariant shift <= LowestSetBit(mask)
      decreases WordBits - shift
    {
      shift := shift + 1;
    }
  }

  /** The second loop of `extract_channel`: counts the set bits of the shifted mask. */
  method BitCountLoop(shiftedMask: nat) returns (bits: nat)
    ensures bits == PopCount(shiftedMask)
  {
    bits := 0;
    var tmp := shiftedMask;
    while tmp != 0
      invariant bits + PopCount(tmp) == PopCount(shiftedMask)
      decreases tmp
    {
      bits := bits + tmp % 2;
      tmp := tmp / 2;
    }
  }

  // ---------------------------------------------------------------------------
  // Alpha mask

  /** `(1UL << bpp) - 1`, or all 64 bits when `bpp` reaches the word size. */
  function PixelMask(bpp: nat): (m: Word)
    ensures forall i: nat :: Bit(m, i) == (if i < bpp && i < WordBits then 1 else 0)
  {
    WordModulusIsPow2();
    if bpp >= WordBits then
      LowOnesBitAll(WordModulus - 1, WordBits);
      WordModulus - 1
    else
      ShlOneIsPow2(bpp);
      Pow2Monotone(bpp, WordBits);
      LowOnesBitAll(Shl(1, bpp) - 1, bpp);
      Shl(1, bpp) - 1
  }

  /**
   * The alpha mask of `ximage_to_image`: none unless the drawable depth exceeds
   * 24; otherwise exactly the bits below `bits_per_pixel` (all 64 when it reaches
   * the word size) that belong to none of the three colour masks.
   */
  function AlphaMask(depth: int, bpp: nat, redMask: Word, greenMask: Word, blueMask: Word): (alpha: Word)
    ensures depth <= 24 ==> alpha == 0
    ensures forall i: nat :: Bit(alpha, i) == 1 <==>
              depth > 24 && i < bpp && i < WordBits
              && Bit(redMask, i) == 0 && Bit(greenMask, i) == 0 && Bit(blueMask, i) == 0
  {
    if depth > 24 then
      var rgb := Or(Or(redMask, greenMask), blueMask);
      var pixelMask := PixelMask(bpp);
      AndNotBelow(pixelMask, rgb);
      var alpha: Word := AndNot(pixelMask, rgb);
      AlphaMaskBits(pixelMask, redMask, greenMask, blueMask);
      alpha
    else
      BitsOfZero();
      0
  }

  lemma AlphaMaskBits(pixelMask: nat, redMask: nat, greenMask: nat, blueMask: nat)
    ensures forall i: nat :: Bit(AndNot(pixelMask, Or(Or(redMask, greenMask), blueMask)), i)
              == (if Bit(pixelMask, i) == 1 && Bit(redMask, i) == 0 && Bit(greenMask, i) == 0 && Bit(blueMask, i) == 0 then 1 else 0)
  {
    forall i: nat
      ensures Bit(AndNot(pixelMask, Or(Or(redMask, greenMask), blueMask)), i)
              == (if Bit(pixelMask, i) == 1 && Bit(redMask, i) == 0 && Bit(greenMask, i) == 0 && Bit(blueMask, i) == 0 then 1 else 0)
    {
      AndNotBit(pixelMask, Or(Or(redMask, greenMask), blueMask), i);
      OrBit(Or(redMask, greenMask), blueMask, i);
      OrBit(redMask, greenMask, i);
    }
  }

  lemma LowOnesBitAll(m: nat, n: nat)
    requires m + 1 == Pow2(n)
    ensures forall i: nat :: Bit(m, i) == (if i < n then 1 else 0)
  {
    forall i: nat
      ensures Bit(m, i) == (if i < n then 1 else 0)
    {
      LowOnesBit(n, i);
    }
  }

  lemma {:induction false} ShlOneIsPow2(n: nat)
    ensures Shl(1, n) == Pow2(n)
  {
    if n > 0 {
      ShlOneIsPow2(n - 1);
    }
  }

  // ---------------------------------------------------------------------------
  // The image conversion

  /**
   * Output alpha: 255 when there is no alpha mask; otherwise the extracted
   * alpha, with 0 read as opaque.
   */
  function OutputAlpha(pixel: Word, alphaMask: Word): (a: Byte)
    ensures a != 0
    ensures alphaMask == 0 ==> a == 255
    ensures alphaMask != 0 && ExtractChannel(pixel, alphaMask) != 0 ==> a == ExtractChannel(pixel, alphaMask)
    ensures alphaMask != 0 && ExtractChannel(pixel, alphaMask) == 0 ==> a == 255
  {
    var a := if alphaMask != 0 then ExtractChannel(pixel, alphaMask) else 255;
    if alphaMask != 0 && a == 0 then 255 else a
  }

  /** The canonical pixel for one unpacked server pixel. */
  function NormalizePixel(pixel: Word, ximg: XImage, alphaMask: Word): Pixel
  {
    Pixel(
      ExtractChannel(pixel, ximg.redMask),
      ExtractChannel(pixel, ximg.greenMask),
      ExtractChannel(pixel, ximg.blueMask),
      OutputAlpha(pixel, alphaMask))
  }

  /** The alpha mask `ximage_to_image` derives from the image's format. */
  function ImageAlphaMask(ximg: XImage): Word
  {
    AlphaMask(ximg.depth, ximg.bitsPerPixel, ximg.redMask, ximg.greenMask, ximg.blueMask)
  }

  /**
   * `Capture::ximage_to_image`: a null image gives the default 0x0 image;
   * otherwise the result has the same size and each pixel is the
   * normalisation of the server pixel at the same coordinates.
   */
  function XImageToImage(ximg: Option<XImage>): (img: Image)
    requires ximg.Some? ==> ximg.value.WellFormed()
    ensures ximg.None? ==> img.width == 0 && img.height == 0 && Empty(img)
    ensures ximg.Some? ==> img.width == ximg.value.width && img.height == ximg.value.height
    ensures ximg.Some? ==> forall x: nat, y: nat :: x < img.width && y < img.height ==>
              PixelAt(img, x, y) == NormalizePixel(ximg.value.GetPixel(x, y), ximg.value, ImageAlphaMask(ximg.value))
  {
    match ximg
    case None => DefaultImage()
    case Some(xi) =>
      var alphaMask := ImageAlphaMask(xi);
      Tabulate(xi.width, xi.height,
        (x: nat, y: nat) => if x < xi.width && y < xi.height then NormalizePixel(xi.GetPixel(x, y), xi, alphaMask)
                            else Pixel(0, 0, 0, 0))
  }

  /** No converted pixel is transparent, and without an alpha channel every pixel is opaque. */
  lemma XImageToImageAlpha(ximg: XImage, x: nat, y: nat)
    requires ximg.WellFormed() && x < ximg.width && y < ximg.height
    ensures PixelAt(XImageToImage(Some(ximg)), x, y).a != 0
    ensures ImageAlphaMask(ximg) == 0 ==> PixelAt(XImageToImage(Some(ximg)), x, y).a == 255
    ensures ximg.depth <= 24 ==> PixelAt(XImageToImage(Some(ximg)), x, y).a == 255
  {
  }

  // ---------------------------------------------------------------------------
  // Concrete formats

  /** The pure-red xRGB pixel against each standard 32-bit mask. */
  lemma XrgbRedFields()
    ensures And(0xFF0000, 0xFF0000) == 0xFF0000
    ensures And(0xFF0000, 0xFF00) == 0 && And(0xFF0000, 0xFF) == 0
    ensures And(0xFF0000, 0xFF00_0000) == 0
  {
    AndSelf(0xFF0000);
    Pow2Values();
    DisjointFields(0xFF0000, 0xFF00, 16);
    DisjointFields(0xFF0000, 0xFF, 16);
    DisjointFields(0xFF00_0000, 0xFF0000, 24);
  }

  /** The pure-red RGB565 pixel against each 565 mask. */
  lemma Rgb565RedFields()
    ensures And(0xF800, 0xF800) == 0xF800
    ensures And(0xF800, 0x07E0) == 0 && And(0xF800, 0x001F) == 0
  {
    AndSelf(0xF800);
    Pow2Values();
    DisjointFields(0xF800, 0x07E0, 11);
    DisjointFields(0xF800, 0x001F, 11);
  }

  /**
   * A one-pixel image whose pixel fills the red field, misses the green and
   * blue fields and carries no alpha bits converts to opaque pure red.
   */
  lemma NormalizeSingleRed(xi: XImage, p: Word)
    requires xi.WellFormed() && xi.width == 1 && xi.height == 1 && xi.pixels == [[p]]
    requires xi.redMask != 0 && And(p, xi.redMask) == xi.redMask
    requires And(p, xi.greenMask) == 0 && And(p, xi.blueMask) == 0
    requires And(p, ImageAlphaMask(xi)) == 0
    ensures XImageToImage(Some(xi)).pixels == [Pixel(255, 0, 0, 255)]
  {
    var img := XImageToImage(Some(xi));
    assert xi.GetPixel(0, 0) == p;
    assert PixelAt(img, 0, 0) == Pixel(255, 0, 0, 255);
    assert |img.pixels| == 1;
  }

  /** Depth-24 xRGB: pixel `0x00FF0000` is opaque pure red. */
  lemma NormalizeXrgbRed()
    ensures XImageToImage(Some(XImage(1, 1, 24, 32, LSBFirst, 0xFF0000, 0xFF00, 0xFF, [[0xFF0000]]))).pixels
            == [Pixel(255, 0, 0, 255)]
  {
    XrgbRedFields();
    BitOfZero(0);
    NormalizeSingleRed(XImage(1, 1, 24, 32, LSBFirst, 0xFF0000, 0xFF00, 0xFF, [[0xFF0000]]), 0xFF0000);
  }

  /** 16-bit RGB565: pixel `0xF800` is opaque pure red. */
  lemma NormalizeRgb565Red()
    ensures XImageToImage(Some(XImage(1, 1, 16, 16, LSBFirst, 0xF800, 0x07E0, 0x001F, [[0xF800]]))).pixels
            == [Pixel(255, 0, 0, 255)]
  {
    Rgb565RedFields();
    NormalizeSingleRed(XImage(1, 1, 16, 16, LSBFirst, 0xF800, 0x07E0, 0x001F, [[0xF800]]), 0xF800);
  }

  lemma ArgbMaskFields()
    ensures Or(Or(0xFF0000, 0xFF00), 0xFF) == 0xFF_FFFF
    ensures Shl(1, 32) - 1 == 0xFFFF_FFFF
    ensures AndNot(0xFFFF_FFFF, 0xFF_FFFF) == 0xFF00_0000
  {
    Pow2Values();
    DisjointFields(0xFF0000, 0xFF00, 16);
    DisjointFields(0xFF_FF00, 0xFF, 8);
    ShlOneIsPow2(32);
    AndNotLowOnes(0xFFFF_FFFF, 24);
  }

  /** Depth-32 ARGB with the standard colour masks: the alpha mask is the top byte. */
  lemma ArgbAlphaMask()
    ensures AlphaMask(32, 32, 0xFF0000, 0xFF00, 0xFF) == 0xFF00_0000
  {
    ArgbMaskFields();
  }

  /** Depth-32 ARGB: a zero alpha byte reads as opaque. */
  lemma NormalizeArgbZeroAlpha()
    ensures XImageToImage(Some(XImage(1, 1, 32, 32, LSBFirst, 0xFF0000, 0xFF00, 0xFF, [[0xFF0000]]))).pixels
            == [Pixel(255, 0, 0, 255)]
  {
    ArgbAlphaMask();
    XrgbRedFields();
    NormalizeSingleRed(XImage(1, 1, 32, 32, LSBFirst, 0xFF0000, 0xFF00, 0xFF, [[0xFF0000]]), 0xFF0000);
  }
}
