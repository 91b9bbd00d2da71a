/**
 * The fields of an X11 `XImage` that the two normalisers read. The server's
 * packed bytes are not modelled: `pixels[y][x]` is the `unsigned long` that
 * `XGetPixel(ximg, x, y)` returns.
 */
module XImages {
  import opened Bits
  import Images

  datatype ByteOrder = LSBFirst | MSBFirst

  datatype XImage = XImage(
    width: nat,
    height: nat,
    depth: int,
    bitsPerPixel: nat,
    byteOrder: ByteOrder,
    redMask: Word,
    greenMask: Word,
    blueMask: Word,
    pixels: seq<seq<Word>>)
  {
    /** One unpacked value per coordinate, and dimensions an `Image` can hold. */
    predicate WellFormed()
    {
      && |pixels| == height
      && (forall y :: 0 <= y < |pixels| ==> |pixels[y]| == width)
      && Images.Addressable(width, height)
    }

    /** `XGetPixel(ximg, x, y)` */
    function GetPixel(x: nat, y: nat): Word
      requires WellFormed() && x < width && y < height
    {
      pixels[y][x]
    }
  }
}
