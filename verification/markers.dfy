/**
 * The window-marker detector of the window tests: the table of marker colours,
 * the simple server-image converter those tests use, and the scan that looks
 * for a marker in a screen capture.
 *
 * A marker is a 16x16 square of one colour drawn inside a 2-pixel border. The
 * scan visits candidate top-left corners on even coordinates in row-major
 * order; at each it checks the centre pixel, then 16 sample pixels on a 4x4
 * grid, and reports the first corner where at least two thirds of the samples
 * are within 40 of the marker colour in each of red, green and blue.
 */
module WindowMarkers {
  import opened Images
  import opened XImages
  import opened Bits
  import opened Wrappers
  import Capture
  import Arith

  /** A marker colour and its name. */
  datatype Marker = Marker(r: Byte, g: Byte, b: Byte, name: string)

  /** `MARKERS`: window `i` is identified by entry `i % 8`. */
  const Markers: seq<Marker> := [
    Marker(255, 0, 0, "RED"),
    Marker(0, 255, 0, "GREEN"),
    Marker(0, 0, 255, "BLUE"),
    Marker(255, 255, 0, "YELLOW"),
    Marker(255, 0, 255, "MAGENTA"),
    Marker(0, 255, 255, "CYAN"),
    Marker(255, 128, 0, "ORANGE"),
    Marker(128, 0, 255, "PURPLE")
  ]

  const MarkerSize: nat := 16
  const MarkerBorder: nat := 2
  /** Per-channel tolerance of the detector. */
  const Tolerance: nat := 40
  /** Distance between sample pixels, in both directions. */
  const SampleStep: nat := 4
  /** Sample pixels per candidate: a 4x4 grid. */
  const Samples: nat := 16
  /** `samples * 2 / 3` in integer arithmetic. */
  const RequiredMatches: nat := Samples * 2 / 3

  /** `MARKERS[marker_id % 8]` for a non-negative id. */
  function MarkerFor(markerId: nat): (m: Marker)
    ensures m in Markers
    ensures markerId < 8 ==> m == Markers[markerId]
  {
    Markers[markerId % 8]
  }

  /** Window ids `i` and `i + 8k` get the same marker: the table repeats every eight windows. */
  lemma MarkerForPeriodic(markerId: nat, k: nat)
    ensures MarkerFor(markerId + 8 * k) == MarkerFor(markerId)
  {
    var q, r := markerId / 8, markerId % 8;
    assert markerId + 8 * k == (q + k) * 8 + r;
    Arith.DivModUnique(markerId + 8 * k, 8, q + k, r);
  }

  function Abs(v: int): nat
  {
    if v < 0 then -v else v
  }

  /** Red, green and blue each within the tolerance of the marker; alpha is ignored. */
  predicate Near(p: Pixel, m: Marker)
  {
    Abs(p.r - m.r) <= Tolerance && Abs(p.g - m.g) <= Tolerance && Abs(p.b - m.b) <= Tolerance
  }

  /** Any two markers differ by more than the tolerance in some channel: no colour is near two of them. */
  lemma MarkersDistinguishable(i: nat, j: nat, p: Pixel)
    requires i < 8 && j < 8 && i != j
    ensures !(Near(p, Markers[i]) && Near(p, Markers[j]))
  {
  }

  // ---------------------------------------------------------------------------
  // The test's own converter

  /**
   * The file-local `ximage_to_image` of the window tests: at 32 bits per pixel
   * red, green and blue are bytes 2, 1 and 0 of the pixel value, whichever the
   * byte order (both branches of the source compute the same); at any other
   * depth all three are the low byte. Alpha is always 255, and a null image
   * gives the default 0x0 image.
   */
  function SimplePixel(pixel: Word, xi: XImage): (p: Pixel)
    ensures p.a == 255
    ensures xi.bitsPerPixel == 32 ==>
              p.r == (pixel / 0x1_0000) % 256 && p.g == (pixel / 0x100) % 256 && p.b == pixel % 256
    ensures xi.bitsPerPixel != 32 ==> p.r == p.g == p.b == pixel % 256
  {
    LowByte(pixel);
    LowByte(Shr(pixel, 8));
    LowByte(Shr(pixel, 16));
    ShrValues(pixel);
    if xi.bitsPerPixel == 32 then
      if xi.byteOrder == LSBFirst then
        var b, g, r := And(Shr(pixel, 0), 0xFF), And(Shr(pixel, 8), 0xFF), And(Shr(pixel, 16), 0xFF);
        Pixel(r, g, b, 255)
      else
        var r, g, b := And(Shr(pixel, 16), 0xFF), And(Shr(pixel, 8), 0xFF), And(Shr(pixel, 0), 0xFF);
        Pixel(r, g, b, 255)
    else
      var v := And(pixel, 0xFF);
      Pixel(v, v, v, 255)
  }

  /** `v & 0xFF` is the low byte. */
  lemma LowByte(v: nat)
    ensures And(v, 0xFF) == v % 256
  {
    Pow2Values();
    AndLowOnes(v, 8);
  }

  lemma ShrValues(v: nat)
    ensures Shr(v, 0) == v && Shr(v, 8) == v / 0x100 && Shr(v, 16) == v / 0x1_0000
  {
    Pow2Values();
    ShrIsQuotient(v, 8);
    ShrIsQuotient(v, 16);
  }

  function SimpleXImageToImage(ximg: Option<XImage>): (img: Image)
    requires ximg.Some? ==> ximg.value.WellFormed()
    ensures ximg.None? ==> img.width == 0 && img.height == 0 && Empty(img)
    ensures ximg.Some? ==> img.width == ximg.value.width && img.height == ximg.value.height
    ensures ximg.Some? ==> forall x: nat, y: nat :: x < img.width && y < img.height ==>
              PixelAt(img, x, y) == SimplePixel(ximg.value.GetPixel(x, y), ximg.value)
  {
    match ximg
    case None => DefaultImage()
    case Some(xi) =>
      Tabulate(xi.width, xi.height,
        (x: nat, y: nat) => if x < xi.width && y < xi.height then SimplePixel(xi.GetPixel(x, y), xi)
                            else Pixel(0, 0, 0, 0))
  }

  /** The server's byte order never changes what the simple converter produces. */
  lemma SimpleIgnoresByteOrder(xi: XImage, order: ByteOrder)
    requires xi.WellFormed()
    ensures SimpleXImageToImage(Some(xi)) == SimpleXImageToImage(Some(xi.(byteOrder := order)))
  {
    var a, b := SimpleXImageToImage(Some(xi)), SimpleXImageToImage(Some(xi.(byteOrder := order)));
    forall i | 0 <= i < |a.pixels|
      ensures a.pixels[i] == b.pixels[i]
    {
      PixelAtIndex(a, i);
      PixelAtIndex(b, i);
    }
  }

  // ---------------------------------------------------------------------------
  // The simple converter against the general one

  /** The standard 24-bit TrueColor masks: red, green and blue bytes of a 32-bit pixel. */
  predicate StandardTrueColor(xi: XImage)
  {
    xi.depth == 24 && xi.bitsPerPixel == 32
    && xi.redMask == 0xFF_0000 && xi.greenMask == 0xFF00 && xi.blueMask == 0xFF
  }

  /** Rescaling an 8-bit field is the identity. */
  lemma RoundByte(v: nat)
    requires v <= 255
    ensures Capture.RoundHalfUp(255 * v, 255) == v
  {
    Arith.DivModUnique(2 * (255 * v) + 255, 2 * 255, v, 255);
  }

  /** A mask that is an 8-bit field shifted left by `k` extracts byte `k / 8` unchanged. */
  lemma ByteChannel(pixel: Word, mask: Word, k: nat)
    requires mask == Shl(0xFF, k)
    ensures Capture.ExtractChannel(pixel, mask) == Shr(pixel, k) % 256
  {
    LowestSetBitShl(0xFF, k);
    ShrShl(0xFF, k);
    assert Capture.MaskShift(mask) == k;
    assert Capture.FieldMax(mask) == 0xFF;
    AndShiftedMask(pixel, 0xFF, k);
    ShrShl(And(Shr(pixel, k), 0xFF), k);
    LowByte(Shr(pixel, k));
    assert Capture.FieldValue(pixel, mask) == Shr(pixel, k) % 256;
    RoundByte(Shr(pixel, k) % 256);
  }

  /** The lowest set bit of an odd value shifted left by `k` is bit `k`. */
  lemma {:induction false} LowestSetBitShl(f: nat, k: nat)
    requires f % 2 == 1
    ensures Shl(f, k) > 0 && LowestSetBit(Shl(f, k)) == k
    decreases k
  {
    if k > 0 {
      LowestSetBitShl(f, k - 1);
    }
  }

  /**
   * On a depth-24 server image with the standard masks, the window tests'
   * converter and the general normaliser produce the same image.
   */
  lemma SimpleAgreesWithCapture(xi: XImage)
    requires xi.WellFormed() && StandardTrueColor(xi)
    ensures SimpleXImageToImage(Some(xi)) == Capture.XImageToImage(Some(xi))
  {
    var a, b := SimpleXImageToImage(Some(xi)), Capture.XImageToImage(Some(xi));
    assert Capture.ImageAlphaMask(xi) == 0;
    ShlMasks();
    forall i | 0 <= i < |a.pixels|
      ensures a.pixels[i] == b.pixels[i]
    {
      PixelAtIndex(a, i);
      PixelAtIndex(b, i);
      var x, y := Arith.Col(i, a.width), Arith.Row(i, a.width);
      var p := xi.GetPixel(x, y);
      ByteChannel(p, 0xFF_0000, 16);
      ByteChannel(p, 0xFF00, 8);
      ByteChannel(p, 0xFF, 0);
      ShrValues(p);
    }
  }

  lemma ShlMasks()
    ensures Shl(0xFF, 16) == 0xFF_0000 && Shl(0xFF, 8) == 0xFF00 && Shl(0xFF, 0) == 0xFF
  {
  }

  // ---------------------------------------------------------------------------
  // The scan

  datatype Position = Position(x: nat, y: nat)

  /**
   * A corner the scan visits: both coordinates even and at least the border,
   * and the 16x16 marker plus the far border strictly inside the image.
   */
  predicate Candidate(img: Image, p: Position)
  {
    p.x >= MarkerBorder && p.y >= MarkerBorder && p.x % 2 == 0 && p.y % 2 == 0
    && p.x + MarkerSize + MarkerBorder < img.width && p.y + MarkerSize + MarkerBorder < img.height
  }

  /** Sample `k` of a candidate: row `k / 4`, column `k % 4` of the 4x4 sample grid. */
  function SamplePixel(img: Image, p: Position, k: nat): Pixel
    requires Candidate(img, p) && k < Samples
  {
    PixelAt(img, p.x + SampleStep * (k % 4), p.y + SampleStep * (k / 4))
  }

  /** How many of the first `k` samples are near the marker colour. */
  function MatchingSamples(img: Image, p: Position, m: Marker, k: nat): (count: nat)
    requires Candidate(img, p) && k <= Samples
    ensures count <= k
  {
    if k == 0 then 0
    else MatchingSamples(img, p, m, k - 1) + (if Near(SamplePixel(img, p, k - 1), m) then 1 else 0)
  }

  /** The centre pixel of a candidate's marker area. */
  function Centre(img: Image, p: Position): Pixel
    requires Candidate(img, p)
  {
    PixelAt(img, p.x + MarkerSize / 2, p.y + MarkerSize / 2)
  }

  /** The scan stops at a candidate whose centre and at least two thirds of whose samples are near the marker. */
  predicate IsHit(img: Image, p: Position, m: Marker)
    requires Candidate(img, p)
  {
    Near(Centre(img, p), m) && MatchingSamples(img, p, m, Samples) >= RequiredMatches
  }

  /** Row-major scan order: earlier rows first, then further left. */
  predicate Before(p: Position, q: Position)
  {
    p.y < q.y || (p.y == q.y && p.x < q.x)
  }

  /**
   * The sampling loop of `find_marker_in_image`: `dy` and `dx` step through
   * 0, 4, 8, 12, counting samples and the samples near the marker colour.
   */
  method CountSamples(img: Image, p: Position, m: Marker) returns (matches: nat, samples: nat)
    requires Candidate(img, p)
    ensures samples == Samples
    ensures matches == MatchingSamples(img, p, m, Samples)
  {
    matches, samples := 0, 0;
    var dy := 0;
    while dy < MarkerSize
      invariant dy in {0, 4, 8, 12, 16}
      invariant samples == dy
      invariant matches == MatchingSamples(img, p, m, samples)
    {
      matches, samples := CountSampleRow(img, p, m, dy, matches, samples);
      dy := dy + SampleStep;
    }
  }

  /** The inner loop of the sampling: the four samples of row `dy`, added to the counts so far. */
  method CountSampleRow(img: Image, p: Position, m: Marker, dy: nat, matches0: nat, samples0: nat)
    returns (matches: nat, samples: nat)
    requires Candidate(img, p) && dy in {0, 4, 8, 12}
    requires samples0 == dy && matches0 == MatchingSamples(img, p, m, samples0)
    ensures samples == samples0 + 4
    ensures matches == MatchingSamples(img, p, m, samples)
  {
    matches, samples := matches0, samples0;
    var dx := 0;
    while dx < MarkerSize
      invariant dx in {0, 4, 8, 12, 16}
      invariant samples == dy + dx / SampleStep
      invariant matches == MatchingSamples(img, p, m, samples)
    {
      var sp := PixelAt(img, p.x + dx, p.y + dy);
      NextSample(img, p, m, dx, dy);
      if Near(sp, m) {
        matches := matches + 1;
      }
      samples := samples + 1;
      dx := dx + SampleStep;
    }
  }

  /** Counting the sample at offsets `(dx, dy)` extends the count to sample `dy + dx / 4`. */
  lemma NextSample(img: Image, p: Position, m: Marker, dx: nat, dy: nat)
    requires Candidate(img, p) && dx in {0, 4, 8, 12} && dy in {0, 4, 8, 12}
    ensures var k := dy + dx / SampleStep;
            k < Samples
            && MatchingSamples(img, p, m, k + 1)
               == MatchingSamples(img, p, m, k) + (if Near(PixelAt(img, p.x + dx, p.y + dy), m) then 1 else 0)
  {
    SampleOffsets(dx, dy);
  }

  /** The offsets `(dx, dy)` of the sampling loop are those of sample `dy + dx / 4`. */
  lemma SampleOffsets(dx: nat, dy: nat)
    requires dx in {0, 4, 8, 12} && dy in {0, 4, 8, 12}
    ensures var k := dy + dx / SampleStep; k < Samples && SampleStep * (k % 4) == dx && SampleStep * (k / 4) == dy
  {
    Arith.DivModUnique(dy + dx / SampleStep, 4, dy / SampleStep, dx / SampleStep);
  }

  /** The centre check followed by the sampling: whether the candidate at `p` is a hit. */
  method CheckCandidate(img: Image, p: Position, m: Marker) returns (hit: bool)
    requires Candidate(img, p)
    ensures hit == IsHit(img, p, m)
  {
    hit := false;
    var c := PixelAt(img, p.x + MarkerSize / 2, p.y + MarkerSize / 2);
    if Near(c, m) {
      var matches, samples := CountSamples(img, p, m);
      hit := samples > 0 && matches >= samples * 2 / 3;
    }
  }

  /**
   * `find_marker_in_image`, with the scan bounds compared as signed values:
   * returns the first candidate in row-major order that is a hit, or nothing
   * when no candidate is.
   */
  method FindMarker(img: Image, markerId: nat) returns (found: Option<Position>)
    ensures found.Some? ==> Candidate(img, found.value) && IsHit(img, found.value, MarkerFor(markerId))
    ensures found.Some? ==> forall q :: Candidate(img, q) && Before(q, found.value) ==> !IsHit(img, q, MarkerFor(markerId))
    ensures found.None? ==> forall q :: Candidate(img, q) ==> !IsHit(img, q, MarkerFor(markerId))
  {
    var m := MarkerFor(markerId);
    var y := MarkerBorder;
    while y + MarkerSize + MarkerBorder < img.height
      invariant y >= MarkerBorder && y % 2 == 0
      invariant forall q :: Candidate(img, q) && q.y < y ==> !IsHit(img, q, m)
      decreases img.height - y
    {
      found := ScanRow(img, m, y);
      if found.Some? {
        return;
      }
      forall q | Candidate(img, q) && q.y < y + 2
        ensures !IsHit(img, q, m)
      {
        EvenBelow(q.y, y);
      }
      y := y + 2;
    }
    return None;
  }

  /** The inner loop of the scan: the first hit in row `y`, or nothing when the row has none. */
  method ScanRow(img: Image, m: Marker, y: nat) returns (found: Option<Position>)
    requires y >= MarkerBorder && y % 2 == 0 && y + MarkerSize + MarkerBorder < img.height
    ensures found.Some? ==> found.value.y == y && Candidate(img, found.value) && IsHit(img, found.value, m)
    ensures found.Some? ==> forall q :: Candidate(img, q) && q.y == y && q.x < found.value.x ==> !IsHit(img, q, m)
    ensures found.None? ==> forall q :: Candidate(img, q) && q.y == y ==> !IsHit(img, q, m)
  {
    var x := MarkerBorder;
    while x + MarkerSize + MarkerBorder < img.width
      invariant x >= MarkerBorder && x % 2 == 0
      invariant forall q :: Candidate(img, q) && q.y == y && q.x < x ==> !IsHit(img, q, m)
      decreases img.width - x
    {
      var p := Position(x, y);
      var hit := CheckCandidate(img, p, m);
      if hit {
        return Some(p);
      }
      forall q | Candidate(img, q) && q.y == y && q.x < x + 2
        ensures !IsHit(img, q, m)
      {
        EvenBelow(q.x, x);
      }
      x := x + 2;
    }
    return None;
  }

  lemma EvenBelow(a: nat, b: nat)
    requires a % 2 == 0 && b % 2 == 0 && a < b + 2
    ensures a <= b
  {
  }

  /** An image too narrow or too short for a bordered marker beyond the first border has no candidate. */
  lemma NoCandidateInSmallImage(img: Image, q: Position)
    requires img.width <= 2 * MarkerBorder + MarkerSize || img.height <= 2 * MarkerBorder + MarkerSize
    ensures !Candidate(img, q)
  {
  }

  /** Every pixel of the 16x16 area at `p` has the marker's red, green and blue. */
  predicate Painted(img: Image, p: Position, m: Marker)
    requires Candidate(img, p)
  {
    forall x: nat, y: nat :: p.x <= x < p.x + MarkerSize && p.y <= y < p.y + MarkerSize ==>
      PixelAt(img, x, y).r == m.r && PixelAt(img, x, y).g == m.g && PixelAt(img, x, y).b == m.b
  }

  /** A marker drawn in its exact colour over the whole 16x16 area at a candidate corner is a hit there. */
  lemma DrawnMarkerIsHit(img: Image, p: Position, m: Marker)
    requires Candidate(img, p)
    requires Painted(img, p, m)
    ensures IsHit(img, p, m)
  {
    AllSamplesMatch(img, p, m, Samples);
  }

  lemma {:induction false} AllSamplesMatch(img: Image, p: Position, m: Marker, k: nat)
    requires Candidate(img, p) && k <= Samples
    requires Painted(img, p, m)
    ensures MatchingSamples(img, p, m, k) == k
  {
    if k > 0 {
      AllSamplesMatch(img, p, m, k - 1);
      var dx, dy := SampleStep * ((k - 1) % 4), SampleStep * ((k - 1) / 4);
      assert dx < MarkerSize && dy < MarkerSize;
      assert SamplePixel(img, p, k - 1) == PixelAt(img, p.x + dx, p.y + dy);
    }
  }

  /** An area drawn in another marker's colour is never a hit. */
  lemma OtherMarkerIsNoHit(img: Image, p: Position, i: nat, j: nat)
    requires Candidate(img, p) && i < 8 && j < 8 && i != j
    ensures Near(Centre(img, p), Markers[j]) ==> !IsHit(img, p, Markers[i])
  {
    MarkersDistinguishable(i, j, Centre(img, p));
  }

  // ---------------------------------------------------------------------------
  // The scan bounds as the source evaluates them

  /**
   * `img.height() - MARKER_SIZE - MARKER_BORDER` (and the same for the width):
   * the source subtracts in `uint32_t`, so a dimension below 18 wraps to a
   * bound near 2^32 instead of ruling out every row.
   */
  function WrappedBound(dim: nat): (bound: nat)
    requires dim < U32Modulus
    ensures bound < U32Modulus
    ensures dim >= MarkerSize + MarkerBorder ==> bound == dim - MarkerSize - MarkerBorder
    ensures dim < MarkerSize + MarkerBorder ==> bound == U32Modulus + dim - MarkerSize - MarkerBorder
  {
    (dim - MarkerSize - MarkerBorder) % U32Modulus
  }

  /** For dimensions of at least 18 the wrapped bound admits exactly the signed bound's coordinates. */
  lemma WrappedBoundAgrees(dim: nat, v: nat)
    requires MarkerSize + MarkerBorder <= dim < U32Modulus
    ensures v < WrappedBound(dim) <==> v + MarkerSize + MarkerBorder < dim
  {
  }

  /**
   * A failed capture yields the default 0x0 image. As written, its wrapped
   * bounds admit the first corner (2, 2), and reading that corner's centre
   * pixel is out of range, which throws.
   */
  lemma EmptyCaptureReadsOutside()
    ensures var img := DefaultImage();
            MarkerBorder < WrappedBound(img.height) && MarkerBorder < WrappedBound(img.width)
            && GetPixel(img, MarkerBorder + MarkerSize / 2, MarkerBorder + MarkerSize / 2).Err?
  {
  }

  /**
   * With a height of 17 the wrapped row bound is 2^32 - 1: every even `uint32_t`
   * row is below it, including the 0 that `y += 2` wraps to after 2^32 - 2, so
   * the row loop never ends. With a width of 18 to 20 the column loop never
   * runs, so no pixel read throws to end it either.
   */
  lemma RowLoopNeverEndsAtHeight17(width: nat, y: nat)
    requires MarkerSize + MarkerBorder <= width <= MarkerSize + 2 * MarkerBorder
    requires y < U32Modulus && y % 2 == 0
    ensures y < WrappedBound(17)
    ensures (y + 2) % U32Modulus < WrappedBound(17) && ((y + 2) % U32Modulus) % 2 == 0
    ensures !(MarkerBorder < WrappedBound(width))
  {
  }
}
