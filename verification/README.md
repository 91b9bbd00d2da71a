# x11bench image core in Dafny

x11bench renders test scenes on an X11 server, captures the result and
compares it with reference images. This project models the pure part of that
pipeline:

- **Images** (`images.dfy`): the RGBA `Image` class, with the pixel type,
  the constructors, move semantics, pixel access with its `out_of_range`
  failure, fill, and the BGRA/RGB raw-buffer converters. PNG I/O is not part
  of the model.
- **Capture** (`capture.dfy`, `ximage.dfy`, `bits.dfy`): the conversion of
  a server `XImage` into an `Image`. This covers `extract_channel`, which
  rescales the bits under a channel mask to 0..255, the derived alpha mask,
  and the rule that an alpha of 0 reads as opaque. Server pixels are the
  values `XGetPixel` returns. Bit operations on `unsigned long` are modelled
  on `nat` (`bits.dfy`).
- **Compare** (`compare.dfy`): `Compare::exact`, `fuzzy`, `fuzzy_percent`
  and `generate_diff`. The per-pixel loop of `fuzzy` is modelled as a
  recursive scan over the row-major pixel sequence.
- **Window markers** (`markers.dfy`): the marker table of the window tests,
  the tests' own `ximage_to_image`, and `find_marker_in_image`. That function
  searches a screen capture for a 16x16 square of a marker colour.

Failures are values. `get_pixel` and `set_pixel` return `Result`, with
`Err(OutOfRange)` for the exception. A null `XImage*` is `Option.None`. The
scan of `find_marker_in_image` returns `Option<Position>`.

`extract_channel` counts the set bits of the mask but rescales by the
shifted mask (`mask >> shift`), not by `2^bits - 1`. The two agree only for
contiguous masks, and the model follows the code.

The comment in compare.hpp calls the `fuzzy_percent` threshold a fraction
(0.0-1.0). The code compares it with a percentage (0-100), and the model
follows the code.

## Model

| member | source | states |
|---|---|---|
| Images.SamePixel | src/image.hpp:13-15 | pixel equality holds exactly when all four channels are equal |
| Images.DifferentPixel | src/image.hpp:17-19 | `!=` is the negation of `==` |
| Images.DefaultImage | src/image.hpp:24 | the default image is 0x0, empty, with a zero-length buffer |
| Images.NewImage | src/image.cpp:8-10 | `Image(w, h)` has the given size and `w*h*4` zero bytes, so every in-range `get_pixel` reads transparent black |
| Images.ConstructedByteCount | src/image.cpp:8-10 | the constructor's `uint32_t` byte count equals `w*h*4` whenever that fits in 32 bits |
| Images.ConstructedByteCountWraps | src/image.cpp:8-10 | a 32768x32768 image gets a buffer of 0 bytes |
| Images.WrappedOffset | src/image.cpp:46 | the offset `(y*width+x)*4` is evaluated in `uint32_t`: below 2^32 and never above the true offset, and equal to it whenever that fits |
| Images.ReadBuffer | src/image.cpp:42-48 | `get_pixel` on a constructed buffer fails out of range exactly outside the dimensions, and runs past the buffer exactly when, inside them, the four bytes at the wrapped offset do not fit in it |
| Images.ConstructAsWritten | src/image.cpp:8-10 | as written, the constructor keeps the dimensions and zero-fills a buffer of the wrapped byte count |
| Images.Construct | src/image.cpp:8-10 | as intended, for any `uint32_t` dimensions the buffer holds `w*h*4` bytes, every in-range `get_pixel` reads transparent black, and where nothing wraps the buffer is that of `NewImage` |
| Images.ConstructAsWrittenReadsOutside | src/image.cpp:8-10 | on a 32768x32768 image, reading `(0, 0)` runs past the as-written buffer but reads transparent black from the intended one |
| Images.WrappedOffsetReadsStart | src/image.cpp:42-48 | on a 32769x32768 image the as-written buffer has 131072 bytes, and reading `(1, 32767)` wraps to offset 0 and returns transparent black instead of overrunning |
| Images.Move | src/image.cpp:16-20 | the move target takes the source's size and bytes, and the source is left 0x0 and empty (move assignment, lines 31-40, behaves the same) |
| Images.Empty | src/image.hpp:35 | `empty()` holds exactly when the width or the height is 0 |
| Images.Size | src/image.hpp:50 | `size()` is `width*height*4` |
| Images.Stride | src/image.hpp:49 | when the image has a row, `height` rows of `stride()` bytes make up the whole buffer |
| Images.GetPixel | src/image.cpp:42-48 | succeeds exactly for in-range coordinates and then yields that pixel; otherwise fails with out-of-range |
| Images.GetPixelReadsOffset | src/image.cpp:46-47 | the pixel read is the four buffer bytes at `(y*width+x)*4`, in r, g, b, a order, and all four lie inside the buffer |
| Images.SetPixel | src/image.cpp:50-59 | fails exactly outside the image; otherwise the size is kept, `(x, y)` then reads back the new pixel, and every other pixel is unchanged |
| Images.SetRgba | src/image.cpp:61-63 | the channel overload writes the pixel built from its arguments, with alpha defaulting to 255 |
| Images.Fill | src/image.cpp:65-72 | keeps the size and makes every pixel read back as the fill colour |
| Images.FillRgba | src/image.cpp:74-76 | the channel overload fills with the pixel built from its arguments |
| Images.FromBgra | src/image.cpp:197-208 | pixel `i` takes source bytes `4i+2, 4i+1, 4i, 4i+3` as r, g, b, a |
| Images.FromBgraSwapsRedBlue | src/image.cpp:201-204 | the resulting buffer is the input with bytes 0 and 2 of every pixel exchanged |
| Images.SwapRedBlueInvolution | src/image.cpp:202-204 | exchanging red and blue twice gives back the original bytes |
| Images.FromRgb | src/image.cpp:210-220 | pixel `i` takes source bytes `3i, 3i+1, 3i+2` and alpha 255 |
| Images.FromRgbRoundTrip | src/image.cpp:214-216 | reading the image back as RGB bytes returns the input, and every alpha is 255 |
| Capture.RoundHalfUp | src/capture.cpp:72 | `lround` of a non-negative quotient: the nearest integer, with halves rounded up |
| Capture.Rescale | src/capture.cpp:70-72 | a field value in range maps to `round(255*v/max)`; 0 maps to 0 and the full field to 255 (so the clamp never changes the value) |
| Capture.MaskShift | src/capture.cpp:52-55 | the shift is the position of the mask's lowest set bit, below 64 |
| Capture.FieldMax | src/capture.cpp:57 | `mask >> shift` is odd, hence positive, so the source's `bits == 0` branch is unreachable |
| Capture.FieldValue | src/capture.cpp:69 | the raw field value never exceeds the shifted mask |
| Capture.ExtractChannel | src/capture.cpp:46-73 | an absent mask or no set bits under the mask give 0; all bits of the mask set give 255; otherwise the rounded rescale of the field |
| Capture.ExtractChannelMaskedOnly | src/capture.cpp:69 | the channel depends only on the pixel bits under the mask |
| Capture.ExtractChannelScan | src/capture.cpp:46-73 | the source's shift loop and bit-count loop compute the same channel value as the closed form |
| Capture.ShiftLoop | src/capture.cpp:52-55 | the shift loop stops at the mask's lowest set bit |
| Capture.BitCountLoop | src/capture.cpp:58-63 | the loop counts the set bits of the shifted mask |
| Capture.PixelMask | src/capture.cpp:92-98 | bit `i` of the pixel mask is set exactly when `i < bits_per_pixel` and `i < 64` |
| Capture.AlphaMask | src/capture.cpp:85-102 | there is no alpha mask at depth 24 or below; otherwise a bit is set exactly when it is inside the pixel and in none of the colour masks |
| Capture.AlphaMaskBits | src/capture.cpp:89-101 | `pixel_mask & ~(r\|g\|b)` has exactly the bits of the pixel mask that are outside all three colour masks |
| Capture.OutputAlpha | src/capture.cpp:111-115 | alpha is 255 without an alpha mask; with one it is the extracted value, except that an extracted 0 is replaced by exactly 255, so alpha is never 0 |
| Capture.XImageToImage | src/capture.cpp:76-122 | null gives the 0x0 image; otherwise the size is kept and each pixel is the normalised server pixel at the same coordinates |
| Capture.XImageToImageAlpha | src/capture.cpp:85-115 | converted pixels are never transparent, and at depth 24 or below they are fully opaque |
| Capture.NormalizeSingleRed | src/capture.cpp:104-117 | a server pixel with every red bit set and no green, blue or alpha bit set becomes opaque pure red |
| Capture.NormalizeXrgbRed | src/capture.cpp:104-117 | the 24-bit xRGB value 0xFF0000 becomes (255, 0, 0, 255) |
| Capture.NormalizeRgb565Red | src/capture.cpp:104-117 | the 16-bit RGB565 value 0xF800 becomes (255, 0, 0, 255) |
| Capture.ArgbAlphaMask | src/capture.cpp:88-101 | a depth-32 ARGB format gets the alpha mask 0xFF000000 |
| Capture.NormalizeArgbZeroAlpha | src/capture.cpp:111-115 | an ARGB pixel with alpha bits 0 is read as opaque |
| Compare.CompareResult | src/compare.hpp:8-16 | the result record: verdict, differing and total pixel counts, percentage, maximum and average channel difference |
| Compare.NoMatch | src/compare.hpp:8-16 | the field initialisers: no match and every statistic zero, which is what `fuzzy` returns for images of different sizes |
| Compare.ChannelDiff | src/compare.cpp:8-10 | the difference is at most 255 and is 0 exactly when the channels are equal |
| Compare.ChannelDiffIsDistance | src/compare.cpp:8-10 | the difference is the distance between the two values, and is symmetric |
| Compare.PixelDiff | src/compare.cpp:46-51 | the pixel difference is at most 255 and is 0 exactly when the pixels are equal |
| Compare.PixelDiffIsLargestChannel | src/compare.cpp:46-51 | the pixel difference bounds every channel difference and equals one of them |
| Compare.PixelDiffSymmetric | src/compare.cpp:46-54 | the largest and summed channel differences do not depend on argument order |
| Compare.ChannelSum | src/compare.cpp:54 | the summed difference is at most four times the largest one and is 0 exactly for equal pixels |
| Compare.Scan | src/compare.cpp:41-61 | the loop's counters stay bounded: at most `n` differing pixels, largest difference at most 255, total at most `4*255*n` |
| Compare.ScanNoneDiffering | src/compare.cpp:57-59 | no pixel is counted exactly when every pixel is within the tolerance |
| Compare.ScanMaxBounds | src/compare.cpp:51-52 | the running maximum bounds every pixel's difference |
| Compare.ScanMaxAttained | src/compare.cpp:51-52 | the running maximum is 0 for no pixels and is otherwise some pixel's difference |
| Compare.ScanTotalZero | src/compare.cpp:54 | the summed difference is 0 exactly when all pixels are equal |
| Compare.ScanCountsDiffering | src/compare.cpp:57-59 | the count is the number of indices whose difference exceeds the tolerance |
| Compare.ScanTotalBound | src/compare.cpp:51-55 | the summed difference is at most `4*n` times the maximum |
| Compare.ScanToleranceMonotone | src/compare.cpp:57-59 | a larger tolerance never counts more pixels and leaves the maximum and total unchanged |
| Compare.ScanSymmetric | src/compare.cpp:41-61 | the scan's counters do not depend on argument order |
| Compare.ScanAllDiffering | src/compare.cpp:57-59 | a negative tolerance counts every pixel |
| Compare.Fuzzy | src/compare.cpp:16-84 | different sizes never match and count nothing; two same-size empty images match; otherwise all pixels are scanned; match holds exactly when the sizes agree and nothing differs; the percentage is `100 * different / total` for same-size non-empty images, lies in 0..100 and is 0 exactly when nothing differs; 0 <= average <= maximum <= 255 |
| Compare.FuzzyIsScan | src/compare.cpp:35-66 | on same-size non-empty images the result's count and maximum are those of the pixel scan |
| Compare.WithinToleranceEverywhere | src/compare.cpp:41-59 | every row-major index is within tolerance exactly when every coordinate is |
| Compare.FuzzyMatchIff | src/compare.cpp:57-66 | a fuzzy match holds exactly when the sizes agree and every pixel is within the tolerance |
| Compare.FuzzyCountsDiffering | src/compare.cpp:57-59 | the count is the number of pixels whose largest channel difference exceeds the tolerance |
| Compare.FuzzyMaxIsAttained | src/compare.cpp:51-52 | the reported maximum bounds every pixel's difference and is reached at some coordinate |
| Compare.FuzzyReflexive | src/compare.cpp:16-84 | an image matches itself at any non-negative tolerance, with maximum and average 0 |
| Compare.FuzzySymmetric | src/compare.cpp:16-84 | the result does not depend on argument order |
| Compare.FuzzyToleranceMonotone | src/compare.cpp:57-66 | raising the tolerance never counts more pixels, keeps a match and leaves the maximum unchanged |
| Compare.FuzzyFullTolerance | src/compare.cpp:57-66 | at tolerance 255 or more nothing is counted and the images match exactly when their sizes agree |
| Compare.FuzzyNegativeTolerance | src/compare.cpp:57-59 | at a negative tolerance every pixel of same-size images is counted |
| Compare.Exact | src/compare.cpp:12-14 | images match exactly when they are equal; nothing is counted exactly when they are equal or differ in size |
| Compare.FuzzyPercentAsWritten | src/compare.cpp:86-102 | as written, nothing is ever counted, the percentage is 0, and the verdict is just `max_diff_percent >= 0` |
| Compare.FuzzyPercentAsWrittenAcceptsAnything | src/compare.cpp:86-91 | as written, black matches white at a 0% threshold, and a 1x1 image matches a 2x1 image |
| Compare.FuzzyPercent | src/compare.cpp:86-102 | corrected: different sizes never match; the count is the number of differing pixels; same-size non-empty images match exactly when `100 * differing <= threshold * total`, same-size empty ones exactly when the threshold is non-negative; a threshold of 100 accepts any same-size pair and a negative one accepts nothing |
| Compare.FuzzyPercentZeroIsExact | src/compare.cpp:86-91 | corrected: a 0% threshold matches exactly when `exact` does |
| Compare.FuzzyPercentMonotone | src/compare.cpp:86-91 | corrected: a match at one threshold persists at any higher one |
| Compare.Intensity | src/compare.cpp:139 | the highlight intensity is twice the difference, capped at 255 |
| Compare.GenerateDiff | src/compare.cpp:104-150 | the diff covers both images (0x0 if that is empty) and is opaque; outside both it is black, only in the second green, only in the first blue; in the overlap red is 255 exactly when the difference exceeds the tolerance; highlighted pixels have equal green and blue that fade as the difference grows; other pixels are the first image at half brightness |
| Compare.GenerateDiffMarksFuzzyDifferences | src/compare.cpp:104-150 | on same-size images the diff's full-red pixels are exactly as many as `fuzzy` counts at the same tolerance |
| Compare.GenerateDiffOfIdentical | src/compare.cpp:141-144 | the diff of an image with itself is that image darkened to half brightness, with nothing highlighted |
| WindowMarkers.MarkerFor | src/tests/test_windows.cpp:175 | the marker is a table entry, and marker id `i` below 8 selects entry `i` |
| WindowMarkers.MarkerForPeriodic | src/tests/test_windows.cpp:175 | ids `i` and `i + 8k` select the same marker, so with the first eight ids every id selects entry `i % 8` |
| WindowMarkers.MarkersDistinguishable | src/tests/test_windows.cpp:23-32 | no colour is within the tolerance of two different markers |
| WindowMarkers.SimplePixel | src/tests/test_windows.cpp:151-167 | at 32 bits per pixel red, green and blue are bytes 2, 1 and 0 of the value; otherwise all three are the low byte; alpha is 255 |
| WindowMarkers.SimpleXImageToImage | src/tests/test_windows.cpp:142-171 | null gives the 0x0 image; otherwise the size is kept and each pixel is the simple conversion of the server pixel |
| WindowMarkers.SimpleIgnoresByteOrder | src/tests/test_windows.cpp:154-163 | both byte-order branches produce the same image |
| WindowMarkers.SimpleAgreesWithCapture | src/tests/test_windows.cpp:142-171 | for a depth-24, 32-bit image with the standard masks, the tests' converter and `Capture::ximage_to_image` give the same image |
| WindowMarkers.MatchingSamples | src/tests/test_windows.cpp:193-203 | at most `k` of the first `k` samples match |
| WindowMarkers.CountSamples | src/tests/test_windows.cpp:191-203 | the sampling loops visit 16 samples and count those within the tolerance of the marker colour |
| WindowMarkers.CountSampleRow | src/tests/test_windows.cpp:194-202 | one pass of the inner loop adds the four samples of row `dy` |
| WindowMarkers.SampleOffsets | src/tests/test_windows.cpp:193-195 | offsets `(dx, dy)` in steps of 4 visit sample `dy + dx/4` of the 4x4 grid |
| WindowMarkers.CheckCandidate | src/tests/test_windows.cpp:183-210 | the centre check and the sampling report a hit exactly when the centre and at least 10 of the 16 samples are near the marker colour |
| WindowMarkers.FindMarker | src/tests/test_windows.cpp:174-215 | a returned corner is a candidate and a hit, and no earlier candidate in row-major order is a hit; no result means no candidate is a hit |
| WindowMarkers.ScanRow | src/tests/test_windows.cpp:181-212 | the column loop returns the leftmost hit of its row, or nothing when the row has no hit |
| WindowMarkers.NoCandidateInSmallImage | src/tests/test_windows.cpp:180-181 | an image of at most 20 pixels in either direction has no candidate corner |
| WindowMarkers.DrawnMarkerIsHit | src/tests/test_windows.cpp:183-210 | a 16x16 square drawn in the marker's colour at a candidate corner is found there |
| WindowMarkers.OtherMarkerIsNoHit | src/tests/test_windows.cpp:175-188 | a square whose centre is near another marker's colour is never a hit |
| WindowMarkers.WrappedBound | src/tests/test_windows.cpp:180-181 | the `uint32_t` loop bound is `dim - 18` for dimensions of at least 18 and wraps to `2^32 + dim - 18` below that |
| WindowMarkers.WrappedBoundAgrees | src/tests/test_windows.cpp:180-181 | for dimensions of at least 18 the wrapped bound admits exactly the corners the signed bound admits |
| WindowMarkers.EmptyCaptureReadsOutside | src/tests/test_windows.cpp:180-183 | on the 0x0 image of a failed capture the wrapped bounds admit corner (2, 2), and reading its centre fails out of range |
| WindowMarkers.RowLoopNeverEndsAtHeight17 | src/tests/test_windows.cpp:180-181 | at height 17 every even row, including the one `y += 2` wraps to, passes the row bound, while a width of 18-20 lets no column run |

## Left out

- PNG I/O (`save_png`, `load_png`): file and library calls.
- `Capture::capture_window` and `capture_region`, the settle helpers, and the display connection: these are server I/O. The converters take the unpacked `XImage` fields as input.
- `XGetPixel`'s unpacking of the server's packed bytes: a server pixel is modelled as the `unsigned long` it returns.
- The `message` strings of `CompareResult`: diagnostic text only.
- Copy constructor and copy assignment: Dafny values are immutable, so a copy is the value itself.
- `draw_window_pattern` and the window test classes in test_windows.cpp: they drive the X server.
- Compare.Fuzzy: `difference_percent` and `avg_channel_diff` are exact reals, not `double`, and `max_channel_diff` is a natural number.
- Capture.Rescale: the `double` computation and `lround` are modelled as exact rounding half up. This is exact for shifted masks below 2^32, which covers every 32-bit visual; wider masks can differ by one (for the mask 2^50-1 and the value 395168790832999 the `double` expression rounds to 90, the model to 89).
- Images.NewImage, Images.FromBgra, Images.FromRgb, Capture.XImageToImage and WindowMarkers.SimpleXImageToImage: require the byte count and offsets to fit in `uint32_t` (the last two through the server image's well-formedness), because the `Image` type carries that bound; the excluded sizes make the source's offset arithmetic wrap. Images.Construct is the constructor for every `uint32_t` size, on a plain byte buffer; Images.ConstructAsWritten is the wrapped one.
- Compare.GenerateDiff: requires the combined size to fit in `uint32_t`, for the same constructor reason.
- WindowMarkers.MarkerFor: takes a non-negative id. A negative `marker_id % 8` indexes before the table, which is undefined behaviour.
- WindowMarkers.FindMarker: compares the scan bounds as signed values, which is the evidently intended behaviour. The `uint32_t` bounds as written are modelled by WindowMarkers.WrappedBound and the lemmas after it.

## Findings

| source | as written | input that shows it | evidently intended | confidence | as-written member | corrected member |
|---|---|---|---|---|---|---|
| src/compare.cpp:88-91 | `fuzzy_percent` takes its statistics from `fuzzy(img1, img2, 255)`. No channel difference exceeds 255, so `difference_percent` is always 0 and any threshold of 0 or more matches. A size mismatch also gives percentage 0 and so matches. | a 1x1 black image against a 1x1 white one at `max_diff_percent` 0.0 matches; so does a 1x1 image against a 2x1 image | count every differing pixel (tolerance 0); images of different sizes never match | high (not executed) | Compare.FuzzyPercentAsWrittenAcceptsAnything | Compare.FuzzyPercent |
| src/tests/test_windows.cpp:180-181 | the scan bounds `img.height() - MARKER_SIZE - MARKER_BORDER` (and the width bound) are computed in `uint32_t` and wrap below 18 | the 0x0 image that `capture_screen` returns when capture fails: corner (2, 2) passes both bounds and `get_pixel(10, 10)` throws. At height 17 and width 18-20 the row loop never ends. | no candidate, and a `false` result, for images too small to hold a bordered marker | high (not executed) | WindowMarkers.EmptyCaptureReadsOutside | WindowMarkers.FindMarker |
| src/image.cpp:8-10 | the buffer length `width * height * 4` is computed in `uint32_t` | `Image(32768, 32768)` gets a 0-byte buffer while `get_pixel(0, 0)` passes the bounds check | a buffer of `width*height*4` bytes | medium (not executed) | Images.ConstructAsWrittenReadsOutside | Images.Construct |
