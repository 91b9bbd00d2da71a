/**
 * Image comparison of compare.cpp: exact and tolerance-based comparison with
 * their statistics, comparison against a percentage threshold, and the diff
 * image that highlights differing pixels.
 *
 * The source scans rows top to bottom and each row left to right, which is
 * the order of the row-major pixel sequence; the statistics are therefore
 * folds over pixel indices. The `double` statistics are exact reals here.
 */
module Compare {
  import opened Images
  import Arith

  /** `CompareResult` without its human-readable message. */
  datatype CompareResult = CompareResult(
    isMatch: bool,
    differentPixels: nat,
    totalPixels: nat,
    differencePercent: real,
    maxChannelDiff: nat,
    avgChannelDiff: real)

  /** The field initialisers of `CompareResult`: no match and all statistics zero. */
  const NoMatch: CompareResult := CompareResult(false, 0, 0, 0.0, 0, 0.0)

  predicate SameShape(img1: Image, img2: Image)
  {
    img1.width == img2.width && img1.height == img2.height
  }

  // ---------------------------------------------------------------------------
  // Per-pixel differences

  /** `channel_diff(a, b)`: the absolute difference of two channel values. */
  function ChannelDiff(a: Byte, b: Byte): (d: nat)
    ensures d <= 255
    ensures d == 0 <==> a == b
  {
    if a >= b then a - b else b - a
  }

  /** The channel difference is the distance between the two values, in either order. */
  lemma ChannelDiffIsDistance(a: Byte, b: Byte)
    ensures a + ChannelDiff(a, b) == b || b + ChannelDiff(a, b) == a
    ensures ChannelDiff(a, b) == ChannelDiff(b, a)
  {
  }

  function Max(a: nat, b: nat): (m: nat)
    ensures a <= m && b <= m
  {
    if a >= b then a else b
  }

  function Min(a: nat, b: nat): (m: nat)
    ensures m <= a && m <= b
  {
    if a <= b then a else b
  }

  /** `std::max({dr, dg, db, da})`: the largest of the four channel differences. */
  function PixelDiff(p: Pixel, q: Pixel): (d: nat)
    ensures d <= 255
    ensures d == 0 <==> p == q
  {
    Max(Max(ChannelDiff(p.r, q.r), ChannelDiff(p.g, q.g)), Max(ChannelDiff(p.b, q.b), ChannelDiff(p.a, q.a)))
  }

  /** The pixel difference bounds every channel's difference and equals one of them. */
  lemma PixelDiffIsLargestChannel(p: Pixel, q: Pixel)
    ensures forall k :: 0 <= k < 4 ==> ChannelDiff(Channel(p, k), Channel(q, k)) <= PixelDiff(p, q)
    ensures exists k :: 0 <= k < 4 && ChannelDiff(Channel(p, k), Channel(q, k)) == PixelDiff(p, q)
  {
    var d := PixelDiff(p, q);
    if d == ChannelDiff(p.r, q.r) {
      assert Channel(p, 0) == p.r && Channel(q, 0) == q.r;
    } else if d == ChannelDiff(p.g, q.g) {
      assert Channel(p, 1) == p.g && Channel(q, 1) == q.g;
    } else if d == ChannelDiff(p.b, q.b) {
      assert Channel(p, 2) == p.b && Channel(q, 2) == q.b;
    } else {
      assert Channel(p, 3) == p.a && Channel(q, 3) == q.a;
    }
  }

  /** The pixel difference does not depend on the order of the pixels. */
  lemma PixelDiffSymmetric(p: Pixel, q: Pixel)
    ensures PixelDiff(p, q) == PixelDiff(q, p)
    ensures ChannelSum(p, q) == ChannelSum(q, p)
  {
    ChannelDiffIsDistance(p.r, q.r);
    ChannelDiffIsDistance(p.g, q.g);
    ChannelDiffIsDistance(p.b, q.b);
    ChannelDiffIsDistance(p.a, q.a);
  }

  /** `dr + dg + db + da`: one pixel's contribution to the total difference. */
  function ChannelSum(p: Pixel, q: Pixel): (s: nat)
    ensures s <= 4 * PixelDiff(p, q)
    ensures s == 0 <==> p == q
  {
    ChannelDiff(p.r, q.r) + ChannelDiff(p.g, q.g) + ChannelDiff(p.b, q.b) + ChannelDiff(p.a, q.a)
  }

  // ---------------------------------------------------------------------------
  // The comparison loop

  /** The loop's running state: differing pixels, largest and summed channel difference. */
  datatype Tally = Tally(different: nat, maxDiff: nat, totalDiff: nat)

  /**
   * The state of the comparison loop of `fuzzy` after the first `n` pixels in
   * scan order: it counts the pixels whose largest channel difference exceeds
   * the tolerance, and keeps the largest and the summed channel difference.
   */
  function Scan(ps: seq<Pixel>, qs: seq<Pixel>, tolerance: int, n: nat): (t: Tally)
    requires n <= |ps| && n <= |qs|
    ensures t.different <= n
    ensures t.maxDiff <= 255
    ensures t.totalDiff <= 4 * 255 * n
  {
    if n == 0 then Tally(0, 0, 0)
    else
      var t := Scan(ps, qs, tolerance, n - 1);
      var d := PixelDiff(ps[n - 1], qs[n - 1]);
      Tally(
        t.different + (if d > tolerance then 1 else 0),
        Max(t.maxDiff, d),
        t.totalDiff + ChannelSum(ps[n - 1], qs[n - 1]))
  }

  /** The counter stays zero exactly when no pixel exceeds the tolerance. */
  lemma {:induction false} ScanNoneDiffering(ps: seq<Pixel>, qs: seq<Pixel>, tolerance: int, n: nat)
    requires n <= |ps| && n <= |qs|
    ensures Scan(ps, qs, tolerance, n).different == 0
        <==> forall i :: 0 <= i < n ==> PixelDiff(ps[i], qs[i]) <= tolerance
  {
    if n > 0 {
      ScanNoneDiffering(ps, qs, tolerance, n - 1);
      var d := PixelDiff(ps[n - 1], qs[n - 1]);
      assert Scan(ps, qs, tolerance, n).different
          == Scan(ps, qs, tolerance, n - 1).different + (if d > tolerance then 1 else 0);
      if forall i :: 0 <= i < n ==> PixelDiff(ps[i], qs[i]) <= tolerance {
        assert forall i :: 0 <= i < n - 1 ==> PixelDiff(ps[i], qs[i]) <= tolerance;
        assert d <= tolerance;
      } else {
        var j :| 0 <= j < n && PixelDiff(ps[j], qs[j]) > tolerance;
        if j < n - 1 {
          assert Scan(ps, qs, tolerance, n - 1).different != 0;
        } else {
          assert d > tolerance;
        }
      }
    }
  }

  /** The largest difference bounds every pixel's difference. */
  lemma {:induction false} ScanMaxBounds(ps: seq<Pixel>, qs: seq<Pixel>, tolerance: int, n: nat)
    requires n <= |ps| && n <= |qs|
    ensures forall i :: 0 <= i < n ==> PixelDiff(ps[i], qs[i]) <= Scan(ps, qs, tolerance, n).maxDiff
  {
    if n > 0 {
      ScanMaxBounds(ps, qs, tolerance, n - 1);
    }
  }

  /** The largest difference is zero before any pixel and attained by some pixel after. */
  lemma {:induction false} ScanMaxAttained(ps: seq<Pixel>, qs: seq<Pixel>, tolerance: int, n: nat)
    requires n <= |ps| && n <= |qs|
    ensures n == 0 ==> Scan(ps, qs, tolerance, n).maxDiff == 0
    ensures n > 0 ==> exists i :: 0 <= i < n && PixelDiff(ps[i], qs[i]) == Scan(ps, qs, tolerance, n).maxDiff
  {
    if n > 0 {
      var m := Scan(ps, qs, tolerance, n).maxDiff;
      if PixelDiff(ps[n - 1], qs[n - 1]) != m {
        ScanMaxAttained(ps, qs, tolerance, n - 1);
        var i :| 0 <= i < n - 1 && PixelDiff(ps[i], qs[i]) == Scan(ps, qs, tolerance, n - 1).maxDiff;
        assert PixelDiff(ps[i], qs[i]) == m;
      }
    }
  }

  /** The summed difference is zero exactly when the pixels are identical. */
  lemma {:induction false} ScanTotalZero(ps: seq<Pixel>, qs: seq<Pixel>, tolerance: int, n: nat)
    requires n <= |ps| && n <= |qs|
    ensures Scan(ps, qs, tolerance, n).totalDiff == 0 <==> forall i :: 0 <= i < n ==> ps[i] == qs[i]
  {
    if n > 0 {
      ScanTotalZero(ps, qs, tolerance, n - 1);
    }
  }

  /** The indices among the first `n` whose pixels differ by more than the tolerance. */
  function DifferingIndices(ps: seq<Pixel>, qs: seq<Pixel>, tolerance: int, n: nat): set<nat>
    requires n <= |ps| && n <= |qs|
  {
    set i: nat | i < n && PixelDiff(ps[i], qs[i]) > tolerance
  }

  /** The loop's counter is the number of differing pixels. */
  lemma {:induction false} ScanCountsDiffering(ps: seq<Pixel>, qs: seq<Pixel>, tolerance: int, n: nat)
    requires n <= |ps| && n <= |qs|
    ensures Scan(ps, qs, tolerance, n).different == |DifferingIndices(ps, qs, tolerance, n)|
  {
    if n == 0 {
      assert DifferingIndices(ps, qs, tolerance, 0) == {};
    } else {
      ScanCountsDiffering(ps, qs, tolerance, n - 1);
      var prev := DifferingIndices(ps, qs, tolerance, n - 1);
      if PixelDiff(ps[n - 1], qs[n - 1]) > tolerance {
        assert DifferingIndices(ps, qs, tolerance, n) == prev + {n - 1};
        assert n - 1 !in prev;
      } else {
        assert DifferingIndices(ps, qs, tolerance, n) == prev;
      }
    }
  }

  /** The summed difference is at most four channels times the largest difference per pixel. */
  lemma {:induction false} ScanTotalBound(ps: seq<Pixel>, qs: seq<Pixel>, tolerance: int, n: nat)
    requires n <= |ps| && n <= |qs|
    ensures Scan(ps, qs, tolerance, n).totalDiff <= 4 * n * Scan(ps, qs, tolerance, n).maxDiff
  {
    if n > 0 {
      ScanTotalBound(ps, qs, tolerance, n - 1);
      var prev := Scan(ps, qs, tolerance, n - 1);
      var d := PixelDiff(ps[n - 1], qs[n - 1]);
      BoundStep(prev.totalDiff, ChannelSum(ps[n - 1], qs[n - 1]), n - 1, prev.maxDiff, Max(prev.maxDiff, d));
    }
  }

  lemma BoundStep(total: nat, s: nat, k: nat, m0: nat, m: nat)
    requires total <= 4 * k * m0 && m0 <= m && s <= 4 * m
    ensures total + s <= 4 * (k + 1) * m
  {
    Arith.MulMonotone(m0, m, 4 * k);
    assert 4 * (k + 1) * m == 4 * k * m + 4 * m;
  }

  /** A wider tolerance never counts more differing pixels, and leaves the other statistics alone. */
  lemma {:induction false} ScanToleranceMonotone(ps: seq<Pixel>, qs: seq<Pixel>, t1: int, t2: int, n: nat)
    requires n <= |ps| && n <= |qs| && t1 <= t2
    ensures Scan(ps, qs, t2, n).different <= Scan(ps, qs, t1, n).different
    ensures Scan(ps, qs, t2, n).maxDiff == Scan(ps, qs, t1, n).maxDiff
    ensures Scan(ps, qs, t2, n).totalDiff == Scan(ps, qs, t1, n).totalDiff
  {
    if n > 0 {
      ScanToleranceMonotone(ps, qs, t1, t2, n - 1);
    }
  }

  /** Exchanging the two pixel sequences changes nothing. */
  lemma {:induction false} ScanSymmetric(ps: seq<Pixel>, qs: seq<Pixel>, tolerance: int, n: nat)
    requires n <= |ps| && n <= |qs|
    ensures Scan(ps, qs, tolerance, n) == Scan(qs, ps, tolerance, n)
  {
    if n > 0 {
      ScanSymmetric(ps, qs, tolerance, n - 1);
      PixelDiffSymmetric(ps[n - 1], qs[n - 1]);
    }
  }

  // ---------------------------------------------------------------------------
  // fuzzy and exact

  /**
   * `Compare::fuzzy`. Images of different sizes never match and carry no
   * statistics. Images of the same size with no pixels match (the "one image
   * empty" case cannot arise once the sizes agree). Otherwise every pixel is
   * compared; the images match when no pixel's largest channel difference
   * exceeds the tolerance, the percentage lies between 0 and 100 and is 0
   * exactly on a match, and the average channel difference never exceeds the
   * largest.
   */
  function Fuzzy(img1: Image, img2: Image, tolerance: int): (r: CompareResult)
    ensures !SameShape(img1, img2) ==> !r.isMatch && r.totalPixels == 0 && r.differentPixels == 0
    ensures SameShape(img1, img2) && Empty(img1) ==> r.isMatch && r.totalPixels == 0 && r.differentPixels == 0
    ensures SameShape(img1, img2) && !Empty(img1) ==> r.totalPixels == img1.width * img1.height
    ensures r.differentPixels <= r.totalPixels
    ensures r.isMatch <==> SameShape(img1, img2) && r.differentPixels == 0
    ensures 0.0 <= r.differencePercent <= 100.0
    ensures r.differencePercent == 0.0 <==> r.differentPixels == 0
    ensures SameShape(img1, img2) && !Empty(img1) ==>
              r.differencePercent == 100.0 * r.differentPixels as real / |img1.pixels| as real
    ensures 0.0 <= r.avgChannelDiff <= r.maxChannelDiff as real
    ensures r.maxChannelDiff <= 255
  {
    if !SameShape(img1, img2) then NoMatch
    else if Empty(img1) || Empty(img2) then NoMatch.(isMatch := Empty(img1) && Empty(img2))
    else
      var n := img1.width * img1.height;
      var t := Scan(img1.pixels, img2.pixels, tolerance, n);
      ScanTotalBound(img1.pixels, img2.pixels, tolerance, n);
      AverageBound(t.totalDiff, t.maxDiff, n);
      PercentBound(t.different, n);
      CompareResult(
        t.different == 0,
        t.different,
        n,
        100.0 * t.different as real / n as real,
        t.maxDiff,
        t.totalDiff as real / (4 * n) as real)
  }

  lemma AverageBound(total: nat, max: nat, n: nat)
    requires n > 0 && total <= 4 * n * max
    ensures 0.0 <= total as real / (4 * n) as real <= max as real
  {
    assert total as real <= (4 * n) as real * max as real;
  }

  lemma PercentBound(count: nat, n: nat)
    requires 0 < n && count <= n
    ensures 0.0 <= 100.0 * count as real / n as real <= 100.0
    ensures 100.0 * count as real / n as real == 0.0 <==> count == 0
  {
    assert 100.0 * count as real <= 100.0 * n as real;
  }

  /** A percentage `100 * count / n` is within a threshold exactly when `100 * count` is within the threshold times `n`. */
  lemma PercentWithin(count: nat, n: nat, maxPercent: real)
    requires 0 < n
    ensures 100.0 * count as real / n as real <= maxPercent <==> 100.0 * count as real <= maxPercent * n as real
  {
    var p := 100.0 * count as real / n as real;
    assert p * n as real == 100.0 * count as real;
    if p <= maxPercent {
      assert p * n as real <= maxPercent * n as real;
    } else {
      assert maxPercent * n as real < p * n as real;
    }
  }

  /** On images of the same size, `fuzzy` reports the state of the loop after the last pixel. */
  lemma FuzzyIsScan(img1: Image, img2: Image, tolerance: int)
    requires SameShape(img1, img2) && !Empty(img1)
    ensures var t := Scan(img1.pixels, img2.pixels, tolerance, |img1.pixels|);
            var r := Fuzzy(img1, img2, tolerance);
            r.differentPixels == t.different && r.maxChannelDiff == t.maxDiff && r.totalPixels == |img1.pixels|
  {
  }

  /** The pixel at a coordinate is the one at its row-major index. */
  lemma PixelAtCoordinate(img: Image, x: nat, y: nat)
    requires InBounds(img, x, y)
    ensures y * img.width + x < |img.pixels|
    ensures PixelAt(img, x, y) == img.pixels[y * img.width + x]
  {
    Arith.IndexInGrid(x, y, img.width, img.height);
  }

  /** A bound on the difference at every index bounds it at a coordinate. */
  lemma BoundAtCoordinate(img1: Image, img2: Image, bound: int, x: nat, y: nat)
    requires SameShape(img1, img2) && InBounds(img1, x, y)
    requires forall i :: 0 <= i < |img1.pixels| ==> PixelDiff(img1.pixels[i], img2.pixels[i]) <= bound
    ensures PixelDiff(PixelAt(img1, x, y), PixelAt(img2, x, y)) <= bound
  {
    PixelAtCoordinate(img1, x, y);
    PixelAtCoordinate(img2, x, y);
  }

  /** A per-pixel bound holds at every index exactly when it holds at every coordinate. */
  lemma WithinToleranceEverywhere(img1: Image, img2: Image, tolerance: int)
    requires SameShape(img1, img2)
    ensures (forall i :: 0 <= i < |img1.pixels| ==> PixelDiff(img1.pixels[i], img2.pixels[i]) <= tolerance)
        <==> (forall x: nat, y: nat :: InBounds(img1, x, y) ==>
                PixelDiff(PixelAt(img1, x, y), PixelAt(img2, x, y)) <= tolerance)
  {
    if forall x: nat, y: nat :: InBounds(img1, x, y) ==> PixelDiff(PixelAt(img1, x, y), PixelAt(img2, x, y)) <= tolerance {
      forall i | 0 <= i < |img1.pixels|
        ensures PixelDiff(img1.pixels[i], img2.pixels[i]) <= tolerance
      {
        PixelAtIndex(img1, i);
        PixelAtIndex(img2, i);
      }
    }
    if forall i :: 0 <= i < |img1.pixels| ==> PixelDiff(img1.pixels[i], img2.pixels[i]) <= tolerance {
      forall x: nat, y: nat | InBounds(img1, x, y)
        ensures PixelDiff(PixelAt(img1, x, y), PixelAt(img2, x, y)) <= tolerance
      {
        BoundAtCoordinate(img1, img2, tolerance, x, y);
      }
    }
  }

  /** Two images match under `fuzzy` exactly when they have the same size and every pixel is within tolerance. */
  lemma FuzzyMatchIff(img1: Image, img2: Image, tolerance: int)
    ensures Fuzzy(img1, img2, tolerance).isMatch
        <==> SameShape(img1, img2)
             && forall x: nat, y: nat :: InBounds(img1, x, y) ==>
                  PixelDiff(PixelAt(img1, x, y), PixelAt(img2, x, y)) <= tolerance
  {
    if SameShape(img1, img2) {
      ScanNoneDiffering(img1.pixels, img2.pixels, tolerance, |img1.pixels|);
      WithinToleranceEverywhere(img1, img2, tolerance);
    }
  }

  /** On images of the same size, the counter is the number of pixels beyond the tolerance. */
  lemma FuzzyCountsDiffering(img1: Image, img2: Image, tolerance: int)
    requires SameShape(img1, img2)
    ensures Fuzzy(img1, img2, tolerance).differentPixels
            == |DifferingIndices(img1.pixels, img2.pixels, tolerance, |img1.pixels|)|
  {
    ScanCountsDiffering(img1.pixels, img2.pixels, tolerance, |img1.pixels|);
    if Empty(img1) {
      assert DifferingIndices(img1.pixels, img2.pixels, tolerance, |img1.pixels|) == {};
    } else {
      FuzzyIsScan(img1, img2, tolerance);
    }
  }

  /**
   * On images of the same size, the largest channel difference bounds every
   * pixel's difference and is attained by some pixel.
   */
  lemma FuzzyMaxIsAttained(img1: Image, img2: Image, tolerance: int)
    requires SameShape(img1, img2) && !Empty(img1)
    ensures forall x: nat, y: nat :: InBounds(img1, x, y) ==>
              PixelDiff(PixelAt(img1, x, y), PixelAt(img2, x, y)) <= Fuzzy(img1, img2, tolerance).maxChannelDiff
    ensures exists x: nat, y: nat :: InBounds(img1, x, y) &&
              PixelDiff(PixelAt(img1, x, y), PixelAt(img2, x, y)) == Fuzzy(img1, img2, tolerance).maxChannelDiff
  {
    FuzzyIsScan(img1, img2, tolerance);
    MaxBoundsCoordinates(img1, img2, tolerance);
    MaxAttainedAtCoordinate(img1, img2, tolerance);
  }

  lemma MaxBoundsCoordinates(img1: Image, img2: Image, tolerance: int)
    requires SameShape(img1, img2)
    ensures forall x: nat, y: nat :: InBounds(img1, x, y) ==>
              PixelDiff(PixelAt(img1, x, y), PixelAt(img2, x, y)) <= Scan(img1.pixels, img2.pixels, tolerance, |img1.pixels|).maxDiff
  {
    var m := Scan(img1.pixels, img2.pixels, tolerance, |img1.pixels|).maxDiff;
    ScanMaxBounds(img1.pixels, img2.pixels, tolerance, |img1.pixels|);
    forall x: nat, y: nat | InBounds(img1, x, y)
      ensures PixelDiff(PixelAt(img1, x, y), PixelAt(img2, x, y)) <= m
    {
      BoundAtCoordinate(img1, img2, m, x, y);
    }
  }

  lemma MaxAttainedAtCoordinate(img1: Image, img2: Image, tolerance: int)
    requires SameShape(img1, img2) && !Empty(img1)
    ensures exists x: nat, y: nat :: InBounds(img1, x, y) &&
              PixelDiff(PixelAt(img1, x, y), PixelAt(img2, x, y)) == Scan(img1.pixels, img2.pixels, tolerance, |img1.pixels|).maxDiff
  {
    var n := |img1.pixels|;
    var m := Scan(img1.pixels, img2.pixels, tolerance, n).maxDiff;
    ScanMaxAttained(img1.pixels, img2.pixels, tolerance, n);
    var i :| 0 <= i < n && PixelDiff(img1.pixels[i], img2.pixels[i]) == m;
    PixelAtIndex(img1, i);
    PixelAtIndex(img2, i);
    var x, y := Arith.Col(i, img1.width), Arith.Row(i, img1.width);
    assert InBounds(img1, x, y) && PixelDiff(PixelAt(img1, x, y), PixelAt(img2, x, y)) == m;
  }

  /** An image always matches itself under a non-negative tolerance, with zero statistics. */
  lemma FuzzyReflexive(img: Image, tolerance: int)
    requires tolerance >= 0
    ensures Fuzzy(img, img, tolerance).isMatch
    ensures Fuzzy(img, img, tolerance).maxChannelDiff == 0
    ensures Fuzzy(img, img, tolerance).avgChannelDiff == 0.0
  {
    var n := img.width * img.height;
    ScanNoneDiffering(img.pixels, img.pixels, tolerance, n);
    ScanMaxAttained(img.pixels, img.pixels, tolerance, n);
    ScanTotalZero(img.pixels, img.pixels, tolerance, n);
  }

  /** The comparison does not depend on which image comes first. */
  lemma FuzzySymmetric(img1: Image, img2: Image, tolerance: int)
    ensures Fuzzy(img1, img2, tolerance) == Fuzzy(img2, img1, tolerance)
  {
    if SameShape(img1, img2) {
      ScanSymmetric(img1.pixels, img2.pixels, tolerance, img1.width * img1.height);
    }
  }

  /** Raising the tolerance never un-matches a pair and never counts more differing pixels. */
  lemma FuzzyToleranceMonotone(img1: Image, img2: Image, t1: int, t2: int)
    requires t1 <= t2
    ensures Fuzzy(img1, img2, t2).differentPixels <= Fuzzy(img1, img2, t1).differentPixels
    ensures Fuzzy(img1, img2, t1).isMatch ==> Fuzzy(img1, img2, t2).isMatch
    ensures Fuzzy(img1, img2, t2).maxChannelDiff == Fuzzy(img1, img2, t1).maxChannelDiff
  {
    if SameShape(img1, img2) {
      ScanToleranceMonotone(img1.pixels, img2.pixels, t1, t2, img1.width * img1.height);
    }
  }

  /** A tolerance of 255 or more admits every channel difference: no pixel is ever counted. */
  lemma FuzzyFullTolerance(img1: Image, img2: Image, tolerance: int)
    requires tolerance >= 255
    ensures Fuzzy(img1, img2, tolerance).differentPixels == 0
    ensures Fuzzy(img1, img2, tolerance).isMatch <==> SameShape(img1, img2)
  {
    if SameShape(img1, img2) {
      ScanNoneDiffering(img1.pixels, img2.pixels, tolerance, img1.width * img1.height);
    }
  }

  /** A negative tolerance counts every pixel as different. */
  lemma FuzzyNegativeTolerance(img1: Image, img2: Image, tolerance: int)
    requires tolerance < 0 && SameShape(img1, img2)
    ensures Fuzzy(img1, img2, tolerance).differentPixels == Fuzzy(img1, img2, tolerance).totalPixels
  {
    ScanAllDiffering(img1.pixels, img2.pixels, tolerance, img1.width * img1.height);
  }

  lemma {:induction false} ScanAllDiffering(ps: seq<Pixel>, qs: seq<Pixel>, tolerance: int, n: nat)
    requires n <= |ps| && n <= |qs| && tolerance < 0
    ensures Scan(ps, qs, tolerance, n).different == n
  {
    if n > 0 {
      ScanAllDiffering(ps, qs, tolerance, n - 1);
    }
  }

  /** `Compare::exact`: the images match exactly when they are equal, size and pixels. */
  function Exact(img1: Image, img2: Image): (r: CompareResult)
    ensures r.isMatch <==> img1 == img2
    ensures r.differentPixels == 0 <==> !SameShape(img1, img2) || img1 == img2
  {
    var r := Fuzzy(img1, img2, 0);
    assert SameShape(img1, img2) ==> (r.differentPixels == 0 <==> img1.pixels == img2.pixels) by {
      if SameShape(img1, img2) {
        ScanNoneDiffering(img1.pixels, img2.pixels, 0, img1.width * img1.height);
      }
    }
    r
  }

  // ---------------------------------------------------------------------------
  // fuzzy_percent

  /**
   * `Compare::fuzzy_percent` as written: the statistics come from `fuzzy` with
   * tolerance 255, which counts no pixel, so the percentage is always 0 and
   * the verdict depends on the threshold alone.
   */
  function FuzzyPercentAsWritten(img1: Image, img2: Image, maxPercent: real): (r: CompareResult)
    ensures r.differentPixels == 0 && r.differencePercent == 0.0
    ensures r.isMatch <==> 0.0 <= maxPercent
  {
    FuzzyFullTolerance(img1, img2, 255);
    var r := Fuzzy(img1, img2, 255);
    r.(isMatch := r.differencePercent <= maxPercent)
  }

  /** Two 1x1 images, opaque black and opaque white. */
  function Solid1x1(p: Pixel): (img: Image)
    ensures img.width == 1 && img.height == 1 && img.pixels == [p]
  {
    Raster(1, 1, [p])
  }

  /**
   * The as-written comparison accepts a black pixel against a white one at a
   * 0% threshold, and a 1x1 image against a 2x1 image.
   */
  lemma FuzzyPercentAsWrittenAcceptsAnything()
    ensures var black, white := Solid1x1(Pixel(0, 0, 0, 255)), Solid1x1(Pixel(255, 255, 255, 255));
            !Exact(black, white).isMatch && FuzzyPercentAsWritten(black, white, 0.0).isMatch
    ensures var one, two := Solid1x1(Pixel(0, 0, 0, 255)), Raster(2, 1, [Pixel(0, 0, 0, 255), Pixel(0, 0, 0, 255)]);
            !Fuzzy(one, two, 0).isMatch && FuzzyPercentAsWritten(one, two, 0.0).isMatch
  {
  }

  /**
   * `fuzzy_percent` as evidently intended: every pixel that differs at all is
   * counted, and images of different sizes never match. The verdict is the
   * percentage of differing pixels against the threshold.
   */
  function FuzzyPercent(img1: Image, img2: Image, maxPercent: real): (r: CompareResult)
    ensures !SameShape(img1, img2) ==> !r.isMatch
    ensures SameShape(img1, img2) ==> r.differentPixels == |DifferingIndices(img1.pixels, img2.pixels, 0, |img1.pixels|)|
    ensures SameShape(img1, img2) && !Empty(img1) ==>
              (r.isMatch <==> 100.0 * |DifferingIndices(img1.pixels, img2.pixels, 0, |img1.pixels|)| as real
                              <= maxPercent * |img1.pixels| as real)
    ensures SameShape(img1, img2) && Empty(img1) ==> (r.isMatch <==> 0.0 <= maxPercent)
    ensures SameShape(img1, img2) && 100.0 <= maxPercent ==> r.isMatch
    ensures maxPercent < 0.0 ==> !r.isMatch
    ensures 0.0 <= r.differencePercent <= 100.0
  {
    var r := Fuzzy(img1, img2, 0);
    if SameShape(img1, img2) then
      ExactPercentWithin(img1, img2, maxPercent);
      r.(isMatch := r.differencePercent <= maxPercent)
    else
      r.(isMatch := false)
  }

  /** At tolerance 0, `fuzzy`'s percentage is within a threshold exactly when the differing share is. */
  lemma ExactPercentWithin(img1: Image, img2: Image, maxPercent: real)
    requires SameShape(img1, img2)
    ensures var r, d := Fuzzy(img1, img2, 0), DifferingIndices(img1.pixels, img2.pixels, 0, |img1.pixels|);
            r.differentPixels == |d|
            && (!Empty(img1) ==> (r.differencePercent <= maxPercent <==> 100.0 * |d| as real <= maxPercent * |img1.pixels| as real))
  {
    FuzzyCountsDiffering(img1, img2, 0);
    if !Empty(img1) {
      PercentWithin(Fuzzy(img1, img2, 0).differentPixels, |img1.pixels|, maxPercent);
    }
  }

  /** At a 0% threshold the corrected comparison is the exact one. */
  lemma FuzzyPercentZeroIsExact(img1: Image, img2: Image)
    ensures FuzzyPercent(img1, img2, 0.0).isMatch <==> Exact(img1, img2).isMatch
  {
  }

  /** A larger threshold accepts everything a smaller one does. */
  lemma FuzzyPercentMonotone(img1: Image, img2: Image, p1: real, p2: real)
    requires p1 <= p2
    ensures FuzzyPercent(img1, img2, p1).isMatch ==> FuzzyPercent(img1, img2, p2).isMatch
  {
  }

  // ---------------------------------------------------------------------------
  // generate_diff

  /** `min(255, max_diff * 2)`: how strongly a differing pixel is highlighted. */
  function Intensity(d: nat): (i: Byte)
    ensures i <= 2 * d && (i == 255 || i == 2 * d)
  {
    Min(255, 2 * d)
  }

  /** The diff colour of one coordinate of the larger canvas. */
  function DiffPixel(img1: Image, img2: Image, tolerance: int, x: nat, y: nat): Pixel
  {
    var in1, in2 := InBounds(img1, x, y), InBounds(img2, x, y);
    if !in1 && !in2 then Pixel(0, 0, 0, 255)
    else if !in1 then Pixel(0, 255, 0, 255)
    else if !in2 then Pixel(0, 0, 255, 255)
    else
      var p1, p2 := PixelAt(img1, x, y), PixelAt(img2, x, y);
      var d := PixelDiff(p1, p2);
      if d > tolerance then Pixel(255, 255 - Intensity(d), 255 - Intensity(d), 255)
      else Pixel(p1.r / 2, p1.g / 2, p1.b / 2, 255)
  }

  /**
   * `Compare::generate_diff`: an image as large as both inputs together (none
   * if that has no pixels). Coordinates outside both inputs are black, inside
   * only the second green, inside only the first blue. Where both inputs have
   * a pixel, a difference beyond the tolerance shows as full red with the
   * other colours fading as the difference grows; anything else shows the
   * first image's colour at half brightness. Every output pixel is opaque.
   */
  function GenerateDiff(img1: Image, img2: Image, tolerance: int := 0): (diff: Image)
    requires Addressable(Max(img1.width, img2.width), Max(img1.height, img2.height))
    ensures var w, h := Max(img1.width, img2.width), Max(img1.height, img2.height);
            if w == 0 || h == 0 then diff.width == 0 && diff.height == 0
            else diff.width == w && diff.height == h
    ensures forall x: nat, y: nat :: InBounds(diff, x, y) ==> PixelAt(diff, x, y).a == 255
    ensures forall x: nat, y: nat :: InBounds(diff, x, y) && !InBounds(img1, x, y) && !InBounds(img2, x, y)
              ==> PixelAt(diff, x, y) == Pixel(0, 0, 0, 255)
    ensures forall x: nat, y: nat :: InBounds(diff, x, y) && !InBounds(img1, x, y) && InBounds(img2, x, y)
              ==> PixelAt(diff, x, y) == Pixel(0, 255, 0, 255)
    ensures forall x: nat, y: nat :: InBounds(diff, x, y) && InBounds(img1, x, y) && !InBounds(img2, x, y)
              ==> PixelAt(diff, x, y) == Pixel(0, 0, 255, 255)
    ensures forall x: nat, y: nat :: InBounds(img1, x, y) && InBounds(img2, x, y) ==>
              InBounds(diff, x, y) &&
              (PixelAt(diff, x, y).r == 255 <==> PixelDiff(PixelAt(img1, x, y), PixelAt(img2, x, y)) > tolerance)
    ensures forall x: nat, y: nat ::
              (InBounds(img1, x, y) && InBounds(img2, x, y)
               && PixelDiff(PixelAt(img1, x, y), PixelAt(img2, x, y)) <= tolerance) ==>
              InBounds(diff, x, y) &&
              PixelAt(diff, x, y).r == PixelAt(img1, x, y).r / 2 && PixelAt(diff, x, y).g == PixelAt(img1, x, y).g / 2
              && PixelAt(diff, x, y).b == PixelAt(img1, x, y).b / 2
    ensures forall x: nat, y: nat ::
              (InBounds(img1, x, y) && InBounds(img2, x, y)
               && PixelDiff(PixelAt(img1, x, y), PixelAt(img2, x, y)) > tolerance) ==>
              InBounds(diff, x, y) &&
              PixelAt(diff, x, y).g == PixelAt(diff, x, y).b
              && PixelAt(diff, x, y).g + Intensity(PixelDiff(PixelAt(img1, x, y), PixelAt(img2, x, y))) == 255
  {
    var w, h := Max(img1.width, img2.width), Max(img1.height, img2.height);
    if w == 0 || h == 0 then DefaultImage()
    else Tabulate(w, h, (x: nat, y: nat) => DiffPixel(img1, img2, tolerance, x, y))
  }

  /**
   * On images of the same size, the diff image is full red at exactly the
   * pixels `fuzzy` counts as different.
   */
  lemma GenerateDiffMarksFuzzyDifferences(img1: Image, img2: Image, tolerance: int)
    requires SameShape(img1, img2)
    ensures var diff := GenerateDiff(img1, img2, tolerance);
            |diff.pixels| == |img1.pixels|
            && Fuzzy(img1, img2, tolerance).differentPixels == |set i: nat | i < |diff.pixels| && diff.pixels[i].r == 255|
  {
    var diff := GenerateDiff(img1, img2, tolerance);
    var n := |img1.pixels|;
    FuzzyCountsDiffering(img1, img2, tolerance);
    forall i: nat | i < n
      ensures diff.pixels[i].r == 255 <==> PixelDiff(img1.pixels[i], img2.pixels[i]) > tolerance
    {
      DiffRedAtIndex(img1, img2, tolerance, i);
    }
    assert (set i: nat | i < |diff.pixels| && diff.pixels[i].r == 255)
        == DifferingIndices(img1.pixels, img2.pixels, tolerance, n);
  }

  lemma DiffRedAtIndex(img1: Image, img2: Image, tolerance: int, i: nat)
    requires SameShape(img1, img2) && i < |img1.pixels|
    ensures var diff := GenerateDiff(img1, img2, tolerance);
            i < |diff.pixels| && (diff.pixels[i].r == 255 <==> PixelDiff(img1.pixels[i], img2.pixels[i]) > tolerance)
  {
    var diff := GenerateDiff(img1, img2, tolerance);
    PixelAtIndex(img1, i);
    PixelAtIndex(img2, i);
    var x, y := Arith.Col(i, img1.width), Arith.Row(i, img1.width);
    assert InBounds(img1, x, y) && InBounds(img2, x, y);
    assert PixelAt(diff, x, y).r == 255 <==> PixelDiff(PixelAt(img1, x, y), PixelAt(img2, x, y)) > tolerance;
    assert diff.width == img1.width;
    PixelAtIndex(diff, i);
  }

  /** Comparing an image with itself highlights nothing: the diff is the image darkened by half. */
  lemma GenerateDiffOfIdentical(img: Image, tolerance: int)
    requires tolerance >= 0
    ensures var diff := GenerateDiff(img, img, tolerance);
            diff.width == img.width || Empty(img)
    ensures var diff := GenerateDiff(img, img, tolerance);
            forall x: nat, y: nat :: InBounds(img, x, y) ==>
              InBounds(diff, x, y) &&
              PixelAt(diff, x, y) == Pixel(PixelAt(img, x, y).r / 2, PixelAt(img, x, y).g / 2, PixelAt(img, x, y).b / 2, 255)
  {
  }
}
