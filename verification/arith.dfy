/** Division, remainder and row-major index facts shared by the image and bit models. */
module Arith {

  /** Euclidean quotient and remainder are determined by any decomposition `a == q*d + r`. */
  lemma DivModUnique(a: int, d: int, q: int, r: int)
    requires d > 0 && 0 <= r < d
    requires a == q * d + r
    ensures a / d == q && a % d == r
  {
    var q', r' := a / d, a % d;
    assert a == q' * d + r';
    if q > q' {
      assert (q - q') * d >= d by { MulMonotone(1, q - q', d); }
    } else if q < q' {
      assert (q' - q) * d >= d by { MulMonotone(1, q' - q, d); }
    }
  }

  lemma MulMonotone(a: int, b: int, c: int)
    requires a <= b && c >= 0
    ensures a * c <= b * c
  {
    assert b * c - a * c == (b - a) * c;
  }

  /** Row-major index of an in-range coordinate lies inside the grid. */
  lemma IndexInGrid(x: nat, y: nat, w: nat, h: nat)
    requires x < w && y < h
    ensures y * w + x < w * h
  {
    MulMonotone(y + 1, h, w);
    assert (y + 1) * w == y * w + w;
  }

  /** A row-major index decomposes back into its column and row. */
  lemma IndexDecompose(x: nat, y: nat, w: nat)
    requires x < w
    ensures (y * w + x) / w == y && (y * w + x) % w == x
  {
    DivModUnique(y * w + x, w, y, x);
  }

  /** Two in-range coordinates share a row-major index only if they are the same coordinate. */
  lemma IndexInjective(x: nat, y: nat, x': nat, y': nat, w: nat)
    requires x < w && x' < w
    requires y * w + x == y' * w + x'
    ensures x == x' && y == y'
  {
    IndexDecompose(x, y, w);
    IndexDecompose(x', y', w);
  }

  /** The quotient and remainder of a natural number by a positive one are natural. */
  lemma QuotientNat(i: nat, w: nat)
    requires w > 0
    ensures i / w >= 0 && 0 <= i % w < w
  {
    if i / w < 0 {
      MulMonotone(i / w, -1, w);
    }
  }

  /** The column of row-major index `i` in rows of `w`. */
  function Col(i: nat, w: nat): (x: nat)
    requires w > 0
    ensures x < w
  {
    QuotientNat(i, w);
    i % w
  }

  /** The row of row-major index `i` in rows of `w`. */
  function Row(i: nat, w: nat): (y: nat)
    requires w > 0
  {
    QuotientNat(i, w);
    i / w
  }

  /** Every index below `w*h` is the row-major index of a coordinate inside the grid. */
  lemma IndexSplit(i: nat, w: nat, h: nat)
    requires i < w * h
    ensures w > 0 && Row(i, w) < h
    ensures Row(i, w) * w + Col(i, w) == i
  {
    assert w != 0;
    var y := Row(i, w);
    if y >= h {
      MulMonotone(h, y, w);
    }
  }

  /** Remainder modulo an even divisor, from the halved value. */
  lemma ModDouble(p: nat, h: nat)
    requires h > 0
    ensures p % (2 * h) == 2 * ((p / 2) % h) + p % 2
    ensures p / (2 * h) == (p / 2) / h
  {
    var q, r := (p / 2) / h, (p / 2) % h;
    assert p / 2 == q * h + r;
    assert p == q * (2 * h) + (2 * r + p % 2);
    DivModUnique(p, 2 * h, q, 2 * r + p % 2);
  }
}
