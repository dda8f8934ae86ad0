// Arithmetic facts about row-major linearisation and one-period wrapping
// that the solver does not find on its own.

module Arith {

  lemma MulAtLeast(p: int, w: int)
    requires p >= 1 && w >= 1
    ensures p * w >= w
  {
  }

  lemma Distrib(a: int, c: int, w: int)
    ensures c * w - a * w == (c - a) * w
  {
  }

  /** a * w + b with 0 <= b < w determines a and b. */
  lemma LinearUnique(a: int, b: int, c: int, d: int, w: int)
    requires w >= 1 && 0 <= b < w && 0 <= d < w
    requires a * w + b == c * w + d
    ensures a == c && b == d
  {
    if a < c {
      MulAtLeast(c - a, w);
      Distrib(a, c, w);
    } else if c < a {
      MulAtLeast(a - c, w);
      Distrib(c, a, w);
    }
  }

  /** Wrapping by at most one period agrees with the mathematical modulus. */
  lemma ModOnePeriod(x: int, w: int)
    requires w >= 1 && -w <= x < 2 * w
    ensures x % w == (if x < 0 then x + w else if x >= w then x - w else x)
  {
    var q := if x < 0 then -1 else if x >= w then 1 else 0;
    assert x == q * w + (x - q * w);
    LinearUnique(x / w, x % w, q, x - q * w, w);
  }

  /** Row y, column x of a width-by-height world lies in its storage. */
  lemma IndexInRange(x: int, y: int, width: int, height: int)
    requires width >= 1 && height >= 1 && 0 <= x < width && 0 <= y < height
    ensures 0 <= y * width + x < width * height
  {
    MulAtLeast(height - y, width);
    Distrib(y, height, width);
    assert 0 <= y * width;
  }

  /** Row and column of a storage index. */
  lemma RowColumn(k: int, width: int, height: int)
    requires width >= 1 && height >= 1 && 0 <= k < width * height
    ensures 0 <= k % width < width && 0 <= k / width < height
    ensures k == (k / width) * width + k % width
  {
    var q := k / width;
    assert q < height by {
      if q >= height {
        MulAtLeast(q - height + 1, width);
        Distrib(height, q, width);
      }
    }
  }

  /** The storage index of row y, column x has row y and column x. */
  lemma IndexRowColumn(x: int, y: int, width: int, height: int)
    requires width >= 1 && height >= 1 && 0 <= x < width && 0 <= y < height
    ensures (y * width + x) / width == y && (y * width + x) % width == x
  {
    var k := y * width + x;
    IndexInRange(x, y, width, height);
    RowColumn(k, width, height);
    LinearUnique(k / width, k % width, y, x, width);
  }

  /** Euclidean division of height rows among n workers, each getting at least one. */
  lemma DivideRows(height: int, n: int)
    requires 1 <= n <= height
    ensures height == n * (height / n) + height % n
    ensures 0 <= height % n < n && height / n >= 1
  {
    assert n * (height / n) > 0;
    PositiveFactor(n, height / n);
  }

  lemma PositiveFactor(n: int, q: int)
    requires n >= 1 && n * q > 0
    ensures q >= 1
  {
  }

  lemma MulSucc(m: int, q: int)
    ensures (m + 1) * q == m * q + q
  {
  }

  lemma MulMonotone(a: int, b: int, w: int)
    requires a <= b && w >= 1
    ensures a * w <= b * w
  {
    Distrib(a, b, w);
    if a < b {
      MulAtLeast(b - a, w);
    }
  }
}
