/** Facts about the mathematical remainder that rings and cyclic scans rely on. */
module Remainders {
  lemma FactorAtLeastOne(d: int, n: int)
    requires d >= 1 && n > 0
    ensures d * n >= n
  {
    assert (d - 1) * n >= 0;
    assert d * n == (d - 1) * n + n;
  }

  lemma RemainderIsUnique(a: int, n: int, q: int, r: int)
    requires n > 0 && 0 <= r < n && a == q * n + r
    ensures a % n == r
  {
    var q', r' := a / n, a % n;
    assert a == q' * n + r' && 0 <= r' < n;
    assert (q - q') * n == q * n - q' * n && (q' - q) * n == q' * n - q * n;
    if q > q' {
      FactorAtLeastOne(q - q', n);
    } else if q < q' {
      FactorAtLeastOne(q' - q, n);
    }
  }

  lemma SameResidueApart(x: int, y: int, width: int)
    requires width > 0 && x % width == y % width && x != y
    ensures y >= x + width || x >= y + width
  {
    var a, b := x / width, y / width;
    assert x == a * width + x % width && y == b * width + y % width;
    if b > a {
      FactorAtLeastOne(b - a, width);
      assert (b - a) * width == b * width - a * width;
    } else if a > b {
      FactorAtLeastOne(a - b, width);
      assert (a - b) * width == a * width - b * width;
    }
  }
}
