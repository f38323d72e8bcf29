/** Division and multiplication facts used by the row-major index arithmetic. */
module Arithmetic {

  lemma Scaled(a: int, b: int, d: nat)
    ensures a <= b ==> a * d <= b * d
  {
    if a <= b {
      assert (b - a) * d >= 0;
    }
  }

  lemma CellSplit(d: nat, y: int, x: int)
    requires d > 0 && 0 <= x < d
    ensures (y * d + x) / d == y && (y * d + x) % d == x
  {
    var n := y * d + x;
    var k := n / d - y;
    assert k * d == x - n % d;
    Scaled(1, k, d);
    Scaled(k, -1, d);
  }

  /** A cell of a width by height grid has an index below their product. */
  lemma CellInBounds(width: nat, height: nat, y: int, x: int)
    requires 0 <= x < width && 0 <= y < height
    ensures 0 <= y * width + x < width * height
  {
    Scaled(y, height - 1, width);
    Scaled(0, y, width);
  }

  lemma RowOfCell(d: nat, pos: int)
    requires d > 0 && 0 <= pos < d * d
    ensures 0 <= pos / d < d && 0 <= pos % d < d
    ensures pos == pos / d * d + pos % d
  {
    Scaled(d, pos / d, d);
  }

  lemma QuotientBelow(x: nat, d: nat, bound: nat)
    requires x < bound * d
    ensures 0 <= x / d < bound
  {
    Scaled(bound, x / d, d);
    assert x == x / d * d + x % d;
  }

  lemma QuotientBounds(x: int, m: nat, t: int)
    requires m > 0
    ensures x / m < t <==> x < m * t
    ensures x / m == t <==> m * t <= x < m * t + m
  {
    Scaled(x / m + 1, t, m);
    Scaled(t, x / m, m);
    Scaled(t + 1, x / m, m);
    assert m * t == t * m && x == x / m * m + x % m;
  }
}
