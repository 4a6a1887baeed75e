/** Row-major positions, as pixels, matrix rows, layers and chunks use them, and the guards that keep products
    of counts within a limit. Both are nonlinear integer arithmetic, which the other modules leave to the
    lemmas stated here. */
module Indexing {

  /** The position of an entry in rows of the given width. */
  function Position(width: nat, row: nat, column: nat): nat {
    row * width + column
  }

  /** Quotient and remainder give row and column back. */
  lemma PositionOf(width: nat, row: nat, column: nat)
    requires column < width
    ensures Position(width, row, column) / width == row && Position(width, row, column) % width == column
  {
    var p := row * width + column;
    var d := p / width - row;
    assert (p / width) * width + p % width == p;
    assert d * width == column - p % width;
    assert d >= 1 ==> d * width >= width;
    assert d <= -1 ==> d * width <= -1 * width;
  }

  lemma PositionInRange(width: nat, rows: nat, row: nat, column: nat)
    requires row < rows && column < width
    ensures Position(width, row, column) < rows * width
  {
    assert (row + 1) * width <= rows * width;
  }

  lemma RowInRange(width: nat, rows: nat, position: nat)
    requires position < rows * width
    ensures 0 < width && position / width < rows
    ensures Position(width, position / width, position % width) == position
  {
    if width > 0 {
      var row := position / width;
      assert row * width <= position;
      assert row >= rows ==> row * width >= rows * width;
    }
  }

  /** Rows and columns correspond to positions one to one. */
  lemma PositionIsBijective(width: nat, rows: nat, position: nat)
    requires position < rows * width
    ensures 0 < width
    ensures var row, column := position / width, position % width;
            && row < rows && column < width && Position(width, row, column) == position
            && forall r, c :: 0 <= r && 0 <= c < width && Position(width, r, c) == position ==> r == row && c == column
  {
    RowInRange(width, rows, position);
    forall r, c | 0 <= r && 0 <= c < width && Position(width, r, c) == position
      ensures r == position / width && c == position % width
    {
      PositionOf(width, r, c);
    }
  }

  lemma QuotientGuard(a: nat, b: nat, limit: nat)
    requires 0 < b
    ensures a > limit / b <==> a * b > limit
  {
    var q := limit / b;
    if a > q {
      assert a * b >= (q + 1) * b;
    } else {
      assert a * b <= q * b;
    }
  }

  /** Two guards made of quotients let exactly those counts pass whose triple product is within the limit;
      neither of the two products computed on the way exceeds it. */
  lemma QuotientGuards(a: nat, b: nat, c: nat, limit: nat)
    requires 0 < b && 0 < c
    ensures a > limit / b || a * b > limit / c <==> a * b * c > limit
    ensures a <= limit / b ==> a * b <= limit
  {
    var product := a * b;
    QuotientGuard(a, b, limit);
    QuotientGuard(product, c, limit);
    NotLess(product, c);
  }

  lemma NotLess(product: nat, c: nat)
    requires 0 < c
    ensures product * c >= product
  {
  }
}
