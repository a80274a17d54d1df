/** Index arithmetic for the row-major flat grids of Noise.cpp: the cell in
    column x of row y of a grid `width` cells wide sits at `y * width + x`.
    Positions and bands are defined by recursion rather than by `*` and `%`,
    and the lemmas below connect them with the arithmetic the source uses. */
module FlatGrid {

  /** Multiplying by a non-negative width keeps the order of two rows. */
  lemma MulMonotone(a: int, b: int, w: int)
    requires a <= b && 0 <= w
    ensures a * w <= b * w
  {
    assert (b - a) * w >= 0;
  }

  /** Flat position of the first cell of row y. */
  function RowStart(width: nat, y: nat): nat
  {
    if y == 0 then 0 else RowStart(width, y - 1) + width
  }

  /** Row y starts `width * y` cells into the grid, the C++ `a_SizeX * y`. */
  lemma {:induction false} RowStartIsProduct(width: nat, y: nat)
    ensures RowStart(width, y) == width * y
  {
    if y > 0 {
      RowStartIsProduct(width, y - 1);
    }
  }

  /** Flat position of cell (x, y) in a grid `width` cells wide and `height`
      rows high; the cells of the grid occupy exactly [0, width * height). */
  function Pos(width: nat, height: nat, y: int, x: int): (p: nat)
    requires 0 <= y < height && 0 <= x < width
    ensures p < width * height
  {
    RowStartBelow(width, y, height);
    RowStartIsProduct(width, height);
    RowStart(width, y) + x
  }

  /** A row that starts above row y2 ends at or before row y2 starts. */
  lemma {:induction false} RowStartBelow(width: nat, y1: nat, y2: nat)
    requires y1 < y2
    ensures RowStart(width, y1) + width <= RowStart(width, y2)
    decreases y2
  {
    if y1 + 1 < y2 {
      RowStartBelow(width, y1, y2 - 1);
    }
  }

  /** Moving dy rows down moves the flat position by `width * dy`. */
  lemma PosShift(width: nat, height: nat, y: int, dy: int, x: int)
    requires 0 <= y < height && 0 <= y + dy < height && 0 <= x < width
    ensures Pos(width, height, y + dy, x) == Pos(width, height, y, x) + width * dy
  {
    RowStartIsProduct(width, y);
    RowStartIsProduct(width, y + dy);
  }

  /** Two cells of one row-major grid never share a flat position. */
  lemma PosInjective(width: nat, height: nat, y1: int, x1: int, y2: int, x2: int)
    requires 0 <= y1 < height && 0 <= x1 < width
    requires 0 <= y2 < height && 0 <= x2 < width
    requires Pos(width, height, y1, x1) == Pos(width, height, y2, x2)
    ensures y1 == y2 && x1 == x2
  {
    if y1 < y2 {
      RowStartBelow(width, y1, y2);
    } else if y2 < y1 {
      RowStartBelow(width, y2, y1);
    }
  }

  /** Every cell other than (x, y) sits somewhere else. */
  lemma PosDistinct(width: nat, height: nat, y: int, x: int)
    requires 0 <= y < height && 0 <= x < width
    ensures forall y', x' :: 0 <= y' < height && 0 <= x' < width && (y' != y || x' != x) ==>
      Pos(width, height, y', x') != Pos(width, height, y, x)
  {
    forall y', x' | 0 <= y' < height && 0 <= x' < width && (y' != y || x' != x)
      ensures Pos(width, height, y', x') != Pos(width, height, y, x)
    {
      if Pos(width, height, y', x') == Pos(width, height, y, x) {
        PosInjective(width, height, y', x', y, x);
      }
    }
  }

  /** The first index of the band of `step` consecutive indices that holds r,
      when the bands start at 0, step, 2 * step, ... */
  function BandStart(r: nat, step: nat): (b: nat)
    requires 0 < step
    ensures b <= r < b + step
    decreases r
  {
    if r < step then 0 else BandStart(r - step, step) + step
  }

  /** Euclidean division is determined by its defining equation. */
  lemma DivModUnique(r: int, step: int, q: int, m: int)
    requires 0 < step && 0 <= m < step && r == q * step + m
    ensures r / step == q && r % step == m
  {
    var q' := r / step;
    assert r == q' * step + r % step;
    if q' < q {
      MulMonotone(q' + 1, q, step);
    } else if q < q' {
      MulMonotone(q + 1, q', step);
    }
  }

  /** The number of whole bands below r's band. */
  function BandIndex(r: nat, step: nat): nat
    requires 0 < step
    decreases r
  {
    if r < step then 0 else BandIndex(r - step, step) + 1
  }

  /** r's band starts after BandIndex(r, step) whole bands. */
  lemma {:induction false} BandStartIsMultiple(r: nat, step: nat)
    requires 0 < step
    ensures BandStart(r, step) == BandIndex(r, step) * step
    decreases r
  {
    if r >= step {
      BandStartIsMultiple(r - step, step);
      var q := BandIndex(r - step, step);
      assert (q + 1) * step == q * step + step;
    }
  }

  /** BandStart rounds down to a multiple of step: it is `r - r % step`, and
      the band index is `r / step`. */
  lemma BandStartIsRoundDown(r: nat, step: nat)
    requires 0 < step
    ensures BandStart(r, step) == r - r % step
    ensures BandIndex(r, step) == r / step
  {
    BandStartIsMultiple(r, step);
    DivModUnique(r, step, BandIndex(r, step), r - BandStart(r, step));
  }

  /** r lies in the band that starts at the band start y exactly when
      y <= r < y + step. */
  lemma {:induction false} BandOf(r: nat, step: nat, y: nat)
    requires 0 < step && BandStart(y, step) == y
    requires y <= r < y + step
    ensures BandStart(r, step) == y
    decreases r
  {
    if y >= step {
      BandOf(r - step, step, y - step);
    }
  }

  /** A band start y at or below r is at or below r's own band start. */
  lemma {:induction false} BandStartAbove(r: nat, step: nat, y: nat)
    requires 0 < step && BandStart(y, step) == y
    requires y <= r
    ensures y <= BandStart(r, step)
    decreases r
  {
    if y >= step {
      BandStartAbove(r - step, step, y - step);
    }
  }
}
