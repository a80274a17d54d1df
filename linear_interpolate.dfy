/** IntArrayLinearInterpolate2D (source/Noise.cpp:23-64): a flat int grid
    whose values are correct at anchor cells spaced stepX apart along a row and
    stepY apart down a column is filled in place, first down the anchor columns
    between anchor rows, then along every row between anchor columns, with C++
    integer arithmetic. Integers are unbounded here: the C++ products
    `CellY * Diff` and differences `EndValue - StartValue` can overflow a 32-bit
    int, which this model does not reproduce. */
module LinearInterpolate {
  import opened FlatGrid

  /** C++ integer division by a positive divisor (Dafny's own `/` is
      Euclidean and rounds negative quotients down instead). */
  function TruncDiv(a: int, b: int): int
    requires 0 < b
  {
    if 0 <= a then a / b else -((-a) / b)
  }

  /** TruncDiv is C++ division: the quotient is truncated toward zero, so the
      remainder is smaller than the divisor and has the sign of the dividend. */
  lemma TruncDivTruncates(a: int, b: int)
    requires 0 < b
    ensures 0 <= a ==> 0 <= a - TruncDiv(a, b) * b < b
    ensures a < 0 ==> -b < a - TruncDiv(a, b) * b <= 0
  {
  }

  /** The value the source writes c cells past the anchor value s on the way
      to the anchor value e that lies step cells further:
      `StartValue + Cell * Diff / Step`. */
  function Lerp(s: int, e: int, c: int, step: int): int
    requires 0 < step
  {
    s + TruncDiv(c * (e - s), step)
  }

  /** Every interpolated value lies between the two anchors it comes from. */
  lemma LerpBetween(s: int, e: int, c: int, step: int)
    requires 0 < step && 0 <= c <= step
    ensures (if s <= e then s else e) <= Lerp(s, e, c, step) <= (if s <= e then e else s)
  {
    var q := TruncDiv(c * (e - s), step);
    TruncDivTruncates(c * (e - s), step);
    if s <= e {
      MulMonotone(0, c, e - s);
      MulMonotone(c, step, e - s);
      if q < 0 { MulMonotone(q, -1, step); }
      if q > e - s { MulMonotone(e - s + 1, q, step); }
    } else {
      MulMonotone(0, c, s - e);
      MulMonotone(c, step, s - e);
      if q > 0 { MulMonotone(1, q, step); }
      if q < e - s { MulMonotone(q, e - s - 1, step); }
    }
  }

  /** At offset 0 the interpolation gives the start anchor, at offset step the
      end anchor. */
  lemma LerpEnds(s: int, e: int, step: int)
    requires 0 < step
    ensures Lerp(s, e, 0, step) == s
    ensures Lerp(s, e, step, step) == e
  {
    var q := TruncDiv(step * (e - s), step);
    TruncDivTruncates(step * (e - s), step);
    if q < e - s {
      MulMonotone(q + 1, e - s, step);
    } else if q > e - s {
      MulMonotone(e - s + 1, q, step);
    }
  }

  /** What pass 1 (lines 30-45) leaves in cell (x, r): a cell of an anchor
      column that lies strictly inside a full band of anchor rows gets the
      interpolation between the anchor rows above and below it; every other
      cell keeps its value. */
  ghost function ColumnPass(s: seq<int>, sizeX: nat, sizeY: nat, stepX: int, stepY: int, r: int, x: int): int
    requires 0 < stepX && 0 < stepY && sizeX * sizeY <= |s|
    requires 0 <= r < sizeY && 0 <= x < sizeX
  {
    var y0 := BandStart(r, stepY);
    var c := r - y0;
    if BandStart(x, stepX) == x && c != 0 && y0 < sizeY - stepY then
      Lerp(s[Pos(sizeX, sizeY, y0, x)], s[Pos(sizeX, sizeY, y0 + stepY, x)], c, stepY)
    else
      s[Pos(sizeX, sizeY, r, x)]
  }

  /** What pass 2 (lines 48-63) leaves in cell (x, r) of t: a cell that lies
      strictly inside a full band of anchor columns gets the interpolation
      between the anchor columns left and right of it in the same row; every
      other cell keeps its value. */
  ghost function RowPass(t: seq<int>, sizeX: nat, sizeY: nat, stepX: int, r: int, x: int): int
    requires 0 < stepX && sizeX * sizeY <= |t|
    requires 0 <= r < sizeY && 0 <= x < sizeX
  {
    var x0 := BandStart(x, stepX);
    var d := x - x0;
    if d != 0 && x0 < sizeX - stepX then
      Lerp(t[Pos(sizeX, sizeY, r, x0)], t[Pos(sizeX, sizeY, r, x0 + stepX)], d, stepX)
    else
      t[Pos(sizeX, sizeY, r, x)]
  }

  /** The final value of cell (x, r): pass 2 applied to what pass 1 left. */
  ghost function Interpolated(s: seq<int>, sizeX: nat, sizeY: nat, stepX: int, stepY: int, r: int, x: int): int
    requires 0 < stepX && 0 < stepY && sizeX * sizeY <= |s|
    requires 0 <= r < sizeY && 0 <= x < sizeX
  {
    var x0 := BandStart(x, stepX);
    var d := x - x0;
    if d != 0 && x0 < sizeX - stepX then
      Lerp(ColumnPass(s, sizeX, sizeY, stepX, stepY, r, x0),
           ColumnPass(s, sizeX, sizeY, stepX, stepY, r, x0 + stepX), d, stepX)
    else
      ColumnPass(s, sizeX, sizeY, stepX, stepY, r, x)
  }

  /** Pass 1 has finished every band of anchor rows above row y of the
      original grid s, and left the rest of a as it was. */
  ghost predicate ColumnsDoneAbove(a: seq<int>, s: seq<int>, sizeX: nat, sizeY: nat, stepX: int, stepY: int, y: int)
    requires 0 < stepX && 0 < stepY && sizeX * sizeY <= |s|
  {
    && |a| == |s|
    && (forall r, xx {:trigger a[Pos(sizeX, sizeY, r, xx)]} :: 0 <= r < sizeY && 0 <= xx < sizeX ==>
          a[Pos(sizeX, sizeY, r, xx)] ==
            if r < y then ColumnPass(s, sizeX, sizeY, stepX, stepY, r, xx) else s[Pos(sizeX, sizeY, r, xx)])
    && (forall i :: sizeX * sizeY <= i < |a| ==> a[i] == s[i])
  }

  /** Pass 1 (source/Noise.cpp:29-45). */
  method InterpolateColumns(a: array<int>, sizeX: nat, sizeY: nat, stepX: int, stepY: int)
    requires 0 < stepX && 0 < stepY && sizeX * sizeY <= a.Length
    modifies a
    ensures forall r, x {:trigger a[Pos(sizeX, sizeY, r, x)]} :: 0 <= r < sizeY && 0 <= x < sizeX ==>
      a[Pos(sizeX, sizeY, r, x)] == ColumnPass(old(a[..]), sizeX, sizeY, stepX, stepY, r, x)
    ensures forall i :: sizeX * sizeY <= i < a.Length ==> a[i] == old(a[i])
  {
    ghost var s := a[..];
    var lastYCell := sizeY - stepY;
    var y := 0;
    while y < lastYCell
      invariant 0 <= y && BandStart(y, stepY) == y
      invariant ColumnsDoneAbove(a[..], s, sizeX, sizeY, stepX, stepY, y)
    {
      InterpolateBand(a, sizeX, sizeY, stepX, stepY, y, s);
      y := y + stepY;
    }
    forall r, xx | 0 <= r < sizeY && 0 <= xx < sizeX
      ensures a[Pos(sizeX, sizeY, r, xx)] == ColumnPass(s, sizeX, sizeY, stepX, stepY, r, xx)
    {
      if y <= r {
        BandStartAbove(r, stepY, y);
      }
    }
    assert forall i :: sizeX * sizeY <= i < a.Length ==> a[..][i] == s[i];
  }

  /** Pass 1's innermost loop (source/Noise.cpp:39-42): the cells of anchor
      column x strictly between anchor rows y and y + stepY. */
  method InterpolateColumnCell(a: array<int>, sizeX: nat, sizeY: nat, stepX: int, stepY: int, y: int,
                               x: int, idx: int, startValue: int, diff: int, ghost s: seq<int>)
    requires 0 < stepX && 0 < stepY && sizeX * sizeY <= |s| && |s| == a.Length
    requires 0 <= y < sizeY - stepY && BandStart(y, stepY) == y
    requires 0 <= x < sizeX && BandStart(x, stepX) == x
    requires idx == RowStart(sizeX, y) + x
    requires startValue == s[Pos(sizeX, sizeY, y, x)]
    requires diff == s[Pos(sizeX, sizeY, y + stepY, x)] - startValue
    requires forall r, xx {:trigger a[Pos(sizeX, sizeY, r, xx)]} :: 0 <= r < sizeY && 0 <= xx < sizeX ==>
      a[Pos(sizeX, sizeY, r, xx)] ==
        if r < y || (r < y + stepY && xx < x) || (xx == x && r < y + 1) then ColumnPass(s, sizeX, sizeY, stepX, stepY, r, xx)
        else s[Pos(sizeX, sizeY, r, xx)]
    requires forall i :: sizeX * sizeY <= i < a.Length ==> a[i] == s[i]
    modifies a
    ensures forall r, xx {:trigger a[Pos(sizeX, sizeY, r, xx)]} :: 0 <= r < sizeY && 0 <= xx < sizeX ==>
      a[Pos(sizeX, sizeY, r, xx)] ==
        if r < y || (r < y + stepY && xx < x + 1) then ColumnPass(s, sizeX, sizeY, stepX, stepY, r, xx)
        else s[Pos(sizeX, sizeY, r, xx)]
    ensures forall i :: sizeX * sizeY <= i < a.Length ==> a[i] == s[i]
  {
    var cellY := 1;
    while cellY < stepY
      invariant 1 <= cellY <= stepY
      invariant forall r, xx {:trigger a[Pos(sizeX, sizeY, r, xx)]} :: 0 <= r < sizeY && 0 <= xx < sizeX ==>
        a[Pos(sizeX, sizeY, r, xx)] ==
          if r < y || (r < y + stepY && xx < x) || (xx == x && r < y + cellY) then ColumnPass(s, sizeX, sizeY, stepX, stepY, r, xx)
          else s[Pos(sizeX, sizeY, r, xx)]
      invariant forall i :: sizeX * sizeY <= i < a.Length ==> a[i] == s[i]
    {
      BandOf(y + cellY, stepY, y);
      PosDistinct(sizeX, sizeY, y + cellY, x);
      PosShift(sizeX, sizeY, y, cellY, x);
      assert idx + sizeX * cellY == Pos(sizeX, sizeY, y + cellY, x);
      a[idx + sizeX * cellY] := startValue + TruncDiv(cellY * diff, stepY);
      cellY := cellY + 1;
    }
  }

  /** One iteration of pass 1's outer loop (source/Noise.cpp:33-44): the
      anchor columns of the band of rows that starts at anchor row y. */
  method InterpolateBand(a: array<int>, sizeX: nat, sizeY: nat, stepX: int, stepY: int, y: int, ghost s: seq<int>)
    requires 0 < stepX && 0 < stepY && sizeX * sizeY <= |s|
    requires 0 <= y < sizeY - stepY && BandStart(y, stepY) == y
    requires ColumnsDoneAbove(a[..], s, sizeX, sizeY, stepX, stepY, y)
    modifies a
    ensures ColumnsDoneAbove(a[..], s, sizeX, sizeY, stepX, stepY, y + stepY)
  {
    var idx := sizeX * y;
    RowStartIsProduct(sizeX, y);
    var x := 0;
    while x < sizeX
      invariant 0 <= x && BandStart(x, stepX) == x
      invariant idx == RowStart(sizeX, y) + x
      invariant forall r, xx {:trigger a[Pos(sizeX, sizeY, r, xx)]} :: 0 <= r < sizeY && 0 <= xx < sizeX ==>
        a[Pos(sizeX, sizeY, r, xx)] ==
          if r < y || (r < y + stepY && xx < x) then ColumnPass(s, sizeX, sizeY, stepX, stepY, r, xx)
          else s[Pos(sizeX, sizeY, r, xx)]
      invariant forall i :: sizeX * sizeY <= i < a.Length ==> a[i] == s[i]
    {
      InterpolateAnchorColumn(a, sizeX, sizeY, stepX, stepY, y, x, idx, s);
      idx := idx + stepX;
      x := x + stepX;
    }
  }

  /** One iteration of pass 1's middle loop (source/Noise.cpp:36-43), with
      the anchor values read: anchor column x of the band is interpolated, and
      the columns up to the next anchor column are left as they were. */
  method InterpolateAnchorColumn(a: array<int>, sizeX: nat, sizeY: nat, stepX: int, stepY: int, y: int,
                                 x: int, idx: int, ghost s: seq<int>)
    requires 0 < stepX && 0 < stepY && sizeX * sizeY <= |s| && |s| == a.Length
    requires 0 <= y < sizeY - stepY && BandStart(y, stepY) == y
    requires 0 <= x < sizeX && BandStart(x, stepX) == x
    requires idx == RowStart(sizeX, y) + x
    requires forall r, xx {:trigger a[Pos(sizeX, sizeY, r, xx)]} :: 0 <= r < sizeY && 0 <= xx < sizeX ==>
      a[Pos(sizeX, sizeY, r, xx)] ==
        if r < y || (r < y + stepY && xx < x) then ColumnPass(s, sizeX, sizeY, stepX, stepY, r, xx)
        else s[Pos(sizeX, sizeY, r, xx)]
    requires forall i :: sizeX * sizeY <= i < a.Length ==> a[i] == s[i]
    modifies a
    ensures forall r, xx {:trigger a[Pos(sizeX, sizeY, r, xx)]} :: 0 <= r < sizeY && 0 <= xx < sizeX ==>
      a[Pos(sizeX, sizeY, r, xx)] ==
        if r < y || (r < y + stepY && xx < x + stepX) then ColumnPass(s, sizeX, sizeY, stepX, stepY, r, xx)
        else s[Pos(sizeX, sizeY, r, xx)]
    ensures forall i :: sizeX * sizeY <= i < a.Length ==> a[i] == s[i]
  {
    assert idx == Pos(sizeX, sizeY, y, x);
    PosShift(sizeX, sizeY, y, stepY, x);
    var startValue := a[idx];
    var endValue := a[idx + sizeX * stepY];
    var diff := endValue - startValue;
    InterpolateColumnCell(a, sizeX, sizeY, stepX, stepY, y, x, idx, startValue, diff, s);
    ColumnPassSkipsGap(s, sizeX, sizeY, stepX, stepY, y, x);
  }

  /** Pass 1 leaves alone every column strictly between anchor column x and
      the next one. */
  lemma ColumnPassSkipsGap(s: seq<int>, sizeX: nat, sizeY: nat, stepX: int, stepY: int, y: int, x: int)
    requires 0 < stepX && 0 < stepY && sizeX * sizeY <= |s|
    requires 0 <= y && 0 <= x && BandStart(x, stepX) == x
    ensures forall r, xx :: y <= r < y + stepY && r < sizeY && x < xx < x + stepX && xx < sizeX ==>
      ColumnPass(s, sizeX, sizeY, stepX, stepY, r, xx) == s[Pos(sizeX, sizeY, r, xx)]
  {
    forall r, xx | y <= r < y + stepY && r < sizeY && x < xx < x + stepX && xx < sizeX
      ensures ColumnPass(s, sizeX, sizeY, stepX, stepY, r, xx) == s[Pos(sizeX, sizeY, r, xx)]
    {
      BandOf(xx, stepX, x);
    }
  }

  /** Pass 2 has finished every row above row y of the grid t it started
      from, and left the rest of a as it was. */
  ghost predicate RowsDoneAbove(a: seq<int>, t: seq<int>, sizeX: nat, sizeY: nat, stepX: int, y: int)
    requires 0 < stepX && sizeX * sizeY <= |t|
  {
    && |a| == |t|
    && (forall r, xx {:trigger a[Pos(sizeX, sizeY, r, xx)]} :: 0 <= r < sizeY && 0 <= xx < sizeX ==>
          a[Pos(sizeX, sizeY, r, xx)] ==
            if r < y then RowPass(t, sizeX, sizeY, stepX, r, xx) else t[Pos(sizeX, sizeY, r, xx)])
    && (forall i :: sizeX * sizeY <= i < |a| ==> a[i] == t[i])
  }

  /** Pass 2 (source/Noise.cpp:47-63). */
  method InterpolateRows(a: array<int>, sizeX: nat, sizeY: nat, stepX: int)
    requires 0 < stepX && sizeX * sizeY <= a.Length
    modifies a
    ensures forall r, x {:trigger a[Pos(sizeX, sizeY, r, x)]} :: 0 <= r < sizeY && 0 <= x < sizeX ==>
      a[Pos(sizeX, sizeY, r, x)] == RowPass(old(a[..]), sizeX, sizeY, stepX, r, x)
    ensures forall i :: sizeX * sizeY <= i < a.Length ==> a[i] == old(a[i])
  {
    ghost var t := a[..];
    var y := 0;
    while y < sizeY
      invariant 0 <= y <= sizeY
      invariant RowsDoneAbove(a[..], t, sizeX, sizeY, stepX, y)
    {
      InterpolateRow(a, sizeX, sizeY, stepX, y, t);
      y := y + 1;
    }
    assert forall i :: sizeX * sizeY <= i < a.Length ==> a[..][i] == t[i];
  }

  /** Pass 2's innermost loop (source/Noise.cpp:57-60): the cells strictly
      between anchor columns x and x + stepX of row y. */
  method InterpolateRowCell(a: array<int>, sizeX: nat, sizeY: nat, stepX: int, y: int, x: int,
                            idx: int, startValue: int, diff: int, ghost t: seq<int>)
    requires 0 < stepX && sizeX * sizeY <= |t| && |t| == a.Length
    requires 0 <= y < sizeY && 0 <= x < sizeX - stepX && BandStart(x, stepX) == x
    requires idx == RowStart(sizeX, y) + x
    requires startValue == t[Pos(sizeX, sizeY, y, x)]
    requires diff == t[Pos(sizeX, sizeY, y, x + stepX)] - startValue
    requires forall r, xx {:trigger a[Pos(sizeX, sizeY, r, xx)]} :: 0 <= r < sizeY && 0 <= xx < sizeX ==>
      a[Pos(sizeX, sizeY, r, xx)] ==
        if r < y || (r == y && xx < x + 1) then RowPass(t, sizeX, sizeY, stepX, r, xx)
        else t[Pos(sizeX, sizeY, r, xx)]
    requires forall i :: sizeX * sizeY <= i < a.Length ==> a[i] == t[i]
    modifies a
    ensures forall r, xx {:trigger a[Pos(sizeX, sizeY, r, xx)]} :: 0 <= r < sizeY && 0 <= xx < sizeX ==>
      a[Pos(sizeX, sizeY, r, xx)] ==
        if r < y || (r == y && xx < x + stepX) then RowPass(t, sizeX, sizeY, stepX, r, xx)
        else t[Pos(sizeX, sizeY, r, xx)]
    ensures forall i :: sizeX * sizeY <= i < a.Length ==> a[i] == t[i]
  {
    var cellX := 1;
    while cellX < stepX
      invariant 1 <= cellX <= stepX
      invariant forall r, xx {:trigger a[Pos(sizeX, sizeY, r, xx)]} :: 0 <= r < sizeY && 0 <= xx < sizeX ==>
        a[Pos(sizeX, sizeY, r, xx)] ==
          if r < y || (r == y && xx < x + cellX) then RowPass(t, sizeX, sizeY, stepX, r, xx)
          else t[Pos(sizeX, sizeY, r, xx)]
      invariant forall i :: sizeX * sizeY <= i < a.Length ==> a[i] == t[i]
    {
      BandOf(x + cellX, stepX, x);
      PosDistinct(sizeX, sizeY, y, x + cellX);
      assert idx + cellX == Pos(sizeX, sizeY, y, x + cellX);
      a[idx + cellX] := startValue + TruncDiv(cellX * diff, stepX);
      cellX := cellX + 1;
    }
  }

  /** One iteration of pass 2's outer loop (source/Noise.cpp:51-62): row y. */
  method InterpolateRow(a: array<int>, sizeX: nat, sizeY: nat, stepX: int, y: int, ghost t: seq<int>)
    requires 0 < stepX && sizeX * sizeY <= |t|
    requires 0 <= y < sizeY
    requires RowsDoneAbove(a[..], t, sizeX, sizeY, stepX, y)
    modifies a
    ensures RowsDoneAbove(a[..], t, sizeX, sizeY, stepX, y + 1)
  {
    var lastXCell := sizeX - stepX;
    var idx := sizeX * y;
    RowStartIsProduct(sizeX, y);
    var x := 0;
    while x < lastXCell
      invariant 0 <= x && BandStart(x, stepX) == x
      invariant idx == RowStart(sizeX, y) + x
      invariant forall r, xx {:trigger a[Pos(sizeX, sizeY, r, xx)]} :: 0 <= r < sizeY && 0 <= xx < sizeX ==>
        a[Pos(sizeX, sizeY, r, xx)] ==
          if r < y || (r == y && xx < x) then RowPass(t, sizeX, sizeY, stepX, r, xx)
          else t[Pos(sizeX, sizeY, r, xx)]
      invariant forall i :: sizeX * sizeY <= i < a.Length ==> a[i] == t[i]
    {
      assert idx == Pos(sizeX, sizeY, y, x);
      assert idx + stepX == Pos(sizeX, sizeY, y, x + stepX);
      var startValue := a[idx];
      var endValue := a[idx + stepX];
      var diff := endValue - startValue;
      InterpolateRowCell(a, sizeX, sizeY, stepX, y, x, idx, startValue, diff, t);
      idx := idx + stepX;
      x := x + stepX;
    }
    forall xx | x <= xx < sizeX
      ensures RowPass(t, sizeX, sizeY, stepX, y, xx) == t[Pos(sizeX, sizeY, y, xx)]
    {
      BandStartAbove(xx, stepX, x);
    }
  }

  /** IntArrayLinearInterpolate2D (source/Noise.cpp:23-64): every cell of the
      grid ends up with its Interpolated value and nothing past the grid is
      touched. */
  method IntArrayLinearInterpolate2D(a: array<int>, sizeX: nat, sizeY: nat, stepX: int, stepY: int)
    requires 0 < stepX && 0 < stepY && sizeX * sizeY <= a.Length
    modifies a
    ensures forall r, x {:trigger a[Pos(sizeX, sizeY, r, x)]} :: 0 <= r < sizeY && 0 <= x < sizeX ==>
      a[Pos(sizeX, sizeY, r, x)] == Interpolated(old(a[..]), sizeX, sizeY, stepX, stepY, r, x)
    ensures forall i :: sizeX * sizeY <= i < a.Length ==> a[i] == old(a[i])
  {
    ghost var s := a[..];
    InterpolateColumns(a, sizeX, sizeY, stepX, stepY);
    ghost var t := a[..];
    InterpolateRows(a, sizeX, sizeY, stepX);
    forall r, x | 0 <= r < sizeY && 0 <= x < sizeX
      ensures RowPass(t, sizeX, sizeY, stepX, r, x) == Interpolated(s, sizeX, sizeY, stepX, stepY, r, x)
    {
      var x0 := BandStart(x, stepX);
      if x - x0 != 0 && x0 < sizeX - stepX {
        assert t[Pos(sizeX, sizeY, r, x0)] == ColumnPass(s, sizeX, sizeY, stepX, stepY, r, x0);
        assert t[Pos(sizeX, sizeY, r, x0 + stepX)] == ColumnPass(s, sizeX, sizeY, stepX, stepY, r, x0 + stepX);
      } else {
        assert t[Pos(sizeX, sizeY, r, x)] == ColumnPass(s, sizeX, sizeY, stepX, stepY, r, x);
      }
    }
  }

  /** `r % step == 0` exactly when r starts its own band. */
  lemma OnAnchor(r: nat, step: int)
    requires 0 < step
    ensures (r % step == 0) == (BandStart(r, step) == r)
  {
    BandStartIsRoundDown(r, step);
  }

  /** The anchor cells (x % stepX == 0 and y % stepY == 0) keep their
      values. */
  lemma AnchorsKept(s: seq<int>, sizeX: nat, sizeY: nat, stepX: int, stepY: int, r: nat, x: nat)
    requires 0 < stepX && 0 < stepY && sizeX * sizeY <= |s|
    requires r < sizeY && x < sizeX && r % stepY == 0 && x % stepX == 0
    ensures Interpolated(s, sizeX, sizeY, stepX, stepY, r, x) == s[Pos(sizeX, sizeY, r, x)]
  {
    OnAnchor(r, stepY);
    OnAnchor(x, stepX);
  }

  /** Pass 1: in an anchor column, strictly between anchor rows y and
      y + stepY of a full band, row y + c gets `S + c * (E - S) / stepY` with
      C++ division, S and E being the two anchor values. */
  lemma ColumnValue(s: seq<int>, sizeX: nat, sizeY: nat, stepX: int, stepY: int, y: nat, c: int, x: nat)
    requires 0 < stepX && 0 < stepY && sizeX * sizeY <= |s|
    requires y % stepY == 0 && y < sizeY - stepY && 0 < c < stepY
    requires x % stepX == 0 && x < sizeX
    ensures ColumnPass(s, sizeX, sizeY, stepX, stepY, y + c, x) ==
      s[Pos(sizeX, sizeY, y, x)] + TruncDiv(c * (s[Pos(sizeX, sizeY, y + stepY, x)] - s[Pos(sizeX, sizeY, y, x)]), stepY)
  {
    OnAnchor(y, stepY);
    OnAnchor(x, stepX);
    BandOf(y + c, stepY, y);
  }

  /** Pass 2: strictly between anchor columns x and x + stepX of a full
      band, column x + d of row r gets the same rule applied to the values
      pass 1 left in the two anchor columns. */
  lemma RowValue(s: seq<int>, sizeX: nat, sizeY: nat, stepX: int, stepY: int, r: nat, x: nat, d: int)
    requires 0 < stepX && 0 < stepY && sizeX * sizeY <= |s|
    requires r < sizeY && x % stepX == 0 && x < sizeX - stepX && 0 < d < stepX
    ensures Interpolated(s, sizeX, sizeY, stepX, stepY, r, x + d) ==
      var e0 := ColumnPass(s, sizeX, sizeY, stepX, stepY, r, x);
      var e1 := ColumnPass(s, sizeX, sizeY, stepX, stepY, r, x + stepX);
      e0 + TruncDiv(d * (e1 - e0), stepX)
  {
    OnAnchor(x, stepX);
    BandOf(x + d, stepX, x);
  }

  /** Columns past the last anchor column that has a successor, other than
      anchor columns, are left as they were: no pass extrapolates. */
  lemma PartialColumnsKept(s: seq<int>, sizeX: nat, sizeY: nat, stepX: int, stepY: int, r: nat, x: nat)
    requires 0 < stepX && 0 < stepY && sizeX * sizeY <= |s|
    requires r < sizeY && x < sizeX && sizeX - stepX <= x - x % stepX && x % stepX != 0
    ensures Interpolated(s, sizeX, sizeY, stepX, stepY, r, x) == s[Pos(sizeX, sizeY, r, x)]
  {
    BandStartIsRoundDown(x, stepX);
  }

  /** Rows past the last anchor row that has a successor are left alone by
      pass 1, so pass 2 interpolates them from their original anchor
      values. */
  lemma PartialRowsFromOriginal(s: seq<int>, sizeX: nat, sizeY: nat, stepX: int, stepY: int, r: nat, x: nat)
    requires 0 < stepX && 0 < stepY && sizeX * sizeY <= |s|
    requires r < sizeY && x < sizeX && sizeY - stepY <= r - r % stepY
    ensures Interpolated(s, sizeX, sizeY, stepX, stepY, r, x) == RowPass(s, sizeX, sizeY, stepX, r, x)
  {
    BandStartIsRoundDown(r, stepY);
  }

  /** A cell past both the last full band of anchor rows and the last full
      band of anchor columns is left as it was by both passes. */
  lemma PartialCornerKept(s: seq<int>, sizeX: nat, sizeY: nat, stepX: int, stepY: int, r: nat, x: nat)
    requires 0 < stepX && 0 < stepY && sizeX * sizeY <= |s|
    requires r < sizeY && x < sizeX
    requires sizeY - stepY <= r - r % stepY && sizeX - stepX <= x - x % stepX
    ensures Interpolated(s, sizeX, sizeY, stepX, stepY, r, x) == s[Pos(sizeX, sizeY, r, x)]
  {
    BandStartIsRoundDown(r, stepY);
    BandStartIsRoundDown(x, stepX);
  }

  /** A single row of eight cells with anchors every four: the anchors 0 and
      40 at columns 0 and 4 fill columns 1 to 3 with 10, 20, 30, and columns
      5 to 7, past the last full anchor cell, keep whatever they held. */
  lemma WorkedExample(v1: int, v2: int, v3: int, v5: int, v6: int, v7: int)
    ensures
      var s := [0, v1, v2, v3, 40, v5, v6, v7];
      && Interpolated(s, 8, 1, 4, 4, 0, 0) == 0
      && Interpolated(s, 8, 1, 4, 4, 0, 1) == 10
      && Interpolated(s, 8, 1, 4, 4, 0, 2) == 20
      && Interpolated(s, 8, 1, 4, 4, 0, 3) == 30
      && Interpolated(s, 8, 1, 4, 4, 0, 4) == 40
      && Interpolated(s, 8, 1, 4, 4, 0, 5) == v5
      && Interpolated(s, 8, 1, 4, 4, 0, 6) == v6
      && Interpolated(s, 8, 1, 4, 4, 0, 7) == v7
  {
  }
}
