/** cCubicNoise::Generate2D (source/Noise.cpp:382-427): fills a sizeX x sizeY
    grid with bicubic noise. The sample points are grouped by their lattice
    floor into maximal runs along X and along Y; each group of cells shares one
    lattice cell, so the cell window is generated from once per group and then
    moved to the next group's floor. */
module CubicNoise {
  import opened FlatGrid
  import opened FloorRuns
  import opened CubicCell

  /** Generate2D. The float half of CalcFloorFrac is not modelled: floorX,
      fracX, floorY and fracY are its results, given as the MAX_SIZE-long
      stack arrays of the source, whose entries from sizeX (sizeY) on are
      whatever they happen to hold. The run lengths are computed here as the
      source does. The ghost result counts the writes to each position. */
  method Generate2D<T(0)>(hash: (int, int) -> T, cubic: (T, T, T, T, T) -> T, a: array<T>,
                          sizeX: nat, sizeY: nat,
                          floorX: seq<int>, fracX: seq<T>, floorY: seq<int>, fracY: seq<T>,
                          maxSize: nat)
    returns (ghost writes: seq<nat>)
    requires sizeX < maxSize && sizeY < maxSize
    requires |floorX| == maxSize && |fracX| == maxSize && |floorY| == maxSize && |fracY| == maxSize
    requires sizeX * sizeY <= a.Length
    modifies a
    ensures forall r, x {:trigger a[Pos(sizeX, sizeY, r, x)]} :: 0 <= r < sizeY && 0 <= x < sizeX ==>
      a[Pos(sizeX, sizeY, r, x)] == LatticeSample(hash, cubic, floorX[x], floorY[r], fracX[x], fracY[r])
    ensures |writes| == a.Length
    ensures forall r, x {:trigger writes[Pos(sizeX, sizeY, r, x)]} :: 0 <= r < sizeY && 0 <= x < sizeX ==>
      writes[Pos(sizeX, sizeY, r, x)] == 1
    ensures forall i :: sizeX * sizeY <= i < a.Length ==> a[i] == old(a[i]) && writes[i] == 0
  {
    var sameX := new int[maxSize];
    var sameY := new int[maxSize];
    var numSameX := MarkSameRuns(floorX, sizeX, sameX);
    var numSameY := MarkSameRuns(floorY, sizeY, sameY);
    var cell := new CubicCell2D(hash, cubic, a, sizeX, sizeY, fracX, fracY);
    cell.InitWorkRnds(floorX[0], floorY[0]);
    GenerateBands(cell, floorX, floorY, sameX[..numSameX], sameY[..numSameY]);
    writes := cell.Writes;
  }

  /** The loops of Generate2D (source/Noise.cpp:408-426): band by band along
      Y, starting from a window at the first sample point's floor. */
  method GenerateBands<T(0)>(cell: CubicCell2D<T>, floorX: seq<int>, floorY: seq<int>, sameX: seq<int>, sameY: seq<int>)
    requires cell.Valid() && |cell.Writes| == cell.output.Length
    requires cell.sizeX < |floorX| && cell.sizeY < |floorY|
    requires IsRuns(floorX[..cell.sizeX], sameX) && IsRuns(floorY[..cell.sizeY], sameY)
    requires cell.curFloorX == floorX[0] && cell.curFloorY == floorY[0] && cell.WindowMatches()
    requires forall i :: 0 <= i < cell.output.Length ==> cell.Writes[i] == 0
    modifies cell.output, cell`Writes, cell`useFirst, cell`curFloorX, cell`curFloorY, cell`HashCalls,
             cell.workspace1, cell.workspace2
    ensures cell.curFloorX == floorX[0] && cell.curFloorY == floorY[cell.sizeY] && cell.WindowMatches()
    ensures |cell.Writes| == cell.output.Length
    ensures forall r, x {:trigger cell.output[Pos(cell.sizeX, cell.sizeY, r, x)]} ::
      0 <= r < cell.sizeY && 0 <= x < cell.sizeX ==>
        cell.output[Pos(cell.sizeX, cell.sizeY, r, x)] ==
          LatticeSample(cell.hash, cell.cubic, floorX[x], floorY[r], cell.fracX[x], cell.fracY[r])
    ensures forall r, x {:trigger cell.Writes[Pos(cell.sizeX, cell.sizeY, r, x)]} ::
      0 <= r < cell.sizeY && 0 <= x < cell.sizeX ==> cell.Writes[Pos(cell.sizeX, cell.sizeY, r, x)] == 1
    ensures forall i :: cell.sizeX * cell.sizeY <= i < cell.output.Length ==>
      cell.output[i] == old(cell.output[i]) && cell.Writes[i] == 0
  {
    RunsShape(floorY[..cell.sizeY], sameY);
    var fromY := 0;
    var y := 0;
    assert sameY[..0] == [];
    while y < |sameY|
      invariant 0 <= y <= |sameY|
      invariant fromY == Sum(sameY[..y]) && 0 <= fromY <= cell.sizeY
      invariant |cell.Writes| == cell.output.Length
      invariant cell.curFloorX == floorX[0] && cell.curFloorY == floorY[fromY] && cell.WindowMatches()
      invariant forall r, x {:trigger cell.output[Pos(cell.sizeX, cell.sizeY, r, x)]} ::
        0 <= r < cell.sizeY && 0 <= x < cell.sizeX ==>
          cell.output[Pos(cell.sizeX, cell.sizeY, r, x)] ==
            if r < fromY then LatticeSample(cell.hash, cell.cubic, floorX[x], floorY[r], cell.fracX[x], cell.fracY[r])
            else old(cell.output[Pos(cell.sizeX, cell.sizeY, r, x)])
      invariant forall r, x {:trigger cell.Writes[Pos(cell.sizeX, cell.sizeY, r, x)]} ::
        0 <= r < cell.sizeY && 0 <= x < cell.sizeX ==>
          cell.Writes[Pos(cell.sizeX, cell.sizeY, r, x)] == if r < fromY then 1 else 0
      invariant forall i :: cell.sizeX * cell.sizeY <= i < cell.output.Length ==>
        cell.output[i] == old(cell.output[i]) && cell.Writes[i] == 0
    {
      PrefixSumStep(sameY, y);
      PrefixSumAtMost(sameY, y + 1, |sameY|);
      assert sameY[..|sameY|] == sameY;
      var toY := fromY + sameY[y];
      forall r | fromY <= r < toY
        ensures floorY[r] == floorY[fromY]
      {
        RunsConstant(floorY[..cell.sizeY], sameY, y, r);
      }
      Band(cell, floorX, floorY, sameX, fromY, toY);
      fromY := toY;
      y := y + 1;
    }
    assert sameY[..|sameY|] == sameY;
  }

  /** One iteration of Generate2D's outer loop (source/Noise.cpp:412-426):
      the rows [fromY, toY), which share one floor, are generated and the
      window moves to the first floor of the next band. */
  method Band<T(0)>(cell: CubicCell2D<T>, floorX: seq<int>, floorY: seq<int>, sameX: seq<int>, fromY: nat, toY: nat)
    requires cell.Valid() && |cell.Writes| == cell.output.Length
    requires cell.sizeX < |floorX| && toY < |floorY|
    requires IsRuns(floorX[..cell.sizeX], sameX)
    requires fromY < toY <= cell.sizeY
    requires forall r :: fromY <= r < toY ==> floorY[r] == floorY[fromY]
    requires cell.curFloorX == floorX[0] && cell.curFloorY == floorY[fromY] && cell.WindowMatches()
    modifies cell.output, cell`Writes, cell`useFirst, cell`curFloorX, cell`curFloorY, cell`HashCalls,
             cell.workspace1, cell.workspace2
    ensures cell.curFloorX == floorX[0] && cell.curFloorY == floorY[toY] && cell.WindowMatches()
    ensures |cell.Writes| == cell.output.Length
    ensures forall r, x {:trigger cell.output[Pos(cell.sizeX, cell.sizeY, r, x)]} ::
      0 <= r < cell.sizeY && 0 <= x < cell.sizeX ==>
        cell.output[Pos(cell.sizeX, cell.sizeY, r, x)] ==
          if fromY <= r < toY then
            LatticeSample(cell.hash, cell.cubic, floorX[x], floorY[r], cell.fracX[x], cell.fracY[r])
          else old(cell.output[Pos(cell.sizeX, cell.sizeY, r, x)])
    ensures forall r, x {:trigger cell.Writes[Pos(cell.sizeX, cell.sizeY, r, x)]} ::
      0 <= r < cell.sizeY && 0 <= x < cell.sizeX ==>
        cell.Writes[Pos(cell.sizeX, cell.sizeY, r, x)] ==
          old(cell.Writes[Pos(cell.sizeX, cell.sizeY, r, x)]) + if fromY <= r < toY then 1 else 0
    ensures forall i :: cell.sizeX * cell.sizeY <= i < cell.output.Length ==>
      cell.output[i] == old(cell.output[i]) && cell.Writes[i] == old(cell.Writes[i])
  {
    GenerateBand(cell, floorX, floorY, sameX, fromY, toY);
    cell.Move(floorX[0], floorY[toY]);
  }

  /** Generate2D's inner loop (source/Noise.cpp:416-423): the band's Y floor
      is read from the table as floorY[fromY], then the rows [fromY, toY) are
      generated group by group along X, moving the window to the next group's
      floor after each. */
  method GenerateBand<T(0)>(cell: CubicCell2D<T>, floorX: seq<int>, floorY: seq<int>, sameX: seq<int>, fromY: nat, toY: nat)
    requires cell.Valid() && |cell.Writes| == cell.output.Length
    requires cell.sizeX < |floorX| && fromY < |floorY|
    requires IsRuns(floorX[..cell.sizeX], sameX)
    requires fromY < toY <= cell.sizeY
    requires cell.curFloorX == floorX[0] && cell.curFloorY == floorY[fromY] && cell.WindowMatches()
    modifies cell.output, cell`Writes, cell`useFirst, cell`curFloorX, cell`curFloorY, cell`HashCalls,
             cell.workspace1, cell.workspace2
    ensures cell.WindowMatches() && cell.curFloorY == old(cell.curFloorY)
    ensures cell.curFloorX == floorX[cell.sizeX]
    ensures |cell.Writes| == cell.output.Length
    ensures forall r, x {:trigger cell.output[Pos(cell.sizeX, cell.sizeY, r, x)]} ::
      0 <= r < cell.sizeY && 0 <= x < cell.sizeX ==>
        cell.output[Pos(cell.sizeX, cell.sizeY, r, x)] ==
          if fromY <= r < toY then
            LatticeSample(cell.hash, cell.cubic, floorX[x], floorY[fromY], cell.fracX[x], cell.fracY[r])
          else old(cell.output[Pos(cell.sizeX, cell.sizeY, r, x)])
    ensures forall r, x {:trigger cell.Writes[Pos(cell.sizeX, cell.sizeY, r, x)]} ::
      0 <= r < cell.sizeY && 0 <= x < cell.sizeX ==>
        cell.Writes[Pos(cell.sizeX, cell.sizeY, r, x)] ==
          old(cell.Writes[Pos(cell.sizeX, cell.sizeY, r, x)]) + if fromY <= r < toY then 1 else 0
    ensures forall i :: cell.sizeX * cell.sizeY <= i < cell.output.Length ==>
      cell.output[i] == old(cell.output[i]) && cell.Writes[i] == old(cell.Writes[i])
  {
    RunsShape(floorX[..cell.sizeX], sameX);
    var curFloorY := floorY[fromY];
    var fromX := 0;
    var x := 0;
    assert sameX[..0] == [];
    while x < |sameX|
      invariant 0 <= x <= |sameX|
      invariant fromX == Sum(sameX[..x]) && 0 <= fromX <= cell.sizeX
      invariant |cell.Writes| == cell.output.Length
      invariant cell.curFloorX == floorX[fromX] && cell.curFloorY == curFloorY && cell.WindowMatches()
      invariant forall r, xx {:trigger cell.output[Pos(cell.sizeX, cell.sizeY, r, xx)]} ::
        0 <= r < cell.sizeY && 0 <= xx < cell.sizeX ==>
          cell.output[Pos(cell.sizeX, cell.sizeY, r, xx)] ==
            if InRect(0, fromX, fromY, toY, r, xx) then
              LatticeSample(cell.hash, cell.cubic, floorX[xx], curFloorY, cell.fracX[xx], cell.fracY[r])
            else old(cell.output[Pos(cell.sizeX, cell.sizeY, r, xx)])
      invariant forall r, xx {:trigger cell.Writes[Pos(cell.sizeX, cell.sizeY, r, xx)]} ::
        0 <= r < cell.sizeY && 0 <= xx < cell.sizeX ==>
          cell.Writes[Pos(cell.sizeX, cell.sizeY, r, xx)] ==
            old(cell.Writes[Pos(cell.sizeX, cell.sizeY, r, xx)]) + if InRect(0, fromX, fromY, toY, r, xx) then 1 else 0
      invariant forall i :: cell.sizeX * cell.sizeY <= i < cell.output.Length ==>
        cell.output[i] == old(cell.output[i]) && cell.Writes[i] == old(cell.Writes[i])
    {
      PrefixSumStep(sameX, x);
      PrefixSumAtMost(sameX, x + 1, |sameX|);
      assert sameX[..|sameX|] == sameX;
      var toX := fromX + sameX[x];
      forall xx | fromX <= xx < toX
        ensures floorX[xx] == floorX[fromX]
      {
        RunsConstant(floorX[..cell.sizeX], sameX, x, xx);
      }
      Group(cell, floorX, curFloorY, fromX, toX, fromY, toY);
      fromX := toX;
      x := x + 1;
    }
    assert sameX[..|sameX|] == sameX;
  }

  /** One iteration of Generate2D's inner loop (source/Noise.cpp:419-422):
      the cells [fromX, toX) x [fromY, toY), which share the window's floor,
      are generated, and the window moves to (floorX[toX], curFloorY). */
  method Group<T(0)>(cell: CubicCell2D<T>, floorX: seq<int>, curFloorY: int, fromX: nat, toX: nat, fromY: nat, toY: nat)
    requires cell.Valid() && |cell.Writes| == cell.output.Length
    requires fromX < toX <= cell.sizeX < |floorX| && fromY < toY <= cell.sizeY
    requires forall xx :: fromX <= xx < toX ==> floorX[xx] == floorX[fromX]
    requires cell.curFloorX == floorX[fromX] && cell.WindowMatches()
    modifies cell.output, cell`Writes, cell`useFirst, cell`curFloorX, cell`curFloorY, cell`HashCalls,
             cell.workspace1, cell.workspace2
    ensures cell.curFloorX == floorX[toX] && cell.curFloorY == curFloorY && cell.WindowMatches()
    ensures |cell.Writes| == cell.output.Length
    ensures forall r, xx {:trigger cell.output[Pos(cell.sizeX, cell.sizeY, r, xx)]} ::
      0 <= r < cell.sizeY && 0 <= xx < cell.sizeX ==>
        cell.output[Pos(cell.sizeX, cell.sizeY, r, xx)] ==
          if InRect(fromX, toX, fromY, toY, r, xx) then
            LatticeSample(cell.hash, cell.cubic, floorX[xx], old(cell.curFloorY), cell.fracX[xx], cell.fracY[r])
          else old(cell.output[Pos(cell.sizeX, cell.sizeY, r, xx)])
    ensures forall r, xx {:trigger cell.Writes[Pos(cell.sizeX, cell.sizeY, r, xx)]} ::
      0 <= r < cell.sizeY && 0 <= xx < cell.sizeX ==>
        cell.Writes[Pos(cell.sizeX, cell.sizeY, r, xx)] ==
          old(cell.Writes[Pos(cell.sizeX, cell.sizeY, r, xx)]) + if InRect(fromX, toX, fromY, toY, r, xx) then 1 else 0
    ensures forall i :: cell.sizeX * cell.sizeY <= i < cell.output.Length ==>
      cell.output[i] == old(cell.output[i]) && cell.Writes[i] == old(cell.Writes[i])
  {
    var windowY := cell.curFloorY;
    cell.Generate(fromX, toX, fromY, toY);
    forall r, xx | fromY <= r < toY && fromX <= xx < toX
      ensures cell.BufferSample(cell.fracX[xx], cell.fracY[r]) ==
        LatticeSample(cell.hash, cell.cubic, floorX[xx], windowY, cell.fracX[xx], cell.fracY[r])
    {
      cell.BufferSampleIsLattice(cell.fracX[xx], cell.fracY[r]);
    }
    cell.Move(floorX[toX], curFloorY);
  }
}
