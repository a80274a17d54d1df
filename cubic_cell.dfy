/** cCubicCell2D (source/Noise.cpp:73-213): a 4 x 4 window of lattice hash
    values, double-buffered, from which a rectangle of an output grid is
    filled by bicubic interpolation. The window sits at a floor point
    (floorX, floorY); entry [i, j] belongs to lattice point
    (floorX + i - 1, floorY + j - 1).

    The noise hash (cNoise::IntNoise2D followed by the cast to the noise value
    type) and cNoise::CubicInterpolate are declared in Noise.h, which is not
    part of this model; they are function-valued parameters here, and the
    noise value type is the type parameter T. */
module CubicCell {
  import opened FlatGrid

  /** A window index, 0 to 3. */
  predicate InWindow(i: int)
  {
    0 <= i < 4
  }

  /** How many window positions along one axis keep their lattice point when
      the window moves by `d` lattice cells: max(0, 4 - |d|). */
  function Overlap(d: int): nat
  {
    if d <= -4 || 4 <= d then 0 else if d < 0 then 4 + d else 4 - d
  }

  /** The number of indices i in [0, n) whose lattice point was already in
      the window before a move by `d` (i - d is a window index). */
  function Kept(d: int, n: nat): (k: nat)
    ensures k <= n
  {
    if n == 0 then 0 else Kept(d, n - 1) + (if InWindow(n - 1 - d) then 1 else 0)
  }

  /** Along one axis, a move by d keeps exactly Overlap(d) of the four
      positions. */
  lemma KeptAll(d: int)
    ensures Kept(d, 4) == Overlap(d)
  {
    assert Kept(d, 1) == (if InWindow(-d) then 1 else 0);
    assert Kept(d, 2) == Kept(d, 1) + (if InWindow(1 - d) then 1 else 0);
    assert Kept(d, 3) == Kept(d, 2) + (if InWindow(2 - d) then 1 else 0);
  }

  /** The number of hash values a move by (dx, dy) recomputes in the first
      `n` entries of window column x. */
  function ColumnRecomputed(dx: int, dy: int, x: int, n: nat): nat
  {
    n - (if InWindow(x - dx) then Kept(dy, n) else 0)
  }

  /** The number of hash values a move by (dx, dy) recomputes in window
      columns 0 to x - 1. */
  function Recomputed(dx: int, dy: int, x: nat): nat
  {
    if x == 0 then 0 else Recomputed(dx, dy, x - 1) + ColumnRecomputed(dx, dy, x - 1, 4)
  }

  /** A move by (dx, dy) recomputes every entry of the window except the
      Overlap(dx) * Overlap(dy) entries whose lattice point stays inside it. */
  lemma MoveCost(dx: int, dy: int)
    ensures Recomputed(dx, dy, 4) == 16 - Overlap(dx) * Overlap(dy)
  {
    RecomputedCount(dx, dy, 4);
    KeptAll(dx);
    KeptAll(dy);
  }

  /** Columns 0 to n - 1 hold 4 * n entries, of which Kept(dx, n) * Kept(dy, 4)
      are reused. */
  lemma {:induction false} RecomputedCount(dx: int, dy: int, n: nat)
    ensures Recomputed(dx, dy, n) == 4 * n - Kept(dx, n) * Kept(dy, 4)
  {
    if n > 0 {
      RecomputedCount(dx, dy, n - 1);
      var c := if InWindow(n - 1 - dx) then 1 else 0;
      Distribute(Kept(dx, n - 1), c, Kept(dy, 4));
    }
  }

  /** Multiplication distributes over addition; MoveCost's induction uses it to split off one row's count. */
  lemma Distribute(a: int, c: int, k: int)
    ensures (a + c) * k == a * k + c * k
  {
  }

  /** The interpolated value of Y-column k of a lattice window at
      (floorX, floorY), at fraction fy: the four hash values of lattice column
      floorX + k - 1 combined along Y. */
  function LatticeColumn<T>(hash: (int, int) -> T, cubic: (T, T, T, T, T) -> T,
                            floorX: int, floorY: int, k: int, fy: T): T
  {
    cubic(hash(floorX + k - 1, floorY - 1), hash(floorX + k - 1, floorY),
          hash(floorX + k - 1, floorY + 1), hash(floorX + k - 1, floorY + 2), fy)
  }

  /** The bicubic noise value at fraction (fx, fy) of the lattice cell whose
      floor is (floorX, floorY): interpolate along Y in each of the four
      columns, then along X across the four results. */
  function LatticeSample<T>(hash: (int, int) -> T, cubic: (T, T, T, T, T) -> T,
                            floorX: int, floorY: int, fx: T, fy: T): T
  {
    cubic(LatticeColumn(hash, cubic, floorX, floorY, 0, fy),
          LatticeColumn(hash, cubic, floorX, floorY, 1, fy),
          LatticeColumn(hash, cubic, floorX, floorY, 2, fy),
          LatticeColumn(hash, cubic, floorX, floorY, 3, fy), fx)
  }

  /** Cell (x, y) lies in the rectangle [fromX, toX) x [fromY, toY). */
  predicate InRect(fromX: int, toX: int, fromY: int, toY: int, y: int, x: int)
  {
    fromY <= y < toY && fromX <= x < toX
  }

  class CubicCell2D<T(0)> {
    /** m_Noise.IntNoise2D with the cast to the value type. */
    const hash: (int, int) -> T
    /** cNoise::CubicInterpolate. */
    const cubic: (T, T, T, T, T) -> T
    const workspace1: array2<T>
    const workspace2: array2<T>
    /** The grid written into, at [x + sizeX * y]. */
    const output: array<T>
    const sizeX: nat
    const sizeY: nat
    const fracX: seq<T>
    const fracY: seq<T>

    /** m_WorkRnds == &m_Workspace1. */
    var useFirst: bool
    var curFloorX: int
    var curFloorY: int

    /** How many times each output position has been written. */
    ghost var Writes: seq<nat>
    /** How many times the hash has been evaluated. */
    ghost var HashCalls: nat

    /** The fixed shape of the cell: two distinct 4 x 4 buffers, an output
        grid big enough for sizeX x sizeY cells and a fraction per column and
        per row. */
    ghost predicate Valid()
    {
      && workspace1.Length0 == 4 && workspace1.Length1 == 4
      && workspace2.Length0 == 4 && workspace2.Length1 == 4
      && workspace1 != workspace2
      && sizeX <= |fracX| && sizeY <= |fracY|
      && sizeX * sizeY <= output.Length
    }

    /** The buffer m_WorkRnds points at. */
    function Active(): array2<T>
      reads this`useFirst
    {
      if useFirst then workspace1 else workspace2
    }

    /** The other buffer. */
    function Inactive(): array2<T>
      reads this`useFirst
    {
      if useFirst then workspace2 else workspace1
    }

    /** The window invariant: every entry of the active buffer holds the hash
        of its lattice point relative to the current floor. */
    ghost predicate WindowMatches()
      requires Valid()
      reads this`useFirst, this`curFloorX, this`curFloorY, workspace1, workspace2
    {
      Matches(Active(), curFloorX, curFloorY)
    }

    /** Every entry of the 4 x 4 buffer w holds the hash of its lattice
        point relative to the floor (floorX, floorY). */
    ghost predicate Matches(w: array2<T>, floorX: int, floorY: int)
      requires w.Length0 == 4 && w.Length1 == 4
      reads w
    {
      Hashed(w, floorX, floorY, 4, 0)
    }

    /** Interp[k] of Generate: the active buffer's column k along Y. */
    function BufferColumn(k: int, fy: T): T
      requires Valid() && 0 <= k < 4
      reads this`useFirst, workspace1, workspace2
    {
      var w := Active();
      cubic(w[k, 0], w[k, 1], w[k, 2], w[k, 3], fy)
    }

    /** The value Generate writes for fractions (fx, fy). */
    function BufferSample(fx: T, fy: T): T
      requires Valid()
      reads this`useFirst, workspace1, workspace2
    {
      cubic(BufferColumn(0, fy), BufferColumn(1, fy), BufferColumn(2, fy), BufferColumn(3, fy), fx)
    }

    /** Under the window invariant, what Generate writes is the bicubic noise
        value of the cell at the current floor. */
    lemma BufferSampleIsLattice(fx: T, fy: T)
      requires Valid() && WindowMatches()
      ensures BufferSample(fx, fy) == LatticeSample(hash, cubic, curFloorX, curFloorY, fx, fy)
    {
    }

    /** The constructor (source/Noise.cpp:117-132): m_WorkRnds starts at
        buffer 1. The C++ leaves the buffers and the floor uninitialised;
        here they hold default values. */
    constructor(hash: (int, int) -> T, cubic: (T, T, T, T, T) -> T, output: array<T>,
                sizeX: nat, sizeY: nat, fracX: seq<T>, fracY: seq<T>)
      requires sizeX <= |fracX| && sizeY <= |fracY| && sizeX * sizeY <= output.Length
      ensures Valid()
      ensures this.hash == hash && this.cubic == cubic && this.output == output
      ensures this.sizeX == sizeX && this.sizeY == sizeY && this.fracX == fracX && this.fracY == fracY
      ensures useFirst && Active() == workspace1
      ensures fresh(workspace1) && fresh(workspace2)
      ensures Writes == seq(output.Length, _ => 0) && HashCalls == 0
    {
      this.hash := hash;
      this.cubic := cubic;
      this.output := output;
      this.sizeX := sizeX;
      this.sizeY := sizeY;
      this.fracX := fracX;
      this.fracY := fracY;
      workspace1 := new T[4, 4];
      workspace2 := new T[4, 4];
      useFirst := true;
      Writes := seq(output.Length, _ => 0);
      HashCalls := 0;
    }

    /** InitWorkRnds (source/Noise.cpp:163-176): moves the window to
        (floorX, floorY) and fills the active buffer with the sixteen hash
        values afresh. */
    method InitWorkRnds(floorX: int, floorY: int)
      requires Valid()
      modifies this`curFloorX, this`curFloorY, this`HashCalls, Active()
      ensures curFloorX == floorX && curFloorY == floorY
      ensures WindowMatches()
      ensures HashCalls == old(HashCalls) + 16
      ensures unchanged(Inactive())
    {
      curFloorX := floorX;
      curFloorY := floorY;
      var w := Active();
      var x := 0;
      while x < 4
        invariant 0 <= x <= 4
        invariant curFloorX == floorX && curFloorY == floorY
        invariant HashCalls == old(HashCalls) + 4 * x
        invariant Hashed(w, floorX, floorY, x, 0)
        invariant unchanged(Inactive())
      {
        HashColumn(w, floorX, floorY, x);
        x := x + 1;
      }
    }

    /** The entries of w before window column x, and the first y entries of
        column x, hold the hashes of their lattice points for the floor
        (floorX, floorY). */
    ghost predicate Hashed(w: array2<T>, floorX: int, floorY: int, x: int, y: int)
      requires w.Length0 == 4 && w.Length1 == 4
      reads w
    {
      forall i, j :: 0 <= i < 4 && 0 <= j < 4 && (i < x || (i == x && j < y)) ==>
        w[i, j] == hash(floorX + i - 1, floorY + j - 1)
    }

    /** One iteration of InitWorkRnds' outer loop (source/Noise.cpp:167-175):
        window column x of w. */
    method HashColumn(w: array2<T>, floorX: int, floorY: int, x: int)
      requires w.Length0 == 4 && w.Length1 == 4 && 0 <= x < 4
      requires Hashed(w, floorX, floorY, x, 0)
      modifies w, this`HashCalls
      ensures Hashed(w, floorX, floorY, x + 1, 0)
      ensures HashCalls == old(HashCalls) + 4
      ensures forall i, j :: 0 <= i < 4 && 0 <= j < 4 && i != x ==> w[i, j] == old(w[i, j])
    {
      var cx := floorX + x - 1;
      var y := 0;
      while y < 4
        invariant 0 <= y <= 4
        invariant HashCalls == old(HashCalls) + y
        invariant Hashed(w, floorX, floorY, x, y)
        invariant forall i, j :: 0 <= i < 4 && 0 <= j < 4 && i != x ==> w[i, j] == old(w[i, j])
      {
        HashEntry(w, floorX, floorY, x, cx, y);
        y := y + 1;
      }
    }

    /** One iteration of InitWorkRnds' inner loop (source/Noise.cpp:172-173):
        entry [x, y] of w gets the hash of its lattice point. */
    method HashEntry(w: array2<T>, floorX: int, floorY: int, x: int, cx: int, y: int)
      requires w.Length0 == 4 && w.Length1 == 4 && 0 <= x < 4 && 0 <= y < 4
      requires cx == floorX + x - 1
      requires Hashed(w, floorX, floorY, x, y)
      modifies w, this`HashCalls
      ensures Hashed(w, floorX, floorY, x, y + 1)
      ensures forall i, j :: 0 <= i < 4 && 0 <= j < 4 && (i != x || j != y) ==> w[i, j] == old(w[i, j])
      ensures HashCalls == old(HashCalls) + 1
    {
      var cy := floorY + y - 1;
      w[x, y] := hash(cx, cy);
      HashCalls := HashCalls + 1;
    }

    /** Move (source/Noise.cpp:182-213): flips the double buffer and fills the
        new active buffer for the floor (newX, newY), copying every entry whose
        lattice point was already in the old window and hashing the rest. */
    method Move(newX: int, newY: int)
      requires Valid()
      modifies this`useFirst, this`curFloorX, this`curFloorY, this`HashCalls, Inactive()
      ensures useFirst == !old(useFirst) && Active() == old(Inactive())
      ensures curFloorX == newX && curFloorY == newY
      ensures unchanged(old(Active()))
      ensures Refilled(Active(), old(Active()), old(curFloorX) - newX, old(curFloorY) - newY, newX, newY, 4, 0)
      ensures old(WindowMatches()) ==> WindowMatches()
      ensures HashCalls == old(HashCalls) + 16 - Overlap(old(curFloorX) - newX) * Overlap(old(curFloorY) - newY)
      ensures old(curFloorX) == newX && old(curFloorY) == newY ==>
        HashCalls == old(HashCalls) &&
        forall i, j :: 0 <= i < 4 && 0 <= j < 4 ==> Active()[i, j] == old(Active()[i, j])
    {
      var oldFloorX := curFloorX;
      var oldFloorY := curFloorY;
      var oldWork := Active();
      useFirst := !useFirst;
      var w := Active();
      var diffX := oldFloorX - newX;
      var diffY := oldFloorY - newY;
      Refill(w, oldWork, diffX, diffY, newX, newY);
      curFloorX := newX;
      curFloorY := newY;
      MoveCost(diffX, diffY);
      if old(WindowMatches()) {
        RefilledMatches(w, oldWork, oldFloorX, oldFloorY, newX, newY);
      }
      if diffX == 0 && diffY == 0 {
        RefilledInPlace(w, oldWork, newX, newY);
      }
    }

    /** Refilling for a move of distance zero copies the whole window. */
    lemma RefilledInPlace(w: array2<T>, oldWork: array2<T>, newX: int, newY: int)
      requires w.Length0 == 4 && w.Length1 == 4 && oldWork.Length0 == 4 && oldWork.Length1 == 4
      requires Refilled(w, oldWork, 0, 0, newX, newY, 4, 0)
      ensures forall i, j :: 0 <= i < 4 && 0 <= j < 4 ==> w[i, j] == oldWork[i, j]
    {
    }

    /** Refilling from a window that matches the lattice at its floor gives
        a window that matches the lattice at the new floor, however far the
        floor moved. */
    lemma RefilledMatches(w: array2<T>, oldWork: array2<T>, oldX: int, oldY: int, newX: int, newY: int)
      requires w.Length0 == 4 && w.Length1 == 4 && oldWork.Length0 == 4 && oldWork.Length1 == 4
      requires Refilled(w, oldWork, oldX - newX, oldY - newY, newX, newY, 4, 0)
      requires Matches(oldWork, oldX, oldY)
      ensures Matches(w, newX, newY)
    {
    }

    /** The entries of w before window column x, and the first y entries of
        column x, hold what Move puts there for a move by (dx, dy) to the floor
        (newX, newY): the old entry of the same lattice point if the old
        window oldWork had one, else the hash of the lattice point. */
    ghost predicate Refilled(w: array2<T>, oldWork: array2<T>, dx: int, dy: int, newX: int, newY: int, x: int, y: int)
      requires w.Length0 == 4 && w.Length1 == 4 && oldWork.Length0 == 4 && oldWork.Length1 == 4
      reads w, oldWork
    {
      forall i, j :: 0 <= i < 4 && 0 <= j < 4 && (i < x || (i == x && j < y)) ==>
        w[i, j] ==
          if InWindow(i - dx) && InWindow(j - dy) then oldWork[i - dx, j - dy]
          else hash(newX + i - 1, newY + j - 1)
    }

    /** The loops of Move (source/Noise.cpp:193-210): the whole new buffer w. */
    method Refill(w: array2<T>, oldWork: array2<T>, dx: int, dy: int, newX: int, newY: int)
      requires w.Length0 == 4 && w.Length1 == 4 && oldWork.Length0 == 4 && oldWork.Length1 == 4
      requires w != oldWork
      modifies w, this`HashCalls
      ensures Refilled(w, oldWork, dx, dy, newX, newY, 4, 0)
      ensures HashCalls == old(HashCalls) + Recomputed(dx, dy, 4)
    {
      var x := 0;
      while x < 4
        invariant 0 <= x <= 4
        invariant HashCalls == old(HashCalls) + Recomputed(dx, dy, x)
        invariant Refilled(w, oldWork, dx, dy, newX, newY, x, 0)
      {
        MoveColumn(w, oldWork, dx, dy, newX, newY, x);
        x := x + 1;
      }
    }

    /** One iteration of Move's outer loop (source/Noise.cpp:195-209): window
        column x of the new buffer w. */
    method MoveColumn(w: array2<T>, oldWork: array2<T>, dx: int, dy: int, newX: int, newY: int, x: int)
      requires w.Length0 == 4 && w.Length1 == 4 && oldWork.Length0 == 4 && oldWork.Length1 == 4
      requires w != oldWork && 0 <= x < 4
      requires Refilled(w, oldWork, dx, dy, newX, newY, x, 0)
      modifies w, this`HashCalls
      ensures Refilled(w, oldWork, dx, dy, newX, newY, x + 1, 0)
      ensures HashCalls == old(HashCalls) + ColumnRecomputed(dx, dy, x, 4)
      ensures forall i, j :: 0 <= i < 4 && 0 <= j < 4 && i != x ==> w[i, j] == old(w[i, j])
    {
      var y := 0;
      while y < 4
        invariant 0 <= y <= 4
        invariant HashCalls == old(HashCalls) + ColumnRecomputed(dx, dy, x, y)
        invariant Refilled(w, oldWork, dx, dy, newX, newY, x, y)
        invariant forall i, j :: 0 <= i < 4 && 0 <= j < 4 && i != x ==> w[i, j] == old(w[i, j])
      {
        MoveEntry(w, oldWork, dx, dy, newX, newY, x, y);
        y := y + 1;
      }
    }

    /** One iteration of Move's inner loop (source/Noise.cpp:199-208): entry
        [x, y] of the new buffer w is copied from the old window if its
        lattice point was there, and hashed otherwise. */
    method MoveEntry(w: array2<T>, oldWork: array2<T>, dx: int, dy: int, newX: int, newY: int, x: int, y: int)
      requires w.Length0 == 4 && w.Length1 == 4 && oldWork.Length0 == 4 && oldWork.Length1 == 4
      requires w != oldWork && 0 <= x < 4 && 0 <= y < 4
      requires Refilled(w, oldWork, dx, dy, newX, newY, x, y)
      modifies w, this`HashCalls
      ensures Refilled(w, oldWork, dx, dy, newX, newY, x, y + 1)
      ensures HashCalls == old(HashCalls) + (if InWindow(x - dx) && InWindow(y - dy) then 0 else 1)
      ensures forall i, j :: 0 <= i < 4 && 0 <= j < 4 && (i != x || j != y) ==> w[i, j] == old(w[i, j])
    {
      var cx := newX + x - 1;
      var oldX := x - dx;
      var cy := newY + y - 1;
      var oldY := y - dy;
      if 0 <= oldX && oldX < 4 && 0 <= oldY && oldY < 4 {
        w[x, y] := oldWork[oldX, oldY];
      } else {
        w[x, y] := hash(cx, cy);
        HashCalls := HashCalls + 1;
      }
    }

    /** Generate (source/Noise.cpp:138-157): writes BufferSample(fracX[x],
        fracY[y]) into every cell (x, y) of [fromX, toX) x [fromY, toY) of the
        output grid, once each, and changes nothing else. */
    method Generate(fromX: int, toX: int, fromY: int, toY: int)
      requires Valid() && |Writes| == output.Length
      requires 0 <= fromX && toX <= sizeX && 0 <= fromY && toY <= sizeY
      modifies output, this`Writes
      ensures |Writes| == output.Length
      ensures forall r, x {:trigger output[Pos(sizeX, sizeY, r, x)]} :: 0 <= r < sizeY && 0 <= x < sizeX ==>
        output[Pos(sizeX, sizeY, r, x)] ==
          if InRect(fromX, toX, fromY, toY, r, x) then BufferSample(fracX[x], fracY[r])
          else old(output[Pos(sizeX, sizeY, r, x)])
      ensures forall r, x {:trigger Writes[Pos(sizeX, sizeY, r, x)]} :: 0 <= r < sizeY && 0 <= x < sizeX ==>
        Writes[Pos(sizeX, sizeY, r, x)] ==
          old(Writes[Pos(sizeX, sizeY, r, x)]) + if InRect(fromX, toX, fromY, toY, r, x) then 1 else 0
      ensures forall i :: sizeX * sizeY <= i < output.Length ==> output[i] == old(output[i]) && Writes[i] == old(Writes[i])
    {
      var y := fromY;
      assert forall r, x :: 0 <= r < sizeY && 0 <= x < sizeX ==> !InRect(fromX, toX, fromY, y, r, x);
      while y < toY
        invariant fromY <= y <= (if fromY < toY then toY else fromY)
        invariant |Writes| == output.Length
        invariant forall r, x {:trigger output[Pos(sizeX, sizeY, r, x)]} :: 0 <= r < sizeY && 0 <= x < sizeX ==>
          output[Pos(sizeX, sizeY, r, x)] ==
            if InRect(fromX, toX, fromY, y, r, x) then BufferSample(fracX[x], fracY[r])
            else old(output[Pos(sizeX, sizeY, r, x)])
        invariant forall r, x {:trigger Writes[Pos(sizeX, sizeY, r, x)]} :: 0 <= r < sizeY && 0 <= x < sizeX ==>
          Writes[Pos(sizeX, sizeY, r, x)] ==
            old(Writes[Pos(sizeX, sizeY, r, x)]) + if InRect(fromX, toX, fromY, y, r, x) then 1 else 0
        invariant forall i :: sizeX * sizeY <= i < output.Length ==> output[i] == old(output[i]) && Writes[i] == old(Writes[i])
      {
        GenerateRow(fromX, toX, y);
        y := y + 1;
      }
    }

    /** One iteration of Generate's outer loop (source/Noise.cpp:143-156):
        row y from fromX to toX. */
    method GenerateRow(fromX: int, toX: int, y: int)
      requires Valid() && |Writes| == output.Length
      requires 0 <= fromX && toX <= sizeX && 0 <= y < sizeY
      modifies output, this`Writes
      ensures |Writes| == output.Length
      ensures forall r, x {:trigger output[Pos(sizeX, sizeY, r, x)]} :: 0 <= r < sizeY && 0 <= x < sizeX ==>
        output[Pos(sizeX, sizeY, r, x)] ==
          if InRect(fromX, toX, y, y + 1, r, x) then BufferSample(fracX[x], fracY[r])
          else old(output[Pos(sizeX, sizeY, r, x)])
      ensures forall r, x {:trigger Writes[Pos(sizeX, sizeY, r, x)]} :: 0 <= r < sizeY && 0 <= x < sizeX ==>
        Writes[Pos(sizeX, sizeY, r, x)] ==
          old(Writes[Pos(sizeX, sizeY, r, x)]) + if InRect(fromX, toX, y, y + 1, r, x) then 1 else 0
      ensures forall i :: sizeX * sizeY <= i < output.Length ==> output[i] == old(output[i]) && Writes[i] == old(Writes[i])
    {
      var fy := fracY[y];
      var w := Active();
      var interp0 := cubic(w[0, 0], w[0, 1], w[0, 2], w[0, 3], fy);
      var interp1 := cubic(w[1, 0], w[1, 1], w[1, 2], w[1, 3], fy);
      var interp2 := cubic(w[2, 0], w[2, 1], w[2, 2], w[2, 3], fy);
      var interp3 := cubic(w[3, 0], w[3, 1], w[3, 2], w[3, 3], fy);
      RowStartIsProduct(sizeX, y);
      var idx := y * sizeX + fromX;
      var x := fromX;
      while x < toX
        invariant fromX <= x <= (if fromX < toX then toX else fromX)
        invariant idx == RowStart(sizeX, y) + x
        invariant |Writes| == output.Length
        invariant forall r, xx {:trigger output[Pos(sizeX, sizeY, r, xx)]} :: 0 <= r < sizeY && 0 <= xx < sizeX ==>
          output[Pos(sizeX, sizeY, r, xx)] ==
            if r == y && fromX <= xx < x then BufferSample(fracX[xx], fracY[r])
            else old(output[Pos(sizeX, sizeY, r, xx)])
        invariant forall r, xx {:trigger Writes[Pos(sizeX, sizeY, r, xx)]} :: 0 <= r < sizeY && 0 <= xx < sizeX ==>
          Writes[Pos(sizeX, sizeY, r, xx)] ==
            old(Writes[Pos(sizeX, sizeY, r, xx)]) + if r == y && fromX <= xx < x then 1 else 0
        invariant forall i :: sizeX * sizeY <= i < output.Length ==> output[i] == old(output[i]) && Writes[i] == old(Writes[i])
      {
        GenerateCell(fromX, y, x, idx, cubic(interp0, interp1, interp2, interp3, fracX[x]));
        idx := idx + 1;
        x := x + 1;
      }
    }

    /** One iteration of Generate's inner loop (source/Noise.cpp:154): the
        value v goes to output cell (x, y), whose write count goes up by one;
        nothing else changes. */
    method GenerateCell(fromX: int, y: int, x: int, idx: int, v: T)
      requires Valid() && |Writes| == output.Length
      requires 0 <= fromX <= x < sizeX && 0 <= y < sizeY && idx == RowStart(sizeX, y) + x
      modifies output, this`Writes
      ensures |Writes| == output.Length
      ensures forall r, xx {:trigger output[Pos(sizeX, sizeY, r, xx)]} :: 0 <= r < sizeY && 0 <= xx < sizeX ==>
        output[Pos(sizeX, sizeY, r, xx)] ==
          if r == y && xx == x then v else old(output[Pos(sizeX, sizeY, r, xx)])
      ensures forall r, xx {:trigger Writes[Pos(sizeX, sizeY, r, xx)]} :: 0 <= r < sizeY && 0 <= xx < sizeX ==>
        Writes[Pos(sizeX, sizeY, r, xx)] ==
          old(Writes[Pos(sizeX, sizeY, r, xx)]) + if r == y && xx == x then 1 else 0
      ensures forall i :: sizeX * sizeY <= i < output.Length ==> output[i] == old(output[i]) && Writes[i] == old(Writes[i])
    {
      assert idx == Pos(sizeX, sizeY, y, x);
      PosDistinct(sizeX, sizeY, y, x);
      output[idx] := v;
      Writes := Writes[idx := Writes[idx] + 1];
    }
  }
}
