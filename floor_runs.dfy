/** The run-length half of cCubicNoise::CalcFloorFrac (source/Noise.cpp:450-467):
    the floor values of consecutive sample points are grouped into maximal
    runs of equal floors, and the length of each run is recorded in order. */
module FloorRuns {

  /** Sum of a sequence, peeled from the back so that prefix sums extend one
      element at a time. */
  function Sum(s: seq<int>): int
  {
    if s == [] then 0 else Sum(s[..|s| - 1]) + s[|s| - 1]
  }

  /** The same sum peeled from the front. */
  lemma {:induction false} SumCons(s: seq<int>)
    requires s != []
    ensures Sum(s) == s[0] + Sum(s[1..])
  {
    if |s| > 1 {
      SumCons(s[..|s| - 1]);
      assert s[..|s| - 1][1..] == s[1..][..|s| - 2];
    } else {
      assert s[1..] == [];
    }
  }

  /** The prefix sum over the first k + 1 run lengths extends the one over the
      first k by the (k+1)-th length. */
  lemma PrefixSumStep(s: seq<int>, k: int)
    requires 0 <= k < |s|
    ensures Sum(s[..k + 1]) == Sum(s[..k]) + s[k]
  {
    assert s[..k + 1][..k] == s[..k];
  }

  /** With non-negative entries, a prefix sums to at most the whole. */
  lemma {:induction false} PrefixSumAtMost(s: seq<int>, k: int, n: int)
    requires 0 <= k <= n <= |s|
    requires forall i :: 0 <= i < |s| ==> 0 <= s[i]
    ensures Sum(s[..k]) <= Sum(s[..n])
    decreases n
  {
    if k < n {
      PrefixSumAtMost(s, k, n - 1);
      PrefixSumStep(s, n - 1);
    }
  }

  /** f splits into maximal runs of equal values whose lengths, in order, are
      the entries of s: each run is non-empty, constant, and the value right
      after it differs from its own. */
  ghost predicate IsRuns(f: seq<int>, s: seq<int>)
    decreases |s|
  {
    if s == [] then f == []
    else
      && 1 <= s[0] <= |f|
      && (forall i :: 0 <= i < s[0] ==> f[i] == f[0])
      && (s[0] < |f| ==> f[s[0]] != f[0])
      && IsRuns(f[s[0]..], s[1..])
  }

  /** A non-empty constant block whose value differs from the last value of f
      adds one run of its own length. */
  lemma {:induction false} RunsAppend(f: seq<int>, s: seq<int>, g: seq<int>)
    requires IsRuns(f, s)
    requires 1 <= |g| && forall i :: 0 <= i < |g| ==> g[i] == g[0]
    requires 0 < |f| ==> f[|f| - 1] != g[0]
    ensures IsRuns(f + g, s + [|g|])
    decreases |s|
  {
    if s == [] {
      assert f + g == g;
      assert s + [|g|] == [|g|];
      assert g[|g|..] == [];
    } else {
      var n := s[0];
      assert f[n..] + g == (f + g)[n..];
      assert (s + [|g|])[1..] == s[1..] + [|g|];
      if n < |f| {
        RunsAppend(f[n..], s[1..], g);
      } else {
        assert f[n..] == [];
        assert f[|f| - 1] == f[0];
        RunsAppend(f[n..], s[1..], g);
      }
    }
  }

  /** The runs cover f exactly: there is at least one run iff f is non-empty,
      there are no more runs than elements, each run is at least one long and
      the lengths add up to |f|. */
  lemma {:induction false} RunsShape(f: seq<int>, s: seq<int>)
    requires IsRuns(f, s)
    ensures Sum(s) == |f|
    ensures |s| <= |f|
    ensures (|s| == 0) == (|f| == 0)
    ensures forall k :: 0 <= k < |s| ==> 1 <= s[k]
    decreases |s|
  {
    if s != [] {
      RunsShape(f[s[0]..], s[1..]);
      SumCons(s);
      assert forall k :: 1 <= k < |s| ==> s[k] == s[1..][k - 1];
    }
  }

  /** Every element of the k-th run equals the run's first element, the one
      at the sum of the earlier run lengths. */
  lemma {:induction false} RunsConstant(f: seq<int>, s: seq<int>, k: int, i: int)
    requires IsRuns(f, s)
    requires 0 <= k < |s|
    requires Sum(s[..k]) <= i < Sum(s[..k]) + s[k]
    ensures 0 <= Sum(s[..k]) && i < |f|
    ensures f[i] == f[Sum(s[..k])]
    decreases k
  {
    if k == 0 {
      assert s[..0] == [];
    } else {
      SumCons(s[..k]);
      assert s[..k][1..] == s[1..][..k - 1];
      RunsConstant(f[s[0]..], s[1..], k - 1, i - s[0]);
    }
  }

  /** Adjacent runs have different values: at the boundary between the k-th
      and the (k+1)-th run the value changes. */
  lemma {:induction false} RunsMaximal(f: seq<int>, s: seq<int>, k: int)
    requires IsRuns(f, s)
    requires 0 <= k && k + 1 < |s|
    ensures 0 < Sum(s[..k + 1]) < |f|
    ensures f[Sum(s[..k + 1])] != f[Sum(s[..k + 1]) - 1]
    decreases k
  {
    SumCons(s[..k + 1]);
    assert s[..k + 1][1..] == s[1..][..k];
    if k == 0 {
      assert s[1..][..0] == [];
      assert f[s[0]..] != [];
    } else {
      RunsMaximal(f[s[0]..], s[1..], k - 1);
    }
  }

  /** The run lengths of a sequence are determined by it. */
  lemma {:induction false} RunsUnique(f: seq<int>, s: seq<int>, t: seq<int>)
    requires IsRuns(f, s) && IsRuns(f, t)
    ensures s == t
    decreases |s|
  {
    if s != [] && t != [] {
      assert s[0] == t[0];
      RunsUnique(f[s[0]..], s[1..], t[1..]);
      assert s == [s[0]] + s[1..];
      assert t == [t[0]] + t[1..];
    }
  }

  /** The marking loop of CalcFloorFrac (source/Noise.cpp:450-467): the first
      `size` floors are cut into maximal runs, whose lengths go to
      same[0..numSame). The source reads floor[0] even when size is 0. */
  method MarkSameRuns(floor: seq<int>, size: nat, same: array<int>) returns (numSame: nat)
    requires 0 < |floor| && size <= |floor| && size <= same.Length
    modifies same
    ensures numSame <= size
    ensures IsRuns(floor[..size], same[..numSame])
    ensures forall k :: numSame <= k < same.Length ==> same[k] == old(same[k])
  {
    var curFloor := floor[0];
    var lastSame := 0;
    numSame := 0;
    var i := 1;
    while i < size
      invariant 1 <= i <= (if size == 0 then 1 else size)
      invariant 0 <= lastSame < i
      invariant curFloor == floor[lastSame]
      invariant forall j :: lastSame <= j < i ==> floor[j] == curFloor
      invariant 0 < lastSame ==> floor[lastSame - 1] != curFloor
      invariant numSame <= lastSame
      invariant IsRuns(floor[..lastSame], same[..numSame])
      invariant forall k :: numSame <= k < same.Length ==> same[k] == old(same[k])
    {
      if floor[i] != curFloor {
        CloseRun(floor, lastSame, i, same, numSame);
        lastSame := i;
        numSame := numSame + 1;
        curFloor := floor[i];
      }
      i := i + 1;
    }
    if lastSame < size {
      CloseRun(floor, lastSame, size, same, numSame);
      numSame := numSame + 1;
    } else {
      assert floor[..size] == floor[..lastSame];
    }
  }

  /** Records the run floor[lastSame..i) as run number numSame
      (`a_Same[a_NumSame] = i - LastSame`). */
  method CloseRun(floor: seq<int>, lastSame: nat, i: nat, same: array<int>, numSame: nat)
    requires lastSame < i <= |floor| && numSame <= lastSame && i <= same.Length
    requires forall j :: lastSame <= j < i ==> floor[j] == floor[lastSame]
    requires 0 < lastSame ==> floor[lastSame - 1] != floor[lastSame]
    requires IsRuns(floor[..lastSame], same[..numSame])
    modifies same
    ensures same[..numSame + 1] == old(same[..numSame]) + [i - lastSame]
    ensures IsRuns(floor[..i], same[..numSame + 1])
    ensures forall k :: numSame < k < same.Length ==> same[k] == old(same[k])
  {
    ghost var runs := same[..numSame];
    RunsAppend(floor[..lastSame], runs, floor[lastSame..i]);
    assert floor[..lastSame] + floor[lastSame..i] == floor[..i];
    same[numSame] := i - lastSame;
    assert same[..numSame + 1] == runs + [i - lastSame];
  }
}
