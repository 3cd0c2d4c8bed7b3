/** The two grids of the solver (InitializeGrid, InitializeAdditionalGrid of
    ApproximationEngine.cs) as functions of the configuration, and the facts
    about Dictionary<int, double> grids that the other components rely on. */
module Grids {
  import opened Configuration

  /** Every key in lo..hi is present. */
  predicate HasKeys(m: map<int, real>, lo: int, hi: int) {
    forall k :: lo <= k <= hi ==> k in m
  }

  /** The keys lo..hi are present and their values grow strictly with the key. */
  predicate StrictlyIncreasing(m: map<int, real>, lo: int, hi: int) {
    HasKeys(m, lo, hi) && forall a, b :: lo <= a < b <= hi ==> m[a] < m[b]
  }

  /** Left + theta * (Right - Left) with theta = 1.0 * i / GridPoints. */
  function UniformPoint(c: Config, i: int): real
    requires c.gridPoints >= 1
  {
    c.left + (1.0 * i as real / c.gridPoints as real) * (c.right - c.left)
  }

  /** The primary grid: GridPoints + 1 uniform points on [Left, Right] under
      the keys 0..N, extended by two points Eps apart on either side. */
  function PrimaryGrid(c: Config): map<int, real>
    requires c.gridPoints >= 1
  {
    var n := c.gridPoints;
    map i | -2 <= i <= n + 2 ::
      if 0 <= i <= n then UniformPoint(c, i)
      else if i == -2 then UniformPoint(c, 0) - 2.0 * c.eps
      else if i == -1 then UniformPoint(c, 0) - c.eps
      else if i == n + 1 then UniformPoint(c, n) + c.eps
      else UniformPoint(c, n) + 2.0 * c.eps
  }

  /** Entry i of the auxiliary grid: grid[0] for i = -2, grid[N] for i = N-1,
      otherwise the midpoint of the cell [grid[i + 1], grid[i + 2]]. */
  function AuxiliaryPoint(c: Config, i: int): real
    requires c.gridPoints >= 1
    requires -2 <= i <= c.gridPoints - 1
  {
    var n := c.gridPoints;
    var g := PrimaryGrid(c);
    if i == -2 then g[0]
    else if i == n - 1 then g[n]
    else 0.5 * (g[i + 1] + g[i + 2])
  }

  /** The auxiliary grid: the midpoints of the cells [grid[i + 1], grid[i + 2]]
      under the keys -1..N-2, with key -2 pinned to grid[0] and key N-1 to
      grid[N]. */
  function AuxiliaryGrid(c: Config): map<int, real>
    requires c.gridPoints >= 1
  {
    map i | -2 <= i <= c.gridPoints - 1 :: AuxiliaryPoint(c, i)
  }

  /** The primary grid has exactly the keys -2..N+2, starts the uniform part
      at Left, ends it at Right, and puts the outer points Eps apart. */
  lemma PrimaryGridShape(c: Config)
    requires c.gridPoints >= 1
    ensures forall i :: i in PrimaryGrid(c) <==> -2 <= i <= c.gridPoints + 2
    ensures PrimaryGrid(c)[0] == c.left && PrimaryGrid(c)[c.gridPoints] == c.right
    ensures PrimaryGrid(c)[-2] == c.left - 2.0 * c.eps && PrimaryGrid(c)[-1] == c.left - c.eps
    ensures PrimaryGrid(c)[c.gridPoints + 1] == c.right + c.eps
    ensures PrimaryGrid(c)[c.gridPoints + 2] == c.right + 2.0 * c.eps
  {
    var n := c.gridPoints as real;
    assert 1.0 * n / n == 1.0;
  }

  /** The auxiliary grid has exactly the keys -2..N-1, with the midpoints
      inside and the ends pinned to Left and Right. */
  lemma AuxiliaryGridShape(c: Config)
    requires c.gridPoints >= 1
    ensures forall i :: i in AuxiliaryGrid(c) <==> -2 <= i <= c.gridPoints - 1
    ensures AuxiliaryGrid(c)[-2] == c.left && AuxiliaryGrid(c)[c.gridPoints - 1] == c.right
    ensures forall i :: -1 <= i <= c.gridPoints - 2 ==>
      AuxiliaryGrid(c)[i] == 0.5 * (PrimaryGrid(c)[i + 1] + PrimaryGrid(c)[i + 2])
  {
    PrimaryGridShape(c);
  }

  /** Consecutive uniform points are (Right - Left) / GridPoints apart. */
  lemma {:induction false} UniformStep(c: Config, i: int)
    requires c.Valid()
    ensures UniformPoint(c, i) < UniformPoint(c, i + 1)
  {
    var n := c.gridPoints as real;
    var width := c.right - c.left;
    var t0 := 1.0 * i as real / n;
    var t1 := 1.0 * (i + 1) as real / n;
    assert t1 == t0 + 1.0 / n;
    assert t1 * width == t0 * width + width / n;
    assert width / n > 0.0;
    assert UniformPoint(c, i) == c.left + t0 * width;
    assert UniformPoint(c, i + 1) == c.left + t1 * width;
  }

  /** Increasing from each key to the next is increasing over the range. */
  lemma {:induction false} ChainIncreasing(m: map<int, real>, lo: int, hi: int)
    requires HasKeys(m, lo, hi)
    requires forall k :: lo <= k < hi ==> m[k] < m[k + 1]
    ensures StrictlyIncreasing(m, lo, hi)
  {
    forall a, b | lo <= a < b <= hi
      ensures m[a] < m[b]
    {
      ChainFrom(m, lo, hi, a, b);
    }
  }

  lemma {:induction false} ChainFrom(m: map<int, real>, lo: int, hi: int, a: int, b: int)
    requires HasKeys(m, lo, hi)
    requires forall k :: lo <= k < hi ==> m[k] < m[k + 1]
    requires lo <= a < b <= hi
    ensures m[a] < m[b]
    decreases b - a
  {
    if a + 1 < b {
      ChainFrom(m, lo, hi, a + 1, b);
    }
  }

  /** With Left < Right, Eps > 0 and GridPoints >= 1 the primary grid is
      strictly increasing over all its keys -2..N+2. */
  lemma PrimaryGridIncreasing(c: Config)
    requires c.Valid()
    ensures StrictlyIncreasing(PrimaryGrid(c), -2, c.gridPoints + 2)
  {
    var g := PrimaryGrid(c);
    var n := c.gridPoints;
    PrimaryGridShape(c);
    forall k | -2 <= k < n + 2
      ensures g[k] < g[k + 1]
    {
      if 0 <= k < n {
        UniformStep(c, k);
      }
    }
    ChainIncreasing(g, -2, n + 2);
  }

  /** Neighbouring auxiliary points: each midpoint lies strictly between the
      ends of its cell, which are ordered by the primary grid. */
  lemma {:induction false} AuxiliaryStep(c: Config, k: int)
    requires c.Valid()
    requires -2 <= k < c.gridPoints - 1
    ensures AuxiliaryPoint(c, k) < AuxiliaryPoint(c, k + 1)
  {
    var g := PrimaryGrid(c);
    var n := c.gridPoints;
    PrimaryGridIncreasing(c);
    assert g[k + 2] < g[k + 3];
    if k == -2 {
      assert g[0] < g[1];
    } else {
      assert g[k + 1] < g[k + 2];
    }
  }

  /** Every auxiliary point lies in [Left, Right]. */
  lemma {:induction false} AuxiliaryWithin(c: Config, i: int)
    requires c.Valid()
    requires -2 <= i <= c.gridPoints - 1
    ensures c.left <= AuxiliaryPoint(c, i) <= c.right
  {
    var g := PrimaryGrid(c);
    var n := c.gridPoints;
    PrimaryGridShape(c);
    PrimaryGridIncreasing(c);
    if -1 <= i <= n - 2 {
      assert g[0] <= g[i + 1] && g[i + 2] <= g[n];
    }
  }

  /** The auxiliary grid is strictly increasing and lies within [Left, Right]. */
  lemma AuxiliaryGridIncreasing(c: Config)
    requires c.Valid()
    ensures StrictlyIncreasing(AuxiliaryGrid(c), -2, c.gridPoints - 1)
    ensures forall i :: -2 <= i <= c.gridPoints - 1 ==> c.left <= AuxiliaryGrid(c)[i] <= c.right
  {
    var a := AuxiliaryGrid(c);
    var n := c.gridPoints;
    forall k | -2 <= k < n - 1
      ensures a[k] < a[k + 1]
    {
      AuxiliaryStep(c, k);
    }
    ChainIncreasing(a, -2, n - 1);
    forall i | -2 <= i <= n - 1
      ensures c.left <= a[i] <= c.right
    {
      AuxiliaryWithin(c, i);
    }
  }
}
