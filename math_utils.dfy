/** The linear solver of MathUtils.cs: Gaussian elimination without pivoting
    on a dense (N+2) x (N+2) system, and the wrapper that shifts the solver's
    domain indices -2..N-1 to array indices 0..N+1 and back. */
module MathUtils {
  import opened Common

  /** A dense square system of size n, row by row. */
  ghost predicate Square(m: seq<seq<real>>, n: nat) {
    |m| == n && forall i :: 0 <= i < n ==> |m[i]| == n
  }

  /** The sum of row[j] * x[j] over lo <= j < hi. */
  function Dot(row: seq<real>, x: seq<real>, lo: int, hi: int): real
    requires 0 <= lo <= hi <= |row| && hi <= |x|
    decreases hi - lo
  {
    if lo == hi then 0.0 else row[lo] * x[lo] + Dot(row, x, lo + 1, hi)
  }

  /** x solves a x = b. */
  ghost predicate IsSolution(a: seq<seq<real>>, b: seq<real>, x: seq<real>)
    requires Square(a, |b|) && |x| == |b|
  {
    forall i :: 0 <= i < |b| ==> Dot(a[i], x, 0, |b|) == b[i]
  }

  /** Forward-elimination step k: every row i > k loses matrix[i,k] / matrix[k,k]
      times row k in the columns after k, and so does its right-hand side.
      Column k itself keeps the multipliers: the source never writes it. */
  ghost function Step(m: seq<seq<real>>, v: seq<real>, k: nat): (r: (seq<seq<real>>, seq<real>))
    requires Square(m, |v|) && k < |v| && m[k][k] != 0.0
    ensures Square(r.0, |v|) && |r.1| == |v|
    ensures forall i, j :: 0 <= i < |v| && 0 <= j < |v| && (i <= k || j <= k) ==> r.0[i][j] == m[i][j]
    ensures forall i :: 0 <= i <= k ==> r.1[i] == v[i]
  {
    var n := |v|;
    (seq(n, i requires 0 <= i < n =>
       seq(n, j requires 0 <= j < n =>
         if i <= k || j <= k then m[i][j] else m[i][j] - m[k][j] * (m[i][k] / m[k][k]))),
     seq(n, i requires 0 <= i < n => if i <= k then v[i] else v[i] - v[k] * m[i][k] / m[k][k]))
  }

  /** An entry that step k changes. */
  lemma {:induction false} StepEntry(m: seq<seq<real>>, v: seq<real>, k: nat, i: nat, j: nat)
    requires Square(m, |v|) && k < i < |v| && k < j < |v| && m[k][k] != 0.0
    ensures Step(m, v, k).0[i][j] == m[i][j] - m[k][j] * (m[i][k] / m[k][k])
  {
  }

  /** A right-hand side that step k changes. */
  lemma {:induction false} StepRhsEntry(m: seq<seq<real>>, v: seq<real>, k: nat, i: nat)
    requires Square(m, |v|) && k < i < |v| && m[k][k] != 0.0
    ensures Step(m, v, k).1[i] == v[i] - v[k] * m[i][k] / m[k][k]
  {
  }

  /** The pivots of steps 0..k-1 are non-zero, so the first k steps are defined. */
  ghost predicate PivotsNonZero(a: seq<seq<real>>, b: seq<real>, k: nat)
    requires Square(a, |b|) && k <= |b|
    decreases k, 0
  {
    k == 0 || (PivotsNonZero(a, b, k - 1) && Forward(a, b, k - 1).0[k - 1][k - 1] != 0.0)
  }

  /** The system after the first k forward-elimination steps. */
  ghost function Forward(a: seq<seq<real>>, b: seq<real>, k: nat): (r: (seq<seq<real>>, seq<real>))
    requires Square(a, |b|) && k <= |b| && PivotsNonZero(a, b, k)
    ensures Square(r.0, |b|) && |r.1| == |b|
    decreases k, 1
  {
    if k == 0 then (a, b) else Step(Forward(a, b, k - 1).0, Forward(a, b, k - 1).1, k - 1)
  }

  /** Row i with the entries left of the diagonal in the first k columns read as
      zero: the rows the eliminated system stands for, multipliers aside. */
  function Reduced(row: seq<real>, i: int, k: int): (r: seq<real>)
    ensures |r| == |row|
    ensures forall j :: 0 <= j < |row| ==> r[j] == if j < i && j < k then 0.0 else row[j]
  {
    seq(|row|, j requires 0 <= j < |row| => if j < i && j < k then 0.0 else row[j])
  }

  /** x solves the system that (m, v) stands for after k elimination steps. */
  ghost predicate SolvesReduced(m: seq<seq<real>>, v: seq<real>, k: int, x: seq<real>)
    requires Square(m, |v|) && |x| == |v|
  {
    forall i :: 0 <= i < |v| ==> Dot(Reduced(m[i], i, k), x, 0, |v|) == v[i]
  }

  lemma {:induction false} DotSplitLast(row: seq<real>, x: seq<real>, lo: int, hi: int)
    requires 0 <= lo < hi <= |row| && hi <= |x|
    ensures Dot(row, x, lo, hi) == Dot(row, x, lo, hi - 1) + row[hi - 1] * x[hi - 1]
    decreases hi - lo
  {
    if lo < hi - 1 {
      DotSplitLast(row, x, lo + 1, hi);
    }
  }

  /** Dot reads x only in lo..hi-1, and the row only there too. */
  lemma {:induction false} DotFrame(row: seq<real>, row': seq<real>, x: seq<real>, x': seq<real>, lo: int, hi: int)
    requires 0 <= lo <= hi <= |row| && hi <= |x| && hi <= |row'| && hi <= |x'|
    requires forall j :: lo <= j < hi ==> row[j] == row'[j] && x[j] == x'[j]
    ensures Dot(row, x, lo, hi) == Dot(row', x', lo, hi)
    decreases hi - lo
  {
    if lo < hi {
      DotFrame(row, row', x, x', lo + 1, hi);
    }
  }

  /** Dot is linear in the row. */
  lemma {:induction false} DotLinear(r: seq<real>, p: seq<real>, q: seq<real>, c: real, x: seq<real>, lo: int, hi: int)
    requires 0 <= lo <= hi <= |r| && hi <= |p| && hi <= |q| && hi <= |x|
    requires forall j :: lo <= j < hi ==> r[j] == p[j] + c * q[j]
    ensures Dot(r, x, lo, hi) == Dot(p, x, lo, hi) + c * Dot(q, x, lo, hi)
    decreases hi - lo
  {
    if lo < hi {
      DotLinear(r, p, q, c, x, lo + 1, hi);
      assert r[lo] * x[lo] == p[lo] * x[lo] + c * (q[lo] * x[lo]);
    }
  }

  /** Leading zeros of a row do not contribute. */
  lemma {:induction false} DotZeroPrefix(row: seq<real>, x: seq<real>, lo: int, mid: int, hi: int)
    requires 0 <= lo <= mid <= hi <= |row| && hi <= |x|
    requires forall j :: lo <= j < mid ==> row[j] == 0.0
    ensures Dot(row, x, lo, hi) == Dot(row, x, mid, hi)
    decreases mid - lo
  {
    if lo < mid {
      DotZeroPrefix(row, x, lo + 1, mid, hi);
    }
  }

  /** Entry by entry, row i > k before step k is row i after it plus
      matrix[i,k] / matrix[k,k] times the pivot row. */
  lemma {:induction false} StepRowEntries(m: seq<seq<real>>, v: seq<real>, k: nat, i: nat)
    requires Square(m, |v|) && k < i < |v| && m[k][k] != 0.0
    ensures forall j :: 0 <= j < |v| ==>
      Reduced(m[i], i, k)[j] == Reduced(Step(m, v, k).0[i], i, k + 1)[j] + (m[i][k] / m[k][k]) * Reduced(m[k], k, k)[j]
  {
    var factor := m[i][k] / m[k][k];
    var row' := Step(m, v, k).0[i];
    forall j | 0 <= j < |v|
      ensures Reduced(m[i], i, k)[j] == Reduced(row', i, k + 1)[j] + factor * Reduced(m[k], k, k)[j]
    {
      if j < k {
      } else if j == k {
        assert Reduced(row', i, k + 1)[j] == 0.0;
        CancelPivot(m[i][k], m[k][k]);
      } else {
        StepEntry(m, v, k, i, j);
      }
    }
  }

  /** (a / p) * p == a for a non-zero pivot p. */
  lemma {:induction false} CancelPivot(a: real, p: real)
    requires p != 0.0
    ensures (a / p) * p == a
  {
  }

  /** The right-hand side of row i > k after step k. */
  lemma {:induction false} StepRhs(m: seq<seq<real>>, v: seq<real>, k: nat, i: nat)
    requires Square(m, |v|) && k < i < |v| && m[k][k] != 0.0
    ensures Step(m, v, k).1[i] == v[i] - (m[i][k] / m[k][k]) * v[k]
  {
    StepRhsEntry(m, v, k, i);
    MultiplierCommutes(v[k], m[i][k], m[k][k]);
  }

  /** b * m / p, as the right-hand side update writes it, is (m / p) * b. */
  lemma {:induction false} MultiplierCommutes(b: real, m: real, p: real)
    requires p != 0.0
    ensures b * m / p == (m / p) * b
  {
  }

  /** Equation i > k of the system before step k follows from equation i
      after it and equation k. */
  lemma {:induction false} StepRow(m: seq<seq<real>>, v: seq<real>, k: nat, i: nat, x: seq<real>)
    requires Square(m, |v|) && k < i < |v| && m[k][k] != 0.0 && |x| == |v|
    requires Dot(Reduced(Step(m, v, k).0[i], i, k + 1), x, 0, |v|) == Step(m, v, k).1[i]
    requires Dot(Reduced(m[k], k, k), x, 0, |v|) == v[k]
    ensures Dot(Reduced(m[i], i, k), x, 0, |v|) == v[i]
  {
    var factor := m[i][k] / m[k][k];
    var before, after, pivot := Reduced(m[i], i, k), Reduced(Step(m, v, k).0[i], i, k + 1), Reduced(m[k], k, k);
    StepRowEntries(m, v, k, i);
    DotLinear(before, after, pivot, factor, x, 0, |v|);
    StepRhs(m, v, k, i);
  }

  /** One forward-elimination step loses no solution: whatever solves the system
      after step k solves the system before it. */
  lemma {:induction false} StepKeepsSolutions(m: seq<seq<real>>, v: seq<real>, k: nat, x: seq<real>)
    requires Square(m, |v|) && k < |v| && m[k][k] != 0.0 && |x| == |v|
    requires SolvesReduced(Step(m, v, k).0, Step(m, v, k).1, k + 1, x)
    ensures SolvesReduced(m, v, k, x)
  {
    var n := |v|;
    var m' := Step(m, v, k).0;
    DotFrame(Reduced(m[k], k, k), Reduced(m'[k], k, k + 1), x, x, 0, n);
    forall i | 0 <= i < n
      ensures Dot(Reduced(m[i], i, k), x, 0, n) == v[i]
    {
      if i <= k {
        DotFrame(Reduced(m[i], i, k), Reduced(m'[i], i, k + 1), x, x, 0, n);
      } else {
        StepRow(m, v, k, i, x);
      }
    }
  }

  /** The first k steps lose no solution. */
  lemma {:induction false} ForwardKeepsSolutions(a: seq<seq<real>>, b: seq<real>, k: nat, x: seq<real>)
    requires Square(a, |b|) && k <= |b| && PivotsNonZero(a, b, k) && |x| == |b|
    requires SolvesReduced(Forward(a, b, k).0, Forward(a, b, k).1, k, x)
    ensures IsSolution(a, b, x)
    decreases k
  {
    if k == 0 {
      forall i | 0 <= i < |b| ensures Dot(a[i], x, 0, |b|) == b[i] {
        DotFrame(a[i], Reduced(a[i], i, 0), x, x, 0, |b|);
      }
    } else {
      StepKeepsSolutions(Forward(a, b, k - 1).0, Forward(a, b, k - 1).1, k - 1, x);
      ForwardKeepsSolutions(a, b, k - 1, x);
    }
  }

  /** x satisfies equations from..n-1 of the upper triangle of u: the sum of
      u[r][j] * x[j] over j >= r is c[r]. */
  ghost predicate UpperSolved(u: seq<seq<real>>, c: seq<real>, x: seq<real>, from: int)
    requires Square(u, |c|) && |x| == |c|
  {
    forall r :: from <= r < |c| && 0 <= r ==> Dot(u[r], x, r, |c|) == c[r]
  }

  /** Back-substitution solves the fully eliminated system. */
  lemma {:induction false} UpperSolvedReduced(u: seq<seq<real>>, c: seq<real>, x: seq<real>)
    requires |c| >= 1 && Square(u, |c|) && |x| == |c|
    requires UpperSolved(u, c, x, 0)
    ensures SolvesReduced(u, c, |c| - 1, x)
  {
    var n := |c|;
    forall i | 0 <= i < n ensures Dot(Reduced(u[i], i, n - 1), x, 0, n) == c[i] {
      var row := Reduced(u[i], i, n - 1);
      DotZeroPrefix(row, x, 0, i, n);
      DotFrame(row, u[i], x, x, i, n);
      assert Dot(u[i], x, i, n) == c[i];
    }
  }

  /** Rows up to i are final once step i has been done. */
  lemma {:induction false} SettledRow(a: seq<seq<real>>, b: seq<real>, i: nat, k: nat)
    requires Square(a, |b|) && i <= k <= |b| && PivotsNonZero(a, b, k)
    ensures PivotsNonZero(a, b, i)
    ensures i < |b| ==> Forward(a, b, k).0[i] == Forward(a, b, i).0[i]
    ensures i < |b| ==> Forward(a, b, k).1[i] == Forward(a, b, i).1[i]
    decreases k
  {
    if i < k {
      SettledRow(a, b, i, k - 1);
      if i < |b| {
        var prev := Forward(a, b, k - 1);
        assert Forward(a, b, k).0[i] == prev.0[i];
      }
    }
  }

  /** The entries of a 2-D array, row by row. */
  ghost function Entries(m: array2<real>): (s: seq<seq<real>>)
    reads m
    ensures |s| == m.Length0
    ensures forall i :: 0 <= i < m.Length0 ==> |s[i]| == m.Length1
    ensures forall i, j :: 0 <= i < m.Length0 && 0 <= j < m.Length1 ==> s[i][j] == m[i, j]
  {
    seq(m.Length0, i requires 0 <= i < m.Length0 reads m =>
      seq(m.Length1, j requires 0 <= j < m.Length1 reads m => m[i, j]))
  }

  /** The 2-D array holds the dense matrix s. */
  ghost predicate Holds(m: array2<real>, s: seq<seq<real>>)
    reads m
    requires Square(s, m.Length0) && m.Length1 == m.Length0
  {
    forall i, j :: 0 <= i < m.Length0 && 0 <= j < m.Length0 ==> m[i, j] == s[i][j]
  }

  /** Pivots non-zero up to k means pivots non-zero up to any i <= k. */
  lemma {:induction false} PivotsPrefix(a: seq<seq<real>>, b: seq<real>, i: nat, k: nat)
    requires Square(a, |b|) && i <= k <= |b|
    ensures PivotsNonZero(a, b, k) ==> PivotsNonZero(a, b, i)
    decreases k
  {
    if i < k {
      PivotsPrefix(a, b, i, k - 1);
    }
  }

  /** No zero on the diagonal of u. */
  ghost predicate DiagonalNonZero(u: seq<seq<real>>) {
    forall p :: 0 <= p < |u| && p < |u[p]| ==> u[p][p] != 0.0
  }

  /** Once the n - 1 steps are done, every pivot is non-zero exactly when the
      diagonal of the eliminated matrix is. */
  lemma {:induction false} DiagonalPivots(a: seq<seq<real>>, b: seq<real>)
    requires |b| >= 1 && Square(a, |b|) && PivotsNonZero(a, b, |b| - 1)
    ensures PivotsNonZero(a, b, |b|) <==> DiagonalNonZero(Forward(a, b, |b| - 1).0)
  {
    var n := |b|;
    var u := Forward(a, b, n - 1).0;
    if PivotsNonZero(a, b, n) {
      forall p | 0 <= p < n ensures u[p][p] != 0.0 {
        if p < n - 1 {
          SettledRow(a, b, p, n - 1);
          SettledRow(a, b, p + 1, n);
        }
      }
    }
  }

  /** matrix[i, j] - matrix[k, j] * (matrix[i, k] / matrix[k, k]) computed from
      the array is the entry Step specifies. */
  lemma {:induction false} SameEntry(a: real, b: real, c: real, d: real, a': real, b': real, c': real, d': real)
    requires d != 0.0 && a == a' && b == b' && c == c' && d == d'
    ensures a - b * (c / d) == a' - b' * (c' / d')
  {
  }

  /** vector[i] - vector[k] * matrix[i, k] / matrix[k, k] computed from the
      arrays is the right-hand side Step specifies. */
  lemma {:induction false} SameRhs(a: real, b: real, c: real, d: real, a': real, b': real, c': real, d': real)
    requires d != 0.0 && a == a' && b == b' && c == c' && d == d'
    ensures a - b * c / d == a' - b' * c' / d'
  {
  }

  /** Row i of elimination step k: the j loop over the columns after k.
      Row i of the matrix becomes row i of Step(m, v, k); nothing else changes. */
  method EliminateRow(matrix: array2<real>, k: int, i: int, ghost m: seq<seq<real>>, ghost v: seq<real>)
    requires matrix.Length0 == |v| && matrix.Length1 == |v|
    requires Square(m, |v|) && 0 <= k < i < |v| && m[k][k] != 0.0
    requires forall q :: 0 <= q < |v| ==> matrix[i, q] == m[i][q] && matrix[k, q] == m[k][q]
    modifies matrix
    ensures forall p, q :: 0 <= p < |v| && 0 <= q < |v| ==>
      matrix[p, q] == if p == i && q > k then Step(m, v, k).0[i][q] else old(matrix[p, q])
  {
    var n := matrix.Length0;
    ghost var after := Step(m, v, k);
    var j := k + 1;
    while j < n
      invariant k + 1 <= j <= n
      invariant forall p, q :: 0 <= p < n && 0 <= q < n ==>
        matrix[p, q] == if p == i && k < q < j then after.0[i][q] else old(matrix[p, q])
    {
      var mij, mkj, mik, mkk := matrix[i, j], matrix[k, j], matrix[i, k], matrix[k, k];
      SameEntry(mij, mkj, mik, mkk, m[i][j], m[k][j], m[i][k], m[k][k]);
      StepEntry(m, v, k, i, j);
      matrix[i, j] := mij - mkj * (mik / mkk);
      j := j + 1;
    }
  }

  /** The right-hand side of row i in elimination step k; column k of the
      matrix, which the j loop leaves alone, supplies the multiplier. */
  method EliminateRhs(matrix: array2<real>, vector: array<real>, k: int, i: int, ghost m: seq<seq<real>>, ghost v: seq<real>)
    requires matrix.Length0 == vector.Length && matrix.Length1 == vector.Length
    requires Square(m, vector.Length) && |v| == vector.Length && 0 <= k < i < vector.Length && m[k][k] != 0.0
    requires matrix[i, k] == m[i][k] && matrix[k, k] == m[k][k]
    requires vector[i] == v[i] && vector[k] == v[k]
    modifies vector
    ensures forall p :: 0 <= p < vector.Length ==> vector[p] == if p == i then Step(m, v, k).1[i] else old(vector[p])
  {
    var vi, vk, mik, mkk := vector[i], vector[k], matrix[i, k], matrix[k, k];
    SameRhs(vi, vk, mik, mkk, v[i], v[k], m[i][k], m[k][k]);
    StepRhsEntry(m, v, k, i);
    vector[i] := vi - vk * mik / mkk;
  }

  /** Elimination step k on the arrays: the i loop over the rows below k. */
  method EliminateColumn(matrix: array2<real>, vector: array<real>, k: int, ghost m: seq<seq<real>>, ghost v: seq<real>)
    requires matrix.Length0 == vector.Length && matrix.Length1 == vector.Length
    requires Square(m, vector.Length) && 0 <= k < vector.Length && m[k][k] != 0.0
    requires Holds(matrix, m) && vector[..] == v
    modifies matrix, vector
    ensures Holds(matrix, Step(m, v, k).0) && vector[..] == Step(m, v, k).1
  {
    var n := vector.Length;
    ghost var after := Step(m, v, k);
    var i := k + 1;
    while i < n
      invariant k + 1 <= i <= n
      invariant forall p, q :: 0 <= p < n && 0 <= q < n ==> matrix[p, q] == if p < i then after.0[p][q] else m[p][q]
      invariant forall p :: 0 <= p < n ==> vector[p] == if p < i then after.1[p] else v[p]
    {
      EliminateRow(matrix, k, i, m, v);
      EliminateRhs(matrix, vector, k, i, m, v);
      i := i + 1;
    }
    assert vector[..] == after.1;
  }

  /** The sum loop of back-substitution: matrix[row, j] * x[j] over the
      columns j after row, accumulated left to right. */
  method RowSum(matrix: array2<real>, x: array<real>, row: int, ghost entries: seq<real>) returns (sum: real)
    requires matrix.Length0 == x.Length && matrix.Length1 == x.Length && 0 <= row < x.Length
    requires |entries| == x.Length && forall j :: row < j < x.Length ==> matrix[row, j] == entries[j]
    ensures sum == Dot(entries, x[..], row + 1, x.Length)
  {
    ghost var xs := x[..];
    sum := 0.0;
    var j := row + 1;
    while j < x.Length
      invariant row + 1 <= j <= x.Length
      invariant sum == Dot(entries, xs, row + 1, j)
    {
      var entry, xj := matrix[row, j], x[j];
      Accumulate(entries, xs, row + 1, j, sum, entry, xj);
      sum := sum + entry * xj;
      j := j + 1;
    }
  }

  /** One more term of a left-to-right accumulation of a dot product. */
  lemma {:induction false} Accumulate(row: seq<real>, x: seq<real>, lo: int, j: int, sum: real, a: real, b: real)
    requires 0 <= lo <= j < |row| && j < |x|
    requires sum == Dot(row, x, lo, j) && a == row[j] && b == x[j]
    ensures sum + a * b == Dot(row, x, lo, j + 1)
  {
    DotSplitLast(row, x, lo, j + 1);
  }

  /** x[row] = (vector[row] - sum) / matrix[row, row] satisfies equation row. */
  lemma {:induction false} SolvedRow(value: real, rhs: real, sum: real, pivot: real, c: real, d: real, p: real)
    requires pivot != 0.0 && value == (rhs - sum) / pivot
    requires rhs == c && sum == d && pivot == p
    ensures p * value + d == c
  {
  }

  /** Setting x[row] so that equation row holds keeps the equations below it. */
  lemma {:induction false} UpperSolvedExtend(u: seq<seq<real>>, c: seq<real>, x: seq<real>, row: nat, value: real)
    requires Square(u, |c|) && |x| == |c| && row < |c|
    requires UpperSolved(u, c, x, row + 1)
    requires u[row][row] * value + Dot(u[row], x, row + 1, |c|) == c[row]
    ensures UpperSolved(u, c, x[row := value], row)
  {
    var n, x' := |c|, x[row := value];
    forall p | row < p < n
      ensures Dot(u[p], x', p, n) == c[p]
    {
      DotFrame(u[p], u[p], x, x', p, n);
    }
    DotFrame(u[row], u[row], x, x', row + 1, n);
    assert Dot(u[row], x', row, n) == u[row][row] * x'[row] + Dot(u[row], x', row + 1, n);
  }

  /** The back-substitution loop: x[k] from the bottom row up. It fails on
      the first zero it meets on the diagonal. */
  method BackSubstitute(matrix: array2<real>, vector: array<real>, ghost u: seq<seq<real>>, ghost c: seq<real>)
    returns (r: Result<array<real>>)
    requires matrix.Length0 == vector.Length && matrix.Length1 == vector.Length
    requires Square(u, vector.Length) && Holds(matrix, u) && vector[..] == c
    ensures r.Success? <==> DiagonalNonZero(u)
    ensures r.Failure? ==> r.error == NonFinite
    ensures r.Success? ==> fresh(r.value) && r.value.Length == |c| && UpperSolved(u, c, r.value[..], 0)
  {
    var n := vector.Length;
    var x := new real[n](_ => 0.0);
    var row := n - 1;
    while row >= 0
      invariant -1 <= row <= n - 1
      invariant forall p :: row < p < n ==> u[p][p] != 0.0
      invariant UpperSolved(u, c, x[..], row + 1)
    {
      var sum := RowSum(matrix, x, row, u[row]);
      var pivot, rhs := matrix[row, row], vector[row];
      if pivot == 0.0 {
        r := Failure(NonFinite);
        return;
      }
      ghost var before := x[..];
      var value := (rhs - sum) / pivot;
      SolvedRow(value, rhs, sum, pivot, c[row], Dot(u[row], before, row + 1, n), u[row][row]);
      UpperSolvedExtend(u, c, before, row, value);
      x[row] := value;
      assert x[..] == before[row := value];
      row := row - 1;
    }
    r := Success(x);
  }

  /** Elimination can go on past step k exactly when pivot k is non-zero,
      and the system after it is one more Step. */
  lemma {:induction false} ForwardAdvance(a: seq<seq<real>>, b: seq<real>, k: nat)
    requires Square(a, |b|) && k < |b| && PivotsNonZero(a, b, k)
    ensures PivotsNonZero(a, b, k + 1) <==> Forward(a, b, k).0[k][k] != 0.0
    ensures PivotsNonZero(a, b, k + 1) ==> Forward(a, b, k + 1) == Step(Forward(a, b, k).0, Forward(a, b, k).1, k)
  {
  }

  /** A zero pivot at step k < n means the elimination of all n steps is
      not defined. */
  lemma {:induction false} ZeroPivotFails(a: seq<seq<real>>, b: seq<real>, k: nat)
    requires Square(a, |b|) && k < |b| && PivotsNonZero(a, b, k) && Forward(a, b, k).0[k][k] == 0.0
    ensures !PivotsNonZero(a, b, |b|)
  {
    PivotsPrefix(a, b, k + 1, |b|);
  }

  /** A zero pivot at step k < n - 1 stops the elimination before its last step. */
  lemma {:induction false} ZeroPivotStops(a: seq<seq<real>>, b: seq<real>, k: nat)
    requires Square(a, |b|) && k < |b| - 1 && PivotsNonZero(a, b, k) && Forward(a, b, k).0[k][k] == 0.0
    ensures !PivotsNonZero(a, b, |b| - 1)
  {
    PivotsPrefix(a, b, k + 1, |b| - 1);
  }

  /** The upper-triangular system that back-substitution solved is the
      given system eliminated: its solution solves the given system. */
  lemma {:induction false} EliminationSolves(a: seq<seq<real>>, b: seq<real>, x: seq<real>)
    requires |b| >= 1 && Square(a, |b|) && |x| == |b| && PivotsNonZero(a, b, |b| - 1)
    requires UpperSolved(Forward(a, b, |b| - 1).0, Forward(a, b, |b| - 1).1, x, 0)
    ensures IsSolution(a, b, x)
  {
    var u, c := Forward(a, b, |b| - 1).0, Forward(a, b, |b| - 1).1;
    UpperSolvedReduced(u, c, x);
    ForwardKeepsSolutions(a, b, |b| - 1, x);
  }

  /** The forward-elimination loop of the private SolveSystem, in place on
      both arrays: it stops at the first zero pivot, and otherwise leaves
      the arrays holding the eliminated system. */
  method ForwardEliminate(matrix: array2<real>, vector: array<real>, ghost a: seq<seq<real>>, ghost b: seq<real>)
    returns (ok: bool)
    requires matrix.Length0 == vector.Length && matrix.Length1 == vector.Length && vector.Length >= 1
    requires Square(a, vector.Length) && Holds(matrix, a) && vector[..] == b
    modifies matrix, vector
    ensures ok <==> PivotsNonZero(a, b, |b| - 1)
    ensures ok ==> Holds(matrix, Forward(a, b, |b| - 1).0) && vector[..] == Forward(a, b, |b| - 1).1
  {
    var n := vector.Length;
    var k := 0;
    ghost var current := (a, b);
    while k < n - 1
      invariant 0 <= k <= n - 1
      invariant PivotsNonZero(a, b, k) && current == Forward(a, b, k)
      invariant Holds(matrix, current.0) && vector[..] == current.1
    {
      var pivot := matrix[k, k];
      if pivot == 0.0 {
        ZeroPivotStops(a, b, k);
        return false;
      }
      ForwardAdvance(a, b, k);
      EliminateColumn(matrix, vector, k, current.0, current.1);
      current := Step(current.0, current.1, k);
      k := k + 1;
    }
    return true;
  }

  /** The private SolveSystem(matrix, vector): forward elimination without
      pivoting, in place on both arrays, then back-substitution into a fresh
      array. A zero pivot makes the C# code divide by zero and return
      non-finite numbers; here it is a NonFinite failure. */
  method SolveInPlace(matrix: array2<real>, vector: array<real>) returns (r: Result<array<real>>)
    requires matrix.Length0 == vector.Length && matrix.Length1 == vector.Length
    modifies matrix, vector
    ensures r.Success? <==> PivotsNonZero(old(Entries(matrix)), old(vector[..]), vector.Length)
    ensures r.Failure? ==> r.error == NonFinite
    ensures r.Success? ==> fresh(r.value) && r.value.Length == vector.Length
    ensures r.Success? ==> IsSolution(old(Entries(matrix)), old(vector[..]), r.value[..])
    ensures r.Success? && vector.Length >= 1 ==>
      Holds(matrix, Forward(old(Entries(matrix)), old(vector[..]), vector.Length - 1).0) &&
      vector[..] == Forward(old(Entries(matrix)), old(vector[..]), vector.Length - 1).1
  {
    var n := vector.Length;
    if n == 0 {
      var x := new real[0];
      r := Success(x);
      return;
    }
    ghost var a, b := Entries(matrix), vector[..];
    var ok := ForwardEliminate(matrix, vector, a, b);
    if !ok {
      PivotsPrefix(a, b, n - 1, n);
      r := Failure(NonFinite);
      return;
    }
    r := BackSubstitute(matrix, vector, Forward(a, b, n - 1).0, Forward(a, b, n - 1).1);
    DiagonalPivots(a, b);
    if r.Success? {
      EliminationSolves(a, b, r.value[..]);
    }
  }

  /** Two dense square matrices with the same entries are equal. */
  lemma {:induction false} SameSquare(s: seq<seq<real>>, t: seq<seq<real>>, n: nat)
    requires Square(s, n) && Square(t, n)
    requires forall i, j :: 0 <= i < n && 0 <= j < n ==> s[i][j] == t[i][j]
    ensures s == t
  {
    forall i | 0 <= i < n ensures s[i] == t[i] {
      assert forall j :: 0 <= j < n ==> s[i][j] == t[i][j];
    }
  }

  /** The sparse matrix, indexed -2..N-1, laid out in a zero-filled dense
      array with every index shifted by 2. */
  ghost function Dense(matrix: map<(int, int), real>, size: nat): (d: seq<seq<real>>)
    ensures Square(d, size)
    ensures forall i, j :: 0 <= i < size && 0 <= j < size ==>
      d[i][j] == if (i - 2, j - 2) in matrix then matrix[(i - 2, j - 2)] else 0.0
  {
    seq(size, i requires 0 <= i < size =>
      seq(size, j requires 0 <= j < size => if (i - 2, j - 2) in matrix then matrix[(i - 2, j - 2)] else 0.0))
  }

  /** The sparse vector laid out the same way. */
  ghost function DenseVector(vector: map<int, real>, size: nat): (d: seq<real>)
    ensures |d| == size
    ensures forall i :: 0 <= i < size ==> d[i] == if i - 2 in vector then vector[i - 2] else 0.0
  {
    seq(size, i requires 0 <= i < size => if i - 2 in vector then vector[i - 2] else 0.0)
  }

  /** Every key, shifted by 2, is an index of the dense arrays. */
  predicate KeysInRange(matrix: map<(int, int), real>, vector: map<int, real>, size: int) {
    (forall key :: key in matrix ==> 0 <= key.0 + 2 < size && 0 <= key.1 + 2 < size) &&
    (forall key :: key in vector ==> 0 <= key + 2 < size)
  }

  /** The coefficients -2..size-3 in array order. */
  ghost function InArrayOrder(coeffs: map<int, real>, size: nat): (x: seq<real>)
    requires forall i :: -2 <= i < size - 2 ==> i in coeffs
    ensures |x| == size && forall i :: 0 <= i < size ==> x[i] == coeffs[i - 2]
  {
    seq(size, i requires 0 <= i < size => coeffs[i - 2])
  }

  /** The first key loop of SolveSystem: write every entry of the sparse
      matrix, shifted by 2, into the zero-filled array; a key outside the
      array throws IndexOutOfRange. */
  method ScatterMatrix(matrix: map<(int, int), real>, target: array2<real>) returns (inRange: bool)
    requires target.Length0 == target.Length1
    requires forall i, j :: 0 <= i < target.Length0 && 0 <= j < target.Length1 ==> target[i, j] == 0.0
    modifies target
    ensures inRange <==> forall key :: key in matrix ==> 0 <= key.0 + 2 < target.Length0 && 0 <= key.1 + 2 < target.Length0
    ensures inRange ==> Entries(target) == Dense(matrix, target.Length0)
  {
    var n := target.Length0;
    var keys := matrix.Keys;
    while keys != {}
      invariant keys <= matrix.Keys
      invariant forall key :: key in matrix && key !in keys ==> 0 <= key.0 + 2 < n && 0 <= key.1 + 2 < n
      invariant forall i, j :: 0 <= i < n && 0 <= j < n ==>
        target[i, j] == if (i - 2, j - 2) in matrix && (i - 2, j - 2) !in keys then matrix[(i - 2, j - 2)] else 0.0
      decreases |keys|
    {
      var key :| key in keys;
      if !(0 <= key.0 + 2 < n && 0 <= key.1 + 2 < n) {
        return false;
      }
      target[key.0 + 2, key.1 + 2] := matrix[key];
      keys := keys - {key};
    }
    SameSquare(Entries(target), Dense(matrix, n), n);
    return true;
  }

  /** The second key loop of SolveSystem, on the right-hand side. */
  method ScatterVector(vector: map<int, real>, target: array<real>) returns (inRange: bool)
    requires forall i :: 0 <= i < target.Length ==> target[i] == 0.0
    modifies target
    ensures inRange <==> forall key :: key in vector ==> 0 <= key + 2 < target.Length
    ensures inRange ==> target[..] == DenseVector(vector, target.Length)
  {
    var n := target.Length;
    var indices := vector.Keys;
    while indices != {}
      invariant indices <= vector.Keys
      invariant forall key :: key in vector && key !in indices ==> 0 <= key + 2 < n
      invariant forall i :: 0 <= i < n ==> target[i] == if i - 2 in vector && i - 2 !in indices then vector[i - 2] else 0.0
      decreases |indices|
    {
      assert exists key :: key in indices by {
        if forall key :: key !in indices {
          assert false;
        }
      }
      var index :| index in indices;
      if !(0 <= index + 2 < n) {
        return false;
      }
      target[index + 2] := vector[index];
      indices := indices - {index};
    }
    return true;
  }

  /** The last loop of SolveSystem: entry i of the solution becomes the
      coefficient with key i - 2. */
  method ShiftBack(solution: array<real>) returns (coeffs: map<int, real>)
    ensures forall key :: key in coeffs <==> -2 <= key < solution.Length - 2
    ensures InArrayOrder(coeffs, solution.Length) == solution[..]
  {
    coeffs := map[];
    var i := 0;
    while i < solution.Length
      invariant 0 <= i <= solution.Length
      invariant forall key :: key in coeffs <==> -2 <= key < i - 2
      invariant forall key :: key in coeffs ==> coeffs[key] == solution[key + 2]
    {
      coeffs := coeffs[i - 2 := solution[i]];
      i := i + 1;
    }
  }

  /** The public SolveSystem(matrix, vector): shift every index of the
      sparse system by 2 into zero-filled arrays of size N + 2, solve, and
      shift the solution back to the keys -2..N-1. A key outside the arrays
      throws IndexOutOfRange; the keys are visited in no particular order. */
  method SolveSystem(gridPoints: int, matrix: map<(int, int), real>, vector: map<int, real>) returns (r: Result<map<int, real>>)
    requires gridPoints + 2 >= 0
    ensures r.Success? <==> (KeysInRange(matrix, vector, gridPoints + 2) &&
      PivotsNonZero(Dense(matrix, gridPoints + 2), DenseVector(vector, gridPoints + 2), gridPoints + 2))
    ensures r.Failure? ==> r.error == if KeysInRange(matrix, vector, gridPoints + 2) then NonFinite else IndexOutOfRange
    ensures r.Success? ==> forall i :: i in r.value <==> -2 <= i < gridPoints
    ensures r.Success? ==>
      IsSolution(Dense(matrix, gridPoints + 2), DenseVector(vector, gridPoints + 2), InArrayOrder(r.value, gridPoints + 2))
  {
    var n := gridPoints + 2;
    var arrayMatrix := new real[n, n]((_, _) => 0.0);
    var arrayVector := new real[n](_ => 0.0);
    var matrixInRange := ScatterMatrix(matrix, arrayMatrix);
    if !matrixInRange {
      return Failure(IndexOutOfRange);
    }
    var vectorInRange := ScatterVector(vector, arrayVector);
    if !vectorInRange {
      return Failure(IndexOutOfRange);
    }
    var solved := SolveInPlace(arrayMatrix, arrayVector);
    if solved.Failure? {
      return Failure(solved.error);
    }
    var coeffs := ShiftBack(solved.value);
    return Success(coeffs);
  }
}
