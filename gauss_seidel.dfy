/**
 * What the Gauss-Seidel solver computes, over exact reals: the diagonal
 * precondition, one in-place sweep, and the sweep-by-sweep iteration with
 * its convergence and divergence tests.
 */
module GaussSeidel {
  import opened Rows

  datatype SolveResult =
    | Solution(x: seq<real>)
    | DiagonalZero(row: nat)   // some row has no diagonal entry above epsilon
    | Divergence(sweep: nat)   // the change made by this sweep exceeded the threshold

  // ---------------------------------------------------------------------------
  // The diagonal precondition
  // ---------------------------------------------------------------------------

  /** Row i stores column i with a value strictly above epsilon (a negative value does not count). */
  predicate HasPositiveDiagonal(row: Row, i: int, epsilon: real) {
    exists k :: 0 <= k < |row| && row[k].column == i && row[k].value > epsilon
  }

  predicate DiagonalOk(rows: seq<Row>, epsilon: real) {
    forall i :: 0 <= i < |rows| ==> HasPositiveDiagonal(rows[i], i, epsilon)
  }

  /** The diagonal coefficient a sweep uses: the value of the last entry in column i, or 0. */
  function Diagonal(row: Row, i: int): real {
    if |row| == 0 then 0.0
    else if row[|row| - 1].column == i then row[|row| - 1].value
    else Diagonal(row[..|row| - 1], i)
  }

  /** In a sorted row, the diagonal coefficient is the value of the one entry in column i. */
  lemma {:induction false} DiagonalAt(row: Row, i: int, k: nat)
    requires Sorted(row) && k < |row| && row[k].column == i
    ensures Diagonal(row, i) == row[k].value
  {
    if k < |row| - 1 {
      DiagonalAt(row[..|row| - 1], i, k);
    }
  }

  lemma {:induction false} DiagonalAbsent(row: Row, i: int)
    requires !HasColumn(row, i)
    ensures Diagonal(row, i) == 0.0
  {
    if |row| > 0 {
      var n := |row| - 1;
      assert forall k :: 0 <= k < n ==> row[..n][k] == row[k];
      DiagonalAbsent(row[..n], i);
    }
  }

  /**
   * Once the precondition holds with a non-negative epsilon, every diagonal
   * coefficient a sweep divides by is positive.
   */
  lemma DiagonalPositive(rows: seq<Row>, epsilon: real, i: nat)
    requires forall r :: 0 <= r < |rows| ==> Sorted(rows[r])
    requires DiagonalOk(rows, epsilon) && 0.0 <= epsilon && i < |rows|
    ensures Diagonal(rows[i], i) > 0.0
  {
    var k :| 0 <= k < |rows[i]| && rows[i][k].column == i && rows[i][k].value > epsilon;
    DiagonalAt(rows[i], i, k);
  }

  /** A row whose diagonal entry is negative fails the precondition for every epsilon >= 0. */
  lemma NegativeDiagonalFails(rows: seq<Row>, epsilon: real, i: nat, k: nat)
    requires i < |rows| && Sorted(rows[i]) && k < |rows[i]|
    requires rows[i][k].column == i && rows[i][k].value < 0.0 && 0.0 <= epsilon
    ensures !DiagonalOk(rows, epsilon)
  {
    assert !HasPositiveDiagonal(rows[i], i, epsilon) by {
      forall k' | 0 <= k' < |rows[i]| && rows[i][k'].column == i
        ensures rows[i][k'].value <= epsilon
      {
        assert k' == k;
      }
    }
  }

  // ---------------------------------------------------------------------------
  // One sweep
  // ---------------------------------------------------------------------------

  predicate DiagonalsNonzero(rows: seq<Row>) {
    forall i :: 0 <= i < |rows| ==> Diagonal(rows[i], i) != 0.0
  }

  /** Sum over the entries off column i of value times the current solution component. */
  function OffDiagonal(row: Row, i: int, x: seq<real>): real
    requires ColumnsBelow(row, |x|)
  {
    if |row| == 0 then 0.0
    else
      var e := row[|row| - 1];
      OffDiagonal(row[..|row| - 1], i, x) + (if e.column == i then 0.0 else e.value * x[e.column])
  }

  /** The new value of component i: (b_i minus the off-diagonal sum) over the diagonal. */
  function RowUpdate(row: Row, i: int, bi: real, x: seq<real>): real
    requires ColumnsBelow(row, |x|) && Diagonal(row, i) != 0.0
  {
    (bi - OffDiagonal(row, i, x)) / Diagonal(row, i)
  }

  predicate SweepReady(rows: seq<Row>, b: seq<real>, x: seq<real>) {
    |x| == |rows| <= |b| && AllColumnsBelow(rows, |x|) && DiagonalsNonzero(rows)
  }

  /**
   * The first n rows updated in order, each seeing the components the
   * previous rows of the same sweep already overwrote.
   */
  function SweepPrefix(rows: seq<Row>, b: seq<real>, x: seq<real>, n: nat): (y: seq<real>)
    requires SweepReady(rows, b, x) && n <= |rows|
    ensures |y| == |x|
  {
    if n == 0 then x
    else
      var y := SweepPrefix(rows, b, x, n - 1);
      y[n - 1 := RowUpdate(rows[n - 1], n - 1, b[n - 1], y)]
  }

  function Sweep(rows: seq<Row>, b: seq<real>, x: seq<real>): (y: seq<real>)
    requires SweepReady(rows, b, x)
    ensures |y| == |x|
  {
    SweepPrefix(rows, b, x, |rows|)
  }

  /** Row i applied to x splits into the diagonal term and the off-diagonal sum. */
  lemma {:induction false} RowTimesSplit(row: Row, i: int, x: seq<real>)
    requires Sorted(row) && ColumnsBelow(row, |x|) && 0 <= i < |x|
    ensures RowTimes(row, x) == Diagonal(row, i) * x[i] + OffDiagonal(row, i, x)
  {
    if |row| > 0 {
      var n := |row| - 1;
      RowTimesSplit(row[..n], i, x);
      if row[n].column == i {
        assert !HasColumn(row[..n], i) by {
          assert forall k :: 0 <= k < n ==> row[..n][k].column < row[n].column;
        }
        DiagonalAbsent(row[..n], i);
      }
    }
  }

  /** An exact solution of A x = b is left unchanged by a sweep. */
  lemma ExactSolutionIsFixed(rows: seq<Row>, b: seq<real>, x: seq<real>)
    requires SweepReady(rows, b, x)
    requires forall r :: 0 <= r < |rows| ==> Sorted(rows[r])
    requires forall i :: 0 <= i < |rows| ==> RowTimes(rows[i], x) == b[i]
    ensures Sweep(rows, b, x) == x
  {
    ExactPrefixIsFixed(rows, b, x, |rows|);
  }

  lemma {:induction false} ExactPrefixIsFixed(rows: seq<Row>, b: seq<real>, x: seq<real>, n: nat)
    requires SweepReady(rows, b, x) && n <= |rows|
    requires forall r :: 0 <= r < |rows| ==> Sorted(rows[r])
    requires forall i :: 0 <= i < |rows| ==> RowTimes(rows[i], x) == b[i]
    ensures SweepPrefix(rows, b, x, n) == x
  {
    if n > 0 {
      var i := n - 1;
      ExactPrefixIsFixed(rows, b, x, i);
      RowTimesSplit(rows[i], i, x);
      var d := Diagonal(rows[i], i);
      assert (b[i] - OffDiagonal(rows[i], i, x)) / d == d * x[i] / d == x[i];
      assert x[i := x[i]] == x;
    }
  }

  // ---------------------------------------------------------------------------
  // Iterating sweeps
  // ---------------------------------------------------------------------------

  function Minus(u: seq<real>, v: seq<real>): (w: seq<real>)
    requires |u| == |v|
    ensures |w| == |u| && forall k :: 0 <= k < |w| ==> w[k] == u[k] - v[k]
  {
    seq(|u|, k requires 0 <= k < |u| => u[k] - v[k])
  }

  function SquaredNorm(v: seq<real>): (s: real)
    ensures s >= 0.0
  {
    if |v| == 0 then 0.0 else SquaredNorm(v[..|v| - 1]) + v[|v| - 1] * v[|v| - 1]
  }

  /** The Euclidean norm of v is below e (that is, sqrt of the squared norm < e). */
  predicate NormLess(v: seq<real>, e: real) {
    e > 0.0 && SquaredNorm(v) < e * e
  }

  /** The Euclidean norm of v is above t. */
  predicate NormGreater(v: seq<real>, t: real) {
    t < 0.0 || SquaredNorm(v) > t * t
  }

  /**
   * Sweeps k, k+1, ... up to kmax, starting from the solution x and the
   * previous iterate `prev`: stop with the new solution once it moved less
   * than epsilon, fail once it moved more than the threshold, and return the
   * last solution when kmax sweeps are done.
   */
  function Iterate(rows: seq<Row>, b: seq<real>, epsilon: real, threshold: real,
                   x: seq<real>, prev: seq<real>, k: nat, kmax: nat): SolveResult
    requires SweepReady(rows, b, x) && |prev| == |x|
    decreases kmax - k
  {
    if k >= kmax then Solution(x)
    else
      var y := Sweep(rows, b, x);
      var d := Minus(prev, y);
      if NormLess(d, epsilon) then Solution(y)
      else if NormGreater(d, threshold) then Divergence(k)
      else Iterate(rows, b, epsilon, threshold, y, y, k + 1, kmax)
  }

  /** Divergence is reported at a sweep that was actually run; a solution has one component per row. */
  lemma {:induction false} IterateOutcome(rows: seq<Row>, b: seq<real>, epsilon: real, threshold: real,
                                          x: seq<real>, prev: seq<real>, k: nat, kmax: nat)
    requires SweepReady(rows, b, x) && |prev| == |x|
    ensures var r := Iterate(rows, b, epsilon, threshold, x, prev, k, kmax);
            (r.Divergence? ==> k <= r.sweep < kmax) && (r.Solution? ==> |r.x| == |rows|) && !r.DiagonalZero?
    decreases kmax - k
  {
    if k < kmax {
      var y := Sweep(rows, b, x);
      IterateOutcome(rows, b, epsilon, threshold, y, y, k + 1, kmax);
    }
  }

  /**
   * The diagonal system diag(2, 3) x = (4, 9): the iteration starts from the
   * zero vector with b as the previous iterate, so the first sweep already
   * yields (2, 3) but only the second sees no change and stops there.
   */
  lemma DiagonalSystemConverges()
    ensures SweepReady([[Entry(2.0, 0)], [Entry(3.0, 1)]], [4.0, 9.0], [0.0, 0.0])
    ensures Iterate([[Entry(2.0, 0)], [Entry(3.0, 1)]], [4.0, 9.0], 1.0 / 1000000.0, 1000000.0,
                    [0.0, 0.0], [4.0, 9.0], 0, 10) == Solution([2.0, 3.0])
  {
    var rows: seq<Row> := [[Entry(2.0, 0)], [Entry(3.0, 1)]];
    var b := [4.0, 9.0];
    var eps, thr := 1.0 / 1000000.0, 1000000.0;
    assert rows[0][..0] == [] && rows[1][..0] == [];
    assert Diagonal(rows[0], 0) == 2.0 && Diagonal(rows[1], 1) == 3.0;
    assert forall x: seq<real> :: |x| == 2 ==> OffDiagonal(rows[0], 0, x) == 0.0 && OffDiagonal(rows[1], 1, x) == 0.0;
    assert SweepReady(rows, b, [0.0, 0.0]);
    var x1 := Sweep(rows, b, [0.0, 0.0]);
    assert x1 == [2.0, 3.0] by {
      assert SweepPrefix(rows, b, [0.0, 0.0], 1) == [2.0, 0.0];
    }
    var d1 := Minus(b, x1);
    assert d1 == [2.0, 6.0];
    assert SquaredNorm([2.0, 6.0]) == 40.0 by {
      assert [2.0, 6.0][..1] == [2.0] && [2.0][..0] == [];
    }
    var x2 := Sweep(rows, b, x1);
    assert x2 == [2.0, 3.0] by {
      assert SweepPrefix(rows, b, x1, 1) == [2.0, 3.0];
    }
    var d2 := Minus(x1, x2);
    assert d2 == [0.0, 0.0];
    assert SquaredNorm([0.0, 0.0]) == 0.0 by {
      assert [0.0, 0.0][..1] == [0.0] && [0.0][..0] == [];
    }
    assert Iterate(rows, b, eps, thr, x1, x1, 1, 10) == Solution([2.0, 3.0]);
  }
}
