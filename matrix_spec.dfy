/**
 * What a sparse matrix means, independent of how its rows are laid out:
 * one map from column to value per row (the "abstract matrix"), and the
 * meaning of construction, equality, difference, addition and
 * multiplication on it.
 */
module MatrixSpec {
  import opened Rows

  /** Tolerance of equality and of the difference metric (10 ** -7). */
  const EPSILON: real := 1.0 / 10000000.0

  /** A coordinate triple as the constructors read it: (value, row, column). */
  datatype Triple = Triple(value: real, row: int, column: int)

  type Cells = seq<map<int, real>>

  function Abs(x: real): real {
    if x < 0.0 then -x else x
  }

  /** The value a map holds at `c`, or zero when it holds nothing there. */
  function Get0(m: map<int, real>, c: int): real {
    if c in m then m[c] else 0.0
  }

  function AbstractOf(rows: seq<Row>): (ms: Cells)
    ensures |ms| == |rows| && forall i :: 0 <= i < |rows| ==> ms[i] == RowMap(rows[i])
  {
    seq(|rows|, i requires 0 <= i < |rows| => RowMap(rows[i]))
  }

  /** A matrix of n rows with nothing stored. */
  function Empty(n: nat): (ms: Cells)
    ensures |ms| == n && forall i :: 0 <= i < n ==> ms[i] == map[]
  {
    seq(n, _ => map[])
  }

  // ---------------------------------------------------------------------------
  // Construction
  // ---------------------------------------------------------------------------

  predicate RowsInRange(ts: seq<Triple>, n: int) {
    forall k :: 0 <= k < |ts| ==> 0 <= ts[k].row < n
  }

  /** Storing one triple accumulates its value into its cell. */
  function AddAt(ms: Cells, t: Triple): (r: Cells)
    requires 0 <= t.row < |ms|
    ensures |r| == |ms|
  {
    ms[t.row := AddTo(ms[t.row], t.column, t.value)]
  }

  /** Storing a sequence of triples, in order. */
  function StoreAll(ms: Cells, ts: seq<Triple>): (r: Cells)
    requires RowsInRange(ts, |ms|)
    ensures |r| == |ms|
  {
    if |ts| == 0 then ms
    else AddAt(StoreAll(ms, ts[..|ts| - 1]), ts[|ts| - 1])
  }

  /** The triples with row and column exchanged. */
  function Transposed(ts: seq<Triple>): (r: seq<Triple>)
    ensures |r| == |ts|
  {
    seq(|ts|, k requires 0 <= k < |ts| => Triple(ts[k].value, ts[k].column, ts[k].row))
  }

  /** The first n cells of one dense row, as triples of row i. */
  function RowTriples(cells: seq<real>, i: int, n: nat): (r: seq<Triple>)
    requires n <= |cells|
    ensures |r| == n && (0 <= i ==> RowsInRange(r, i + 1))
  {
    seq(n, j requires 0 <= j < n => Triple(cells[j], i, j))
  }

  /** The first i rows of an n-column dense array, cell by cell in row-major order. */
  function DenseTriples(a: seq<seq<real>>, n: nat, i: nat): (r: seq<Triple>)
    requires i <= |a| && forall r :: 0 <= r < i ==> n <= |a[r]|
    ensures RowsInRange(r, i)
  {
    if i == 0 then []
    else DenseTriples(a, n, i - 1) + RowTriples(a[i - 1], i - 1, n)
  }

  /** The map holding the first n cells of a dense row, zeros included. */
  function DenseMap(cells: seq<real>, n: nat): map<int, real>
    requires n <= |cells|
  {
    map j | 0 <= j < n :: cells[j]
  }

  /** Sum of the values of the triples that land on (r, c). */
  function SumAt(ts: seq<Triple>, r: int, c: int): real {
    if |ts| == 0 then 0.0
    else
      SumAt(ts[..|ts| - 1], r, c)
      + (if ts[|ts| - 1].row == r && ts[|ts| - 1].column == c then ts[|ts| - 1].value else 0.0)
  }

  predicate Hits(ts: seq<Triple>, r: int, c: int) {
    exists k :: 0 <= k < |ts| && ts[k].row == r && ts[k].column == c
  }

  /** Storing one more triple is one more accumulation. */
  lemma StoreAllSnoc(ms: Cells, ts: seq<Triple>, t: Triple)
    requires RowsInRange(ts, |ms|) && 0 <= t.row < |ms|
    ensures RowsInRange(ts + [t], |ms|)
    ensures StoreAll(ms, ts + [t]) == AddAt(StoreAll(ms, ts), t)
  {
    assert (ts + [t])[..|ts|] == ts;
  }

  /** Storing two sequences one after the other is storing their concatenation. */
  lemma {:induction false} StoreAllAppend(ms: Cells, ts1: seq<Triple>, ts2: seq<Triple>)
    requires RowsInRange(ts1, |ms|) && RowsInRange(ts2, |ms|)
    ensures RowsInRange(ts1 + ts2, |ms|)
    ensures StoreAll(ms, ts1 + ts2) == StoreAll(StoreAll(ms, ts1), ts2)
  {
    if |ts2| > 0 {
      var n := |ts2| - 1;
      assert ts1 + ts2 == (ts1 + ts2[..n]) + [ts2[n]];
      StoreAllAppend(ms, ts1, ts2[..n]);
      StoreAllSnoc(ms, ts1 + ts2[..n], ts2[n]);
    } else {
      assert ts1 + ts2 == ts1;
    }
  }

  /**
   * Repeated coordinates add up: after storing a sequence of triples, a cell
   * is stored exactly when it was before or some triple lands on it, and its
   * value is the old value plus the sum of the values of those triples.
   */
  lemma {:induction false} StoreAllAt(ms: Cells, ts: seq<Triple>, r: int, c: int)
    requires RowsInRange(ts, |ms|) && 0 <= r < |ms|
    ensures c in StoreAll(ms, ts)[r] <==> c in ms[r] || Hits(ts, r, c)
    ensures Get0(StoreAll(ms, ts)[r], c) == Get0(ms[r], c) + SumAt(ts, r, c)
  {
    if |ts| > 0 {
      var n := |ts| - 1;
      var pre := ts[..n];
      StoreAllAt(ms, pre, r, c);
      assert Hits(ts, r, c) <==> Hits(pre, r, c) || (ts[n].row == r && ts[n].column == c) by {
        if Hits(ts, r, c) {
          var k :| 0 <= k < |ts| && ts[k].row == r && ts[k].column == c;
          if k < n {
            assert pre[k] == ts[k];
          }
        }
        if Hits(pre, r, c) {
          var k :| 0 <= k < |pre| && pre[k].row == r && pre[k].column == c;
          assert ts[k] == pre[k];
        }
      }
    }
  }

  /** What lands on (r, c) of the transposed triples is what lands on (c, r) of the triples. */
  lemma {:induction false} SumAtTransposed(ts: seq<Triple>, r: int, c: int)
    ensures SumAt(Transposed(ts), r, c) == SumAt(ts, c, r)
  {
    if |ts| > 0 {
      var n := |ts| - 1;
      assert Transposed(ts)[..n] == Transposed(ts[..n]);
      SumAtTransposed(ts[..n], r, c);
    }
  }

  /** Storing the transposed triples puts (value, row, column) at row `column`, column `row`. */
  lemma StoreTransposedAt(ms: Cells, ts: seq<Triple>, r: int, c: int)
    requires RowsInRange(Transposed(ts), |ms|) && 0 <= r < |ms|
    ensures c in StoreAll(ms, Transposed(ts))[r] <==>
              c in ms[r] || exists k :: 0 <= k < |ts| && ts[k].column == r && ts[k].row == c
    ensures Get0(StoreAll(ms, Transposed(ts))[r], c) == Get0(ms[r], c) + SumAt(ts, c, r)
  {
    var tt := Transposed(ts);
    StoreAllAt(ms, tt, r, c);
    SumAtTransposed(ts, r, c);
    if Hits(tt, r, c) {
      var k :| 0 <= k < |tt| && tt[k].row == r && tt[k].column == c;
      assert ts[k].column == r && ts[k].row == c;
    }
    if exists k :: 0 <= k < |ts| && ts[k].column == r && ts[k].row == c {
      var k :| 0 <= k < |ts| && ts[k].column == r && ts[k].row == c;
      assert tt[k].row == r && tt[k].column == c;
    }
  }

  lemma {:induction false} StoreRowFromEmpty(ms: Cells, cells: seq<real>, i: int, j: nat)
    requires 0 <= i < |ms| && ms[i] == map[] && j <= |cells|
    ensures StoreAll(ms, RowTriples(cells, i, j)) == ms[i := DenseMap(cells, j)]
  {
    if j == 0 {
      assert DenseMap(cells, 0) == map[];
      assert ms[i := map[]] == ms;
    } else {
      var pre := RowTriples(cells, i, j - 1);
      var t := Triple(cells[j - 1], i, j - 1);
      assert RowTriples(cells, i, j) == pre + [t];
      StoreAllSnoc(ms, pre, t);
      StoreRowFromEmpty(ms, cells, i, j - 1);
      var d := DenseMap(cells, j - 1);
      assert j - 1 !in d;
      MapsEqual(AddTo(d, j - 1, cells[j - 1]), DenseMap(cells, j));
    }
  }

  /** Storing one more dense row fills that row of the matrix and nothing else. */
  lemma DenseStep(a: seq<seq<real>>, n: nat, i: nat)
    requires 0 < i <= n <= |a| && forall r :: 0 <= r < n ==> n <= |a[r]|
    requires StoreAll(Empty(n), DenseTriples(a, n, i - 1))[i - 1] == map[]
    ensures StoreAll(Empty(n), DenseTriples(a, n, i))
            == StoreAll(Empty(n), DenseTriples(a, n, i - 1))[i - 1 := DenseMap(a[i - 1], n)]
  {
    var pre := DenseTriples(a, n, i - 1);
    var row := RowTriples(a[i - 1], i - 1, n);
    assert DenseTriples(a, n, i) == pre + row;
    StoreAllAppend(Empty(n), pre, row);
    StoreRowFromEmpty(StoreAll(Empty(n), pre), a[i - 1], i - 1, n);
  }

  lemma {:induction false} DenseFromEmptyPrefix(a: seq<seq<real>>, n: nat, i: nat)
    requires i <= n <= |a| && forall r :: 0 <= r < n ==> n <= |a[r]|
    ensures forall r :: 0 <= r < n ==>
              StoreAll(Empty(n), DenseTriples(a, n, i))[r] == if r < i then DenseMap(a[r], n) else map[]
  {
    if i > 0 {
      DenseFromEmptyPrefix(a, n, i - 1);
      DenseStep(a, n, i);
    }
  }

  /**
   * The dense path stores every one of the n x n cells, zeros included: row i
   * of the result maps every column j < n to a[i][j].
   */
  lemma DenseStoresEveryCell(a: seq<seq<real>>, n: nat)
    requires n <= |a| && forall r :: 0 <= r < n ==> n <= |a[r]|
    ensures forall i, j :: 0 <= i < n && 0 <= j < n ==>
              j in StoreAll(Empty(n), DenseTriples(a, n, n))[i] &&
              StoreAll(Empty(n), DenseTriples(a, n, n))[i][j] == a[i][j]
    ensures forall i, c :: 0 <= i < n && c in StoreAll(Empty(n), DenseTriples(a, n, n))[i] ==> 0 <= c < n
  {
    DenseFromEmptyPrefix(a, n, n);
  }

  // ---------------------------------------------------------------------------
  // The textual dump, as the sequence of triples it walks
  // ---------------------------------------------------------------------------

  /** The entries of row i as triples, in column order. */
  function EntryTriples(row: Row, i: int): (r: seq<Triple>)
    ensures |r| == |row|
  {
    seq(|row|, k requires 0 <= k < |row| => Triple(row[k].value, i, row[k].column))
  }

  /** The entries of the first n rows as triples, row by row. */
  function Triples(rows: seq<Row>, n: nat): (r: seq<Triple>)
    requires n <= |rows|
    ensures RowsInRange(r, n)
  {
    if n == 0 then []
    else Triples(rows, n - 1) + EntryTriples(rows[n - 1], n - 1)
  }

  lemma {:induction false} StoreEntriesFromEmpty(ms: Cells, row: Row, i: int, k: nat)
    requires 0 <= i < |ms| && ms[i] == map[] && Sorted(row) && k <= |row|
    ensures RowsInRange(EntryTriples(row[..k], i), |ms|)
    ensures StoreAll(ms, EntryTriples(row[..k], i)) == ms[i := RowMap(row[..k])]
  {
    if k == 0 {
      assert ms[i := map[]] == ms;
    } else {
      var pre := EntryTriples(row[..k - 1], i);
      var t := Triple(row[k - 1].value, i, row[k - 1].column);
      assert EntryTriples(row[..k], i) == pre + [t];
      StoreAllSnoc(ms, pre, t);
      StoreEntriesFromEmpty(ms, row, i, k - 1);
      assert row[..k][..k - 1] == row[..k - 1];
      RowMapKeys(row[..k - 1]);
      assert row[k - 1].column !in RowMap(row[..k - 1]);
    }
  }

  lemma {:induction false} RebuildPrefix(rows: seq<Row>, i: nat)
    requires i <= |rows| && forall r :: 0 <= r < |rows| ==> Sorted(rows[r])
    ensures forall r :: 0 <= r < |rows| ==>
              StoreAll(Empty(|rows|), Triples(rows, i))[r] == if r < i then RowMap(rows[r]) else map[]
  {
    if i > 0 {
      var n := |rows|;
      var pre := Triples(rows, i - 1);
      var row := rows[i - 1];
      assert row[..|row|] == row;
      RebuildPrefix(rows, i - 1);
      StoreEntriesFromEmpty(StoreAll(Empty(n), pre), row, i - 1, |row|);
      StoreAllAppend(Empty(n), pre, EntryTriples(row, i - 1));
    }
  }

  /** Storing the dumped triples into an empty matrix of the same size rebuilds the matrix. */
  lemma RebuildFromTriples(rows: seq<Row>)
    requires forall r :: 0 <= r < |rows| ==> Sorted(rows[r])
    ensures StoreAll(Empty(|rows|), Triples(rows, |rows|)) == AbstractOf(rows)
  {
    RebuildPrefix(rows, |rows|);
  }

  // ---------------------------------------------------------------------------
  // Equality within EPSILON
  // ---------------------------------------------------------------------------

  /** Every column m1 stores, m2 stores too, with a value within EPSILON. */
  predicate RowCovered(m1: map<int, real>, m2: map<int, real>) {
    forall c :: c in m1 ==> c in m2 && Abs(m1[c] - m2[c]) <= EPSILON
  }

  predicate Covered(ms1: Cells, ms2: Cells)
    requires |ms1| == |ms2|
  {
    forall i :: 0 <= i < |ms1| ==> RowCovered(ms1[i], ms2[i])
  }

  /** Equality checks both directions: presence must agree, values within EPSILON. */
  predicate Equal(ms1: Cells, ms2: Cells)
    requires |ms1| == |ms2|
  {
    Covered(ms1, ms2) && Covered(ms2, ms1)
  }

  lemma EqualReflexive(ms: Cells)
    ensures Equal(ms, ms)
  {
    forall i | 0 <= i < |ms| ensures RowCovered(ms[i], ms[i]) {
      forall c | c in ms[i] ensures Abs(ms[i][c] - ms[i][c]) <= EPSILON { }
    }
  }

  lemma EqualSymmetric(ms1: Cells, ms2: Cells)
    requires |ms1| == |ms2|
    ensures Equal(ms1, ms2) <==> Equal(ms2, ms1)
  {
  }

  /** A stored zero is not the same as nothing stored. */
  lemma StoredZeroIsNotAbsent(ms1: Cells, ms2: Cells, i: nat, c: int)
    requires |ms1| == |ms2| && i < |ms1|
    requires c in ms1[i] && ms1[i][c] == 0.0 && c !in ms2[i]
    ensures !Equal(ms1, ms2) && !Equal(ms2, ms1)
  {
    assert !RowCovered(ms1[i], ms2[i]);
  }

  /**
   * With the same stored columns, equality holds exactly when every pair of
   * values differs by at most EPSILON.
   */
  lemma EqualWithinEpsilon(ms1: Cells, ms2: Cells)
    requires |ms1| == |ms2|
    requires forall i :: 0 <= i < |ms1| ==> ms1[i].Keys == ms2[i].Keys
    ensures Equal(ms1, ms2) <==>
              forall i, c :: 0 <= i < |ms1| && c in ms1[i] ==> Abs(ms1[i][c] - ms2[i][c]) <= EPSILON
  {
    if forall i, c :: 0 <= i < |ms1| && c in ms1[i] ==> Abs(ms1[i][c] - ms2[i][c]) <= EPSILON {
      forall i | 0 <= i < |ms1| ensures RowCovered(ms2[i], ms1[i]) {
        forall c | c in ms2[i] ensures Abs(ms2[i][c] - ms1[i][c]) <= EPSILON {
          assert c in ms1[i].Keys;
          assert Abs(ms1[i][c] - ms2[i][c]) <= EPSILON;
        }
      }
    }
  }

  // ---------------------------------------------------------------------------
  // The difference metric
  // ---------------------------------------------------------------------------

  /**
   * One row's share of the difference: for each stored entry, the magnitude
   * of its difference from the other side's value, or its own magnitude when
   * the other side stores nothing in that column.
   */
  function RowDeviation(row: Row, other: map<int, real>): (d: real)
    ensures d >= 0.0
  {
    if |row| == 0 then 0.0
    else
      var e := row[|row| - 1];
      RowDeviation(row[..|row| - 1], other)
      + (if e.column in other then Abs(e.value - other[e.column]) else Abs(e.value))
  }

  /** The first n rows' share of the difference, measured from `rows1` against `rows2`. */
  function SideDeviation(rows1: seq<Row>, rows2: seq<Row>, n: nat): (d: real)
    requires n <= |rows1| && n <= |rows2|
    ensures d >= 0.0
  {
    if n == 0 then 0.0
    else SideDeviation(rows1, rows2, n - 1) + RowDeviation(rows1[n - 1], RowMap(rows2[n - 1]))
  }

  /** The difference of two matrices: both one-sided sums added. */
  function Deviation(rows1: seq<Row>, rows2: seq<Row>): real
    requires |rows1| == |rows2|
  {
    SideDeviation(rows1, rows2, |rows1|) + SideDeviation(rows2, rows1, |rows2|)
  }

  lemma {:induction false} RowDeviationSelf(row: Row, k: nat)
    requires Sorted(row) && k <= |row|
    ensures RowDeviation(row[..k], RowMap(row)) == 0.0
  {
    if k > 0 {
      assert row[..k][..k - 1] == row[..k - 1];
      RowMapAt(row, k - 1);
      RowDeviationSelf(row, k - 1);
    }
  }

  lemma {:induction false} SideDeviationSelf(rows: seq<Row>, n: nat)
    requires n <= |rows| && forall r :: 0 <= r < |rows| ==> Sorted(rows[r])
    ensures SideDeviation(rows, rows, n) == 0.0
  {
    if n > 0 {
      var row := rows[n - 1];
      RowDeviationSelf(row, |row|);
      assert row[..|row|] == row;
      SideDeviationSelf(rows, n - 1);
    }
  }

  /** A matrix differs from itself by nothing. */
  lemma DeviationSelf(rows: seq<Row>)
    requires forall r :: 0 <= r < |rows| ==> Sorted(rows[r])
    ensures Deviation(rows, rows) == 0.0
  {
    SideDeviationSelf(rows, |rows|);
  }

  /**
   * The difference and equality disagree on a stored zero: a one-cell matrix
   * holding 0.0 and an empty one differ by 0, yet are not equal.
   */
  lemma DeviationIgnoresStoredZero()
    ensures Deviation([[Entry(0.0, 0)]], [[]]) == 0.0
    ensures !Equal(AbstractOf([[Entry(0.0, 0)]]), AbstractOf([[]]))
  {
    var rows1: seq<Row> := [[Entry(0.0, 0)]];
    var rows2: seq<Row> := [[]];
    assert RowMap(rows1[0]) == map[0 := 0.0] by {
      assert rows1[0][..0] == [];
    }
    assert SideDeviation(rows1, rows2, 1) == 0.0 by {
      assert rows1[0][..0] == [];
      assert RowMap(rows2[0]) == map[];
      assert RowDeviation(rows1[0], map[]) == RowDeviation([], map[]) + Abs(0.0);
    }
    assert SideDeviation(rows2, rows1, 1) == 0.0;
    StoredZeroIsNotAbsent(AbstractOf(rows1), AbstractOf(rows2), 0, 0);
  }

  // ---------------------------------------------------------------------------
  // Addition
  // ---------------------------------------------------------------------------

  /** Columns of either side, each with the sum of the values present. */
  function MapSum(m1: map<int, real>, m2: map<int, real>): (m: map<int, real>)
    ensures forall c :: c in m <==> c in m1 || c in m2
  {
    map c | c in m1.Keys + m2.Keys :: Get0(m1, c) + Get0(m2, c)
  }

  /** Element-by-element sum of two vectors, as long as the shorter one. */
  function ZipSum(u: seq<real>, v: seq<real>): (w: seq<real>)
    ensures |w| == if |u| < |v| then |u| else |v|
    ensures forall k :: 0 <= k < |w| ==> w[k] == u[k] + v[k]
  {
    seq(if |u| < |v| then |u| else |v|, k requires 0 <= k < |u| && k < |v| => u[k] + v[k])
  }

  /** The zero vector of length n, the `b` of a freshly built sum or product. */
  function Zeros(n: nat): (z: seq<real>)
    ensures |z| == n && forall k :: 0 <= k < n ==> z[k] == 0.0
  {
    seq(n, _ => 0.0)
  }

  /** Accumulating the entries of a row, in order, into a map. */
  function AddEntries(m: map<int, real>, row: Row): map<int, real> {
    if |row| == 0 then m
    else
      var e := row[|row| - 1];
      AddTo(AddEntries(m, row[..|row| - 1]), e.column, e.value)
  }

  /** Accumulating a sorted row into m adds its abstract row to m. */
  lemma {:induction false} AddEntriesIsSum(m: map<int, real>, row: Row)
    requires Sorted(row)
    ensures AddEntries(m, row) == MapSum(m, RowMap(row))
  {
    if |row| == 0 {
      MapsEqual(m, MapSum(m, map[]));
    } else {
      var n := |row| - 1;
      var e := row[n];
      AddEntriesIsSum(m, row[..n]);
      RowMapKeys(row[..n]);
      assert e.column !in RowMap(row[..n]);
      var s := MapSum(m, RowMap(row[..n]));
      MapsEqual(AddTo(s, e.column, e.value), MapSum(m, RowMap(row)));
    }
  }

  /** A + A doubles every stored value (and stores nothing new). */
  lemma AddSelfDoubles(m: map<int, real>)
    ensures MapSum(m, m).Keys == m.Keys
    ensures forall c :: c in m ==> MapSum(m, m)[c] == 2.0 * m[c]
  {
  }

  lemma MapSumCommutes(m1: map<int, real>, m2: map<int, real>)
    ensures MapSum(m1, m2) == MapSum(m2, m1)
  {
    MapsEqual(MapSum(m1, m2), MapSum(m2, m1));
  }

  // ---------------------------------------------------------------------------
  // Multiplication (row times row)
  // ---------------------------------------------------------------------------

  /**
   * Row i of the product: column j < n holds the dot product of `row` with
   * row j of the other matrix, exactly when that is nonzero.
   */
  function ProductRow(row: Row, others: seq<Row>, n: nat): map<int, real>
    requires n <= |others|
  {
    map j | 0 <= j < n && Dot(row, others[j]) != 0.0 :: Dot(row, others[j])
  }

  lemma ProductRowStep(row: Row, others: seq<Row>, j: nat)
    requires j < |others|
    ensures j !in ProductRow(row, others, j)
    ensures ProductRow(row, others, j + 1)
            == if Dot(row, others[j]) != 0.0 then AddTo(ProductRow(row, others, j), j, Dot(row, others[j]))
               else ProductRow(row, others, j)
  {
    var p := ProductRow(row, others, j);
    var d := Dot(row, others[j]);
    if d != 0.0 {
      MapsEqual(ProductRow(row, others, j + 1), AddTo(p, j, d));
    } else {
      MapsEqual(ProductRow(row, others, j + 1), p);
    }
  }

  /**
   * The product is row-times-row (A times the transpose of B): entry (i, j)
   * of A*B is entry (j, i) of B*A.
   */
  lemma ProductTransposes(rows1: seq<Row>, rows2: seq<Row>, i: nat, j: nat)
    requires i < |rows1| && j < |rows2|
    ensures j in ProductRow(rows1[i], rows2, |rows2|) <==> i in ProductRow(rows2[j], rows1, |rows1|)
    ensures j in ProductRow(rows1[i], rows2, |rows2|) ==>
              ProductRow(rows1[i], rows2, |rows2|)[j] == ProductRow(rows2[j], rows1, |rows1|)[i]
  {
    DotSymmetric(rows1[i], rows2[j]);
  }
}
