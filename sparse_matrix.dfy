/**
 * The square sparse matrix: one row per index, each a list of
 * (value, column) entries kept sorted by column, plus a right-hand-side
 * vector b used by the solver. Rows are only ever grown, through the
 * accumulating AppendElement.
 */
module Matrix {
  import opened Wrappers
  import opened Rows
  import opened MatrixSpec
  import opened GaussSeidel

  class SparseMatrix {
    const size: nat
    var b: seq<real>
    var data: seq<Row>

    /** One row per index, and every row sorted by strictly increasing column. */
    ghost predicate Valid()
      reads this
    {
      |data| == size && forall i :: 0 <= i < |data| ==> Sorted(data[i])
    }

    /** The matrix as one map from column to value per row. */
    ghost function Abstract(): (ms: Cells)
      reads this
      ensures |ms| == |data|
    {
      AbstractOf(data)
    }

    // -------------------------------------------------------------------------
    // Construction
    // -------------------------------------------------------------------------

    /**
     * A matrix of the given size and right-hand side: first every cell of the
     * dense array (when one is given) is stored, then the triples, read as
     * (value, row, column), or as (value, column, row) when `columns` is set.
     */
    constructor (size: nat, b: seq<real>, triples: seq<Triple>, columns: bool, fromMatrix: seq<seq<real>>)
      requires |fromMatrix| > 0 ==> size <= |fromMatrix| && forall i :: 0 <= i < size ==> size <= |fromMatrix[i]|
      requires RowsInRange(if columns then Transposed(triples) else triples, size)
      ensures Valid() && this.size == size && this.b == b
      ensures Abstract() == StoreAll(if |fromMatrix| > 0 then StoreAll(Empty(size), DenseTriples(fromMatrix, size, size))
                                     else Empty(size),
                                     if columns then Transposed(triples) else triples)
    {
      this.size := size;
      this.b := b;
      data := seq(size, _ => []);
      new;
      assert Abstract() == Empty(size);
      if |fromMatrix| > 0 {
        StoreFromMatrix(fromMatrix);
      }
      if |triples| > 0 {
        if columns {
          StoreAsColumns(triples);
        } else {
          Store(triples);
        }
      }
    }

    /** Stores each triple (value, row, column), accumulating on repeated cells. */
    method Store(triples: seq<Triple>)
      requires Valid() && RowsInRange(triples, size)
      modifies this
      ensures Valid() && b == old(b)
      ensures Abstract() == StoreAll(old(Abstract()), triples)
    {
      for k := 0 to |triples|
        invariant Valid() && b == old(b)
        invariant Abstract() == StoreAll(old(Abstract()), triples[..k])
      {
        var t := triples[k];
        AppendElement(t.row, Entry(t.value, t.column));
        StoreAllSnoc(old(Abstract()), triples[..k], t);
        assert triples[..k + 1] == triples[..k] + [t];
      }
      assert triples[..|triples|] == triples;
    }

    /** Stores each triple read as (value, column, row): the transpose of what Store stores. */
    method StoreAsColumns(triples: seq<Triple>)
      requires Valid() && RowsInRange(Transposed(triples), size)
      modifies this
      ensures Valid() && b == old(b)
      ensures Abstract() == StoreAll(old(Abstract()), Transposed(triples))
    {
      ghost var tt := Transposed(triples);
      for k := 0 to |triples|
        invariant Valid() && b == old(b)
        invariant Abstract() == StoreAll(old(Abstract()), tt[..k])
      {
        var t := triples[k];
        assert tt[k] == Triple(t.value, t.column, t.row);
        AppendElement(t.column, Entry(t.value, t.row));
        StoreAllSnoc(old(Abstract()), tt[..k], tt[k]);
        assert tt[..k + 1] == tt[..k] + [tt[k]];
      }
      assert tt[..|triples|] == tt;
    }

    /** Stores every cell (i, j) of the dense array, zeros included, row by row. */
    method StoreFromMatrix(a: seq<seq<real>>)
      requires Valid() && size <= |a| && forall i :: 0 <= i < size ==> size <= |a[i]|
      modifies this
      ensures Valid() && b == old(b)
      ensures Abstract() == StoreAll(old(Abstract()), DenseTriples(a, size, size))
    {
      for i := 0 to size
        invariant Valid() && b == old(b)
        invariant Abstract() == StoreAll(old(Abstract()), DenseTriples(a, size, i))
      {
        StoreDenseRow(a[i], i);
        StoreAllAppend(old(Abstract()), DenseTriples(a, size, i), RowTriples(a[i], i, size));
      }
    }

    /** Stores the first `size` cells of one dense row as row i, zeros included. */
    method StoreDenseRow(cells: seq<real>, i: nat)
      requires Valid() && i < size && size <= |cells|
      modifies this
      ensures Valid() && b == old(b)
      ensures RowsInRange(RowTriples(cells, i, size), size)
      ensures Abstract() == StoreAll(old(Abstract()), RowTriples(cells, i, size))
    {
      for j := 0 to size
        invariant Valid() && b == old(b)
        invariant Abstract() == StoreAll(old(Abstract()), RowTriples(cells, i, j))
      {
        AppendElement(i, Entry(cells[j], j));
        var t := Triple(cells[j], i, j);
        StoreAllSnoc(old(Abstract()), RowTriples(cells, i, j), t);
        assert RowTriples(cells, i, j + 1) == RowTriples(cells, i, j) + [t];
      }
    }

    // -------------------------------------------------------------------------
    // The row store
    // -------------------------------------------------------------------------

    /**
     * Inserts an entry at its insertion point without looking for its column;
     * the caller guarantees the column is absent from the row.
     */
    method InsertElement(line: nat, element: Entry)
      requires Valid() && line < size && !HasColumn(data[line], element.column)
      modifies this
      ensures Valid() && b == old(b)
      ensures data == old(data)[line := data[line]]
      ensures |data[line]| == |old(data[line])| + 1
      ensures RowMap(data[line]) == RowMap(old(data[line]))[element.column := element.value]
    {
      var p := GetIndexOfInsertion(data[line], element.column);
      InsertAt(data[line], p, element);
      data := data[line := data[line][..p] + [element] + data[line][p..]];
    }

    /**
     * Adds an entry to a row: when the column is stored, its value grows by the
     * entry's value in place; otherwise a copy of the entry is inserted at its
     * insertion point. The row stays sorted and no other row changes.
     */
    method AppendElement(line: nat, element: Entry)
      requires Valid() && line < size
      modifies this
      ensures Valid() && b == old(b)
      ensures data == old(data)[line := data[line]]
      ensures |data[line]| == |old(data[line])| + (if HasColumn(old(data[line]), element.column) then 0 else 1)
      ensures RowMap(data[line]) == AddTo(RowMap(old(data[line])), element.column, element.value)
      ensures Abstract() == AddAt(old(Abstract()), Triple(element.value, line, element.column))
    {
      var row := data[line];
      var pos := SearchIndex(row, element.column);
      if pos != -1 {
        AddAtIndex(row, pos, element.value);
        data := data[line := row[pos := Entry(row[pos].value + element.value, row[pos].column)]];
      } else {
        var p := GetIndexOfInsertion(row, element.column);
        InsertAt(row, p, element);
        RowMapKeys(row);
        assert AddTo(RowMap(row), element.column, element.value) == RowMap(row)[element.column := element.value];
        data := data[line := row[..p] + [element] + row[p..]];
      }
      assert Abstract() == old(Abstract())[line := RowMap(data[line])];
    }

    // -------------------------------------------------------------------------
    // Dot products of row i of this matrix and row j of another
    // -------------------------------------------------------------------------

    /** The product path: the merge-join dot product. */
    method DotProduct(i: nat, j: nat, other: SparseMatrix) returns (result: real)
      requires Valid() && other.Valid() && i < size && j < other.size
      ensures result == Dot(data[i], other.data[j])
    {
      result := MergeDotProduct(i, j, other);
    }

    /** For each entry of the first row, a bisection for its column in the second. */
    method BinaryDotProduct(i: nat, j: nat, other: SparseMatrix) returns (result: real)
      requires Valid() && other.Valid() && i < size && j < other.size
      ensures result == Dot(data[i], other.data[j])
    {
      result := 0.0;
      var line1, line2 := data[i], other.data[j];
      for k := 0 to |line1|
        invariant result == Dot(line1[..k], line2)
      {
        var index := SearchIndex(line2, line1[k].column);
        if index != -1 {
          result := result + line1[k].value * line2[index].value;
          MatchAt(line1[k], line2, index);
        } else {
          MatchAbsent(line1[k], line2);
        }
        assert line1[..k + 1][..k] == line1[..k];
      }
      assert line1[..|line1|] == line1;
    }

    /** A two-pointer walk over both sorted rows, advancing past the smaller column. */
    method MergeDotProduct(i: nat, j: nat, other: SparseMatrix) returns (result: real)
      requires Valid() && other.Valid() && i < size && j < other.size
      ensures result == Dot(data[i], other.data[j])
    {
      result := 0.0;
      var line1, line2 := data[i], other.data[j];
      var p, q := 0, 0;
      var n, m := |line1|, |line2|;
      while p < n && q < m
        invariant 0 <= p <= n && 0 <= q <= m
        invariant result == Dot(line1[..p], line2)
        invariant p < n ==> forall k :: 0 <= k < q ==> line2[k].column < line1[p].column
      {
        var c1, c2 := line1[p].column, line2[q].column;
        assert line1[..p + 1][..p] == line1[..p];
        if c1 == c2 {
          MatchAt(line1[p], line2, q);
          result := result + line1[p].value * line2[q].value;
          p, q := p + 1, q + 1;
        } else if c1 > c2 {
          q := q + 1;
        } else {
          MatchAbsent(line1[p], line2);
          p := p + 1;
        }
      }
      if p < n {
        forall k | p <= k < n
          ensures !HasColumn(line2, line1[k].column)
        {
          assert forall k2 :: 0 <= k2 < m ==> line2[k2].column < line1[p].column <= line1[k].column;
        }
        DotDropTail(line1, line2, p);
      } else {
        assert line1[..p] == line1;
      }
    }

    /** Every pair of entries of the two rows compared, products of equal columns summed. */
    method BasicDotProduct(i: nat, j: nat, other: SparseMatrix) returns (result: real)
      requires Valid() && other.Valid() && i < size && j < other.size
      ensures result == Dot(data[i], other.data[j])
    {
      result := 0.0;
      var line1, line2 := data[i], other.data[j];
      for k1 := 0 to |line1|
        invariant result == Dot(line1[..k1], line2)
      {
        assert line1[..k1 + 1][..k1] == line1[..k1];
        for k2 := 0 to |line2|
          invariant result == Dot(line1[..k1], line2) + Match(line1[k1], line2[..k2])
        {
          assert line2[..k2 + 1][..k2] == line2[..k2];
          if line1[k1].column == line2[k2].column {
            result := result + line1[k1].value * line2[k2].value;
          }
        }
        assert line2[..|line2|] == line2;
      }
      assert line1[..|line1|] == line1;
    }

    // -------------------------------------------------------------------------
    // Operators
    // -------------------------------------------------------------------------

    /** Every stored entry of this matrix is stored in `other`, with a value within EPSILON. */
    method EntriesFoundIn(other: SparseMatrix) returns (r: bool)
      requires Valid() && other.Valid() && other.size == size
      ensures r == Covered(Abstract(), other.Abstract())
    {
      for i := 0 to size
        invariant forall i' :: 0 <= i' < i ==> RowCovered(RowMap(data[i']), RowMap(other.data[i']))
      {
        var found := RowFoundIn(data[i], other.data[i]);
        if !found {
          assert !RowCovered(Abstract()[i], other.Abstract()[i]);
          return false;
        }
      }
      return true;
    }

    /** Equality within EPSILON, checked from both sides. */
    method Equals(other: SparseMatrix) returns (r: bool)
      requires Valid() && other.Valid() && other.size == size
      ensures r == Equal(Abstract(), other.Abstract())
    {
      r := EntriesFoundIn(other);
      if r {
        r := other.EntriesFoundIn(this);
      }
    }

    /** This matrix's side of the difference metric. */
    method DeviationFrom(other: SparseMatrix) returns (diff: real)
      requires Valid() && other.Valid() && other.size == size
      ensures diff == SideDeviation(data, other.data, size)
    {
      diff := 0.0;
      for i := 0 to size
        invariant diff == SideDeviation(data, other.data, i)
      {
        var line, theirs := data[i], other.data[i];
        ghost var before := diff;
        for k := 0 to |line|
          invariant diff == before + RowDeviation(line[..k], RowMap(theirs))
        {
          assert line[..k + 1][..k] == line[..k];
          var pos := SearchIndex(theirs, line[k].column);
          RowMapKeys(theirs);
          if pos != -1 {
            RowMapAt(theirs, pos);
            diff := diff + Abs(line[k].value - theirs[pos].value);
          } else {
            diff := diff + Abs(line[k].value);
          }
        }
        assert line[..|line|] == line;
      }
    }

    /** The difference metric: both sides' deviations added. */
    method Sub(other: SparseMatrix) returns (diff: real)
      requires Valid() && other.Valid() && other.size == size
      ensures diff == Deviation(data, other.data)
    {
      var mine := DeviationFrom(other);
      var theirs := other.DeviationFrom(this);
      diff := mine + theirs;
    }

    /**
     * The sum: b added element by element, and every entry of both operands
     * accumulated into a fresh matrix, so each row holds the union of the
     * operands' columns with the sum of the values present.
     */
    method Add(other: SparseMatrix) returns (result: SparseMatrix)
      requires Valid() && other.Valid() && other.size == size
      ensures fresh(result) && result.Valid() && result.size == size
      ensures result.b == ZipSum(b, other.b)
      ensures forall i :: 0 <= i < size ==> result.Abstract()[i] == MapSum(Abstract()[i], other.Abstract()[i])
    {
      result := new SparseMatrix(size, Zeros(size), [], false, []);
      result.b := ZipSum(b, other.b);
      for i := 0 to size
        invariant result.Valid() && result.size == size && result.b == ZipSum(b, other.b)
        invariant forall r :: 0 <= r < size ==>
                    RowMap(result.data[r]) == if r < i then AddEntries(map[], data[r]) else map[]
      {
        result.AppendAll(i, data[i]);
      }
      for i := 0 to size
        invariant result.Valid() && result.size == size && result.b == ZipSum(b, other.b)
        invariant forall r :: 0 <= r < size ==>
                    RowMap(result.data[r]) == if r < i then AddEntries(AddEntries(map[], data[r]), other.data[r])
                                              else AddEntries(map[], data[r])
      {
        result.AppendAll(i, other.data[i]);
      }
      forall i | 0 <= i < size
        ensures result.Abstract()[i] == MapSum(Abstract()[i], other.Abstract()[i])
      {
        AddEntriesIsSum(map[], data[i]);
        AddEntriesIsSum(AddEntries(map[], data[i]), other.data[i]);
        MapsEqual(MapSum(map[], RowMap(data[i])), RowMap(data[i]));
      }
    }

    /** Appends every entry of `entries`, in order, to row `line`; no other row changes. */
    method AppendAll(line: nat, entries: Row)
      requires Valid() && line < size
      modifies this
      ensures Valid() && b == old(b)
      ensures data == old(data)[line := data[line]]
      ensures RowMap(data[line]) == AddEntries(RowMap(old(data[line])), entries)
    {
      for k := 0 to |entries|
        invariant Valid() && b == old(b)
        invariant data == old(data)[line := data[line]]
        invariant RowMap(data[line]) == AddEntries(RowMap(old(data[line])), entries[..k])
      {
        AppendElement(line, entries[k]);
        assert entries[..k + 1][..k] == entries[..k];
      }
      assert entries[..|entries|] == entries;
    }

    /**
     * The product, row times row: entry (i, j) is the dot product of row i of
     * this matrix with row j of `other`, stored only when it is nonzero; b is zero.
     */
    method Mul(other: SparseMatrix) returns (result: SparseMatrix)
      requires Valid() && other.Valid()
      ensures fresh(result) && result.Valid() && result.size == size && result.b == Zeros(size)
      ensures forall i :: 0 <= i < size ==> result.Abstract()[i] == ProductRow(data[i], other.data, other.size)
    {
      result := new SparseMatrix(size, Zeros(size), [], false, []);
      for i := 0 to size
        invariant result.Valid() && result.size == size && result.b == Zeros(size)
        invariant forall r :: 0 <= r < size ==>
                    RowMap(result.data[r]) == if r < i then ProductRow(data[r], other.data, other.size) else map[]
      {
        StoreProductRow(i, other, result);
      }
    }

    /** Row i of the product, one nonzero dot product at a time, stored into row i of `result`. */
    method StoreProductRow(i: nat, other: SparseMatrix, result: SparseMatrix)
      requires Valid() && other.Valid() && result.Valid() && i < size && i < result.size
      requires result != this && result != other && RowMap(result.data[i]) == map[]
      modifies result
      ensures result.Valid() && result.b == old(result.b)
      ensures result.data == old(result.data)[i := result.data[i]]
      ensures RowMap(result.data[i]) == ProductRow(data[i], other.data, other.size)
    {
      for j := 0 to other.size
        invariant result.Valid() && result.b == old(result.b)
        invariant result.data == old(result.data)[i := result.data[i]]
        invariant RowMap(result.data[i]) == ProductRow(data[i], other.data, j)
      {
        var product := DotProduct(i, j, other);
        ProductRowStep(data[i], other.data, j);
        if product != 0.0 {
          result.AppendElement(i, Entry(product, j));
        }
      }
    }

    /** Each component of the result is the sum, over row i's entries, of value times v[column]. */
    method MultiplyVector(v: seq<real>) returns (result: seq<real>)
      requires Valid() && AllColumnsBelow(data, |v|)
      ensures |result| == size
      ensures forall i :: 0 <= i < size ==> result[i] == RowTimes(data[i], v)
    {
      result := [];
      for i := 0 to size
        invariant |result| == i
        invariant forall r :: 0 <= r < i ==> result[r] == RowTimes(data[r], v)
      {
        var line := data[i];
        var s := 0.0;
        for k := 0 to |line|
          invariant s == RowTimes(line[..k], v)
        {
          assert line[..k + 1][..k] == line[..k];
          s := s + line[k].value * v[line[k].column];
        }
        assert line[..|line|] == line;
        result := result + [s];
      }
    }

    /** The first row holding more than `num` entries, if any. */
    method Verify(num: int := 10) returns (r: Option<nat>)
      requires Valid()
      ensures r == None <==> forall i :: 0 <= i < size ==> |data[i]| <= num
      ensures r.Some? ==> r.value < size && |data[r.value]| > num &&
                          forall i :: 0 <= i < r.value ==> |data[i]| <= num
    {
      for i := 0 to size
        invariant forall i' :: 0 <= i' < i ==> |data[i']| <= num
      {
        if |data[i]| > num {
          return Some(i);
        }
      }
      return None;
    }

    /** The stored entries as (value, row, column) triples, row by row and in column order. */
    method Dump() returns (ts: seq<Triple>)
      requires Valid()
      ensures ts == Triples(data, size)
    {
      ts := [];
      for i := 0 to size
        invariant ts == Triples(data, i)
      {
        ghost var before := ts;
        for k := 0 to |data[i]|
          invariant ts == before + EntryTriples(data[i][..k], i)
        {
          ts := ts + [Triple(data[i][k].value, i, data[i][k].column)];
          assert EntryTriples(data[i][..k + 1], i) == EntryTriples(data[i][..k], i) + [Triple(data[i][k].value, i, data[i][k].column)];
        }
        assert data[i][..|data[i]|] == data[i];
      }
    }

    // -------------------------------------------------------------------------
    // The Gauss-Seidel solver
    // -------------------------------------------------------------------------

    /** The first row with no entry in its own column whose value exceeds epsilon, if any. */
    method FirstMissingDiagonal(epsilon: real) returns (r: Option<nat>)
      requires Valid()
      ensures r == None <==> DiagonalOk(data, epsilon)
      ensures r.Some? ==> r.value < size && !HasPositiveDiagonal(data[r.value], r.value, epsilon) &&
                          forall i :: 0 <= i < r.value ==> HasPositiveDiagonal(data[i], i, epsilon)
    {
      for i := 0 to size
        invariant forall i' :: 0 <= i' < i ==> HasPositiveDiagonal(data[i'], i', epsilon)
      {
        var ok := false;
        var line := data[i];
        for j := 0 to |line|
          invariant !ok ==> forall j' :: 0 <= j' < j ==> !(line[j'].column == i && line[j'].value > epsilon)
          invariant ok ==> HasPositiveDiagonal(line, i, epsilon)
        {
          if i == line[j].column && line[j].value > epsilon {
            ok := true;
            break;
          }
        }
        if !ok {
          return Some(i);
        }
      }
      return None;
    }

    /**
     * One Gauss-Seidel sweep in place: each component i, in order, becomes
     * (b[i] minus the off-diagonal sum over the current components) divided by
     * the diagonal coefficient.
     */
    method Sweep(solution: array<real>)
      requires Valid() && solution.Length == size && size <= |b|
      requires AllColumnsBelow(data, size) && DiagonalsNonzero(data)
      modifies solution
      ensures solution[..] == GaussSeidel.Sweep(data, b, old(solution[..]))
    {
      ghost var x := solution[..];
      for i := 0 to size
        invariant solution[..] == SweepPrefix(data, b, x, i)
      {
        var bi := b[i];
        var aii, bigSum := RowSums(i, solution);
        solution[i] := (bi - bigSum) / aii;
      }
    }

    /** For row i: the diagonal coefficient and the off-diagonal sum over the current solution. */
    method RowSums(i: nat, solution: array<real>) returns (aii: real, bigSum: real)
      requires Valid() && i < size && ColumnsBelow(data[i], solution.Length)
      ensures aii == Diagonal(data[i], i)
      ensures bigSum == OffDiagonal(data[i], i, solution[..])
    {
      aii, bigSum := 0.0, 0.0;
      var line := data[i];
      for j := 0 to |line|
        invariant aii == Diagonal(line[..j], i)
        invariant bigSum == OffDiagonal(line[..j], i, solution[..])
      {
        assert line[..j + 1][..j] == line[..j];
        if line[j].column == i {
          aii := line[j].value;
        } else {
          bigSum := bigSum + line[j].value * solution[line[j].column];
        }
      }
      assert line[..|line|] == line;
    }

    /**
     * Solves A x = b by Gauss-Seidel: fails at once on a missing or
     * non-positive diagonal; otherwise sweeps from the zero vector, comparing
     * each new solution with the previous iterate (b at first), until it moves
     * less than epsilon, moves more than the threshold, or kmax sweeps are done.
     */
    method SolveGaussSeidel(epsilon: real, threshold: real, kmax: nat) returns (r: SolveResult)
      requires Valid() && 0.0 <= epsilon && |b| == size && AllColumnsBelow(data, size)
      ensures r.DiagonalZero? <==> !DiagonalOk(data, epsilon)
      ensures r.DiagonalZero? ==> r.row < size && !HasPositiveDiagonal(data[r.row], r.row, epsilon)
      ensures DiagonalOk(data, epsilon) ==>
                SweepReady(data, b, Zeros(size)) &&
                r == Iterate(data, b, epsilon, threshold, Zeros(size), b, 0, kmax)
    {
      var missing := FirstMissingDiagonal(epsilon);
      if missing.Some? {
        return DiagonalZero(missing.value);
      }
      forall i | 0 <= i < size
        ensures Diagonal(data[i], i) != 0.0
      {
        DiagonalPositive(data, epsilon, i);
      }
      var solution := new real[size](_ => 0.0);
      assert solution[..] == Zeros(size);
      var tmp := b;
      for k := 0 to kmax
        invariant solution.Length == size && |tmp| == size
        invariant SweepReady(data, b, solution[..])
        invariant Iterate(data, b, epsilon, threshold, Zeros(size), b, 0, kmax)
                  == Iterate(data, b, epsilon, threshold, solution[..], tmp, k, kmax)
      {
        Sweep(solution);
        var d := Minus(tmp, solution[..]);
        if NormLess(d, epsilon) {
          return Solution(solution[..]);
        }
        if NormGreater(d, threshold) {
          return Divergence(k);
        }
        tmp := solution[..];
      }
      return Solution(solution[..]);
    }
  }

  /** One row's share of the equality test: each entry's column is found in `theirs`, within EPSILON. */
  method RowFoundIn(line: Row, theirs: Row) returns (r: bool)
    requires Sorted(line) && Sorted(theirs)
    ensures r == RowCovered(RowMap(line), RowMap(theirs))
  {
    RowMapKeys(theirs);
    for k := 0 to |line|
      invariant forall k' :: 0 <= k' < k ==>
                  line[k'].column in RowMap(theirs) &&
                  Abs(line[k'].value - RowMap(theirs)[line[k'].column]) <= EPSILON
    {
      var pos := SearchIndex(theirs, line[k].column);
      if pos != -1 {
        RowMapAt(theirs, pos);
      }
      if (pos != -1 && Abs(line[k].value - theirs[pos].value) > EPSILON) || pos == -1 {
        RowMapAt(line, k);
        return false;
      }
    }
    RowMapKeys(line);
    forall c | c in RowMap(line)
      ensures c in RowMap(theirs) && Abs(RowMap(line)[c] - RowMap(theirs)[c]) <= EPSILON
    {
      var k :| 0 <= k < |line| && line[k].column == c;
      RowMapAt(line, k);
    }
    return true;
  }
}
