/**
 * The row store of the sparse matrix.
 *
 * A row is a list of (value, column) entries. The invariant every operation
 * keeps is that the columns of a row strictly increase, so that a column is
 * stored at most once and rows can be searched by bisection.
 */
module Rows {

  /** One stored cell of a row: the value and the column it sits in. */
  datatype Entry = Entry(value: real, column: int)

  type Row = seq<Entry>

  /** The row invariant: columns strictly increase (hence no column repeats). */
  predicate Sorted(row: Row) {
    forall i, j :: 0 <= i < j < |row| ==> row[i].column < row[j].column
  }

  predicate HasColumn(row: Row, column: int) {
    exists k :: 0 <= k < |row| && row[k].column == column
  }

  /**
   * The abstract value of a row: each stored column mapped to its value
   * (for a sorted row every column is stored once, see RowMapAt).
   */
  function RowMap(row: Row): map<int, real> {
    if |row| == 0 then map[]
    else RowMap(row[..|row| - 1])[row[|row| - 1].column := row[|row| - 1].value]
  }

  /** The columns of the abstract row are exactly the stored columns. */
  lemma {:induction false} RowMapKeys(row: Row)
    ensures forall c :: c in RowMap(row) <==> HasColumn(row, c)
  {
    if |row| > 0 {
      var n := |row| - 1;
      RowMapKeys(row[..n]);
      assert forall k :: 0 <= k < n ==> row[..n][k] == row[k];
    }
  }

  /** In a sorted row, the abstract row holds each entry's value at its column. */
  lemma {:induction false} RowMapAt(row: Row, k: nat)
    requires Sorted(row) && k < |row|
    ensures row[k].column in RowMap(row) && RowMap(row)[row[k].column] == row[k].value
  {
    var n := |row| - 1;
    if k < n {
      RowMapAt(row[..n], k);
    }
  }

  /** Two maps with the same keys and the same value at every key are equal. */
  lemma MapsEqual(m1: map<int, real>, m2: map<int, real>)
    requires forall c :: c in m1 <==> c in m2
    requires forall c :: c in m1 ==> m1[c] == m2[c]
    ensures m1 == m2
  {
    assert m1.Keys == m2.Keys by {
      forall c | c in m1.Keys ensures c in m2.Keys { }
      forall c | c in m2.Keys ensures c in m1.Keys { }
    }
    assert forall c :: c in m1.Keys ==> m1[c] == m2[c];
  }

  /** Accumulating store: `v` is added to what column `c` holds, or stored if it holds nothing. */
  function AddTo(m: map<int, real>, c: int, v: real): map<int, real> {
    m[c := (if c in m then m[c] else 0.0) + v]
  }

  // ---------------------------------------------------------------------------
  // Searching a row
  // ---------------------------------------------------------------------------

  /**
   * Bisection for `column` in a sorted row: its index when it is stored,
   * -1 exactly when it is not.
   */
  method SearchIndex(line: Row, column: int) returns (pos: int)
    requires Sorted(line)
    ensures pos == -1 <==> !HasColumn(line, column)
    ensures pos != -1 ==> 0 <= pos < |line| && line[pos].column == column
  {
    var left, right := 0, |line| - 1;
    while left <= right
      invariant 0 <= left <= right + 1 <= |line|
      invariant forall k :: 0 <= k < left ==> line[k].column < column
      invariant forall k :: right < k < |line| ==> column < line[k].column
    {
      var mid := (left + right) / 2;
      if line[mid].column == column {
        return mid;
      }
      if column < line[mid].column {
        right := mid - 1;
      } else {
        left := mid + 1;
      }
    }
    return -1;
  }

  /**
   * Bisection for the place where `column` goes so that the row stays
   * ordered. Everything before the result has a column no larger, and
   * everything from it on a column no smaller; for an absent column both
   * comparisons are strict. When the column is already stored the result is
   * its index or the one after it, depending on where the search meets it.
   */
  method GetIndexOfInsertion(line: Row, column: int) returns (p: nat)
    requires Sorted(line)
    ensures p <= |line|
    ensures forall k :: 0 <= k < p ==> line[k].column <= column
    ensures forall k :: p <= k < |line| ==> column <= line[k].column
    ensures !HasColumn(line, column) ==>
              (forall k :: 0 <= k < p ==> line[k].column < column) &&
              (forall k :: p <= k < |line| ==> column < line[k].column)
  {
    if |line| == 0 {
      return 0;
    }
    var left, right := 0, |line| - 1;
    while left < right
      invariant 0 <= left < |line|
      invariant left - 1 <= right < |line|
      invariant forall k :: 0 <= k < left ==> line[k].column < column
      invariant forall k :: right < k < |line| ==> column < line[k].column
    {
      var mid := (left + right) / 2;
      if line[mid].column == column {
        return mid + 1;
      }
      if column < line[mid].column {
        right := mid - 1;
      } else {
        left := mid + 1;
      }
    }
    if column > line[left].column {
      p := left + 1;
    } else {
      p := left;
    }
  }

  // ---------------------------------------------------------------------------
  // The two ways a row changes
  // ---------------------------------------------------------------------------

  /** Putting an absent column at its insertion point keeps the row sorted and stores it. */
  lemma InsertAt(row: Row, p: nat, e: Entry)
    requires Sorted(row) && p <= |row|
    requires forall k :: 0 <= k < p ==> row[k].column < e.column
    requires forall k :: p <= k < |row| ==> e.column < row[k].column
    ensures Sorted(row[..p] + [e] + row[p..])
    ensures RowMap(row[..p] + [e] + row[p..]) == RowMap(row)[e.column := e.value]
  {
    InsertSorted(row, p, e);
    InsertMap(row, p, e);
  }

  lemma InsertSorted(row: Row, p: nat, e: Entry)
    requires Sorted(row) && p <= |row|
    requires forall k :: 0 <= k < p ==> row[k].column < e.column
    requires forall k :: p <= k < |row| ==> e.column < row[k].column
    ensures Sorted(row[..p] + [e] + row[p..])
  {
    var row' := row[..p] + [e] + row[p..];
    assert forall k :: 0 <= k < |row'| ==> row'[k] == if k < p then row[k] else if k == p then e else row[k - 1];
  }

  /** Inserting an entry whose column the row lacks adds exactly that column to the row's map. */
  lemma {:induction false} InsertMap(row: Row, p: nat, e: Entry)
    requires p <= |row| && forall k :: 0 <= k < |row| ==> row[k].column != e.column
    ensures RowMap(row[..p] + [e] + row[p..]) == RowMap(row)[e.column := e.value]
  {
    if p == |row| {
      assert row[..p] + [e] + row[p..] == row + [e];
      assert (row + [e])[..|row|] == row;
    } else {
      var n := |row| - 1;
      var inner := row[..n][..p] + [e] + row[..n][p..];
      assert row[..p] + [e] + row[p..] == inner + [row[n]];
      assert (inner + [row[n]])[..|inner|] == inner;
      InsertMap(row[..n], p, e);
    }
  }

  /** Adding to the value of a stored column keeps the row sorted and accumulates there. */
  lemma AddAtIndex(row: Row, pos: nat, v: real)
    requires Sorted(row) && pos < |row|
    ensures Sorted(row[pos := Entry(row[pos].value + v, row[pos].column)])
    ensures RowMap(row[pos := Entry(row[pos].value + v, row[pos].column)])
            == AddTo(RowMap(row), row[pos].column, v)
  {
    var c := row[pos].column;
    var row' := row[pos := Entry(row[pos].value + v, c)];
    assert Sorted(row');
    var u := AddTo(RowMap(row), c, v);
    RowMapKeys(row);
    RowMapKeys(row');
    forall d | d in RowMap(row') ensures d in u && RowMap(row')[d] == u[d] {
      var k :| 0 <= k < |row'| && row'[k].column == d;
      RowMapAt(row', k);
      RowMapAt(row, k);
    }
    forall d | d in u ensures d in RowMap(row') {
      var k :| 0 <= k < |row| && row[k].column == d;
      assert row'[k].column == d;
    }
    MapsEqual(RowMap(row'), u);
  }

  // ---------------------------------------------------------------------------
  // The dot product of two rows
  // ---------------------------------------------------------------------------

  /** Sum, over the entries of `row` in the column of `e`, of the product with `e`'s value. */
  function Match(e: Entry, row: Row): real {
    if |row| == 0 then 0.0
    else
      Match(e, row[..|row| - 1])
      + (if row[|row| - 1].column == e.column then e.value * row[|row| - 1].value else 0.0)
  }

  /**
   * The reference dot product: the sum, over every pair of entries of the two
   * rows that share a column, of the product of their values.
   */
  function Dot(row1: Row, row2: Row): real {
    if |row1| == 0 then 0.0
    else Dot(row1[..|row1| - 1], row2) + Match(row1[|row1| - 1], row2)
  }

  /** In a sorted row, the one entry in `e`'s column determines the match. */
  lemma {:induction false} MatchAt(e: Entry, row: Row, k: nat)
    requires Sorted(row) && k < |row| && row[k].column == e.column
    ensures Match(e, row) == e.value * row[k].value
  {
    var n := |row| - 1;
    if k == n {
      MatchAbsent(e, row[..n]);
    } else {
      MatchAt(e, row[..n], k);
    }
  }

  /** A column that a row does not store contributes nothing. */
  lemma {:induction false} MatchAbsent(e: Entry, row: Row)
    requires !HasColumn(row, e.column)
    ensures Match(e, row) == 0.0
  {
    if |row| > 0 {
      var n := |row| - 1;
      assert forall k :: 0 <= k < n ==> row[..n][k] == row[k];
      MatchAbsent(e, row[..n]);
    }
  }

  /** Entries whose column the other row lacks can be dropped from the end of a dot product. */
  lemma {:induction false} DotDropTail(row1: Row, row2: Row, i: nat)
    requires i <= |row1|
    requires forall k :: i <= k < |row1| ==> !HasColumn(row2, row1[k].column)
    ensures Dot(row1, row2) == Dot(row1[..i], row2)
  {
    if i < |row1| {
      var n := |row1| - 1;
      MatchAbsent(row1[n], row2);
      assert row1[..n][..i] == row1[..i];
      DotDropTail(row1[..n], row2, i);
    } else {
      assert row1[..i] == row1;
    }
  }

  /** A dot product extended on the right by one entry gains that entry's match in the left row. */
  lemma {:induction false} DotAppendRight(row1: Row, row2: Row, e: Entry)
    ensures Dot(row1, row2 + [e]) == Dot(row1, row2) + Match(e, row1)
  {
    if |row1| > 0 {
      var n := |row1| - 1;
      var last := row1[n];
      DotAppendRight(row1[..n], row2, e);
      assert (row2 + [e])[..|row2|] == row2;
      assert row1[..n] == row1[..|row1| - 1];
    }
  }

  /** The dot product does not depend on the order of its operands. */
  lemma {:induction false} DotSymmetric(row1: Row, row2: Row)
    ensures Dot(row1, row2) == Dot(row2, row1)
  {
    if |row2| > 0 {
      var n := |row2| - 1;
      DotSymmetric(row1, row2[..n]);
      assert row2 == row2[..n] + [row2[n]];
      DotAppendRight(row1, row2[..n], row2[n]);
    } else {
      assert Dot(row1, row2) == 0.0 by {
        DotWithEmpty(row1, row2);
      }
    }
  }

  lemma {:induction false} DotWithEmpty(row1: Row, row2: Row)
    requires |row2| == 0
    ensures Dot(row1, row2) == 0.0
  {
    if |row1| > 0 {
      DotWithEmpty(row1[..|row1| - 1], row2);
    }
  }

  // ---------------------------------------------------------------------------
  // A row times a dense vector
  // ---------------------------------------------------------------------------

  predicate ColumnsBelow(row: Row, n: int) {
    forall k :: 0 <= k < |row| ==> 0 <= row[k].column < n
  }

  /** Every row stores only columns below n. */
  predicate AllColumnsBelow(rows: seq<Row>, n: int) {
    forall i :: 0 <= i < |rows| ==> ColumnsBelow(rows[i], n)
  }

  /** Sum over the stored entries of value times the vector's component in that column. */
  function RowTimes(row: Row, v: seq<real>): real
    requires ColumnsBelow(row, |v|)
  {
    if |row| == 0 then 0.0
    else RowTimes(row[..|row| - 1], v) + row[|row| - 1].value * v[row[|row| - 1].column]
  }

  /** A dense vector seen as a row that stores every column. */
  function DenseRow(v: seq<real>): (row: Row)
    ensures |row| == |v| && Sorted(row)
  {
    seq(|v|, j requires 0 <= j < |v| => Entry(v[j], j))
  }

  /** Multiplying a row by a vector is its dot product with the vector as a dense row. */
  lemma {:induction false} RowTimesIsDot(row: Row, v: seq<real>)
    requires ColumnsBelow(row, |v|)
    ensures RowTimes(row, v) == Dot(row, DenseRow(v))
  {
    if |row| > 0 {
      var n := |row| - 1;
      RowTimesIsDot(row[..n], v);
      var d := DenseRow(v);
      MatchAt(row[n], d, row[n].column);
    }
  }
}
