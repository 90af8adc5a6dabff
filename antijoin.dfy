/** "Rows in File 1 but not in File 2" and its mirror: the rows of one table
    whose join-key value does not occur anywhere in the other table's
    join-key column. */
module AntiJoin {
  import opened Cells
  import opened Tables

  /** `source[~source[joinCol].isin(other[joinCol])]`. */
  function RowsNotIn(source: Table, other: Table, joinCol: Column): (r: Table)
    requires ValidTable(source) && ValidTable(other)
    requires joinCol in source.columns && joinCol in other.columns
    ensures ValidTable(r) && r.columns == source.columns
  {
    Select(source, NotIsInMask(ColumnOf(source, joinCol), ColumnOf(other, joinCol)))
  }

  /** The positions of `source` that RowsNotIn keeps. */
  function KeptPositions(source: Table, other: Table, joinCol: Column): seq<nat>
    requires ValidTable(source) && ValidTable(other)
    requires joinCol in source.columns && joinCol in other.columns
  {
    TruePositions(NotIsInMask(ColumnOf(source, joinCol), ColumnOf(other, joinCol)))
  }

  /** The anti-join is an order-preserving filter: its rows are the rows of
      `source` at strictly increasing positions, and a position is kept exactly
      when its key does not occur in `other`'s key column. */
  lemma RowsNotInIsKeyFilter(source: Table, other: Table, joinCol: Column)
    requires ValidTable(source) && ValidTable(other)
    requires joinCol in source.columns && joinCol in other.columns
    ensures var r := RowsNotIn(source, other, joinCol);
            var p := KeptPositions(source, other, joinCol);
            && |r.rows| == |p|
            && (forall k :: 0 <= k < |p| ==> p[k] < |source.rows| && r.rows[k] == source.rows[p[k]])
            && (forall k, l :: 0 <= k < l < |p| ==> p[k] < p[l])
            && (forall i :: 0 <= i < |source.rows| ==>
                  (i in p <==> ColumnOf(source, joinCol)[i] !in ColumnOf(other, joinCol)))
  {
    var col1, col2 := ColumnOf(source, joinCol), ColumnOf(other, joinCol);
    var mask := NotIsInMask(col1, col2);
    var p := TruePositions(mask);
    forall i | 0 <= i < |source.rows| && i in p
      ensures col1[i] !in col2
    {
      var k :| 0 <= k < |p| && p[k] == i;
    }
  }

  /** The keys left in the anti-join are exactly the keys of `source` that `other` lacks. */
  lemma {:induction false} KeysOfRowsNotIn(source: Table, other: Table, joinCol: Column)
    requires ValidTable(source) && ValidTable(other)
    requires joinCol in source.columns && joinCol in other.columns
    ensures KeySet(RowsNotIn(source, other, joinCol), joinCol) == KeySet(source, joinCol) - KeySet(other, joinCol)
  {
    var r := RowsNotIn(source, other, joinCol);
    var p := KeptPositions(source, other, joinCol);
    RowsNotInIsKeyFilter(source, other, joinCol);
    var colR, col1, col2 := ColumnOf(r, joinCol), ColumnOf(source, joinCol), ColumnOf(other, joinCol);
    forall k | 0 <= k < |p|
      ensures colR[k] == col1[p[k]]
    {
      assert Get(RowAt(r, k), joinCol) == Get(RowAt(source, p[k]), joinCol);
    }
    forall v | v in KeySet(r, joinCol)
      ensures v in KeySet(source, joinCol) - KeySet(other, joinCol)
    {
      var k :| 0 <= k < |colR| && colR[k] == v;
      assert col1[p[k]] == v;
    }
    forall v | v in KeySet(source, joinCol) - KeySet(other, joinCol)
      ensures v in KeySet(r, joinCol)
    {
      var i :| 0 <= i < |col1| && col1[i] == v;
      assert i in p;
      var k :| 0 <= k < |p| && p[k] == i;
      assert colR[k] == v;
    }
  }

  /** "Rows in File 1 but not in File 2", behind the common-column guard. */
  function RowsInFile1NotInFile2(t1: Table, t2: Table, joinCol: Column): (r: Outcome<Table>)
    requires ValidTable(t1) && ValidTable(t2)
    requires CommonColumns(t1, t2) != {} ==> joinCol in CommonColumns(t1, t2)
    ensures r.NoCommonColumns? <==> CommonColumns(t1, t2) == {}
    ensures r.Done? ==> r.value == RowsNotIn(t1, t2, joinCol)
  {
    if CommonColumns(t1, t2) == {} then NoCommonColumns else Done(RowsNotIn(t1, t2, joinCol))
  }

  /** "Rows in File 2 but not in File 1", behind the common-column guard. */
  function RowsInFile2NotInFile1(t1: Table, t2: Table, joinCol: Column): (r: Outcome<Table>)
    requires ValidTable(t1) && ValidTable(t2)
    requires CommonColumns(t1, t2) != {} ==> joinCol in CommonColumns(t1, t2)
    ensures r.NoCommonColumns? <==> CommonColumns(t1, t2) == {}
    ensures r.Done? ==> r.value == RowsNotIn(t2, t1, joinCol)
  {
    if CommonColumns(t1, t2) == {} then NoCommonColumns else Done(RowsNotIn(t2, t1, joinCol))
  }

  /** The second operation is the first with the files swapped. */
  lemma RowsInFile2NotInFile1IsMirror(t1: Table, t2: Table, joinCol: Column)
    requires ValidTable(t1) && ValidTable(t2)
    requires CommonColumns(t1, t2) != {} ==> joinCol in CommonColumns(t1, t2)
    ensures CommonColumns(t2, t1) == CommonColumns(t1, t2)
    ensures RowsInFile2NotInFile1(t1, t2, joinCol) == RowsInFile1NotInFile2(t2, t1, joinCol)
  {
    assert CommonColumns(t2, t1) == CommonColumns(t1, t2);
  }

  /** The keys of "only in 1", "only in 2" and the keys present in both tables
      are pairwise disjoint and together make up every key of either table. */
  lemma KeysPartition(t1: Table, t2: Table, joinCol: Column)
    requires ValidTable(t1) && ValidTable(t2)
    requires joinCol in t1.columns && joinCol in t2.columns
    ensures var only1 := KeySet(RowsNotIn(t1, t2, joinCol), joinCol);
            var only2 := KeySet(RowsNotIn(t2, t1, joinCol), joinCol);
            var both := KeySet(t1, joinCol) * KeySet(t2, joinCol);
            && only1 !! only2 && only1 !! both && only2 !! both
            && only1 + only2 + both == KeySet(t1, joinCol) + KeySet(t2, joinCol)
  {
    KeysOfRowsNotIn(t1, t2, joinCol);
    KeysOfRowsNotIn(t2, t1, joinCol);
  }
}
