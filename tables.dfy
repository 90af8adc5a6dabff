/** Tables as pandas holds them after loading: labelled columns and
    positionally aligned rows, plus the pandas operations the comparison code
    builds on (column access, element-wise masks, boolean row selection,
    `.iloc[0]`, the common-column set). */
module Tables {
  import opened Wrappers
  import opened Cells

  type Column = string

  /** The exceptions the comparison code can raise. */
  datatype PyError =
    | KeyError(missing: Column)  // `row[col]` on a row without label `col`
    | IndexError               // `.iloc[0]` on an empty selection

  /** The two answers of an operation guarded by the common-column test. */
  datatype Outcome<+T> = NoCommonColumns | Done(value: T)

  predicate Distinct<T(==)>(s: seq<T>) {
    forall i, j :: 0 <= i < j < |s| ==> s[i] != s[j]
  }

  /** A row as `iterrows` or `.iloc` hands it out: labels and cells aligned by position. */
  datatype Row = Row(index: seq<Column>, values: seq<Cell>)

  predicate ValidRow(r: Row) {
    |r.index| == |r.values| && Distinct(r.index)
  }

  datatype Table = Table(columns: seq<Column>, rows: seq<seq<Cell>>)

  predicate ValidTable(t: Table) {
    Distinct(t.columns) && forall i :: 0 <= i < |t.rows| ==> |t.rows[i]| == |t.columns|
  }

  /** Position of the first occurrence of `c` in `s`. */
  function IndexOf(s: seq<Column>, c: Column): (r: Option<nat>)
    ensures r.Some? ==> r.value < |s| && s[r.value] == c
    ensures r.None? <==> c !in s
  {
    if |s| == 0 then None
    else if s[0] == c then Some(0)
    else match IndexOf(s[1..], c)
      case None => None
      case Some(k) => Some(k + 1)
  }

  /** In a list without repeats, the first occurrence of the element at
      position `i` is `i`. */
  lemma {:induction false} IndexOfDistinct(s: seq<Column>, i: nat)
    requires Distinct(s) && i < |s|
    ensures IndexOf(s, s[i]) == Some(i)
  {
    if i > 0 {
      assert s[1..][i - 1] == s[i];
      IndexOfDistinct(s[1..], i - 1);
    }
  }

  /** `row[label]`: the cell under `label`, None where pandas raises KeyError. */
  function Get(r: Row, c: Column): (v: Option<Cell>)
    requires ValidRow(r)
    ensures v.Some? <==> c in r.index
    ensures forall i :: 0 <= i < |r.index| && r.index[i] == c ==> v == Some(r.values[i])
  {
    match IndexOf(r.index, c)
    case None => None
    case Some(k) => Some(r.values[k])
  }

  /** Row `i` of `t`, labelled by the table's columns. */
  function RowAt(t: Table, i: nat): (r: Row)
    requires ValidTable(t) && i < |t.rows|
    ensures ValidRow(r)
  {
    Row(t.columns, t.rows[i])
  }

  /** `t[c]`: the column under label `c`, one cell per row. */
  function ColumnOf(t: Table, c: Column): (col: seq<Cell>)
    requires ValidTable(t) && c in t.columns
    ensures |col| == |t.rows|
    ensures forall i :: 0 <= i < |t.rows| ==> Get(RowAt(t, i), c) == Some(col[i])
  {
    var k := IndexOf(t.columns, c).value;
    seq(|t.rows|, i requires 0 <= i < |t.rows| => t.rows[i][k])
  }

  /** `series == key`, element-wise. */
  function EqMask(col: seq<Cell>, key: Cell): (m: seq<bool>)
    ensures |m| == |col|
    ensures forall i :: 0 <= i < |col| ==> m[i] == Equal(col[i], key)
  {
    seq(|col|, i requires 0 <= i < |col| => Equal(col[i], key))
  }

  /** `~series.isin(values)`, element-wise. */
  function NotIsInMask(col: seq<Cell>, values: seq<Cell>): (m: seq<bool>)
    ensures |m| == |col|
    ensures forall i :: 0 <= i < |col| ==> m[i] == (col[i] !in values)
  {
    seq(|col|, i requires 0 <= i < |col| => col[i] !in values)
  }

  /** The positions where `m` is true, in increasing order. */
  function TruePositions(m: seq<bool>): (p: seq<nat>)
    ensures forall k :: 0 <= k < |p| ==> p[k] < |m| && m[p[k]]
    ensures forall i :: 0 <= i < |m| && m[i] ==> i in p
    ensures forall k, l :: 0 <= k < l < |p| ==> p[k] < p[l]
  {
    if |m| == 0 then []
    else
      var front := TruePositions(m[..|m| - 1]);
      assert forall i :: 0 <= i < |m| - 1 ==> m[..|m| - 1][i] == m[i];
      if m[|m| - 1] then front + [|m| - 1] else front
  }

  /** Boolean indexing `t[mask]`: the rows where the mask holds, in storage order, under the same columns. */
  function Select(t: Table, mask: seq<bool>): (r: Table)
    requires ValidTable(t) && |mask| == |t.rows|
    ensures ValidTable(r) && r.columns == t.columns
    ensures var p := TruePositions(mask);
      |r.rows| == |p| && forall k :: 0 <= k < |p| ==> r.rows[k] == t.rows[p[k]]
  {
    var p := TruePositions(mask);
    Table(t.columns, seq(|p|, k requires 0 <= k < |p| => t.rows[p[k]]))
  }

  /** `.iloc[0]`: the first row of `t`, IndexError when `t` has no rows. */
  function FirstRow(t: Table): (r: Result<Row, PyError>)
    requires ValidTable(t)
    ensures r.Failure? <==> |t.rows| == 0
    ensures r.Failure? ==> r.error == IndexError
    ensures r.Success? ==> r.value == RowAt(t, 0)
  {
    if |t.rows| == 0 then Failure(IndexError) else Success(RowAt(t, 0))
  }

  /** `set(df1.columns) & set(df2.columns)`. */
  function CommonColumns(t1: Table, t2: Table): (s: set<Column>)
    ensures forall c :: c in s <==> c in t1.columns && c in t2.columns
  {
    set c | c in t1.columns && c in t2.columns
  }

  /** The values of column `c` of `t`, as a set. */
  function KeySet(t: Table, c: Column): (s: set<Cell>)
    requires ValidTable(t) && c in t.columns
    ensures forall v :: v in s <==> v in ColumnOf(t, c)
  {
    set v | v in ColumnOf(t, c)
  }

  /** A mask with no true element selects nothing. */
  lemma {:induction false} NoTruePositions(m: seq<bool>)
    requires forall i :: 0 <= i < |m| ==> !m[i]
    ensures TruePositions(m) == []
  {
    if |m| > 0 {
      NoTruePositions(m[..|m| - 1]);
    }
  }

  /** The first selected position is the first true element of the mask. */
  lemma {:induction false} FirstTruePosition(m: seq<bool>, j: nat)
    requires j < |m| && m[j] && forall i :: 0 <= i < j ==> !m[i]
    ensures |TruePositions(m)| > 0 && TruePositions(m)[0] == j
  {
    var front := m[..|m| - 1];
    if j == |m| - 1 {
      NoTruePositions(front);
    } else {
      FirstTruePosition(front, j);
    }
  }
}
