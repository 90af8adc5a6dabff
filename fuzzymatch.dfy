/** The "Similar Rows (Fuzzy Matching)" operation: pairs every row of the first
    table with the first row of the second table that has an equal join-key
    value, summarizes each pair, and keeps the non-empty summaries. */
module FuzzyMatch {
  import opened Wrappers
  import opened Cells
  import opened Tables
  import opened Summarizer

  /** Reference definition of the lookup: the position of the first cell of
      `col` that compares equal to `key`. */
  function FirstEqual(col: seq<Cell>, key: Cell): (r: Option<nat>)
    ensures r.Some? ==> r.value < |col| && Equal(col[r.value], key)
    ensures r.Some? ==> forall j :: 0 <= j < r.value ==> !Equal(col[j], key)
    ensures r.None? ==> forall j :: 0 <= j < |col| ==> !Equal(col[j], key)
  {
    if |col| == 0 then None
    else if Equal(col[0], key) then Some(0)
    else match FirstEqual(col[1..], key)
      case None => None
      case Some(j) => Some(j + 1)
  }

  /** `df2[df2[joinCol] == key].iloc[0]`. */
  function MatchingRow(t2: Table, joinCol: Column, key: Cell): (r: Result<Row, PyError>)
    requires ValidTable(t2) && joinCol in t2.columns
    ensures r.Failure? <==> forall j :: 0 <= j < |t2.rows| ==> !Equal(ColumnOf(t2, joinCol)[j], key)
    ensures r.Failure? ==> r.error == IndexError
    ensures r.Success? ==>
              exists j :: 0 <= j < |t2.rows| && Equal(ColumnOf(t2, joinCol)[j], key) && r.value == RowAt(t2, j)
  {
    var mask := EqMask(ColumnOf(t2, joinCol), key);
    var p := TruePositions(mask);
    assert |p| > 0 ==> Select(t2, mask).rows[0] == t2.rows[p[0]] && mask[p[0]];
    FirstRow(Select(t2, mask))
  }

  /** The lookup yields the first row of t2, in storage order, whose key
      equals `key`, and raises IndexError when no row's key does. */
  lemma MatchingRowIsFirstEqual(t2: Table, joinCol: Column, key: Cell)
    requires ValidTable(t2) && joinCol in t2.columns
    ensures match FirstEqual(ColumnOf(t2, joinCol), key)
            case None => MatchingRow(t2, joinCol, key) == Failure(IndexError)
            case Some(j) => j < |t2.rows| && MatchingRow(t2, joinCol, key) == Success(RowAt(t2, j))
  {
    var col := ColumnOf(t2, joinCol);
    var mask := EqMask(col, key);
    match FirstEqual(col, key)
    case None =>
      NoTruePositions(mask);
    case Some(j) =>
      FirstTruePosition(mask, j);
  }

  /** A key that is missing never finds a row, since NaN equals nothing. */
  lemma MissingKeyFindsNoRow(t2: Table, joinCol: Column)
    requires ValidTable(t2) && joinCol in t2.columns
    ensures MatchingRow(t2, joinCol, Missing) == Failure(IndexError)
  {
    MatchingRowIsFirstEqual(t2, joinCol, Missing);
  }

  /** The label under which an entry holds its summary. */
  const SummaryLabel: Column := "Summary"

  /** One entry of `mismatch_summaries`, the dict `{join_col: key, "Summary": summary}`:
      the row's key, when the dict kept it, and the row's summary. */
  datatype SummaryRow = SummaryRow(key: Option<Cell>, summary: seq<Mismatch>)

  /** The dict display for one row. When the join column is itself labelled
      "Summary" both entries of the display have the same key and the later
      one, the summary, is what the dict holds: the row's key is lost. */
  function Entry(joinCol: Column, key: Cell, summary: seq<Mismatch>): (e: SummaryRow)
    ensures e.summary == summary
    ensures e.key.None? <==> joinCol == SummaryLabel
    ensures e.key.Some? ==> e.key.value == key
  {
    SummaryRow(if joinCol == SummaryLabel then None else Some(key), summary)
  }

  /** What the loop body computes for row `i` of t1: its lookup in t2 and the
      summary of the pair, with the default thresholds. */
  function RowOutcome(t1: Table, t2: Table, joinCol: Column, ratio: (string, string) -> Similarity, i: nat)
    : (r: Result<Option<seq<Mismatch>>, PyError>)
    requires ValidTable(t1) && ValidTable(t2) && joinCol in t1.columns && joinCol in t2.columns
    requires i < |t1.rows|
    ensures var j := FirstEqual(ColumnOf(t2, joinCol), ColumnOf(t1, joinCol)[i]);
            && (j.None? ==> r == Failure(IndexError))
            && (j.Some? ==>
                  j.value < |t2.rows| && r == Summary(RowAt(t1, i), RowAt(t2, j.value), DefaultSettings(ratio)))
  {
    MatchingRowIsFirstEqual(t2, joinCol, ColumnOf(t1, joinCol)[i]);
    match MatchingRow(t2, joinCol, ColumnOf(t1, joinCol)[i])
    case Failure(e) => Failure(e)
    case Success(rowB) => Summary(RowAt(t1, i), rowB, DefaultSettings(ratio))
  }

  /** The per-row outcomes for the first `n` rows of t1, in order. */
  function RowOutcomes(t1: Table, t2: Table, joinCol: Column, ratio: (string, string) -> Similarity, n: nat)
    : (os: seq<Result<Option<seq<Mismatch>>, PyError>>)
    requires ValidTable(t1) && ValidTable(t2) && joinCol in t1.columns && joinCol in t2.columns
    requires n <= |t1.rows|
    ensures |os| == n
  {
    if n == 0 then [] else RowOutcomes(t1, t2, joinCol, ratio, n - 1) + [RowOutcome(t1, t2, joinCol, ratio, n - 1)]
  }

  lemma {:induction false} RowOutcomesAt(t1: Table, t2: Table, joinCol: Column, ratio: (string, string) -> Similarity,
                                         n: nat, i: nat)
    requires ValidTable(t1) && ValidTable(t2) && joinCol in t1.columns && joinCol in t2.columns
    requires i < n <= |t1.rows|
    ensures RowOutcomes(t1, t2, joinCol, ratio, n)[i] == RowOutcome(t1, t2, joinCol, ratio, i)
  {
    var front := RowOutcomes(t1, t2, joinCol, ratio, n - 1);
    var last := RowOutcome(t1, t2, joinCol, ratio, n - 1);
    assert RowOutcomes(t1, t2, joinCol, ratio, n) == front + [last];
    if i < n - 1 {
      RowOutcomesAt(t1, t2, joinCol, ratio, n - 1, i);
    }
  }

  /** Which of the first `n` outcomes get an entry: those with a summary. */
  function ReportMask(os: seq<Result<Option<seq<Mismatch>>, PyError>>, n: nat): (m: seq<bool>)
    requires n <= |os|
    ensures |m| == n && forall i :: 0 <= i < n ==> m[i] == (os[i].Success? && os[i].value.Some?)
  {
    seq(n, i requires 0 <= i < n => os[i].Success? && os[i].value.Some?)
  }

  /** `mismatch_summaries` after the first `n` rows, given each row's outcome
      and key. */
  function CollectedUpTo(os: seq<Result<Option<seq<Mismatch>>, PyError>>, keys: seq<Cell>, joinCol: Column, n: nat)
    : Result<seq<SummaryRow>, PyError>
    requires n <= |os| == |keys|
  {
    if n == 0 then Success([])
    else match CollectedUpTo(os, keys, joinCol, n - 1)
      case Failure(e) => Failure(e)
      case Success(out) =>
        match os[n - 1]
        case Failure(e) => Failure(e)
        case Success(None) => Success(out)
        case Success(Some(d)) => Success(out + [Entry(joinCol, keys[n - 1], d)])
  }

  /** The list the loop builds, or the exception it raises. */
  function Collected(t1: Table, t2: Table, joinCol: Column, ratio: (string, string) -> Similarity)
    : Result<seq<SummaryRow>, PyError>
    requires ValidTable(t1) && ValidTable(t2) && joinCol in t1.columns && joinCol in t2.columns
  {
    CollectedUpTo(RowOutcomes(t1, t2, joinCol, ratio, |t1.rows|), ColumnOf(t1, joinCol), joinCol, |t1.rows|)
  }

  /** Once a row raises, the loop's outcome is that error. */
  lemma {:induction false} CollectFailureIsFinal(os: seq<Result<Option<seq<Mismatch>>, PyError>>, keys: seq<Cell>,
                                                 joinCol: Column, m: nat, n: nat)
    requires m <= n <= |os| == |keys|
    requires CollectedUpTo(os, keys, joinCol, m).Failure?
    ensures CollectedUpTo(os, keys, joinCol, n) == CollectedUpTo(os, keys, joinCol, m)
    decreases n - m
  {
    if m < n {
      CollectFailureIsFinal(os, keys, joinCol, m, n - 1);
    }
  }

  /** The loop completes exactly when no row raises, and then holds one entry
      per row with a summary, in row order. */
  lemma {:induction false} CollectedSucceedsOnReportedRows(os: seq<Result<Option<seq<Mismatch>>, PyError>>,
                                                           keys: seq<Cell>, joinCol: Column, n: nat)
    requires n <= |os| == |keys|
    ensures CollectedUpTo(os, keys, joinCol, n).Success? <==> forall i :: 0 <= i < n ==> os[i].Success?
    ensures CollectedUpTo(os, keys, joinCol, n).Success? ==>
            var out := CollectedUpTo(os, keys, joinCol, n).value;
            var p := TruePositions(ReportMask(os, n));
            |out| == |p| &&
            forall k :: 0 <= k < |p| ==> out[k] == Entry(joinCol, keys[p[k]], os[p[k]].value.value)
  {
    if n > 0 {
      CollectedSucceedsOnReportedRows(os, keys, joinCol, n - 1);
      assert ReportMask(os, n)[..n - 1] == ReportMask(os, n - 1);
    }
  }

  /** A loop that raises raises the error of the first row that does. */
  lemma {:induction false} CollectedFailsAtFirstError(os: seq<Result<Option<seq<Mismatch>>, PyError>>,
                                                      keys: seq<Cell>, joinCol: Column, n: nat)
    requires n <= |os| == |keys|
    ensures CollectedUpTo(os, keys, joinCol, n).Failure? ==>
            exists i :: 0 <= i < n && os[i].Failure? && CollectedUpTo(os, keys, joinCol, n).error == os[i].error &&
              forall j :: 0 <= j < i ==> os[j].Success?
  {
    if n > 0 {
      CollectedFailsAtFirstError(os, keys, joinCol, n - 1);
      CollectedSucceedsOnReportedRows(os, keys, joinCol, n - 1);
      if CollectedUpTo(os, keys, joinCol, n - 1).Failure? {
        var i :| 0 <= i < n - 1 && os[i].Failure? && CollectedUpTo(os, keys, joinCol, n - 1).error == os[i].error &&
          forall j :: 0 <= j < i ==> os[j].Success?;
      }
    }
  }

  /** The loop completes exactly when no row raises; it then holds one entry
      per row with a summary, in row order, built from that row's key and
      summary; otherwise it raises the error of the first row that does. */
  lemma CollectedAreReportedRows(os: seq<Result<Option<seq<Mismatch>>, PyError>>,
                                 keys: seq<Cell>, joinCol: Column, n: nat)
    requires n <= |os| == |keys|
    ensures CollectedUpTo(os, keys, joinCol, n).Success? <==> forall i :: 0 <= i < n ==> os[i].Success?
    ensures CollectedUpTo(os, keys, joinCol, n).Success? ==>
            var out := CollectedUpTo(os, keys, joinCol, n).value;
            var p := TruePositions(ReportMask(os, n));
            |out| == |p| &&
            forall k :: 0 <= k < |p| ==> out[k] == Entry(joinCol, keys[p[k]], os[p[k]].value.value)
    ensures CollectedUpTo(os, keys, joinCol, n).Failure? ==>
            exists i :: 0 <= i < n && os[i].Failure? && CollectedUpTo(os, keys, joinCol, n).error == os[i].error &&
              forall j :: 0 <= j < i ==> os[j].Success?
  {
    CollectedSucceedsOnReportedRows(os, keys, joinCol, n);
    CollectedFailsAtFirstError(os, keys, joinCol, n);
  }

  /** The collected summaries follow t1's row order with at most one entry per
      row; each entry carries its row's key and the non-empty summary of that
      row against the first row of t2 with an equal key; a row is left out
      exactly when nothing in it was flagged. */
  lemma CollectedSummariesFollowTable1(t1: Table, t2: Table, joinCol: Column, ratio: (string, string) -> Similarity)
    requires ValidTable(t1) && ValidTable(t2) && joinCol in t1.columns && joinCol in t2.columns
    requires Collected(t1, t2, joinCol, ratio).Success?
    ensures var out := Collected(t1, t2, joinCol, ratio).value;
            var p := TruePositions(ReportMask(RowOutcomes(t1, t2, joinCol, ratio, |t1.rows|), |t1.rows|));
            var keys1, keys2 := ColumnOf(t1, joinCol), ColumnOf(t2, joinCol);
            && |out| == |p|
            && (forall k, l :: 0 <= k < l < |p| ==> p[k] < p[l])
            && (forall i :: 0 <= i < |t1.rows| ==>
                  (i in p <==> RowOutcome(t1, t2, joinCol, ratio, i) != Success(None)))
            && (forall k :: 0 <= k < |p| ==>
                  && p[k] < |t1.rows|
                  && (joinCol != SummaryLabel ==> out[k].key == Some(keys1[p[k]]))
                  && (joinCol == SummaryLabel ==> out[k].key == None)
                  && out[k].summary != []
                  && FirstEqual(keys2, keys1[p[k]]).Some?
                  && Summary(RowAt(t1, p[k]), RowAt(t2, FirstEqual(keys2, keys1[p[k]]).value), DefaultSettings(ratio))
                     == Success(Some(out[k].summary)))
  {
    var n := |t1.rows|;
    var os := RowOutcomes(t1, t2, joinCol, ratio, |t1.rows|);
    var keys1, keys2 := ColumnOf(t1, joinCol), ColumnOf(t2, joinCol);
    CollectedAreReportedRows(os, keys1, joinCol, n);
    forall i | 0 <= i < n
      ensures FirstEqual(keys2, keys1[i]).Some?
      ensures os[i] == Summary(RowAt(t1, i), RowAt(t2, FirstEqual(keys2, keys1[i]).value), DefaultSettings(ratio))
      ensures os[i].Success? && os[i].value.Some? ==> os[i].value.value != []
      ensures os[i] == RowOutcome(t1, t2, joinCol, ratio, i)
    {
      RowOutcomesAt(t1, t2, joinCol, ratio, n, i);
      MatchingRowIsFirstEqual(t2, joinCol, keys1[i]);
      assert os[i].Success?;
      var rowB := RowAt(t2, FirstEqual(keys2, keys1[i]).value);
      SummaryShape(RowAt(t1, i), rowB, DefaultSettings(ratio));
    }
  }

  /** A row of t1 whose key no row of t2 equals (a missing key among them)
      makes the whole operation raise. */
  lemma UnmatchedKeyRaises(t1: Table, t2: Table, joinCol: Column, ratio: (string, string) -> Similarity, i: nat)
    requires ValidTable(t1) && ValidTable(t2) && joinCol in t1.columns && joinCol in t2.columns
    requires i < |t1.rows|
    requires forall j :: 0 <= j < |t2.rows| ==> !Equal(ColumnOf(t2, joinCol)[j], ColumnOf(t1, joinCol)[i])
    ensures Collected(t1, t2, joinCol, ratio).Failure?
  {
    MatchingRowIsFirstEqual(t2, joinCol, ColumnOf(t1, joinCol)[i]);
    var os := RowOutcomes(t1, t2, joinCol, ratio, |t1.rows|);
    RowOutcomesAt(t1, t2, joinCol, ratio, |t1.rows|, i);
    assert os[i].Failure?;
    CollectedAreReportedRows(os, ColumnOf(t1, joinCol), joinCol, |t1.rows|);
  }

  /** The two row pairs the duplicate-key lemmas below compare, summarized. */
  lemma DuplicateKeyPairs(ratio: (string, string) -> Similarity)
    ensures Summary(Row(["id", "v"], [Number(1.0), Number(10.0)]), Row(["id", "v"], [Number(1.0), Number(10.0)]),
                    DefaultSettings(ratio)) == Success(None)
    ensures Summary(Row(["id", "v"], [Number(1.0), Number(10.0)]), Row(["id", "v"], [Number(1.0), Number(50.0)]),
                    DefaultSettings(ratio)) == Success(Some([Mismatch("v", NumberMismatch(10.0, 50.0, 40.0))]))
  {
    var s := DefaultSettings(ratio);
    var rowA, same, other := Row(["id", "v"], [Number(1.0), Number(10.0)]), Row(["id", "v"], [Number(1.0), Number(10.0)]),
                             Row(["id", "v"], [Number(1.0), Number(50.0)]);
    assert IndexOf(["id", "v"], "v") == Some(1);
    assert Get(same, "id") == Some(Number(1.0)) && Get(same, "v") == Some(Number(10.0));
    assert Get(other, "id") == Some(Number(1.0)) && Get(other, "v") == Some(Number(50.0));
    assert DifferencesUpTo(rowA, same, s, 1) == Success([]);
    assert DifferencesUpTo(rowA, same, s, 2) == Success([]);
    var flagged := Mismatch("v", NumberMismatch(10.0, 50.0, 40.0));
    assert DifferencesUpTo(rowA, other, s, 1) == Success([]);
    assert Verdict(rowA, other, s, 1) == Success(Some(flagged.detail));
    assert [] + [flagged] == [flagged];
  }

  /** The operation on a one-row table 1. */
  lemma OneRowCollected(t1: Table, t2: Table, joinCol: Column, ratio: (string, string) -> Similarity)
    requires ValidTable(t1) && ValidTable(t2) && joinCol in t1.columns && joinCol in t2.columns
    requires |t1.rows| == 1
    ensures Collected(t1, t2, joinCol, ratio) ==
            match RowOutcome(t1, t2, joinCol, ratio, 0)
            case Failure(e) => Failure(e)
            case Success(None) => Success([])
            case Success(Some(d)) => Success([Entry(joinCol, ColumnOf(t1, joinCol)[0], d)])
  {
    var os := RowOutcomes(t1, t2, joinCol, ratio, 1);
    RowOutcomesAt(t1, t2, joinCol, ratio, 1, 0);
    assert CollectedUpTo(os, ColumnOf(t1, joinCol), joinCol, 0) == Success([]);
    match RowOutcome(t1, t2, joinCol, ratio, 0)
    case Failure(e) =>
    case Success(None) =>
    case Success(Some(d)) =>
      assert [] + [Entry(joinCol, ColumnOf(t1, joinCol)[0], d)] == [Entry(joinCol, ColumnOf(t1, joinCol)[0], d)];
  }

  /** With two rows of t2 sharing the key, only the first in storage order is
      compared: here it agrees with the row of t1, and the row that differs
      is never looked at. */
  lemma DuplicateKeyFirstAgrees(ratio: (string, string) -> Similarity)
    ensures Collected(Table(["id", "v"], [[Number(1.0), Number(10.0)]]),
                      Table(["id", "v"], [[Number(1.0), Number(10.0)], [Number(1.0), Number(50.0)]]),
                      "id", ratio)
            == Success([])
  {
    var t1 := Table(["id", "v"], [[Number(1.0), Number(10.0)]]);
    var t2 := Table(["id", "v"], [[Number(1.0), Number(10.0)], [Number(1.0), Number(50.0)]]);
    assert IndexOf(["id", "v"], "id") == Some(0);
    assert ColumnOf(t1, "id")[0] == Number(1.0);
    assert ColumnOf(t2, "id")[0] == Number(1.0);
    assert FirstEqual(ColumnOf(t2, "id"), Number(1.0)) == Some(0);
    MatchingRowIsFirstEqual(t2, "id", Number(1.0));
    DuplicateKeyPairs(ratio);
    OneRowCollected(t1, t2, "id", ratio);
  }

  /** The same rows of t2 in the other order: now the first match differs by 40. */
  lemma DuplicateKeyFirstDiffers(ratio: (string, string) -> Similarity)
    ensures Collected(Table(["id", "v"], [[Number(1.0), Number(10.0)]]),
                      Table(["id", "v"], [[Number(1.0), Number(50.0)], [Number(1.0), Number(10.0)]]),
                      "id", ratio)
            == Success([SummaryRow(Some(Number(1.0)), [Mismatch("v", NumberMismatch(10.0, 50.0, 40.0))])])
  {
    var t1 := Table(["id", "v"], [[Number(1.0), Number(10.0)]]);
    var t2 := Table(["id", "v"], [[Number(1.0), Number(50.0)], [Number(1.0), Number(10.0)]]);
    assert IndexOf(["id", "v"], "id") == Some(0);
    assert ColumnOf(t1, "id")[0] == Number(1.0);
    assert ColumnOf(t2, "id")[0] == Number(1.0);
    assert FirstEqual(ColumnOf(t2, "id"), Number(1.0)) == Some(0);
    MatchingRowIsFirstEqual(t2, "id", Number(1.0));
    DuplicateKeyPairs(ratio);
    OneRowCollected(t1, t2, "id", ratio);
  }

  /** When `fuzz.ratio` scores every string 100 against itself, the join
      column is never reported: a row is compared only with a row whose key
      equals its own. */
  lemma JoinColumnNeverReported(t1: Table, t2: Table, joinCol: Column, ratio: (string, string) -> Similarity, i: nat)
    requires ValidTable(t1) && ValidTable(t2) && joinCol in t1.columns && joinCol in t2.columns
    requires i < |t1.rows|
    requires forall x :: ratio(x, x) == 100
    requires RowOutcome(t1, t2, joinCol, ratio, i).Success?
    ensures !Reported(RowOutcome(t1, t2, joinCol, ratio, i).value, joinCol)
  {
    var keys1, keys2 := ColumnOf(t1, joinCol), ColumnOf(t2, joinCol);
    var j := FirstEqual(keys2, keys1[i]).value;
    var rowA, rowB := RowAt(t1, i), RowAt(t2, j);
    var s := DefaultSettings(ratio);
    var idx := IndexOf(t1.columns, joinCol).value;
    assert Get(rowB, joinCol) == Some(keys2[j]) && keys2[j] == keys1[i];
    assert Get(rowA, joinCol) == Some(rowA.values[idx]) == Some(keys1[i]);
    assert forall x :: s.ratio(x, x) == 100;
    EqualValuesNeverReported(rowA, rowB, s, idx);
  }

  /** The two row pairs the "Summary" join-column lemma compares, summarized. */
  lemma SummaryLabelPair(ratio: (string, string) -> Similarity)
    ensures Summary(Row(["Summary", "v"], [Number(1.0), Number(10.0)]), Row(["Summary", "v"], [Number(1.0), Number(50.0)]),
                    DefaultSettings(ratio)) == Success(Some([Mismatch("v", NumberMismatch(10.0, 50.0, 40.0))]))
  {
    var s := DefaultSettings(ratio);
    var rowA, rowB := Row(["Summary", "v"], [Number(1.0), Number(10.0)]), Row(["Summary", "v"], [Number(1.0), Number(50.0)]);
    assert IndexOf(["Summary", "v"], "v") == Some(1);
    assert Get(rowB, "Summary") == Some(Number(1.0)) && Get(rowB, "v") == Some(Number(50.0));
    var flagged := Mismatch("v", NumberMismatch(10.0, 50.0, 40.0));
    assert DifferencesUpTo(rowA, rowB, s, 1) == Success([]);
    assert Verdict(rowA, rowB, s, 1) == Success(Some(flagged.detail));
    assert [] + [flagged] == [flagged];
  }

  /** Joined on a column labelled "Summary", an entry holds the summary but
      not the row's key. */
  lemma SummaryLabelLosesKey(ratio: (string, string) -> Similarity)
    ensures Collected(Table(["Summary", "v"], [[Number(1.0), Number(10.0)]]),
                      Table(["Summary", "v"], [[Number(1.0), Number(50.0)]]),
                      "Summary", ratio)
            == Success([SummaryRow(None, [Mismatch("v", NumberMismatch(10.0, 50.0, 40.0))])])
  {
    var t1 := Table(["Summary", "v"], [[Number(1.0), Number(10.0)]]);
    var t2 := Table(["Summary", "v"], [[Number(1.0), Number(50.0)]]);
    assert IndexOf(["Summary", "v"], "Summary") == Some(0);
    assert ColumnOf(t1, "Summary")[0] == Number(1.0);
    assert ColumnOf(t2, "Summary")[0] == Number(1.0);
    assert FirstEqual(ColumnOf(t2, "Summary"), Number(1.0)) == Some(0);
    SummaryLabelPair(ratio);
    OneRowCollected(t1, t2, "Summary", ratio);
  }

  /** The body of the loop for row `i` of t1: the lookup of its key in t2
      and the summary of the pair. */
  method SummarizeRow(t1: Table, t2: Table, joinCol: Column, ratio: (string, string) -> Similarity, i: nat)
    returns (key: Cell, o: Result<Option<seq<Mismatch>>, PyError>)
    requires ValidTable(t1) && ValidTable(t2) && joinCol in t1.columns && joinCol in t2.columns
    requires i < |t1.rows|
    ensures key == ColumnOf(t1, joinCol)[i]
    ensures o == RowOutcomes(t1, t2, joinCol, ratio, |t1.rows|)[i]
  {
    RowOutcomesAt(t1, t2, joinCol, ratio, |t1.rows|, i);
    var rowA := RowAt(t1, i);
    key := Get(rowA, joinCol).value;
    var rowB := MatchingRow(t2, joinCol, key);
    if rowB.Failure? {
      return key, Failure(rowB.error);
    }
    o := SummarizeMismatches(rowA, rowB.value, DefaultSettings(ratio));
  }

  /** One turn of the loop moves the fold one row on. */
  lemma CollectStep(os: seq<Result<Option<seq<Mismatch>>, PyError>>, keys: seq<Cell>, joinCol: Column,
                    i: nat, acc: seq<SummaryRow>)
    requires i < |os| == |keys|
    requires CollectedUpTo(os, keys, joinCol, i) == Success(acc)
    ensures os[i].Failure? ==> CollectedUpTo(os, keys, joinCol, |os|) == Failure(os[i].error)
    ensures os[i] == Success(None) ==> CollectedUpTo(os, keys, joinCol, i + 1) == Success(acc)
    ensures os[i].Success? && os[i].value.Some? ==>
              CollectedUpTo(os, keys, joinCol, i + 1) == Success(acc + [Entry(joinCol, keys[i], os[i].value.value)])
  {
    if os[i].Failure? {
      CollectFailureIsFinal(os, keys, joinCol, i + 1, |os|);
    }
  }

  /** The loop over `df1.iterrows()` that fills `mismatch_summaries`. */
  method CollectMismatchSummaries(t1: Table, t2: Table, joinCol: Column, ratio: (string, string) -> Similarity)
    returns (r: Result<seq<SummaryRow>, PyError>)
    requires ValidTable(t1) && ValidTable(t2) && joinCol in t1.columns && joinCol in t2.columns
    ensures r == Collected(t1, t2, joinCol, ratio)
  {
    ghost var os := RowOutcomes(t1, t2, joinCol, ratio, |t1.rows|);
    ghost var keys := ColumnOf(t1, joinCol);
    assert Collected(t1, t2, joinCol, ratio) == CollectedUpTo(os, keys, joinCol, |t1.rows|);
    var mismatchSummaries: seq<SummaryRow> := [];
    for i := 0 to |t1.rows|
      invariant CollectedUpTo(os, keys, joinCol, i) == Success(mismatchSummaries)
    {
      var key, summary := SummarizeRow(t1, t2, joinCol, ratio, i);
      CollectStep(os, keys, joinCol, i, mismatchSummaries);
      if summary.Failure? {
        return Failure(summary.error);
      }
      if summary.value.Some? {
        mismatchSummaries := mismatchSummaries + [Entry(joinCol, key, summary.value.value)];
      }
    }
    r := Success(mismatchSummaries);
  }

  /** "Similar Rows (Fuzzy Matching)", behind the common-column guard. */
  method SimilarRows(t1: Table, t2: Table, joinCol: Column, ratio: (string, string) -> Similarity)
    returns (r: Outcome<Result<seq<SummaryRow>, PyError>>)
    requires ValidTable(t1) && ValidTable(t2)
    requires CommonColumns(t1, t2) != {} ==> joinCol in CommonColumns(t1, t2)
    ensures r.NoCommonColumns? <==> CommonColumns(t1, t2) == {}
    ensures r.Done? ==> r.value == Collected(t1, t2, joinCol, ratio)
  {
    if CommonColumns(t1, t2) == {} {
      return NoCommonColumns;
    }
    var summaries := CollectMismatchSummaries(t1, t2, joinCol, ratio);
    r := Done(summaries);
  }
}
