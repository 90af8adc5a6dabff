/** `summarize_mismatches`: compares two rows column by column and reports the
    columns whose values differ beyond a threshold. */
module Summarizer {
  import opened Wrappers
  import opened Cells
  import opened Tables

  /** The range of `fuzz.ratio`. */
  type Similarity = x: int | 0 <= x <= 100

  const DefaultNumericThreshold: real := 1.0
  const DefaultTextThreshold: int := 80

  /** The string-similarity scorer (`fuzz.ratio`, a foreign call) and the two
      thresholds. */
  datatype Settings = Settings(
    ratio: (string, string) -> Similarity,
    numericThreshold: real,
    textThreshold: int)

  /** The settings the fuzzy-matching operation uses: the default thresholds. */
  function DefaultSettings(ratio: (string, string) -> Similarity): (s: Settings)
    ensures s.numericThreshold == 1.0 && s.textThreshold == 80 && s.ratio == ratio
  {
    Settings(ratio, DefaultNumericThreshold, DefaultTextThreshold)
  }

  /** What is recorded for a flagged column: both values and the score. */
  datatype Detail =
    | TextMismatch(leftText: string, rightText: string, similarity: Similarity)
    | NumberMismatch(leftNumber: real, rightNumber: real, difference: real)

  /** One entry of the `differences` dict. */
  datatype Mismatch = Mismatch(column: Column, detail: Detail)

  /** The comparison of two present values: text pairs by similarity, number
      pairs by absolute difference, pairs of different kinds not at all. */
  function Compare(a: Cell, b: Cell, s: Settings): (r: Option<Detail>)
    ensures r.Some? ==> (a.Text? && b.Text?) || (a.Number? && b.Number?)
    ensures a.Text? && b.Text? ==>
              (r.Some? <==> s.ratio(a.s, b.s) < s.textThreshold) &&
              (r.Some? ==> r.value == TextMismatch(a.s, b.s, s.ratio(a.s, b.s)))
    ensures a.Number? && b.Number? ==>
              (r.Some? <==> Abs(a.n - b.n) > s.numericThreshold) &&
              (r.Some? ==> r.value == NumberMismatch(a.n, b.n, Abs(a.n - b.n)))
  {
    match (a, b)
    case (Text(x), Text(y)) =>
      var score := s.ratio(x, y);
      if score < s.textThreshold then Some(TextMismatch(x, y, score)) else None
    case (Number(x), Number(y)) =>
      var score := Abs(x - y);
      if score > s.numericThreshold then Some(NumberMismatch(x, y, score)) else None
    case _ => None
  }

  /** What iteration `i` of the loop over `row1.index` yields: nothing when
      row1's value is missing (row2 is then not consulted), KeyError when row2
      has no such label, nothing when row2's value is missing, and otherwise
      the comparison. */
  function Verdict(row1: Row, row2: Row, s: Settings, i: nat): (r: Result<Option<Detail>, PyError>)
    requires ValidRow(row1) && ValidRow(row2) && i < |row1.index|
    ensures r.Failure? <==> !IsNa(row1.values[i]) && row1.index[i] !in row2.index
    ensures r.Failure? ==> r.error == KeyError(row1.index[i])
  {
    var col := row1.index[i];
    if IsNa(row1.values[i]) then Success(None)
    else match Get(row2, col)
      case None => Failure(KeyError(col))
      case Some(v) => if IsNa(v) then Success(None) else Success(Compare(row1.values[i], v, s))
  }

  /** A label with a value missing on either side yields nothing; a label
      with both values present yields their comparison. */
  lemma VerdictCompares(row1: Row, row2: Row, s: Settings, i: nat)
    requires ValidRow(row1) && ValidRow(row2) && i < |row1.index|
    ensures IsNa(row1.values[i]) || Get(row2, row1.index[i]) == Some(Missing) ==>
              Verdict(row1, row2, s, i) == Success(None)
    ensures !IsNa(row1.values[i]) && Get(row2, row1.index[i]).Some? && !IsNa(Get(row2, row1.index[i]).value) ==>
              Verdict(row1, row2, s, i) == Success(Compare(row1.values[i], Get(row2, row1.index[i]).value, s))
  {
  }

  predicate IsFlagged(row1: Row, row2: Row, s: Settings, i: nat)
    requires ValidRow(row1) && ValidRow(row2) && i < |row1.index|
  {
    Verdict(row1, row2, s, i).Success? && Verdict(row1, row2, s, i).value.Some?
  }

  /** The `differences` dict after the first `n` columns of row1. */
  function DifferencesUpTo(row1: Row, row2: Row, s: Settings, n: nat): Result<seq<Mismatch>, PyError>
    requires ValidRow(row1) && ValidRow(row2) && n <= |row1.index|
  {
    if n == 0 then Success([])
    else match DifferencesUpTo(row1, row2, s, n - 1)
      case Failure(e) => Failure(e)
      case Success(d) =>
        match Verdict(row1, row2, s, n - 1)
        case Failure(e) => Failure(e)
        case Success(None) => Success(d)
        case Success(Some(x)) => Success(d + [Mismatch(row1.index[n - 1], x)])
  }

  /** The value `summarize_mismatches` returns or raises: the flagged columns
      in row1's order, None when no column is flagged. */
  function Summary(row1: Row, row2: Row, s: Settings): Result<Option<seq<Mismatch>>, PyError>
    requires ValidRow(row1) && ValidRow(row2)
  {
    match DifferencesUpTo(row1, row2, s, |row1.index|)
    case Failure(e) => Failure(e)
    case Success(d) => Success(if d == [] then None else Some(d))
  }

  /** The entries of a summary; none for None. */
  function Entries(summary: Option<seq<Mismatch>>): seq<Mismatch> {
    if summary.Some? then summary.value else []
  }

  /** Whether a summary has an entry for column `c`. */
  predicate Reported(summary: Option<seq<Mismatch>>, c: Column) {
    exists m :: m in Entries(summary) && m.column == c
  }

  /** Which of the first `n` columns are flagged. */
  function FlagMask(row1: Row, row2: Row, s: Settings, n: nat): (m: seq<bool>)
    requires ValidRow(row1) && ValidRow(row2) && n <= |row1.index|
    ensures |m| == n && forall i :: 0 <= i < n ==> m[i] == IsFlagged(row1, row2, s, i)
  {
    seq(n, i requires 0 <= i < n => IsFlagged(row1, row2, s, i))
  }

  /** Once an iteration raises, the loop's outcome is that error. */
  lemma {:induction false} FailureIsFinal(row1: Row, row2: Row, s: Settings, m: nat, n: nat)
    requires ValidRow(row1) && ValidRow(row2) && m <= n <= |row1.index|
    requires DifferencesUpTo(row1, row2, s, m).Failure?
    ensures DifferencesUpTo(row1, row2, s, n) == DifferencesUpTo(row1, row2, s, m)
    decreases n - m
  {
    if m < n {
      FailureIsFinal(row1, row2, s, m, n - 1);
    }
  }

  /** The loop runs to the end exactly when no iteration raises. */
  lemma {:induction false} DifferencesSucceedIffNoError(row1: Row, row2: Row, s: Settings, n: nat)
    requires ValidRow(row1) && ValidRow(row2) && n <= |row1.index|
    ensures DifferencesUpTo(row1, row2, s, n).Success? <==>
            forall i :: 0 <= i < n ==> Verdict(row1, row2, s, i).Success?
  {
    if n > 0 {
      DifferencesSucceedIffNoError(row1, row2, s, n - 1);
    }
  }

  /** A loop that runs to the end holds one entry per flagged column, in
      row1's order, with that column's verdict. */
  lemma {:induction false} DifferencesAreFlaggedEntries(row1: Row, row2: Row, s: Settings, n: nat)
    requires ValidRow(row1) && ValidRow(row2) && n <= |row1.index|
    ensures DifferencesUpTo(row1, row2, s, n).Success? ==>
            var d := DifferencesUpTo(row1, row2, s, n).value;
            var p := TruePositions(FlagMask(row1, row2, s, n));
            |d| == |p| &&
            forall k :: 0 <= k < |p| ==>
              d[k] == Mismatch(row1.index[p[k]], Verdict(row1, row2, s, p[k]).value.value)
  {
    if n > 0 && DifferencesUpTo(row1, row2, s, n).Success? {
      DifferencesAreFlaggedEntries(row1, row2, s, n - 1);
      var m, m' := FlagMask(row1, row2, s, n), FlagMask(row1, row2, s, n - 1);
      assert m[..n - 1] == m';
      var p, p' := TruePositions(m), TruePositions(m');
      assert p == if m[n - 1] then p' + [n - 1] else p';
      var d, d' := DifferencesUpTo(row1, row2, s, n).value, DifferencesUpTo(row1, row2, s, n - 1).value;
      var v := Verdict(row1, row2, s, n - 1);
      assert v.Success?;
      if v.value.Some? {
        assert m[n - 1];
        assert d == d' + [Mismatch(row1.index[n - 1], v.value.value)];
      } else {
        assert !m[n - 1];
        assert d == d';
      }
    }
  }

  /** A loop that raises raises the error of the first iteration that does. */
  lemma {:induction false} DifferencesFailAtFirstError(row1: Row, row2: Row, s: Settings, n: nat)
    requires ValidRow(row1) && ValidRow(row2) && n <= |row1.index|
    ensures DifferencesUpTo(row1, row2, s, n).Failure? ==>
            exists i :: 0 <= i < n && Verdict(row1, row2, s, i).Failure? &&
              DifferencesUpTo(row1, row2, s, n).error == Verdict(row1, row2, s, i).error &&
              forall j :: 0 <= j < i ==> Verdict(row1, row2, s, j).Success?
  {
    if n > 0 {
      DifferencesFailAtFirstError(row1, row2, s, n - 1);
      DifferencesSucceedIffNoError(row1, row2, s, n - 1);
      if DifferencesUpTo(row1, row2, s, n - 1).Failure? {
        var i :| 0 <= i < n - 1 && Verdict(row1, row2, s, i).Failure? &&
          DifferencesUpTo(row1, row2, s, n - 1).error == Verdict(row1, row2, s, i).error &&
          forall j :: 0 <= j < i ==> Verdict(row1, row2, s, j).Success?;
      }
    }
  }

  /** The loop runs to the end exactly when no iteration raises; it then holds
      one entry per flagged column, in row1's order, with that column's
      verdict; otherwise it raises the error of the first iteration that does. */
  lemma DifferencesAreFlaggedColumns(row1: Row, row2: Row, s: Settings, n: nat)
    requires ValidRow(row1) && ValidRow(row2) && n <= |row1.index|
    ensures DifferencesUpTo(row1, row2, s, n).Success? <==>
            forall i :: 0 <= i < n ==> Verdict(row1, row2, s, i).Success?
    ensures DifferencesUpTo(row1, row2, s, n).Success? ==>
            var d := DifferencesUpTo(row1, row2, s, n).value;
            var p := TruePositions(FlagMask(row1, row2, s, n));
            |d| == |p| &&
            forall k :: 0 <= k < |p| ==>
              d[k] == Mismatch(row1.index[p[k]], Verdict(row1, row2, s, p[k]).value.value)
    ensures DifferencesUpTo(row1, row2, s, n).Failure? ==>
            exists i :: 0 <= i < n && Verdict(row1, row2, s, i).Failure? &&
              DifferencesUpTo(row1, row2, s, n).error == Verdict(row1, row2, s, i).error &&
              forall j :: 0 <= j < i ==> Verdict(row1, row2, s, j).Success?
  {
    DifferencesSucceedIffNoError(row1, row2, s, n);
    DifferencesAreFlaggedEntries(row1, row2, s, n);
    DifferencesFailAtFirstError(row1, row2, s, n);
  }

  /** For a summary that was produced, column `i` of row1 is reported exactly
      when its iteration flagged it, and then with that iteration's detail. */
  lemma ReportedIffFlagged(row1: Row, row2: Row, s: Settings, i: nat)
    requires ValidRow(row1) && ValidRow(row2) && i < |row1.index|
    requires Summary(row1, row2, s).Success?
    ensures Reported(Summary(row1, row2, s).value, row1.index[i]) <==> IsFlagged(row1, row2, s, i)
    ensures forall m :: m in Entries(Summary(row1, row2, s).value) && m.column == row1.index[i] ==>
              IsFlagged(row1, row2, s, i) && m.detail == Verdict(row1, row2, s, i).value.value
  {
    var n := |row1.index|;
    DifferencesAreFlaggedColumns(row1, row2, s, n);
    var d := DifferencesUpTo(row1, row2, s, n).value;
    var p := TruePositions(FlagMask(row1, row2, s, n));
    assert Entries(Summary(row1, row2, s).value) == d;
    forall m | m in d && m.column == row1.index[i]
      ensures IsFlagged(row1, row2, s, i) && m.detail == Verdict(row1, row2, s, i).value.value
    {
      var k :| 0 <= k < |d| && d[k] == m;
      assert row1.index[p[k]] == row1.index[i];
      assert p[k] == i;
    }
    if IsFlagged(row1, row2, s, i) {
      assert i in p;
      var k :| 0 <= k < |p| && p[k] == i;
      assert d[k] in d && d[k].column == row1.index[i];
    }
  }

  /** A column whose value is missing on either side is never reported. */
  lemma MissingNeverReported(row1: Row, row2: Row, s: Settings, i: nat)
    requires ValidRow(row1) && ValidRow(row2) && i < |row1.index|
    requires Summary(row1, row2, s).Success?
    requires IsNa(row1.values[i]) || Get(row2, row1.index[i]) == Some(Missing)
    ensures !Reported(Summary(row1, row2, s).value, row1.index[i])
  {
    ReportedIffFlagged(row1, row2, s, i);
  }

  /** A text/text column is reported exactly when its similarity score is
      strictly below the text threshold, with both strings and the score. */
  lemma TextColumnRule(row1: Row, row2: Row, s: Settings, i: nat, a: string, b: string)
    requires ValidRow(row1) && ValidRow(row2) && i < |row1.index|
    requires Summary(row1, row2, s).Success?
    requires row1.values[i] == Text(a) && Get(row2, row1.index[i]) == Some(Text(b))
    ensures Reported(Summary(row1, row2, s).value, row1.index[i]) <==> s.ratio(a, b) < s.textThreshold
    ensures Summary(row1, row2, s).value.Some? ==>
              (Mismatch(row1.index[i], TextMismatch(a, b, s.ratio(a, b))) in Summary(row1, row2, s).value.value
               <==> s.ratio(a, b) < s.textThreshold)
  {
    ReportedIffFlagged(row1, row2, s, i);
    var col := row1.index[i];
    if s.ratio(a, b) < s.textThreshold {
      var m :| m in Entries(Summary(row1, row2, s).value) && m.column == col;
      assert m == Mismatch(col, TextMismatch(a, b, s.ratio(a, b)));
    }
  }

  /** A number/number column is reported exactly when the absolute difference
      strictly exceeds the numeric threshold, with both numbers and the difference. */
  lemma NumberColumnRule(row1: Row, row2: Row, s: Settings, i: nat, x: real, y: real)
    requires ValidRow(row1) && ValidRow(row2) && i < |row1.index|
    requires Summary(row1, row2, s).Success?
    requires row1.values[i] == Number(x) && Get(row2, row1.index[i]) == Some(Number(y))
    ensures Reported(Summary(row1, row2, s).value, row1.index[i]) <==> Abs(x - y) > s.numericThreshold
    ensures Summary(row1, row2, s).value.Some? ==>
              (Mismatch(row1.index[i], NumberMismatch(x, y, Abs(x - y))) in Summary(row1, row2, s).value.value
               <==> Abs(x - y) > s.numericThreshold)
  {
    ReportedIffFlagged(row1, row2, s, i);
    var col := row1.index[i];
    if Abs(x - y) > s.numericThreshold {
      var m :| m in Entries(Summary(row1, row2, s).value) && m.column == col;
      assert m == Mismatch(col, NumberMismatch(x, y, Abs(x - y)));
    }
  }

  /** A column whose two values are of different kinds is never reported. */
  lemma MixedKindsNeverReported(row1: Row, row2: Row, s: Settings, i: nat)
    requires ValidRow(row1) && ValidRow(row2) && i < |row1.index|
    requires Summary(row1, row2, s).Success?
    requires Get(row2, row1.index[i]).Some?
    requires var a, b := row1.values[i], Get(row2, row1.index[i]).value;
             (a.Text? && b.Number?) || (a.Number? && b.Text?)
    ensures !Reported(Summary(row1, row2, s).value, row1.index[i])
  {
    ReportedIffFlagged(row1, row2, s, i);
  }

  /** The reported columns are columns of row1, each reported once, in row1's
      order, and the result is None exactly when no column is flagged. */
  lemma SummaryShape(row1: Row, row2: Row, s: Settings)
    requires ValidRow(row1) && ValidRow(row2)
    requires Summary(row1, row2, s).Success?
    ensures var e := Entries(Summary(row1, row2, s).value);
            forall k :: 0 <= k < |e| ==> e[k].column in row1.index
    ensures var e := Entries(Summary(row1, row2, s).value);
            forall k, l :: 0 <= k < l < |e| ==>
              e[k].column in row1.index && e[l].column in row1.index &&
              IndexOf(row1.index, e[k].column).value < IndexOf(row1.index, e[l].column).value
    ensures Summary(row1, row2, s).value.None? <==>
            forall i :: 0 <= i < |row1.index| ==> !IsFlagged(row1, row2, s, i)
    ensures Summary(row1, row2, s).value.Some? ==> Summary(row1, row2, s).value.value != []
  {
    var n := |row1.index|;
    DifferencesAreFlaggedColumns(row1, row2, s, n);
    var d := DifferencesUpTo(row1, row2, s, n).value;
    var p := TruePositions(FlagMask(row1, row2, s, n));
    forall k | 0 <= k < |p|
      ensures IndexOf(row1.index, d[k].column) == Some(p[k])
    {
      IndexOfDistinct(row1.index, p[k]);
    }
    if d == [] {
      assert forall i :: 0 <= i < n && IsFlagged(row1, row2, s, i) ==> i in p;
    } else {
      assert IsFlagged(row1, row2, s, p[0]);
    }
  }

  /** When the scorer gives every string 100 against itself, a label whose two
      values are equal is never reported, under any thresholds in range. */
  lemma EqualValuesNeverReported(row1: Row, row2: Row, s: Settings, i: nat)
    requires ValidRow(row1) && ValidRow(row2) && i < |row1.index|
    requires Summary(row1, row2, s).Success?
    requires forall x :: s.ratio(x, x) == 100
    requires s.textThreshold <= 100 && s.numericThreshold >= 0.0
    requires Get(row2, row1.index[i]) == Some(row1.values[i])
    ensures !Reported(Summary(row1, row2, s).value, row1.index[i])
  {
    ReportedIffFlagged(row1, row2, s, i);
    var c := row1.values[i];
    if c.Text? {
      assert s.ratio(c.s, c.s) == 100;
    }
  }

  /** `summarize_mismatches` raises exactly when some column has a present
      value in row1 and no label in row2, and then a KeyError for the first
      such column. */
  lemma KeyErrorRule(row1: Row, row2: Row, s: Settings)
    requires ValidRow(row1) && ValidRow(row2)
    ensures Summary(row1, row2, s).Failure? <==>
            exists i :: 0 <= i < |row1.index| && !IsNa(row1.values[i]) && row1.index[i] !in row2.index
    ensures Summary(row1, row2, s).Failure? ==>
            exists i :: 0 <= i < |row1.index| && !IsNa(row1.values[i]) && row1.index[i] !in row2.index &&
              Summary(row1, row2, s).error == KeyError(row1.index[i]) &&
              forall j :: 0 <= j < i ==> IsNa(row1.values[j]) || row1.index[j] in row2.index
  {
    var n := |row1.index|;
    DifferencesAreFlaggedColumns(row1, row2, s, n);
    assert forall i :: 0 <= i < n ==>
      (Verdict(row1, row2, s, i).Failure? <==> !IsNa(row1.values[i]) && row1.index[i] !in row2.index);
    if Summary(row1, row2, s).Failure? {
      var i :| 0 <= i < n && Verdict(row1, row2, s, i).Failure? &&
        DifferencesUpTo(row1, row2, s, n).error == Verdict(row1, row2, s, i).error &&
        forall j :: 0 <= j < i ==> Verdict(row1, row2, s, j).Success?;
      assert Verdict(row1, row2, s, i).error == KeyError(row1.index[i]);
    }
  }

  /** The loop of `summarize_mismatches` over the labels of row1. */
  method SummarizeMismatches(row1: Row, row2: Row, s: Settings) returns (r: Result<Option<seq<Mismatch>>, PyError>)
    requires ValidRow(row1) && ValidRow(row2)
    ensures r == Summary(row1, row2, s)
  {
    var differences: seq<Mismatch> := [];
    for i := 0 to |row1.index|
      invariant DifferencesUpTo(row1, row2, s, i) == Success(differences)
    {
      var col := row1.index[i];
      var left := row1.values[i];
      if IsNa(left) {
        continue;
      }
      var found := Get(row2, col);
      if found.None? {
        FailureIsFinal(row1, row2, s, i + 1, |row1.index|);
        return Failure(KeyError(col));
      }
      var right := found.value;
      if IsNa(right) {
        continue;
      }
      match (left, right) {
        case (Text(a), Text(b)) =>
          var score := s.ratio(a, b);
          if score < s.textThreshold {
            differences := differences + [Mismatch(col, TextMismatch(a, b, score))];
          }
        case (Number(x), Number(y)) =>
          var score := Abs(x - y);
          if score > s.numericThreshold {
            differences := differences + [Mismatch(col, NumberMismatch(x, y, score))];
          }
        case _ =>
      }
    }
    if differences == [] {
      r := Success(None);
    } else {
      r := Success(Some(differences));
    }
  }

  /** ("Alice", "Alise") under the default text threshold: `fuzz.ratio` scores
      this pair 80, which is not below 80, so the column is not flagged. */
  lemma AliceAliseExample(ratio: (string, string) -> Similarity)
    requires ratio("Alice", "Alise") == 80
    ensures Summary(Row(["name"], [Text("Alice")]), Row(["name"], [Text("Alise")]), DefaultSettings(ratio))
            == Success(None)
  {
    var r1, r2, s := Row(["name"], [Text("Alice")]), Row(["name"], [Text("Alise")]), DefaultSettings(ratio);
    assert Get(r2, "name") == Some(Text("Alise"));
    assert Verdict(r1, r2, s, 0) == Success(None);
    assert DifferencesUpTo(r1, r2, s, 1) == Success([]);
  }

  /** Numbers under the default threshold 1: a difference of 0.5 or of exactly 1
      is not flagged, a difference of 2 is. */
  lemma NumberExamples(ratio: (string, string) -> Similarity)
    ensures Summary(Row(["v"], [Number(10.0)]), Row(["v"], [Number(10.5)]), DefaultSettings(ratio))
            == Success(None)
    ensures Summary(Row(["v"], [Number(10.0)]), Row(["v"], [Number(11.0)]), DefaultSettings(ratio))
            == Success(None)
    ensures Summary(Row(["v"], [Number(10.0)]), Row(["v"], [Number(12.0)]), DefaultSettings(ratio))
            == Success(Some([Mismatch("v", NumberMismatch(10.0, 12.0, 2.0))]))
  {
    var s, r1 := DefaultSettings(ratio), Row(["v"], [Number(10.0)]);
    var half, one, two := Row(["v"], [Number(10.5)]), Row(["v"], [Number(11.0)]), Row(["v"], [Number(12.0)]);
    assert Get(half, "v") == Some(Number(10.5));
    assert Verdict(r1, half, s, 0) == Success(None);
    assert DifferencesUpTo(r1, half, s, 1) == Success([]);
    assert Get(one, "v") == Some(Number(11.0));
    assert Verdict(r1, one, s, 0) == Success(None);
    assert DifferencesUpTo(r1, one, s, 1) == Success([]);
    assert Get(two, "v") == Some(Number(12.0));
    assert Verdict(r1, two, s, 0) == Success(Some(NumberMismatch(10.0, 12.0, 2.0)));
    var flagged := Mismatch("v", NumberMismatch(10.0, 12.0, 2.0));
    assert DifferencesUpTo(r1, two, s, 0) == Success([]);
    assert [] + [flagged] == [flagged];
    assert DifferencesUpTo(r1, two, s, 1) == Success([flagged]);
  }

  /** A label of row1 that row2 lacks raises KeyError when row1 has a value
      there, and is skipped when row1's value is missing. */
  lemma KeyErrorExamples(ratio: (string, string) -> Similarity)
    ensures Summary(Row(["id", "note"], [Number(1.0), Text("x")]), Row(["id"], [Number(1.0)]), DefaultSettings(ratio))
            == Failure(KeyError("note"))
    ensures Summary(Row(["id", "note"], [Number(1.0), Missing]), Row(["id"], [Number(1.0)]), DefaultSettings(ratio))
            == Success(None)
  {
    var s, r2 := DefaultSettings(ratio), Row(["id"], [Number(1.0)]);
    var withNote, withoutNote := Row(["id", "note"], [Number(1.0), Text("x")]), Row(["id", "note"], [Number(1.0), Missing]);
    assert Get(r2, "id") == Some(Number(1.0));
    assert Get(r2, "note") == None;
    assert Verdict(withNote, r2, s, 0) == Success(None);
    assert DifferencesUpTo(withNote, r2, s, 1) == Success([]);
    assert Verdict(withNote, r2, s, 1) == Failure(KeyError("note"));
    assert DifferencesUpTo(withNote, r2, s, 2) == Failure(KeyError("note"));
    assert Verdict(withoutNote, r2, s, 0) == Success(None);
    assert DifferencesUpTo(withoutNote, r2, s, 1) == Success([]);
    assert Verdict(withoutNote, r2, s, 1) == Success(None);
    assert DifferencesUpTo(withoutNote, r2, s, 2) == Success([]);
  }
}
