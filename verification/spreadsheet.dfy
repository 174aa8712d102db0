/** The loading of the rule table once it has been read: column typing, the rule number of
    every row, the rule-number warnings, and the grouping of the rows by rule number. */
module Spreadsheet {
  import opened Text
  import opened PyValues
  import opened RuleProcessor

  /** A rule table: its column names in order and its rows; a missing cell holds NaN. */
  datatype Table = Table(columns: seq<string>, rows: seq<Row>)

  // ===========================================================================
  // Column typing

  /** `str(x).replace(".", "", 1).isdigit()` */
  predicate DigitText(v: Value) {
    IsDigits(RemoveFirst(PyStr(v), '.'))
  }

  /** A column is kept as read when some present cell of it looks like a number. */
  predicate NumericColumn(rows: seq<Row>, c: string) {
    exists k :: 0 <= k < |rows| && c in rows[k] && !IsNa(rows[k][c]) && DigitText(rows[k][c])
  }

  /** The columns turned into text. */
  function TextColumns(t: Table): set<string> {
    set c | c in t.columns && !NumericColumn(t.rows, c)
  }

  /** A cell of a text column: "" for a missing cell, `str(x)` otherwise. */
  function TextCell(v: Value): Value {
    if IsNa(v) then Str("") else Str(PyStr(v))
  }

  function ConvertRow(row: Row, text: set<string>): Row {
    map c | c in row :: if c in text then TextCell(row[c]) else row[c]
  }

  /** `convert_mixed_columns` */
  function ConvertMixedColumns(t: Table): (r: Table)
    ensures r.columns == t.columns && |r.rows| == |t.rows|
  {
    Table(t.columns, seq(|t.rows|, k requires 0 <= k < |t.rows| => ConvertRow(t.rows[k], TextColumns(t))))
  }

  /** A column with a number-like present cell keeps every cell; any other column holds
      text only, "" where a cell was missing and `str(x)` elsewhere. */
  lemma ConvertedCells(t: Table, c: string, k: nat)
    requires k < |t.rows| && c in t.rows[k] && c in t.columns
    ensures var cell := ConvertMixedColumns(t).rows[k][c];
      var old_ := t.rows[k][c];
      (NumericColumn(t.rows, c) ==> cell == old_)
      && (!NumericColumn(t.rows, c) ==>
            cell.Str? && !IsNa(cell) && cell == (if IsNa(old_) then Str("") else Str(PyStr(old_))))
  {
  }

  /** `str()` of a text cell is its text. */
  lemma TextCellStable(v: Value)
    ensures TextCell(TextCell(v)) == TextCell(v)
    ensures !IsNa(TextCell(v)) && (DigitText(TextCell(v)) <==> !IsNa(v) && DigitText(v))
  {
    if !IsNa(v) {
      assert PyStr(TextCell(v)) == PyStr(v);
    } else {
      assert RemoveFirst("", '.') == "";
    }
  }

  /** Converting keeps each column's kind. */
  lemma ConvertKeepsKinds(t: Table)
    ensures TextColumns(ConvertMixedColumns(t)) == TextColumns(t)
  {
    var r := ConvertMixedColumns(t);
    var text := TextColumns(t);
    forall c | c in t.columns
      ensures NumericColumn(r.rows, c) <==> NumericColumn(t.rows, c)
    {
      if NumericColumn(t.rows, c) {
        var k :| 0 <= k < |t.rows| && c in t.rows[k] && !IsNa(t.rows[k][c]) && DigitText(t.rows[k][c]);
        assert c in r.rows[k] && r.rows[k][c] == t.rows[k][c];
      }
      if NumericColumn(r.rows, c) {
        var k :| 0 <= k < |r.rows| && c in r.rows[k] && !IsNa(r.rows[k][c]) && DigitText(r.rows[k][c]);
        assert c in t.rows[k];
        if c in text {
          TextCellStable(t.rows[k][c]);
        }
        assert !IsNa(t.rows[k][c]) && DigitText(t.rows[k][c]);
      }
    }
  }

  /** Converting twice is converting once. */
  lemma ConvertIdempotent(t: Table)
    ensures ConvertMixedColumns(ConvertMixedColumns(t)) == ConvertMixedColumns(t)
  {
    var r := ConvertMixedColumns(t);
    ConvertKeepsKinds(t);
    var text := TextColumns(t);
    forall k | 0 <= k < |t.rows|
      ensures ConvertRow(r.rows[k], text) == r.rows[k]
    {
      forall c | c in r.rows[k] && c in text
        ensures TextCell(r.rows[k][c]) == r.rows[k][c]
      {
        TextCellStable(t.rows[k][c]);
      }
    }
  }

  /** A negative number is not digit text: `str(-5)` keeps its sign, so a column whose
      present cells are all negative integers is turned into text. */
  lemma NegativeIntIsNotDigitText(i: int)
    requires i < 0
    ensures !DigitText(Int(i))
  {
    var s := PyStr(Int(i));
    assert s == "-" + NatToString(-i);
    NatToStringDigits(-i);
    assert '.' !in s by {
      assert forall j :: 1 <= j < |s| ==> s[j] == NatToString(-i)[j - 1];
    }
    assert RemoveFirst(s, '.') == s;
    assert s[0] == '-' && !IsDigit(s[0]);
  }

  /** A non-negative integer is digit text, so a column with one keeps its cells. */
  lemma NatIsDigitText(n: nat)
    ensures DigitText(Int(n))
  {
    var s := PyStr(Int(n));
    assert s == NatToString(n);
    NatToStringDigits(n);
    assert '.' !in s by {
      assert forall j :: 0 <= j < |s| ==> IsDigit(s[j]);
    }
    assert RemoveFirst(s, '.') == s;
  }

  lemma NegativeColumnIsText(t: Table, c: string)
    requires c in t.columns
    requires forall k :: 0 <= k < |t.rows| && c in t.rows[k] && !IsNa(t.rows[k][c]) ==>
               t.rows[k][c].Int? && t.rows[k][c].i < 0
    ensures c in TextColumns(t)
  {
    forall k | 0 <= k < |t.rows| && c in t.rows[k] && !IsNa(t.rows[k][c])
      ensures !DigitText(t.rows[k][c])
    {
      NegativeIntIsNotDigitText(t.rows[k][c].i);
    }
  }

  // ===========================================================================
  // Rule numbers

  /** Positions below `n`, strictly increasing. */
  predicate Ascending(w: seq<nat>, n: nat) {
    (forall j :: 0 <= j < |w| ==> w[j] < n)
    && (forall j, l :: 0 <= j < l < |w| ==> w[j] < w[l])
  }

  /** The positions of the WHERE rows, in order. */
  function WhereIndices(rows: seq<Row>): (r: seq<nat>)
    ensures Ascending(r, |rows|)
    ensures forall j :: 0 <= j < |r| ==> IsWhere(rows[r[j]])
    decreases |rows|
  {
    if rows == [] then []
    else
      var n := |rows| - 1;
      var front := WhereIndices(rows[..n]);
      assert forall j :: 0 <= j < |front| ==> rows[..n][front[j]] == rows[front[j]];
      front + if IsWhere(rows[n]) then [n] else []
  }

  /** Every WHERE row is listed. */
  lemma {:induction false} WhereIndicesComplete(rows: seq<Row>)
    ensures forall k :: 0 <= k < |rows| && IsWhere(rows[k]) ==> k in WhereIndices(rows)
    decreases |rows|
  {
    if rows != [] {
      var n := |rows| - 1;
      WhereIndicesComplete(rows[..n]);
      assert forall k :: 0 <= k < n ==> rows[..n][k] == rows[k];
    }
  }

  /** Where the slice of the `i`-th WHERE ends: at the next WHERE, or at the end of the table. */
  function SliceEnd(w: seq<nat>, i: nat, n: nat): nat
    requires i < |w|
  {
    if i + 1 < |w| then w[i + 1] else n
  }

  /** The rule number of a slice before `str()`: its first row's cell, or the text "Rule #"
      when that cell is missing. It is never missing itself, so the numbering of slices
      without a number is never reached. */
  function SliceNumber(row: Row): (r: Result<Value>)
    ensures r.Ok? ==> !IsNa(r.value)
    ensures r.Err? <==> "Rule Number" !in row
  {
    if "Rule Number" !in row then Err(KeyError("Rule Number"))
    else Ok(if IsNa(row["Rule Number"]) then Str("Rule #") else row["Rule Number"])
  }

  /** `[x] * n` */
  function Repeat(x: string, n: nat): (r: seq<string>)
    ensures |r| == n && forall j :: 0 <= j < n ==> r[j] == x
  {
    seq(n, _ => x)
  }

  /** The rule numbers of the rows of the first `i` slices, each slice's number repeated once
      per row; a slice whose first row has no "Rule Number" cell raises KeyError. */
  function SliceLabels(rows: seq<Row>, w: seq<nat>, i: nat): Result<seq<string>>
    requires Ascending(w, |rows|) && i <= |w|
    decreases i
  {
    if i == 0 then Ok([])
    else
      var before :- SliceLabels(rows, w, i - 1);
      var number :- SliceNumber(rows[w[i - 1]]);
      Ok(before + Repeat(PyStr(number), SliceEnd(w, i - 1, |rows|) - w[i - 1]))
  }

  /** The rule number list `process_rule_numbers` builds. */
  function RuleNumbers(rows: seq<Row>): Result<seq<string>> {
    var w := WhereIndices(rows);
    SliceLabels(rows, w, |w|)
  }

  /** Every row carries its rule number as text. */
  predicate Numbered(rows: seq<Row>) {
    forall k :: 0 <= k < |rows| ==> "Rule Number" in rows[k] && rows[k]["Rule Number"].Str?
  }

  function LengthMismatch(values: nat, index: nat): PyError {
    ValueError("Length of values (" + NatToString(values) + ") does not match length of index (" + NatToString(index) + ")")
  }

  /** `df["Rule Number"] = labels` on a copy of the table, one label per row. */
  function WithRuleNumbers(t: Table, labels: seq<string>): (r: Table)
    requires |labels| == |t.rows|
    ensures |r.rows| == |t.rows| && "Rule Number" in r.columns
    ensures forall k :: 0 <= k < |t.rows| ==> r.rows[k] == t.rows[k]["Rule Number" := Str(labels[k])]
  {
    var columns := if "Rule Number" in t.columns then t.columns else t.columns + ["Rule Number"];
    Table(columns, seq(|t.rows|, k requires 0 <= k < |t.rows| => t.rows[k]["Rule Number" := Str(labels[k])]))
  }

  /** `process_rule_numbers` on a copy of the table: the number list replaces (or adds) the
      "Rule Number" column, which raises ValueError when it is not one entry per row. */
  function NumberRules(t: Table): (r: Result<Table>)
    ensures r.Ok? ==> Numbered(r.value.rows) && |r.value.rows| == |t.rows| && "Rule Number" in r.value.columns
  {
    if "Logic" !in t.columns then Err(KeyError("Logic"))
    else
      var labels :- RuleNumbers(t.rows);
      if |labels| != |t.rows| then Err(LengthMismatch(|labels|, |t.rows|))
      else
        Ok(WithRuleNumbers(t, labels))
  }

  lemma {:induction false} SliceLabelsPrefixError(rows: seq<Row>, w: seq<nat>, i: nat)
    requires Ascending(w, |rows|) && i <= |w| && SliceLabels(rows, w, i).Err?
    ensures SliceLabels(rows, w, |w|) == SliceLabels(rows, w, i)
    decreases |w| - i
  {
    if i < |w| {
      SliceLabelsPrefixError(rows, w, i + 1);
    }
  }

  /** The loop of `process_rule_numbers`: one pass over the WHERE slices, recording each
      slice's number as used and extending the number list by one entry per row of the
      slice. */
  method CollectRuleNumbers(rows: seq<Row>) returns (r: Result<seq<string>>, used: set<string>)
    ensures r == RuleNumbers(rows)
    ensures r.Ok? ==> used == set x | x in r.value
  {
    used := {};
    var processed: seq<string> := [];
    var w := WhereIndices(rows);
    var i := 0;
    while i < |w|
      invariant 0 <= i <= |w|
      invariant SliceLabels(rows, w, i) == Ok(processed)
      invariant used == set x | x in processed
    {
      var start := w[i];
      var end := if i + 1 < |w| then w[i + 1] else |rows|;
      assert end == SliceEnd(w, i, |rows|) && start < end;
      var number := SliceNumber(rows[start]);
      if number.Err? {
        assert SliceLabels(rows, w, i + 1) == Err(number.error);
        SliceLabelsPrefixError(rows, w, i + 1);
        return Err(number.error), used;
      }
      var ruleNum := PyStr(number.value);
      var slice := Repeat(ruleNum, end - start);
      assert SliceLabels(rows, w, i + 1) == Ok(processed + slice);
      UsedAfterExtend(processed, slice, ruleNum, used);
      used := used + {ruleNum};
      processed := processed + slice;
      i := i + 1;
    }
    return Ok(processed), used;
  }

  lemma UsedAfterExtend(processed: seq<string>, slice: seq<string>, x: string, used: set<string>)
    requires used == set y | y in processed
    requires |slice| > 0 && forall j :: 0 <= j < |slice| ==> slice[j] == x
    ensures used + {x} == set y | y in processed + slice
  {
    assert slice[0] == x;
  }

  /** `process_rule_numbers` on a copy of the table. */
  method ProcessRuleNumbers(t: Table) returns (r: Result<Table>)
    ensures r == NumberRules(t)
  {
    if "Logic" !in t.columns {
      return Err(KeyError("Logic"));
    }
    var rows := t.rows;
    var processed, _ := CollectRuleNumbers(rows);
    if processed.Err? {
      return Err(processed.error);
    }
    var labels := processed.value;
    if |labels| != |rows| {
      return Err(LengthMismatch(|labels|, |rows|));
    }
    return Ok(WithRuleNumbers(t, labels));
  }

  /** The rows from the `j`-th WHERE up to the next one have the `j`-th slice's number in the
      number list, which starts at the first WHERE. */
  predicate SliceFilled(labels: seq<string>, rows: seq<Row>, w: seq<nat>, j: nat)
    requires Ascending(w, |rows|) && j < |w|
  {
    SliceNumber(rows[w[j]]).Ok?
    && SliceEnd(w, j, |rows|) - w[0] <= |labels|
    && forall p :: w[j] - w[0] <= p < SliceEnd(w, j, |rows|) - w[0] ==>
         labels[p] == PyStr(SliceNumber(rows[w[j]]).value)
  }

  /** The number list covers the rows from the first WHERE to the end, and gives every row of
      a slice its slice's number. */
  lemma {:induction false} SliceLabelsCover(rows: seq<Row>, w: seq<nat>, i: nat)
    requires Ascending(w, |rows|) && i <= |w| && SliceLabels(rows, w, i).Ok?
    ensures var labels := SliceLabels(rows, w, i).value;
      |labels| == (if i == 0 then 0 else SliceEnd(w, i - 1, |rows|) - w[0])
      && forall j :: 0 <= j < i ==> SliceFilled(labels, rows, w, j)
    decreases i
  {
    if i > 0 {
      SliceLabelsCover(rows, w, i - 1);
      var before := SliceLabels(rows, w, i - 1).value;
      var labels := SliceLabels(rows, w, i).value;
      var ruleNum := PyStr(SliceNumber(rows[w[i - 1]]).value);
      assert labels == before + Repeat(ruleNum, SliceEnd(w, i - 1, |rows|) - w[i - 1]);
      forall j | 0 <= j < i
        ensures SliceFilled(labels, rows, w, j)
      {
        if j < i - 1 {
          assert SliceFilled(before, rows, w, j);
          assert SliceEnd(w, j, |rows|) <= SliceEnd(w, i - 2, |rows|);
          assert forall p :: 0 <= p < |before| ==> labels[p] == before[p];
        }
      }
    }
  }

  lemma {:induction false} SliceLabelsDefined(rows: seq<Row>, w: seq<nat>, i: nat)
    requires Ascending(w, |rows|) && i <= |w|
    requires forall k :: 0 <= k < |rows| ==> "Rule Number" in rows[k]
    ensures SliceLabels(rows, w, i).Ok?
    decreases i
  {
    if i > 0 {
      SliceLabelsDefined(rows, w, i - 1);
    }
  }

  /** The text a slice's rows are numbered with. */
  function SliceText(row: Row): string
    requires "Rule Number" in row
  {
    PyStr(SliceNumber(row).value)
  }

  /** The rows from the `j`-th WHERE up to the next one are numbered with the slice's text and
      keep every other cell. */
  predicate SliceNumbered(r: Table, t: Table, w: seq<nat>, j: nat)
    requires Ascending(w, |t.rows|) && j < |w| && |r.rows| == |t.rows| && "Rule Number" in t.rows[w[j]]
  {
    forall k :: w[j] <= k < SliceEnd(w, j, |t.rows|) ==>
      r.rows[k] == t.rows[k]["Rule Number" := Str(SliceText(t.rows[w[j]]))]
  }

  /** With the Logic and Rule Number columns present, numbering succeeds exactly when the
      table is empty or starts with a WHERE row; otherwise the number list is shorter than
      the table and the assignment raises ValueError. */
  lemma NumberRulesMeaning(t: Table)
    requires "Logic" in t.columns
    requires forall k :: 0 <= k < |t.rows| ==> "Rule Number" in t.rows[k]
    ensures NumberRules(t).Ok? <==> t.rows == [] || IsWhere(t.rows[0])
    ensures NumberRules(t).Err? ==> NumberRules(t).error.ValueError?
  {
    var rows := t.rows;
    var w := WhereIndices(rows);
    SliceLabelsDefined(rows, w, |w|);
    SliceLabelsCover(rows, w, |w|);
    var labels := SliceLabels(rows, w, |w|).value;
    assert RuleNumbers(rows) == Ok(labels);
    if rows != [] && IsWhere(rows[0]) {
      WhereIndicesComplete(rows);
      assert w[0] == 0;
    }
    if rows != [] && !IsWhere(rows[0]) && w != [] {
      assert w[0] > 0;
    }
  }

  /** After a successful numbering every row from one WHERE up to the next is numbered with
      the text of that slice's first cell ("Rule #" when it is missing), whatever number it
      had, and keeps its other cells. */
  lemma NumberRulesSlices(t: Table)
    requires NumberRules(t).Ok?
    ensures var w := WhereIndices(t.rows);
      forall j :: 0 <= j < |w| ==> "Rule Number" in t.rows[w[j]] && SliceNumbered(NumberRules(t).value, t, w, j)
  {
    var rows := t.rows;
    var w := WhereIndices(rows);
    var labels := RuleNumbers(rows).value;
    SliceLabelsCover(rows, w, |w|);
    var r := NumberRules(t).value;
    forall j | 0 <= j < |w|
      ensures "Rule Number" in t.rows[w[j]] && SliceNumbered(r, t, w, j)
    {
      assert SliceFilled(labels, rows, w, j);
    }
  }

  /** The text of a slice's number: a missing cell gives "Rule #", so every slice without a
      number shares that one; text stays as it is, an integer is its digits, and a whole
      float (as a column with missing cells is read) keeps its ".0". */
  lemma SliceTextMeaning(row: Row)
    requires "Rule Number" in row
    ensures IsNa(row["Rule Number"]) ==> SliceText(row) == "Rule #"
    ensures row["Rule Number"].Str? ==> SliceText(row) == row["Rule Number"].s
    ensures row["Rule Number"].Int? ==> SliceText(row) == IntToString(row["Rule Number"].i)
    ensures row["Rule Number"].Float? && row["Rule Number"].r == row["Rule Number"].r.Floor as real ==>
              SliceText(row) == IntToString(row["Rule Number"].r.Floor) + ".0"
  {
    if row["Rule Number"].Float? && row["Rule Number"].r == row["Rule Number"].r.Floor as real {
      IntegralFloatRepr(row["Rule Number"].r);
    }
  }

  // ===========================================================================
  // Rule number warnings

  /** The Rule Number cells of the WHERE rows, in order. */
  function WhereNumbers(rows: seq<Row>): (r: seq<Value>)
    ensures |r| <= |rows|
    decreases |rows|
  {
    if rows == [] then []
    else
      var n := |rows| - 1;
      WhereNumbers(rows[..n]) + if IsWhere(rows[n]) then [CellOr(rows[n], "Rule Number")] else []
  }

  /** `series[series.duplicated()]`: every entry equal to an earlier one, in order. */
  function Duplicated(xs: seq<Value>): seq<Value>
    decreases |xs|
  {
    if xs == [] then []
    else
      var n := |xs| - 1;
      Duplicated(xs[..n]) + if xs[n] in xs[..n] then [xs[n]] else []
  }

  predicate AnyMissing(rows: seq<Row>) {
    exists k :: 0 <= k < |rows| && "Rule Number" in rows[k] && IsNa(rows[k]["Rule Number"])
  }

  const MissingWarning := "Warning: Some rules are missing rule numbers"

  function DuplicateWarning(duplicates: seq<Value>): string {
    "Warning: Duplicate rule numbers found: " + PyRepr(List(duplicates))
  }

  /** `validate_rule_numbers`: a warning when some rule number is missing, then one listing
      the repeated rule numbers of the WHERE rows. */
  function RuleNumberWarnings(t: Table): (r: Result<seq<string>>)
    ensures "Rule Number" !in t.columns ==> r == Err(KeyError("Rule Number"))
    ensures r.Ok? ==> |r.value| <= 2 && (AnyMissing(t.rows) ==> r.value != [] && r.value[0] == MissingWarning)
  {
    if "Rule Number" !in t.columns then Err(KeyError("Rule Number"))
    else if "Logic" !in t.columns then Err(KeyError("Logic"))
    else
      var duplicates := Duplicated(WhereNumbers(t.rows));
      Ok((if AnyMissing(t.rows) then [MissingWarning] else [])
         + (if duplicates == [] then [] else [DuplicateWarning(duplicates)]))
  }

  /** `validate_rule_numbers`, appending to its message list. */
  method ValidateRuleNumbers(t: Table) returns (r: Result<seq<string>>)
    ensures r == RuleNumberWarnings(t)
  {
    if "Rule Number" !in t.columns {
      return Err(KeyError("Rule Number"));
    }
    var messages: seq<string> := [];
    if AnyMissing(t.rows) {
      messages := messages + [MissingWarning];
    }
    if "Logic" !in t.columns {
      return Err(KeyError("Logic"));
    }
    assert messages == if AnyMissing(t.rows) then [MissingWarning] else [];
    var duplicates := Duplicated(WhereNumbers(t.rows));
    if duplicates != [] {
      messages := messages + [DuplicateWarning(duplicates)];
    } else {
      assert messages + [] == messages;
    }
    return Ok(messages);
  }

  /** Each value is listed once for every occurrence after its first. */
  lemma {:induction false} DuplicatedCounts(xs: seq<Value>)
    ensures forall x :: multiset(Duplicated(xs))[x] == if x in xs then multiset(xs)[x] - 1 else 0
    decreases |xs|
  {
    if xs != [] {
      var n := |xs| - 1;
      var front := xs[..n];
      DuplicatedCounts(front);
      assert xs == front + [xs[n]];
      forall x
        ensures multiset(Duplicated(xs))[x] == if x in xs then multiset(xs)[x] - 1 else 0
      {
        if x == xs[n] && x !in front {
          assert multiset(front)[x] == 0;
        }
      }
    }
  }

  predicate Distinct(xs: seq<Value>) {
    forall i, j :: 0 <= i < j < |xs| ==> xs[i] != xs[j]
  }

  /** Nothing is listed exactly when no value repeats. */
  lemma {:induction false} DuplicatedEmpty(xs: seq<Value>)
    ensures Duplicated(xs) == [] <==> Distinct(xs)
    decreases |xs|
  {
    if xs != [] {
      var n := |xs| - 1;
      var front := xs[..n];
      DuplicatedEmpty(front);
      if Distinct(xs) {
        assert Distinct(front);
        assert xs[n] !in front;
      }
      if Duplicated(xs) == [] {
        assert xs[n] !in front;
        assert forall i :: 0 <= i < n ==> xs[i] == front[i];
      }
    }
  }

  /** A numbered table has no missing rule number, so its only possible warning lists
      repeated numbers of WHERE rows. */
  lemma NumberedWarnings(t: Table)
    requires NumberRules(t).Ok?
    ensures var r := NumberRules(t).value;
      RuleNumberWarnings(r).Ok?
      && MissingWarning !in RuleNumberWarnings(r).value
      && (RuleNumberWarnings(r).value == [] <==> Distinct(WhereNumbers(r.rows)))
  {
    var r := NumberRules(t).value;
    assert "Logic" in r.columns;
    assert !AnyMissing(r.rows);
    DuplicatedEmpty(WhereNumbers(r.rows));
    var duplicates := Duplicated(WhereNumbers(r.rows));
    if duplicates != [] {
      assert DuplicateWarning(duplicates)[..9] == "Warning: ";
      assert DuplicateWarning(duplicates) != MissingWarning by {
        assert DuplicateWarning(duplicates)[9] != MissingWarning[9];
      }
    }
  }

  // ===========================================================================
  // Grouping by rule number

  /** Python's `<` on strings: code-point order, a proper prefix first. */
  predicate StrLess(a: string, b: string)
    decreases |a|
  {
    |b| > 0 && (|a| == 0 || a[0] < b[0] || (a[0] == b[0] && StrLess(a[1..], b[1..])))
  }

  lemma {:induction false} StrLessIrreflexive(a: string)
    ensures !StrLess(a, a)
    decreases |a|
  {
    if |a| > 0 {
      StrLessIrreflexive(a[1..]);
    }
  }

  lemma {:induction false} StrLessTrans(a: string, b: string, c: string)
    requires StrLess(a, b) && StrLess(b, c)
    ensures StrLess(a, c)
    decreases |a|
  {
    if |a| > 0 && a[0] == b[0] && b[0] == c[0] {
      StrLessTrans(a[1..], b[1..], c[1..]);
    }
  }

  lemma {:induction false} StrLessTotal(a: string, b: string)
    ensures a == b || StrLess(a, b) || StrLess(b, a)
    decreases |a|
  {
    if |a| > 0 && |b| > 0 && a[0] == b[0] {
      StrLessTotal(a[1..], b[1..]);
      if a[1..] == b[1..] {
        assert a == [a[0]] + a[1..] && b == [b[0]] + b[1..];
      }
    }
  }

  predicate StrictlySorted(keys: seq<string>) {
    forall i, j :: 0 <= i < j < |keys| ==> StrLess(keys[i], keys[j])
  }

  /** Adds a key to an ordered list of distinct keys, in its place. */
  function InsertKey(keys: seq<string>, k: string): seq<string>
    decreases |keys|
  {
    if keys == [] then [k]
    else if k == keys[0] then keys
    else if StrLess(k, keys[0]) then [k] + keys
    else [keys[0]] + InsertKey(keys[1..], k)
  }

  lemma {:induction false} InsertKeySorted(keys: seq<string>, k: string)
    requires StrictlySorted(keys)
    ensures StrictlySorted(InsertKey(keys, k))
    ensures forall x :: x in InsertKey(keys, k) <==> x in keys || x == k
    decreases |keys|
  {
    if keys != [] && k != keys[0] {
      if StrLess(k, keys[0]) {
        forall j | 0 <= j < |keys|
          ensures StrLess(k, keys[j])
        {
          if j > 0 {
            StrLessTrans(k, keys[0], keys[j]);
          }
        }
      } else {
        StrLessTotal(k, keys[0]);
        InsertKeySorted(keys[1..], k);
        var rest := InsertKey(keys[1..], k);
        assert forall x :: x in rest ==> StrLess(keys[0], x);
        assert forall x :: x in keys <==> x == keys[0] || x in keys[1..];
      }
    }
  }

  /** The distinct keys of a list, sorted: the groups `groupby` forms, in its order. */
  function SortedKeys(labels: seq<string>): seq<string>
    decreases |labels|
  {
    if labels == [] then [] else InsertKey(SortedKeys(labels[..|labels| - 1]), labels[|labels| - 1])
  }

  lemma {:induction false} SortedKeysMeaning(labels: seq<string>)
    ensures StrictlySorted(SortedKeys(labels))
    ensures forall x :: x in SortedKeys(labels) <==> x in labels
    decreases |labels|
  {
    if labels != [] {
      var front := labels[..|labels| - 1];
      SortedKeysMeaning(front);
      InsertKeySorted(SortedKeys(front), labels[|labels| - 1]);
      assert labels == front + [labels[|labels| - 1]];
    }
  }

  /** The rule number of a row of a numbered table. */
  function NumberOf(row: Row): string
    requires "Rule Number" in row && row["Rule Number"].Str?
  {
    row["Rule Number"].s
  }

  function Labels(rows: seq<Row>): (r: seq<string>)
    requires Numbered(rows)
    ensures |r| == |rows| && forall k :: 0 <= k < |rows| ==> r[k] == NumberOf(rows[k])
  {
    seq(|rows|, k requires 0 <= k < |rows| => NumberOf(rows[k]))
  }

  /** The rows numbered `key`, in table order. */
  function RowsNumbered(rows: seq<Row>, key: string): seq<Row>
    requires Numbered(rows)
    decreases |rows|
  {
    if rows == [] then []
    else
      var n := |rows| - 1;
      RowsNumbered(rows[..n], key) + if NumberOf(rows[n]) == key then [rows[n]] else []
  }

  function ColumnSet(t: Table): set<string> {
    set c | c in t.columns
  }

  /** `df.groupby("Rule Number")` over a numbered table: one group per rule number, in
      sorted order, holding that number's rows in table order. */
  function GroupByRuleNumber(t: Table): seq<(string, Group)>
    requires Numbered(t.rows)
  {
    var keys := SortedKeys(Labels(t.rows));
    seq(|keys|, i requires 0 <= i < |keys| => (keys[i], Group(ColumnSet(t), RowsNumbered(t.rows, keys[i]))))
  }

  /** A group holds exactly the rows of its number. */
  lemma {:induction false} RowsNumberedMembers(rows: seq<Row>, key: string)
    requires Numbered(rows)
    ensures forall r :: r in RowsNumbered(rows, key) <==> r in rows && NumberOf(r) == key
    decreases |rows|
  {
    if rows != [] {
      var n := |rows| - 1;
      RowsNumberedMembers(rows[..n], key);
      assert rows == rows[..n] + [rows[n]];
    }
  }

  /** Splitting the table splits every group the same way, so a group keeps table order. */
  lemma {:induction false} RowsNumberedConcat(a: seq<Row>, b: seq<Row>, key: string)
    requires Numbered(a) && Numbered(b)
    ensures Numbered(a + b)
    ensures RowsNumbered(a + b, key) == RowsNumbered(a, key) + RowsNumbered(b, key)
    decreases |b|
  {
    if b != [] {
      var n := |b| - 1;
      RowsNumberedConcat(a, b[..n], key);
      assert (a + b)[..|a + b| - 1] == a + b[..n];
    } else {
      assert a + b == a;
    }
  }

  /** The groups come in increasing order of rule number, so no two share one; no group is
      empty; and every row is in exactly one group, the one of its rule number. */
  lemma GroupByMeaning(t: Table)
    requires Numbered(t.rows)
    ensures var groups := GroupByRuleNumber(t);
      (forall i, j :: 0 <= i < j < |groups| ==> StrLess(groups[i].0, groups[j].0) && groups[i].0 != groups[j].0)
      && (forall i :: 0 <= i < |groups| ==> groups[i].1.rows != [])
      && (forall i, r :: 0 <= i < |groups| && r in groups[i].1.rows ==> r in t.rows && NumberOf(r) == groups[i].0)
      && (forall k :: 0 <= k < |t.rows| ==>
            exists i :: 0 <= i < |groups| && groups[i].0 == NumberOf(t.rows[k]) && t.rows[k] in groups[i].1.rows)
  {
    var labels := Labels(t.rows);
    var keys := SortedKeys(labels);
    var groups := GroupByRuleNumber(t);
    SortedKeysMeaning(labels);
    forall i, j | 0 <= i < j < |groups|
      ensures StrLess(groups[i].0, groups[j].0) && groups[i].0 != groups[j].0
    {
      if groups[i].0 == groups[j].0 {
        StrLessIrreflexive(groups[i].0);
      }
    }
    forall i | 0 <= i < |groups|
      ensures groups[i].1.rows != []
      ensures forall r :: r in groups[i].1.rows ==> r in t.rows && NumberOf(r) == groups[i].0
    {
      RowsNumberedMembers(t.rows, keys[i]);
      assert keys[i] in labels;
      var k :| 0 <= k < |labels| && labels[k] == keys[i];
      assert t.rows[k] in groups[i].1.rows;
    }
    forall k | 0 <= k < |t.rows|
      ensures exists i :: 0 <= i < |groups| && groups[i].0 == NumberOf(t.rows[k]) && t.rows[k] in groups[i].1.rows
    {
      assert labels[k] in keys;
      var i :| 0 <= i < |keys| && keys[i] == labels[k];
      RowsNumberedMembers(t.rows, keys[i]);
      assert groups[i].0 == NumberOf(t.rows[k]) && t.rows[k] in groups[i].1.rows;
    }
  }

  // ===========================================================================
  // Reading the rules

  /** The steps after the table is read: typing, numbering, warnings, grouping. */
  function LoadRules(t: Table): Result<(seq<(string, Group)>, seq<string>)> {
    var numbered :- NumberRules(ConvertMixedColumns(t));
    var messages :- RuleNumberWarnings(numbered);
    Ok((GroupByRuleNumber(numbered), messages))
  }

  /** `str(e)` of an exception: a KeyError shows its key quoted. */
  function ErrorText(e: PyError): string {
    match e
    case KeyError(key) => "'" + key + "'"
    case ValueError(msg) => msg
    case TypeError(msg) => msg
    case AttributeError(msg) => msg
    case IndexError(msg) => msg
    case RegexError(msg) => msg
  }

  function ReadFailure(e: PyError): string {
    "Failed to read the TSV from the URL: " + ErrorText(e) + ":" + ErrorText(e)
  }

  /** `read_rules_from_spreadsheet`, given the outcome of reading the TSV: the grouped rules
      and the warnings, or no rules and one message naming the exception. */
  function ReadRules(read: Result<Table>): (r: (Option<seq<(string, Group)>>, seq<string>))
    ensures read.Err? ==> r == (Nothing, [ReadFailure(read.error)])
    ensures r.0.Some? ==> read.Ok? && LoadRules(read.value).Ok?
  {
    match read
    case Err(e) => (Nothing, [ReadFailure(e)])
    case Ok(t) =>
      match LoadRules(t)
      case Err(e) => (Nothing, [ReadFailure(e)])
      case Ok((groups, messages)) => (Some(groups), messages)
  }

  /** Any failure, reading or processing, leaves no rules and exactly one message, which
      names the exception. Success gives groups with distinct rule numbers in increasing
      order, none of them empty, and never the missing-number warning. */
  lemma ReadRulesMeaning(read: Result<Table>)
    ensures var (groups, messages) := ReadRules(read);
      (groups.Nothing? <==> read.Err? || LoadRules(read.value).Err?)
      && (groups.Nothing? ==>
            var e := if read.Err? then read.error else LoadRules(read.value).error;
            messages == [ReadFailure(e)])
      && (groups.Some? ==>
            (forall i, j :: 0 <= i < j < |groups.value| ==>
               StrLess(groups.value[i].0, groups.value[j].0) && groups.value[i].0 != groups.value[j].0)
            && (forall i :: 0 <= i < |groups.value| ==> groups.value[i].1.rows != [])
            && MissingWarning !in messages)
  {
    if read.Ok? && LoadRules(read.value).Ok? {
      var converted := ConvertMixedColumns(read.value);
      NumberedWarnings(converted);
      GroupByMeaning(NumberRules(converted).value);
    }
  }

  /** With the Logic and Rule Number columns present, loading succeeds exactly when the
      table is empty or its first row is a WHERE row. */
  lemma LoadRulesSucceeds(t: Table)
    requires "Logic" in t.columns
    requires forall k :: 0 <= k < |t.rows| ==> "Rule Number" in t.rows[k]
    ensures var c := ConvertMixedColumns(t);
      LoadRules(t).Ok? <==> t.rows == [] || IsWhere(c.rows[0])
  {
    var c := ConvertMixedColumns(t);
    forall k | 0 <= k < |c.rows|
      ensures "Rule Number" in c.rows[k]
    {
      assert c.rows[k] == ConvertRow(t.rows[k], TextColumns(t));
    }
    NumberRulesMeaning(c);
    if NumberRules(c).Ok? {
      NumberedWarnings(c);
    }
  }
}
