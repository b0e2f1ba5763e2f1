/** The LV1/LV2 language totals: for each language, the sum of those of its
    listed columns that the table has, 0 when it has none of them; and the same
    totals restricted to one academic region. */
module Languages {
  import opened Records

  /** A cell of a language column; a missing cell (NaN) is skipped by `sum()`. */
  function Cell(r: Row, column: string): nat {
    if column in r.languages then r.languages[column] else 0
  }

  /** `data[column].sum()`. */
  function ColumnSum(rows: seq<Row>, column: string): (s: nat)
    ensures forall i :: 0 <= i < |rows| ==> Cell(rows[i], column) <= s
    ensures s == 0 <==> forall i :: 0 <= i < |rows| ==> Cell(rows[i], column) == 0
  {
    if rows == [] then 0
    else
      assert forall i :: 1 <= i < |rows| ==> rows[i] == rows[1..][i - 1];
      Cell(rows[0], column) + ColumnSum(rows[1..], column)
  }

  /** `data[columns].sum().sum()`: the sum of the column sums. */
  function FrameSum(rows: seq<Row>, columns: seq<string>): (s: nat)
    ensures forall j :: 0 <= j < |columns| ==> ColumnSum(rows, columns[j]) <= s
    ensures s == 0 <==> forall j :: 0 <= j < |columns| ==> ColumnSum(rows, columns[j]) == 0
  {
    if columns == [] then 0
    else
      assert forall j :: 1 <= j < |columns| ==> columns[j] == columns[1..][j - 1];
      ColumnSum(rows, columns[0]) + FrameSum(rows, columns[1..])
  }

  /** `[col for col in cols if col in data.columns]`: the listed columns the
      table has, in the listed order. */
  function Existing(t: Table, cols: seq<string>): (e: seq<string>)
    ensures |e| <= |cols|
    ensures forall c :: c in e <==> c in cols && c in t.columns
  {
    if cols == [] then []
    else (if cols[0] in t.columns then [cols[0]] else []) + Existing(t, cols[1..])
  }

  /** The entry `calculate_language_totals` stores for one language. */
  function LanguageTotal(t: Table, cols: seq<string>): (n: nat)
    ensures n == TolerantSum(t, cols)
  {
    ExistingSum(t, cols);
    var e := Existing(t, cols);
    if e != [] then FrameSum(t.rows, e) else 0
  }

  /** Reference definition: each listed column counts with its sum when the
      table has it and with 0 when it does not. */
  function TolerantSum(t: Table, cols: seq<string>): nat {
    if cols == [] then 0
    else (if cols[0] in t.columns then ColumnSum(t.rows, cols[0]) else 0) + TolerantSum(t, cols[1..])
  }

  /** Missing columns are tolerated: a language's total is the sum over its
      listed columns with every absent column counting as 0, so it is 0 when
      none of them is present, and no column's absence raises. */
  lemma LanguageTotalTolerant(t: Table, cols: seq<string>)
    ensures LanguageTotal(t, cols) == TolerantSum(t, cols)
    ensures (forall i :: 0 <= i < |cols| ==> cols[i] !in t.columns) ==> LanguageTotal(t, cols) == 0
  {
    ExistingSum(t, cols);
    if forall i :: 0 <= i < |cols| ==> cols[i] !in t.columns {
      AbsentSumZero(t, cols);
    }
  }

  lemma {:induction false} ExistingSum(t: Table, cols: seq<string>)
    ensures FrameSum(t.rows, Existing(t, cols)) == TolerantSum(t, cols)
  {
    if cols != [] {
      var rest := cols[1..];
      ExistingSum(t, rest);
      var e := Existing(t, rest);
      if cols[0] in t.columns {
        assert Existing(t, cols) == [cols[0]] + e;
        assert ([cols[0]] + e)[1..] == e;
      } else {
        assert Existing(t, cols) == [] + e == e;
      }
    }
  }

  lemma {:induction false} AbsentSumZero(t: Table, cols: seq<string>)
    requires forall i :: 0 <= i < |cols| ==> cols[i] !in t.columns
    ensures TolerantSum(t, cols) == 0
  {
    if cols != [] {
      assert forall i :: 0 <= i < |cols[1..]| ==> cols[1..][i] == cols[i + 1];
      AbsentSumZero(t, cols[1..]);
    }
  }

  /** `calculate_language_totals(data, lv_columns)`: one entry per language of
      `lv_columns` (a dict, so its languages are distinct), holding the total
      of that language's columns that exist in `data`. */
  method LanguageTotals(t: Table, lvColumns: seq<(string, seq<string>)>) returns (totals: map<string, nat>)
    requires forall i, j :: 0 <= i < j < |lvColumns| ==> lvColumns[i].0 != lvColumns[j].0
    ensures forall lang :: lang in totals <==> exists i :: 0 <= i < |lvColumns| && lvColumns[i].0 == lang
    ensures forall i :: 0 <= i < |lvColumns| ==> totals[lvColumns[i].0] == TolerantSum(t, lvColumns[i].1)
  {
    totals := map[];
    var i := 0;
    while i < |lvColumns|
      invariant 0 <= i <= |lvColumns|
      invariant forall lang :: lang in totals <==> exists k :: 0 <= k < i && lvColumns[k].0 == lang
      invariant forall k :: 0 <= k < i ==> totals[lvColumns[k].0] == TolerantSum(t, lvColumns[k].1)
    {
      var (lang, cols) := lvColumns[i];
      var existing := Existing(t, cols);
      LanguageTotalTolerant(t, cols);
      totals := totals[lang := if existing != [] then FrameSum(t.rows, existing) else 0];
      i := i + 1;
    }
  }

  /** The table restricted to one academic region. */
  function RegionTable(t: Table, region: string): (r: Table)
    ensures r.columns == t.columns
    ensures |r.rows| <= |t.rows|
    ensures forall x :: x in r.rows <==> x in t.rows && x.region == region
  {
    Table(t.columns, Where(t.rows, RegionIs(region)))
  }

  /** `calculate_language_distribution(data, region)`: the LV1 and LV2 totals
      of `lv1_columns` and `lv2_columns` over the rows of that region. */
  method LanguageDistribution(t: Table, region: string)
    returns (lv1Totals: map<string, nat>, lv2Totals: map<string, nat>)
    ensures forall lang :: lang in lv1Totals <==> exists i :: 0 <= i < |Lv1Columns| && Lv1Columns[i].0 == lang
    ensures forall i :: 0 <= i < |Lv1Columns| ==>
              lv1Totals[Lv1Columns[i].0] == TolerantSum(RegionTable(t, region), Lv1Columns[i].1)
    ensures forall lang :: lang in lv2Totals <==> exists i :: 0 <= i < |Lv2Columns| && Lv2Columns[i].0 == lang
    ensures forall i :: 0 <= i < |Lv2Columns| ==>
              lv2Totals[Lv2Columns[i].0] == TolerantSum(RegionTable(t, region), Lv2Columns[i].1)
  {
    var regionData := RegionTable(t, region);
    lv1Totals := LanguageTotals(regionData, Lv1Columns);
    lv2Totals := LanguageTotals(regionData, Lv2Columns);
  }

  lemma {:induction false} ColumnSumWhere(rows: seq<Row>, c: Criterion, column: string)
    ensures ColumnSum(Where(rows, c), column) <= ColumnSum(rows, column)
  {
    if rows != [] {
      ColumnSumWhere(rows[1..], c, column);
      if Matches(rows[0], c) {
        assert Where(rows, c) == [rows[0]] + Where(rows[1..], c);
        assert (Where(rows, c))[1..] == Where(rows[1..], c);
      } else {
        assert Where(rows, c) == [] + Where(rows[1..], c) == Where(rows[1..], c);
      }
    }
  }

  lemma {:induction false} TolerantSumWhere(t: Table, c: Criterion, cols: seq<string>)
    ensures TolerantSum(Table(t.columns, Where(t.rows, c)), cols) <= TolerantSum(t, cols)
  {
    if cols != [] {
      TolerantSumWhere(t, c, cols[1..]);
      ColumnSumWhere(t.rows, c, cols[0]);
    }
  }

  /** A region's total for a language never exceeds the total over all regions. */
  lemma RegionTotalBounded(t: Table, region: string, cols: seq<string>)
    ensures LanguageTotal(RegionTable(t, region), cols) <= LanguageTotal(t, cols)
  {
    LanguageTotalTolerant(t, cols);
    LanguageTotalTolerant(RegionTable(t, region), cols);
    TolerantSumWhere(t, RegionIs(region), cols);
  }

  /** `lv1_columns`: the first foreign language, per grade. */
  const Lv1Columns: seq<(string, seq<string>)> := [
    ("German", ["6èmes LV1 allemand", "5èmes LV1 allemand", "4èmes LV1 allemand", "3èmes LV1 allemand"]),
    ("English", ["6èmes LV1 anglais", "5èmes LV1 anglais", "4èmes LV1 anglais", "3èmes LV1 anglais"]),
    ("Spanish", ["6èmes LV1 espagnol", "5èmes LV1 espagnol", "4èmes LV1 espagnol", "3èmes LV1 espagnol"]),
    ("Other", ["6èmes LV1 autres langues", "5èmes LV1 autres langues", "4èmes LV1 autres langues", "3èmes LV1 autres langues"])
  ]

  /** `lv2_columns`: the second foreign language, per grade. The 6th-grade
      "Other" column is spelled "6ème", without the "s" of every other name. */
  const Lv2Columns: seq<(string, seq<string>)> := [
    ("German", ["6èmes LV2 allemand", "5èmes LV2 allemand", "4èmes LV2 allemand", "3èmes LV2 allemand"]),
    ("English", ["6èmes LV2 anglais", "5èmes LV2 anglais", "4èmes LV2 anglais", "3èmes LV2 anglais"]),
    ("Spanish", ["6èmes LV2 espagnol", "5èmes LV2 espagnol", "4èmes LV2 espagnol", "3èmes LV2 espagnol"]),
    ("Italian", ["6èmes LV2 italien", "5èmes LV2 italien", "4èmes LV2 italien", "3èmes LV2 italien"]),
    ("Other", ["6ème LV2 autres langues", "5èmes LV2 autres langues", "4èmes LV2 autres langues", "3èmes LV2 autres langues"])
  ]

  /** `lv1_columns` has the four languages German, English, Spanish and Other,
      `lv2_columns` adds Italian; each language lists one column per grade,
      and no language is listed twice, as the keys of a dict. */
  lemma LanguageColumns()
    ensures |Lv1Columns| == 4 && |Lv2Columns| == 5
    ensures forall i :: 0 <= i < |Lv1Columns| ==> |Lv1Columns[i].1| == 4
    ensures forall i :: 0 <= i < |Lv2Columns| ==> |Lv2Columns[i].1| == 4
    ensures forall i, j :: 0 <= i < j < |Lv1Columns| ==> Lv1Columns[i].0 != Lv1Columns[j].0
    ensures forall i, j :: 0 <= i < j < |Lv2Columns| ==> Lv2Columns[i].0 != Lv2Columns[j].0
  {
  }

  /** When the file has no column spelled "6ème LV2 autres langues", the LV2
      "Other" total silently leaves the 6th grade out instead of raising. */
  lemma MisspelledColumnSkipped(t: Table)
    requires "6ème LV2 autres langues" !in t.columns
    ensures LanguageTotal(t, Lv2Columns[4].1) == LanguageTotal(t, Lv2Columns[4].1[1..])
  {
    var cols := Lv2Columns[4].1;
    LanguageTotalTolerant(t, cols);
    LanguageTotalTolerant(t, cols[1..]);
  }
}
