/** The older pipeline of life_expectancy/cleaning.py: split the composite key,
    melt, cast `year` to int straight away, drop the rows whose value is the
    not-available sentinel ": ", keep the text before the first space of each
    value, cast `value` to float, and keep one region. */
module LegacyCleaning {
  import opened Strings
  import opened Sequences
  import opened Numbers
  import opened Table
  import opened Cleaning

  /** The exact text the older scripts treat as a missing value. */
  const Sentinel: string := ": "

  /** The mask that drops missing values in the older scripts: exactly the rows
      whose value is not the sentinel, in their original order. */
  function DropMissing<Y>(rows: seq<Row<Y, string>>): (r: seq<Row<Y, string>>)
    ensures IsSubsequence(r, rows) && |r| <= |rows|
    ensures forall k :: 0 <= k < |r| ==> r[k].value != Sentinel
    ensures forall i :: 0 <= i < |rows| && rows[i].value != Sentinel ==> multiset(r)[rows[i]] == multiset(rows)[rows[i]]
  {
    Filter(rows, (x: Row<Y, string>) => x.value != Sentinel)
  }

  /** Column 0 of the table of space-split values: the first token of every
      value. With no row left that table has no column 0 and the lookup fails. */
  function FirstTokens<Y>(rows: seq<Row<Y, string>>): (r: Result<seq<Row<Y, string>>>)
    ensures r.Ok? <==> rows != []
    ensures r.Err? ==> r.error == EmptyValueColumn
    ensures r.Ok? ==> r.value == MapValues(rows, FirstToken)
  {
    if rows == [] then Err(EmptyValueColumn) else Ok(MapValues(rows, FirstToken))
  }

  /** What `clean_data` computes before writing its file. */
  function Pipeline(t: WideTable, region: string): (r: Result<seq<LongRow>>)
    requires t.Rectangular()
    ensures SplitColumns(t).Err? ==> r == Err(SplitColumns(t).error)
    ensures SplitColumns(t).Ok? && CastYears(Unpivot(SplitColumns(t).value)).Err? ==>
      r == Err(CastYears(Unpivot(SplitColumns(t).value)).error)
    ensures SplitColumns(t).Ok? && t.years == [] ==> r == Err(ValuesNotText)
    ensures r.Ok? ==> forall k :: 0 <= k < |r.value| ==> r.value[k].key.region == region
    ensures r.Ok? ==> |r.value| <= |t.years| * |t.rows|
  {
    var split :- SplitColumns(t);
    var long := Unpivot(split);
    var years :- CastYears(long);
    var kept := DropMissing(years);
    if !MeltHasText(split) then Err(ValuesNotText) else
    var tokens :- FirstTokens(kept);
    var values :- CastValues(tokens);
    Ok(FilterRegion(values, region))
  }

  /** `clean_data(region='PT')` without the load and the save: the local frame
      is rebound step by step, and the value column is overwritten in place
      with its first tokens. */
  method CleanData(t: WideTable, region: string := DefaultRegion) returns (r: Result<seq<LongRow>>)
    requires t.Rectangular()
    ensures r == Pipeline(t, region)
  {
    var split :- SplitColumns(t);
    var long := Unpivot(split);
    var years :- CastYears(long);
    var kept := DropMissing(years);
    if !MeltHasText(split) {
      return Err(ValuesNotText);
    }
    if kept == [] {
      return Err(EmptyValueColumn);
    }
    var tokens := OverwriteValues(kept);
    var cast := CastValues(tokens);
    PipelineOnTokens(t, region, split, years, cast);
    if cast.Err? {
      return Err(cast.error);
    }
    r := Ok(FilterRegion(cast.value, region));
  }

  /** The value column of the kept rows is overwritten in place, row by row,
      with its first tokens; the frame is held in an array for the write. */
  method OverwriteValues(kept: seq<Row<int, string>>) returns (tokens: seq<Row<int, string>>)
    ensures tokens == MapValues(kept, FirstToken)
  {
    var data := new Row<int, string>[|kept|](i requires 0 <= i < |kept| => kept[i]);
    assert data[..] == kept;
    AssignValueColumn(data, FirstToken);
    tokens := data[..];
  }

  /** Once the keys are split and the years cast, with some row left after the
      drop, the run ends with the float cast of the first tokens. */
  lemma PipelineOnTokens(t: WideTable, region: string, split: SplitTable, years: seq<Row<int, string>>,
                         cast: Result<seq<LongRow>>)
    requires t.Rectangular() && SplitColumns(t) == Ok(split) && CastYears(Unpivot(split)) == Ok(years)
    requires MeltHasText(split) && DropMissing(years) != [] && cast == CastValues(MapValues(DropMissing(years), FirstToken))
    ensures Pipeline(t, region) == if cast.Ok? then Ok(FilterRegion(cast.value, region)) else Err(cast.error)
  {
  }

  // ----- Properties of the older pipeline -----

  /** The first-token rule: the text up to the first space, or the whole value
      when it holds none. */
  lemma FirstTokenExamples()
    ensures FirstToken("72.3 e") == "72.3"
    ensures FirstToken("72.3") == "72.3"
  {
    var s := "72.3 e";
    assert s[4] == ' ';
    assert forall i :: 0 <= i < 4 ==> s[i] != ' ';
    assert s[..4] == "72.3";
  }

  /** The year cast comes first: a cell whose year label `int` rejects fails the
      run with a year error, whatever the values hold, the sentinel included. */
  lemma BadYearFails(t: WideTable, region: string, i: nat, j: nat)
    requires t.Rectangular() && SplitColumns(t).Ok?
    requires i < |t.rows| && j < |t.years| && ParseInt(t.years[j]).None?
    ensures Pipeline(t, region).Err? && Pipeline(t, region).error.YearCast?
  {
    var s := SplitColumns(t).value;
    var long := Unpivot(s);
    assert long[Pos(j, i, |s.rows|)].year == t.years[j];
    assert CastYears(long).Err?;
  }

  /** Only the exact sentinel counts as missing: a bare ":" survives the drop,
      stays ":" under the first-token rule and then fails the float cast. The
      flag-stripping pipeline instead turns ":" into an empty value and drops it
      (`CleanValueColon`). */
  lemma ColonCellFails(t: WideTable, region: string, i: nat, j: nat)
    requires t.Rectangular() && SplitColumns(t).Ok?
    requires forall jj :: 0 <= jj < |t.years| ==> ParseInt(t.years[jj]).Some?
    requires i < |t.rows| && j < |t.years| && t.rows[i].cells[j] == ":"
    ensures Pipeline(t, region).Err? && Pipeline(t, region).error.ValueCast?
  {
    var s := SplitColumns(t).value;
    var years := YearsCast(s);
    var x := ColonSurvivesYearCast(s, years, i, j);
    ColonRowFails(years, x);
  }

  /** A ":" value left after the year cast fails the value cast. */
  lemma ColonRowFails(years: seq<Row<int, string>>, x: Row<int, string>)
    requires x in years && x.value == ":"
    ensures FirstTokens(DropMissing(years)).Ok?
    ensures CastValues(FirstTokens(DropMissing(years)).value).Err?
    ensures CastValues(FirstTokens(DropMissing(years)).value).error.ValueCast?
  {
    var kept := DropMissing(years);
    FilterKeeps(years, (y: Row<int, string>) => y.value != Sentinel, x);
    var k :| 0 <= k < |kept| && kept[k] == x;
    var tokens := MapValues(kept, FirstToken);
    assert tokens[k].value == FirstToken(":");
    ParseFloatColon();
  }

  /** With every header readable the year cast of the melt succeeds. */
  lemma YearsCast(s: SplitTable) returns (years: seq<Row<int, string>>)
    requires s.Rectangular()
    requires forall jj :: 0 <= jj < |s.years| ==> ParseInt(s.years[jj]).Some?
    ensures CastYears(Unpivot(s)) == Ok(years)
  {
    var long := Unpivot(s);
    forall k | 0 <= k < |long| ensures ParseInt(long[k].year).Some? {
      UnpivotYear(s, k);
    }
    years := CastYears(long).value;
  }

  /** The cast row of cell (i, j) keeps the cell's text as its value. */
  lemma ColonSurvivesYearCast(s: SplitTable, years: seq<Row<int, string>>, i: nat, j: nat) returns (x: Row<int, string>)
    requires s.Rectangular() && CastYears(Unpivot(s)) == Ok(years)
    requires i < |s.rows| && j < |s.years| && s.rows[i].cells[j] == ":"
    ensures x in years && x.value == ":"
  {
    var long := Unpivot(s);
    var m := Pos(j, i, |s.rows|);
    assert long[m].value == ":";
    x := years[m];
  }

  /** Every long row's year label is one of the headers. */
  lemma UnpivotYear(s: SplitTable, k: nat)
    requires s.Rectangular() && k < |Unpivot(s)|
    ensures exists j :: 0 <= j < |s.years| && Unpivot(s)[k].year == s.years[j]
  {
    UnpivotMember(s, Unpivot(s)[k]);
  }

  lemma ParseFloatColon()
    ensures ParseFloat(":") == None
  {
    NotSpace(':');
    ParseUnsignedText(":");
    assert AsciiLower(":") == ":";
    assert Find(":", "eE") == 1 && Find(":", ".") == 1;
  }

  /** With some year column, every year readable and every cell the sentinel,
      no row is left for the first-token step and the run fails. */
  lemma AllMissingFails(t: WideTable, region: string)
    requires t.Rectangular() && SplitColumns(t).Ok? && t.years != []
    requires forall jj :: 0 <= jj < |t.years| ==> ParseInt(t.years[jj]).Some?
    requires forall i, j :: 0 <= i < |t.rows| && 0 <= j < |t.years| ==> t.rows[i].cells[j] == Sentinel
    ensures Pipeline(t, region) == Err(EmptyValueColumn)
  {
    AllMissingDropped(t);
  }

  /** Under the same conditions the years cast and the sentinel drop leaves nothing. */
  lemma AllMissingDropped(t: WideTable)
    requires t.Rectangular() && SplitColumns(t).Ok?
    requires forall jj :: 0 <= jj < |t.years| ==> ParseInt(t.years[jj]).Some?
    requires forall i, j :: 0 <= i < |t.rows| && 0 <= j < |t.years| ==> t.rows[i].cells[j] == Sentinel
    ensures CastYears(Unpivot(SplitColumns(t).value)).Ok?
    ensures DropMissing(CastYears(Unpivot(SplitColumns(t).value)).value) == []
  {
    var s := SplitColumns(t).value;
    var long := Unpivot(s);
    forall k | 0 <= k < |long| ensures ParseInt(long[k].year).Some? && long[k].value == Sentinel {
      UnpivotMember(s, long[k]);
    }
    var years := CastYears(long);
    FilterNone(years.value, (y: Row<int, string>) => y.value != Sentinel);
  }

  /** Cell (i, j) yields long row `x` under the older rules: the cell is not the
      sentinel, `x` carries row i's key, the year header read as an int and the
      cell's first token read as a float. */
  ghost predicate LegacyCellGives(s: SplitTable, i: nat, j: nat, x: LongRow)
    requires s.Rectangular() && i < |s.rows| && j < |s.years|
  {
    && s.rows[i].cells[j] != Sentinel
    && x.key == s.rows[i].key
    && ParseInt(s.years[j]) == Some(x.year)
    && ParseFloat(FirstToken(s.rows[i].cells[j])) == Some(x.value)
  }

  /** A successful run holds exactly the rows of `region` that the cells yield. */
  lemma PipelineRows(t: WideTable, s: SplitTable, region: string, x: LongRow)
    requires t.Rectangular() && SplitColumns(t) == Ok(s) && Pipeline(t, region).Ok?
    ensures x in Pipeline(t, region).value <==>
      x.key.region == region && exists j, i :: 0 <= j < |s.years| && 0 <= i < |s.rows| && LegacyCellGives(s, i, j, x)
  {
    var years := CastYears(Unpivot(s)).value;
    var tokens := MapValues(DropMissing(years), FirstToken);
    var values := CastValues(tokens).value;
    assert Pipeline(t, region).value == FilterRegion(values, region);
    if x in FilterRegion(values, region) {
      ResultRowFromCell(s, years, tokens, values, region, x);
    }
    if x.key.region == region && exists j, i :: 0 <= j < |s.years| && 0 <= i < |s.rows| && LegacyCellGives(s, i, j, x) {
      CellReachesResult(s, years, tokens, values, region, x);
    }
  }

  lemma ResultRowFromCell(s: SplitTable, years: seq<Row<int, string>>, tokens: seq<Row<int, string>>,
                          values: seq<LongRow>, region: string, x: LongRow)
    requires s.Rectangular() && CastYears(Unpivot(s)) == Ok(years)
    requires tokens == MapValues(DropMissing(years), FirstToken) && CastValues(tokens) == Ok(values)
    requires x in FilterRegion(values, region)
    ensures x.key.region == region && exists j, i :: 0 <= j < |s.years| && 0 <= i < |s.rows| && LegacyCellGives(s, i, j, x)
  {
    FilterFrom(values, (y: LongRow) => y.key.region == region, x);
    ValueRowFromCell(s, years, tokens, values, x);
  }

  lemma CellReachesResult(s: SplitTable, years: seq<Row<int, string>>, tokens: seq<Row<int, string>>,
                          values: seq<LongRow>, region: string, x: LongRow)
    requires s.Rectangular() && CastYears(Unpivot(s)) == Ok(years)
    requires tokens == MapValues(DropMissing(years), FirstToken) && CastValues(tokens) == Ok(values)
    requires x.key.region == region && exists j, i :: 0 <= j < |s.years| && 0 <= i < |s.rows| && LegacyCellGives(s, i, j, x)
    ensures x in FilterRegion(values, region)
  {
    var j, i :| 0 <= j < |s.years| && 0 <= i < |s.rows| && LegacyCellGives(s, i, j, x);
    CellReachesValues(s, years, tokens, values, i, j, x);
    FilterKeeps(values, (y: LongRow) => y.key.region == region, x);
  }

  lemma ValueRowFromCell(s: SplitTable, years: seq<Row<int, string>>, tokens: seq<Row<int, string>>,
                         values: seq<LongRow>, x: LongRow)
    requires s.Rectangular() && CastYears(Unpivot(s)) == Ok(years)
    requires tokens == MapValues(DropMissing(years), FirstToken) && CastValues(tokens) == Ok(values)
    requires x in values
    ensures exists j, i :: 0 <= j < |s.years| && 0 <= i < |s.rows| && LegacyCellGives(s, i, j, x)
  {
    var kept := DropMissing(years);
    var long := Unpivot(s);
    assert CastValuesBy(tokens, ParseFloat) == Ok(values);
    var t := CastValuesFromBy(tokens, ParseFloat, values, x);
    var y := MapValuesFrom(kept, FirstToken, t);
    FilterFrom(years, (z: Row<int, string>) => z.value != Sentinel, y);
    assert CastYearsBy(long, ParseInt) == Ok(years);
    var z := CastYearsFromBy(long, ParseInt, years, y);
    UnpivotMember(s, z);
    var j, i :| 0 <= j < |s.years| && 0 <= i < |s.rows| && z == MeltCell(s, i, j);
    assert LegacyCellGives(s, i, j, x);
  }

  lemma CellReachesValues(s: SplitTable, years: seq<Row<int, string>>, tokens: seq<Row<int, string>>,
                          values: seq<LongRow>, i: nat, j: nat, x: LongRow)
    requires s.Rectangular() && CastYears(Unpivot(s)) == Ok(years)
    requires tokens == MapValues(DropMissing(years), FirstToken) && CastValues(tokens) == Ok(values)
    requires i < |s.rows| && j < |s.years| && LegacyCellGives(s, i, j, x)
    ensures x in values
  {
    var y := CastCell(s, years, i, j);
    var kept := DropMissing(years);
    FilterKeeps(years, (z: Row<int, string>) => z.value != Sentinel, y);
    assert CastValuesBy(MapValues(kept, FirstToken), ParseFloat) == Ok(values);
    CastTokenOf(kept, values, y, x, ParseFloat);
  }

  /** A kept row whose first token `parse` reads yields its cast row. */
  lemma CastTokenOf(kept: seq<Row<int, string>>, values: seq<LongRow>, y: Row<int, string>, x: LongRow,
                    parse: string -> Option<Number>)
    requires CastValuesBy(MapValues(kept, FirstToken), parse) == Ok(values)
    requires y in kept && x.key == y.key && x.year == y.year && parse(FirstToken(y.value)) == Some(x.value)
    ensures x in values
  {
    var tokens := MapValues(kept, FirstToken);
    var k :| 0 <= k < |kept| && kept[k] == y;
    assert tokens[k] == Row(y.key, y.year, FirstToken(y.value));
    assert values[k] == x;
  }

  /** The year-cast row of cell (i, j). */
  lemma CastCell(s: SplitTable, years: seq<Row<int, string>>, i: nat, j: nat) returns (y: Row<int, string>)
    requires s.Rectangular() && CastYears(Unpivot(s)) == Ok(years)
    requires i < |s.rows| && j < |s.years|
    ensures y in years && ParseInt(s.years[j]) == Some(y.year)
    ensures y.key == s.rows[i].key && y.value == s.rows[i].cells[j]
  {
    var long := Unpivot(s);
    var m := Pos(j, i, |s.rows|);
    assert long[m] == MeltCell(s, i, j);
    y := years[m];
  }
}
