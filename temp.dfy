/** life_expectancy/temp.py: a variant that strips the year labels before the
    int cast, strips the value flags but keeps `value` as text, and drops empty
    values only when it filters for a region. */
module Temp {
  import opened Strings
  import opened Sequences
  import opened Numbers
  import opened Table
  import opened Cleaning

  /** The two shapes the stored table takes: as read, and after
      `cast_columns_to_correct_types` (year an int, value still text). */
  datatype TempFrame =
    | Raw(wide: WideTable)
    | Typed(rows: seq<Row<int, string>>)

  predicate TempValid(f: TempFrame)
  {
    f.Raw? ==> f.wide.Rectangular()
  }

  /** The characters `str.strip(" epb: ")` removes; the space is listed twice. */
  const TempFlagChars: string := " epb: "

  /** `str.strip(" epb: ")` removes what `str.strip(' epb:')` removes. */
  lemma TempFlagsAreFlags(v: string)
    ensures Strip(v, TempFlagChars) == CleanValue(v)
  {
    StripSameSet(v, TempFlagChars, FlagChars);
  }

  /** `int` ignores surrounding whitespace, so stripping the year first changes nothing. */
  lemma StripThenParseInt(y: string)
    ensures ParseInt(StripSpace(y)) == ParseInt(y)
  {
    StripIdempotent(y, Whitespace);
  }

  function StripTempFlags(v: string): string
  {
    Strip(v, TempFlagChars)
  }

  /** The melt after the two in-place column assignments of
      `cast_columns_to_correct_types`. */
  function Prepare(rows: seq<TextRow>): seq<TextRow>
  {
    MapValues(MapYears(rows, StripSpace), StripTempFlags)
  }

  /** The typed table: the same rows in the same order, each year read as an
      int and each value cleaned of flags but left as text, empty or not. */
  lemma PreparedCast(rows: seq<TextRow>)
    ensures CastYears(Prepare(rows)).Ok? <==> forall i :: 0 <= i < |rows| ==> ParseInt(rows[i].year).Some?
    ensures CastYears(Prepare(rows)).Ok? ==> |CastYears(Prepare(rows)).value| == |rows|
    ensures CastYears(Prepare(rows)).Ok? ==> forall i :: 0 <= i < |rows| ==>
      CastYears(Prepare(rows)).value[i] == Row(rows[i].key, ParseInt(rows[i].year).value, CleanValue(rows[i].value))
  {
    var p := Prepare(rows);
    forall i | 0 <= i < |rows|
      ensures p[i] == Row(rows[i].key, StripSpace(rows[i].year), CleanValue(rows[i].value))
      ensures ParseInt(p[i].year) == ParseInt(rows[i].year)
    {
      TempFlagsAreFlags(rows[i].value);
      StripThenParseInt(rows[i].year);
    }
  }

  /** The two-condition mask of `filter_dataset_by_region`: the rows of `region`
      with a value, in their order. */
  function RegionRows(rows: seq<Row<int, string>>, region: string): (r: seq<Row<int, string>>)
    ensures IsSubsequence(r, rows) && |r| <= |rows|
    ensures forall k :: 0 <= k < |r| ==> r[k].key.region == region && r[k].value != ""
    ensures forall i :: 0 <= i < |rows| && rows[i].key.region == region && rows[i].value != "" ==>
      multiset(r)[rows[i]] == multiset(rows)[rows[i]]
  {
    Filter(rows, (x: Row<int, string>) => x.key.region == region && x.value != "")
  }

  /** The combined mask selects what dropping the empty values and then
      keeping the region selects. */
  lemma RegionRowsInTwoSteps(rows: seq<Row<int, string>>, region: string)
    ensures RegionRows(rows, region) == FilterRegion(RemoveEmptyValues(rows), region)
  {
    FilterBoth(rows, (x: Row<int, string>) => x.key.region == region, (x: Row<int, string>) => x.value != "",
      (x: Row<int, string>) => x.key.region == region && x.value != "");
  }

  /** `str.split(",", expand=True)` makes one column per field of the longest
      key, so a table without rows splits into a frame with no columns at all:
      the rename finds nothing and the melt's `id_vars` lookup fails. */
  predicate ExpandHasColumns(t: WideTable)
  {
    t.rows != []
  }

  /** The first of the melt's `id_vars`, the one pandas misses first. */
  const FirstIdVar: string := "unit"

  class LifeExpectancyData {
    var df: TempFrame

    /** `__init__` with the table it reads given directly. */
    constructor(t: WideTable)
      requires t.Rectangular()
      ensures df == Raw(t)
    {
      df := Raw(t);
    }

    /** `get_life_expectancy_df`: the stored table, which it leaves as it is. */
    method GetLifeExpectancyDf() returns (r: TempFrame)
      ensures r == df
    {
      r := df;
    }

    /** `_set_life_expectancy_df`: the only way the stored table is replaced. */
    method SetLifeExpectancyDf(newDf: TempFrame)
      modifies this
      ensures df == newDf
    {
      df := newDf;
    }

    /** `split_column_into_several`: the key column split on ',' into unit, sex,
        age and region. It only reads the stored table; a typed table has no key
        column left. */
    function SplitColumnIntoSeveral(): (r: Result<seq<Key>>)
      reads this
      ensures df.Typed? ==> r == Err(MissingColumn(KeyColumn))
      ensures df.Raw? ==> r == SplitKeys(df.wide)
      ensures r.Ok? ==> df.Raw? && |r.value| == |df.wide.rows|
      ensures r.Ok? ==> forall i :: 0 <= i < |df.wide.rows| ==> Fields(r.value[i]) == Split(df.wide.rows[i].key, ',')
    {
      match df
      case Raw(w) => SplitKeys(w)
      case Typed(_) => Err(MissingColumn(KeyColumn))
    }

    /** `clean_dataframe`: the split key columns joined with the year columns and
        melted, `variable` renamed to `year`. It is the split and melt the other
        scripts perform, and it only reads the stored table. Unlike theirs, its
        split frame has no named columns when the table has no rows, and the
        melt then fails. */
    function CleanDataframe(): (r: Result<seq<TextRow>>)
      reads this
      requires TempValid(df)
      ensures r.Ok? <==> df.Raw? && SplitColumns(df.wide).Ok? && ExpandHasColumns(df.wide)
      ensures SplitColumnIntoSeveral().Err? ==> r == Err(SplitColumnIntoSeveral().error)
      ensures SplitColumnIntoSeveral().Ok? && !ExpandHasColumns(df.wide) ==> r == Err(MissingColumn(FirstIdVar))
      ensures r.Ok? ==> r.value == Unpivot(SplitColumns(df.wide).value)
      ensures r.Ok? ==> |r.value| == |df.wide.years| * |df.wide.rows|
    {
      var keys :- SplitColumnIntoSeveral();
      if !ExpandHasColumns(df.wide) then Err(MissingColumn(FirstIdVar)) else
      Ok(Unpivot(AttachCells(df.wide, keys)))
    }

    /** `cast_columns_to_correct_types`: strips the year labels and the value
        flags in place on the melted frame, casts `year` to int and stores the
        result. A failure, a table without year columns included, leaves the
        stored table as it was. */
    method CastColumnsToCorrectTypes() returns (err: Option<Error>)
      requires TempValid(df)
      modifies this
      ensures TempValid(df)
      ensures old(CleanDataframe()).Err? ==> err == Some(old(CleanDataframe()).error) && df == old(df)
      ensures old(CleanDataframe()).Ok? && old(df.wide.years) == [] ==> err == Some(ValuesNotText) && df == old(df)
      ensures old(CleanDataframe()).Ok? && old(df.wide.years) != [] && CastYears(Prepare(old(CleanDataframe()).value)).Ok? ==>
        err.None? && df == Typed(CastYears(Prepare(old(CleanDataframe()).value)).value)
      ensures old(CleanDataframe()).Ok? && old(df.wide.years) != [] && CastYears(Prepare(old(CleanDataframe()).value)).Err? ==>
        err == Some(CastYears(Prepare(old(CleanDataframe()).value)).error) && df == old(df)
    {
      var melted := CleanDataframe();
      if melted.Err? {
        return Some(melted.error);
      }
      var rows := melted.value;
      var clean := new TextRow[|rows|](i requires 0 <= i < |rows| => rows[i]);
      assert clean[..] == rows;
      AssignYearColumn(clean, StripSpace);
      if df.wide.years == [] {
        // the melt of no year column has a float `value` column, which `.str` refuses
        return Some(ValuesNotText);
      }
      AssignValueColumn(clean, StripTempFlags);
      var typed := CastYears(clean[..]);
      if typed.Err? {
        return Some(typed.error);
      }
      SetLifeExpectancyDf(Typed(typed.value));
      err := None;
    }

    /** `filter_dataset_by_region`: the rows of `region` (by default "PT") whose
        value is not empty, in their order. A table that was never cast has no
        `region` column. */
    function FilterDatasetByRegion(region: string := DefaultRegion): (r: Result<seq<Row<int, string>>>)
      reads this
      ensures r.Ok? <==> df.Typed?
      ensures r.Err? ==> r.error == MissingColumn("region")
      ensures r.Ok? ==> r.value == RegionRows(df.rows, region)
    {
      match df
      case Raw(_) => Err(MissingColumn("region"))
      case Typed(rows) => Ok(RegionRows(rows, region))
    }
  }

  /** What `clean_data(region)` writes to its output file. */
  function TempPipeline(t: WideTable, region: string): (r: Result<seq<Row<int, string>>>)
    requires t.Rectangular()
    ensures SplitColumns(t).Err? ==> r == Err(SplitColumns(t).error)
    ensures SplitColumns(t).Ok? && t.rows == [] ==> r == Err(MissingColumn(FirstIdVar))
    ensures SplitColumns(t).Ok? && t.rows != [] && t.years == [] ==> r == Err(ValuesNotText)
    ensures SplitColumns(t).Ok? && t.rows != [] && t.years != [] && CastYears(Prepare(Unpivot(SplitColumns(t).value))).Err? ==>
      r == Err(CastYears(Prepare(Unpivot(SplitColumns(t).value))).error)
    ensures r.Err? ==> SplitColumns(t).Err? || r.error == MissingColumn(FirstIdVar) || r.error == ValuesNotText || r.error.YearCast?
    ensures r.Ok? ==> t.rows != [] && t.years != []
    ensures r.Ok? ==> forall k :: 0 <= k < |r.value| ==> r.value[k].key.region == region && r.value[k].value != ""
  {
    var split :- SplitColumns(t);
    if !ExpandHasColumns(t) then Err(MissingColumn(FirstIdVar)) else
    if !MeltHasText(split) then Err(ValuesNotText) else
    var typed :- CastYears(Prepare(Unpivot(split)));
    Ok(RegionRows(typed, region))
  }

  /** An extract with a header and no rows: the expand split gives no key
      columns, so the run fails in the melt whatever the year columns are. */
  lemma HeaderOnlyFails(years: seq<string>, region: string)
    ensures TempPipeline(WideTable(KeyColumn, years, []), region) == Err(MissingColumn(FirstIdVar))
  {
    var t := WideTable(KeyColumn, years, []);
    assert SplitKeys(t).Ok?;
  }

  /** `clean_data(region)` without the load and the save. */
  method CleanData(t: WideTable, region: string) returns (r: Result<seq<Row<int, string>>>)
    requires t.Rectangular()
    ensures r == TempPipeline(t, region)
  {
    var data := new LifeExpectancyData(t);
    var err := data.CastColumnsToCorrectTypes();
    if err.Some? {
      return Err(err.value);
    }
    var _ := data.GetLifeExpectancyDf();
    r := data.FilterDatasetByRegion(region);
  }

  /** A successful run holds exactly the rows of `region` the cells yield: the
      row's key, the year header read as an int and the cell with its flags
      stripped, for every cell that is not empty once stripped. */
  lemma TempPipelineRows(t: WideTable, s: SplitTable, region: string, x: Row<int, string>)
    requires t.Rectangular() && SplitColumns(t) == Ok(s) && TempPipeline(t, region).Ok?
    ensures x in TempPipeline(t, region).value <==>
      x.key.region == region && exists j, i :: 0 <= j < |s.years| && 0 <= i < |s.rows| && TempCellGives(s, i, j, x)
  {
    var typed := CastYears(Prepare(Unpivot(s))).value;
    assert TempPipeline(t, region).value == RegionRows(typed, region);
    var p := (y: Row<int, string>) => y.key.region == region && y.value != "";
    if x in TempPipeline(t, region).value {
      FilterFrom(typed, p, x);
      TypedRowFromCell(s, typed, x);
    }
    if x.key.region == region && exists j, i :: 0 <= j < |s.years| && 0 <= i < |s.rows| && TempCellGives(s, i, j, x) {
      var j, i :| 0 <= j < |s.years| && 0 <= i < |s.rows| && TempCellGives(s, i, j, x);
      CellReachesTyped(s, typed, i, j, x);
      FilterKeeps(typed, p, x);
    }
  }

  lemma TypedRowFromCell(s: SplitTable, typed: seq<Row<int, string>>, x: Row<int, string>)
    requires s.Rectangular() && CastYears(Prepare(Unpivot(s))) == Ok(typed)
    requires x in typed && x.value != ""
    ensures exists j, i :: 0 <= j < |s.years| && 0 <= i < |s.rows| && TempCellGives(s, i, j, x)
  {
    var long := Unpivot(s);
    var k :| 0 <= k < |typed| && typed[k] == x;
    PreparedLength(long, typed);
    PreparedAt(long, typed, k);
    UnpivotMember(s, long[k]);
    var j, i :| 0 <= j < |s.years| && 0 <= i < |s.rows| && long[k] == MeltCell(s, i, j);
    assert TempCellGives(s, i, j, x);
  }

  lemma PreparedLength(long: seq<TextRow>, typed: seq<Row<int, string>>)
    requires CastYears(Prepare(long)) == Ok(typed)
    ensures |typed| == |long|
  {
    PreparedCast(long);
  }

  lemma CellReachesTyped(s: SplitTable, typed: seq<Row<int, string>>, i: nat, j: nat, x: Row<int, string>)
    requires s.Rectangular() && CastYears(Prepare(Unpivot(s))) == Ok(typed)
    requires i < |s.rows| && j < |s.years| && TempCellGives(s, i, j, x)
    ensures x in typed
  {
    var long := Unpivot(s);
    var m := Pos(j, i, |s.rows|);
    assert long[m] == MeltCell(s, i, j);
    PreparedAt(long, typed, m);
  }

  /** Row m of the typed table is row m of the melt with its year read and its value cleaned. */
  lemma PreparedAt(long: seq<TextRow>, typed: seq<Row<int, string>>, m: nat)
    requires CastYears(Prepare(long)) == Ok(typed) && m < |long|
    ensures m < |typed| && ParseInt(long[m].year).Some?
    ensures typed[m] == Row(long[m].key, ParseInt(long[m].year).value, CleanValue(long[m].value))
  {
    PreparedCast(long);
  }

  ghost predicate TempCellGives(s: SplitTable, i: nat, j: nat, x: Row<int, string>)
    requires s.Rectangular() && i < |s.rows| && j < |s.years|
  {
    && x.key == s.rows[i].key
    && ParseInt(s.years[j]) == Some(x.year)
    && x.value == CleanValue(s.rows[i].cells[j])
    && x.value != ""
  }
}
