/** life_expectancy/cleaning_with_class.py: the pipeline of `Cleaning` as an
    object whose table field every step overwrites. */
module CleaningWithClass {
  import opened Sequences
  import opened Strings
  import opened Numbers
  import opened Table
  import opened Cleaning

  /** The shapes the table field takes, one per finished step. A long frame
      records whether its `value` column holds text: the melt of a table
      without year columns gives pandas an empty float column. */
  datatype Frame =
    | Raw(wide: WideTable)                  // as read from the extract
    | Keyed(split: SplitTable)              // after the key split
    | Long(rows: seq<TextRow>, text: bool)  // after the melt, and after the cleaning and dropping of values
    | Typed(typed: seq<LongRow>)            // after the cast, and after the region filter

  /** Every frame is a proper table. */
  predicate FrameValid(f: Frame)
  {
    match f
    case Raw(w) => w.Rectangular()
    case Keyed(s) => s.Rectangular()
    case _ => true
  }

  class LifeExpectancy {
    /** The region to keep; set once by the constructor and never reassigned. */
    const region: string
    var df: Frame

    /** `__init__` with the table it reads given directly. */
    constructor(t: WideTable, region: string := DefaultRegion)
      requires t.Rectangular()
      ensures this.region == region && df == Raw(t) && FrameValid(df)
    {
      this.region := region;
      df := Raw(t);
    }

    /** `_split_columns_into_several`. A missing key column or a key of the
        wrong arity raises before the field is assigned, so it keeps the raw table. */
    method SplitColumnsIntoSeveral() returns (err: Option<Error>)
      requires df.Raw? && FrameValid(df)
      modifies this`df
      ensures FrameValid(df)
      ensures SplitColumns(old(df.wide)).Ok? ==> err.None? && df == Keyed(SplitColumns(old(df.wide)).value)
      ensures SplitColumns(old(df.wide)).Err? ==> err == Some(SplitColumns(old(df.wide)).error) && df == old(df)
      ensures df.Keyed? ==> df.split.years == old(df.wide.years) && |df.split.rows| == |old(df.wide.rows)|
    {
      var r := SplitColumns(df.wide);
      if r.Err? {
        return Some(r.error);
      }
      df := Keyed(r.value);
      err := None;
    }

    /** `_unpivot_dataframe`: R rows and K year columns become R * K long rows;
        the value column holds text when there is some year column. */
    method UnpivotDataframe()
      requires df.Keyed? && FrameValid(df)
      modifies this`df
      ensures df == Long(Unpivot(old(df.split)), MeltHasText(old(df.split)))
      ensures |df.rows| == |old(df.split.years)| * |old(df.split.rows)|
    {
      df := Long(Unpivot(df.split), MeltHasText(df.split));
    }

    /** `_remove_nans`: the flags are stripped from every value, then the rows
        whose value became empty are dropped; the others keep their order. On a
        value column without text the strip raises and the field is kept. */
    method RemoveNans() returns (err: Option<Error>)
      requires df.Long?
      modifies this`df
      ensures !old(df.text) ==> err == Some(ValuesNotText) && df == old(df)
      ensures old(df.text) ==> err.None? && df == Long(RemoveEmptyValues(StripValues(old(df.rows))), true)
      ensures err.None? ==> IsSubsequence(df.rows, StripValues(old(df.rows)))
      ensures err.None? ==> forall k :: 0 <= k < |df.rows| ==> df.rows[k].value != "" && Bare(df.rows[k].value, FlagChars)
    {
      if !df.text {
        return Some(ValuesNotText);
      }
      CleanedValuesBare(df.rows);
      df := Long(RemoveEmptyValues(StripValues(df.rows)), true);
      err := None;
    }

    /** `_cast_types`: on failure the exception leaves the field as it was. */
    method CastTypes() returns (err: Option<Error>)
      requires df.Long?
      modifies this`df
      ensures Cleaning.CastTypes(old(df.rows)).Ok? ==> err.None? && df == Typed(Cleaning.CastTypes(old(df.rows)).value)
      ensures Cleaning.CastTypes(old(df.rows)).Err? ==> err == Some(Cleaning.CastTypes(old(df.rows)).error) && df == old(df)
    {
      var r := Cleaning.CastTypes(df.rows);
      if r.Err? {
        return Some(r.error);
      }
      df := Typed(r.value);
      err := None;
    }

    /** `_filter_region`: the rows of `region`, in their order. */
    method FilterRegion()
      requires df.Typed?
      modifies this`df
      ensures df == Typed(Cleaning.FilterRegion(old(df.typed), region))
      ensures IsSubsequence(df.typed, old(df.typed))
      ensures forall k :: 0 <= k < |df.typed| ==> df.typed[k].key.region == region
    {
      df := Typed(Cleaning.FilterRegion(df.typed, region));
    }

    /** `preprocess_data`: split, unpivot, remove values, cast and filter, in that
        order. A step that raises stops the run and leaves the field as the last
        finished step made it: the raw table, the melt or the cleaned long table. */
    method PreprocessData() returns (err: Option<Error>)
      requires df.Raw? && FrameValid(df)
      modifies this`df
      ensures MainPipeline(old(df.wide), region).Ok? ==>
        err.None? && df == Typed(MainPipeline(old(df.wide), region).value)
      ensures MainPipeline(old(df.wide), region).Err? ==> err == Some(MainPipeline(old(df.wide), region).error)
      ensures SplitColumns(old(df.wide)).Err? ==> df == old(df)
      ensures SplitColumns(old(df.wide)).Ok? && old(df.wide.years) == [] ==>
        df == Long(Unpivot(SplitColumns(old(df.wide)).value), false)
      ensures SplitColumns(old(df.wide)).Ok? && old(df.wide.years) != [] && MainPipeline(old(df.wide), region).Err? ==>
        df == Long(CastInput(SplitColumns(old(df.wide)).value), true)
      ensures df.Typed? ==> |df.typed| <= |old(df.wide.years)| * |old(df.wide.rows)|
    {
      err := SplitColumnsIntoSeveral();
      if err.Some? {
        return;
      }
      UnpivotDataframe();
      err := RemoveNans();
      if err.Some? {
        return;
      }
      err := CastTypes();
      if err.Some? {
        return;
      }
      FilterRegion();
    }
  }

  /** `main` without the load and the save: the table the object holds after
      `preprocess_data`, or the error that stopped it. */
  method RunMain(t: WideTable, region: string := DefaultRegion) returns (r: Result<seq<LongRow>>)
    requires t.Rectangular()
    ensures r == MainPipeline(t, region)
  {
    var data := new LifeExpectancy(t, region);
    var err := data.PreprocessData();
    if err.Some? {
      return Err(err.value);
    }
    r := Ok(data.df.typed);
  }
}
