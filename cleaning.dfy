/** The pipeline of life_expectancy/life_expectancy/cleaning.py: split the
    composite key, melt the year columns, strip annotation flags from the
    values, drop empty values, cast `year` to int and `value` to float, and
    keep one region. Its steps are shared with the other scripts. */
module Cleaning {
  import opened Strings
  import opened Sequences
  import opened Numbers
  import opened Table

  type TextRow = Row<string, string>
  type LongRow = Row<int, Number>

  // ----- Splitting the composite key -----

  function Fields(k: Key): seq<string>
  {
    [k.unit, k.sex, k.age, k.region]
  }

  /** The composite key text a key is written as in the extract. */
  function JoinKey(k: Key): string
  {
    Join(Fields(k), ',')
  }

  predicate CommaFree(k: Key)
  {
    forall i :: 0 <= i < |Fields(k)| ==> ',' !in Fields(k)[i]
  }

  /** One composite key split on ',' into the fields named unit, sex, age and
      region; the frame constructor rejects any other number of fields. */
  function KeyOf(composite: string): (r: Result<Key>)
    ensures r.Ok? <==> |Split(composite, ',')| == 4
    ensures r.Ok? ==> CommaFree(r.value) && JoinKey(r.value) == composite
    ensures r.Err? ==> r.error == KeyArity(|Split(composite, ',')|)
  {
    var fields := Split(composite, ',');
    if |fields| == 4 then
      var k := Key(fields[0], fields[1], fields[2], fields[3]);
      assert Fields(k) == fields;
      Ok(k)
    else Err(KeyArity(|fields|))
  }

  /** Splitting the text a key is written as gives the key back. */
  lemma KeyOfJoinKey(k: Key)
    requires CommaFree(k)
    ensures KeyOf(JoinKey(k)) == Ok(k)
  {
    SplitJoin(Fields(k), ',');
  }

  /** Comma-free fields of any number other than four, joined with commas, are
      rejected with exactly that number as the arity. */
  lemma KeyOfArity(parts: seq<string>)
    requires |parts| >= 1 && forall i :: 0 <= i < |parts| ==> ',' !in parts[i]
    ensures |parts| != 4 ==> KeyOf(Join(parts, ',')) == Err(KeyArity(|parts|))
  {
    SplitJoin(parts, ',');
  }

  function KeysOf(rows: seq<WideRow>): (r: Result<seq<Key>>)
    ensures r.Ok? <==> forall i :: 0 <= i < |rows| ==> KeyOf(rows[i].key).Ok?
    ensures r.Ok? ==> |r.value| == |rows|
    ensures r.Ok? ==> forall i :: 0 <= i < |rows| ==> KeyOf(rows[i].key) == Ok(r.value[i])
    ensures r.Err? ==> exists i :: 0 <= i < |rows| && |Split(rows[i].key, ',')| != 4 && r.error == KeyArity(|Split(rows[i].key, ',')|)
  {
    KeysOfBy(rows, KeyOf)
  }

  /** The keys of all rows with the key reader `read` as a parameter: the first failure aborts. */
  function KeysOfBy(rows: seq<WideRow>, read: string -> Result<Key>): (r: Result<seq<Key>>)
    ensures r.Ok? <==> forall i :: 0 <= i < |rows| ==> read(rows[i].key).Ok?
    ensures r.Ok? ==> |r.value| == |rows|
    ensures r.Ok? ==> forall i :: 0 <= i < |rows| ==> read(rows[i].key) == Ok(r.value[i])
    ensures r.Err? ==> exists i :: 0 <= i < |rows| && read(rows[i].key).Err? && r.error == read(rows[i].key).error
  {
    if rows == [] then Ok([])
    else
      var k :- read(rows[0].key);
      var rest := KeysOfBy(rows[1..], read);
      if rest.Err? then
        var i :| 0 <= i < |rows[1..]| && read(rows[1..][i].key).Err? && rest.error == read(rows[1..][i].key).error;
        assert rows[1..][i] == rows[i + 1];
        Err(rest.error)
      else
        assert forall i :: 1 <= i < |rows| ==> rows[i] == rows[1..][i - 1];
        Ok([k] + rest.value)
  }

  /** The key column split on commas and read as four named columns: a
      missing key column or a key of another arity aborts the run. */
  function SplitKeys(t: WideTable): (r: Result<seq<Key>>)
    ensures t.keyLabel != KeyColumn ==> r == Err(MissingColumn(KeyColumn))
    ensures r.Ok? <==> t.keyLabel == KeyColumn && forall i :: 0 <= i < |t.rows| ==> |Split(t.rows[i].key, ',')| == 4
    ensures r.Ok? ==> |r.value| == |t.rows|
    ensures r.Ok? ==> forall i :: 0 <= i < |t.rows| ==> Fields(r.value[i]) == Split(t.rows[i].key, ',')
    ensures r.Err? && t.keyLabel == KeyColumn ==>
      exists i :: 0 <= i < |t.rows| && |Split(t.rows[i].key, ',')| != 4 && r.error == KeyArity(|Split(t.rows[i].key, ',')|)
  {
    if t.keyLabel != KeyColumn then Err(MissingColumn(KeyColumn))
    else
      var keys := KeysOf(t.rows);
      if keys.Ok? then
        assert forall i :: 0 <= i < |t.rows| ==> Fields(keys.value[i]) == Split(t.rows[i].key, ',') by {
          forall i | 0 <= i < |t.rows| ensures Fields(keys.value[i]) == Split(t.rows[i].key, ',') {
            var parts := Split(t.rows[i].key, ',');
            assert KeyOf(t.rows[i].key) == Ok(keys.value[i]);
            assert keys.value[i] == Key(parts[0], parts[1], parts[2], parts[3]);
          }
        }
        keys
      else keys
  }

  /** The split key columns placed side by side with the year columns: each row's key followed by its cells. */
  function AttachCells(t: WideTable, keys: seq<Key>): SplitTable
    requires |keys| == |t.rows|
  {
    SplitTable(t.years, seq(|keys|, i requires 0 <= i < |keys| => SplitRow(keys[i], t.rows[i].cells)))
  }

  /** `_split_columns_into_several`: the key column becomes unit, sex, age and
      region, taken in that order from the comma split; the year columns and the
      number of rows stay as they were. */
  function SplitColumns(t: WideTable): (r: Result<SplitTable>)
    requires t.Rectangular()
    ensures r.Ok? <==> SplitKeys(t).Ok?
    ensures r.Err? ==> r.error == SplitKeys(t).error
    ensures r.Ok? ==> r.value.Rectangular() && r.value.years == t.years && |r.value.rows| == |t.rows|
    ensures r.Ok? ==> forall i :: 0 <= i < |t.rows| ==>
      && Fields(r.value.rows[i].key) == Split(t.rows[i].key, ',')
      && r.value.rows[i].cells == t.rows[i].cells
  {
    var keys :- SplitKeys(t);
    Ok(AttachCells(t, keys))
  }

  // ----- Melting the year columns -----

  /** The long row cell (i, j) of a split table becomes: the key of row i, the
      header of year column j as text, and the cell as text. */
  function MeltCell(s: SplitTable, i: nat, j: nat): TextRow
    requires s.Rectangular() && i < |s.rows| && j < |s.years|
  {
    Row(s.rows[i].key, s.years[j], s.rows[i].cells[j])
  }

  /** The rows melt makes of year column j: one per wide row, in row order. */
  function YearBlock(s: SplitTable, j: nat): seq<TextRow>
    requires s.Rectangular() && j < |s.years|
  {
    seq(|s.rows|, i requires 0 <= i < |s.rows| => MeltCell(s, i, j))
  }

  /** The blocks of year columns j, j + 1, ..., one after the other. */
  function MeltFrom(s: SplitTable, j: nat): seq<TextRow>
    requires s.Rectangular() && j <= |s.years|
    decreases |s.years| - j
  {
    if j == |s.years| then [] else YearBlock(s, j) + MeltFrom(s, j + 1)
  }

  lemma {:induction false} MeltFromLength(s: SplitTable, j: nat)
    requires s.Rectangular() && j <= |s.years|
    ensures |MeltFrom(s, j)| == (|s.years| - j) * |s.rows|
    decreases |s.years| - j
  {
    if j < |s.years| {
      MeltFromLength(s, j + 1);
      MulSucc(|s.years| - (j + 1), |s.rows|, 0);
    }
  }

  /** Within the melt from year column j on, row d * R + i is cell (i, j + d). */
  lemma {:induction false} MeltFromIndex(s: SplitTable, j: nat, d: nat, i: nat)
    requires s.Rectangular() && j + d < |s.years| && i < |s.rows|
    ensures d * |s.rows| + i < |MeltFrom(s, j)|
    ensures MeltFrom(s, j)[d * |s.rows| + i] == MeltCell(s, i, j + d)
    decreases d
  {
    var n := |s.rows|;
    if d > 0 {
      var k := (d - 1) * n + i;
      MeltFromIndex(s, j + 1, d - 1, i);
      MulSucc(d - 1, n, i);
      var block, rest := YearBlock(s, j), MeltFrom(s, j + 1);
      assert MeltFrom(s, j) == block + rest && |block| == n;
      assert (block + rest)[n + k] == rest[k];
    }
  }

  lemma MulSucc(a: nat, n: nat, i: nat)
    ensures (a + 1) * n + i == n + (a * n + i)
  {
  }

  /** The position melt gives cell (i, j) of a table with n rows. */
  function Pos(j: nat, i: nat, n: nat): nat
  {
    j * n + i
  }

  lemma MeltAll(s: SplitTable)
    requires s.Rectangular()
    ensures |MeltFrom(s, 0)| == |s.years| * |s.rows|
    ensures forall j, i :: 0 <= j < |s.years| && 0 <= i < |s.rows| ==>
      Pos(j, i, |s.rows|) < |MeltFrom(s, 0)| && MeltFrom(s, 0)[Pos(j, i, |s.rows|)] == MeltCell(s, i, j)
  {
    MeltFromLength(s, 0);
    forall j, i | 0 <= j < |s.years| && 0 <= i < |s.rows|
      ensures Pos(j, i, |s.rows|) < |MeltFrom(s, 0)| && MeltFrom(s, 0)[Pos(j, i, |s.rows|)] == MeltCell(s, i, j)
    {
      MeltFromIndex(s, 0, j, i);
    }
  }

  lemma {:induction false} MeltFromMember(s: SplitTable, j: nat, x: TextRow)
    requires s.Rectangular() && j <= |s.years|
    ensures x in MeltFrom(s, j) <==>
      exists jj, i :: j <= jj < |s.years| && 0 <= i < |s.rows| && x == MeltCell(s, i, jj)
    decreases |s.years| - j
  {
    if j < |s.years| {
      MeltFromMember(s, j + 1, x);
      if x in YearBlock(s, j) {
        var i :| 0 <= i < |s.rows| && YearBlock(s, j)[i] == x;
        assert x == MeltCell(s, i, j);
      }
      if exists jj, i :: j <= jj < |s.years| && 0 <= i < |s.rows| && x == MeltCell(s, i, jj) {
        var jj, i :| j <= jj < |s.years| && 0 <= i < |s.rows| && x == MeltCell(s, i, jj);
        if jj == j {
          assert YearBlock(s, j)[i] == x;
        } else {
          assert x in MeltFrom(s, j + 1);
        }
      }
    }
  }

  /** The melt takes its `value` column from the year columns. With none, pandas
      gives that empty column a float type, and every `.str` step on it raises. */
  predicate MeltHasText(s: SplitTable)
  {
    s.years != []
  }

  /** `_unpivot_dataframe`, a pandas melt naming its label column `year`: R wide rows and K
      year columns give R * K long rows; row j * R + i is cell (i, j), so year
      column j's block precedes column j + 1's and keeps the wide row order. */
  function Unpivot(s: SplitTable): (long: seq<TextRow>)
    requires s.Rectangular()
    ensures |long| == |s.years| * |s.rows|
    ensures forall j, i :: 0 <= j < |s.years| && 0 <= i < |s.rows| ==>
      Pos(j, i, |s.rows|) < |long| && long[Pos(j, i, |s.rows|)] == MeltCell(s, i, j)
  {
    MeltAll(s);
    MeltFrom(s, 0)
  }

  /** Melt makes exactly one long row of every cell and no other rows. */
  lemma UnpivotMember(s: SplitTable, x: TextRow)
    requires s.Rectangular()
    ensures x in Unpivot(s) <==>
      exists j, i :: 0 <= j < |s.years| && 0 <= i < |s.rows| && x == MeltCell(s, i, j)
  {
    MeltFromMember(s, 0, x);
  }

  // ----- Cleaning the value column -----

  /** The characters `str.strip(' epb:')` removes: a space, the estimated,
      provisional and break-in-series flags, and the not-available colon. */
  const FlagChars: string := " epb:"

  /** One value of `_cleaning_value_column`: flag characters removed from both ends only. */
  function CleanValue(v: string): (r: string)
    ensures Trimmed(v, r, FlagChars)
    ensures Bare(r, FlagChars)
  {
    Strip(v, FlagChars)
  }

  /** Cleaning a clean value changes nothing. */
  lemma CleanValueIdempotent(v: string)
    ensures CleanValue(CleanValue(v)) == CleanValue(v)
  {
    StripIdempotent(v, FlagChars);
  }

  /** An estimated value loses its flag. */
  lemma CleanValueEstimated()
    ensures CleanValue("72.3 e") == "72.3"
  {
    var x, tail := "72.3", " e";
    assert x + tail == "72.3 e";
    StripPadded([], x, tail, FlagChars);
  }

  /** A value carrying several flags loses all of them. */
  lemma CleanValueManyFlags()
    ensures CleanValue("0.7 bep") == "0.7"
  {
    var x, tail := "0.7", " bep";
    assert x + tail == "0.7 bep";
    StripPadded([], x, tail, FlagChars);
  }

  /** The not-available sentinel ": " becomes empty. */
  lemma CleanValueSentinel()
    ensures CleanValue(": ") == ""
  {
    StripPadded(": ", [], [], FlagChars);
    assert ": " + [] + [] == ": ";
  }

  /** A bare not-available colon becomes empty too. */
  lemma CleanValueColon()
    ensures CleanValue(":") == ""
  {
    StripPadded(":", [], [], FlagChars);
    assert ":" + [] + [] == ":";
  }

  /** The frame `_cleaning_value_column` returns. */
  function StripValues(rows: seq<TextRow>): seq<TextRow>
  {
    MapValues(rows, CleanValue)
  }

  /** `_cleaning_value_column` assigns the cleaned column into the frame it is
      given and returns that same frame. */
  method CleanValueColumn(a: array<TextRow>) returns (b: array<TextRow>)
    modifies a
    ensures b == a
    ensures a[..] == StripValues(old(a[..]))
  {
    AssignValueColumn(a, CleanValue);
    b := a;
  }

  /** `_remove_nans_from_column_value`: exactly the rows whose value is not the
      empty string, in their original order. */
  function RemoveEmptyValues<Y>(rows: seq<Row<Y, string>>): (r: seq<Row<Y, string>>)
    ensures IsSubsequence(r, rows) && |r| <= |rows|
    ensures forall k :: 0 <= k < |r| ==> r[k].value != ""
    ensures forall i :: 0 <= i < |rows| && rows[i].value != "" ==> multiset(r)[rows[i]] == multiset(rows)[rows[i]]
  {
    Filter(rows, (x: Row<Y, string>) => x.value != "")
  }

  // ----- Casting -----

  /** The int cast of the `year` column: all years cast, or the first failing label reported. */
  function CastYears<V>(rows: seq<Row<string, V>>): (r: Result<seq<Row<int, V>>>)
    ensures r.Ok? <==> forall i :: 0 <= i < |rows| ==> ParseInt(rows[i].year).Some?
    ensures r.Ok? ==> |r.value| == |rows|
    ensures r.Ok? ==> forall i :: 0 <= i < |rows| ==>
      r.value[i] == Row(rows[i].key, ParseInt(rows[i].year).value, rows[i].value)
    ensures r.Err? ==> exists i :: 0 <= i < |rows| && ParseInt(rows[i].year).None? && r.error == YearCast(rows[i].year)
  {
    CastYearsBy(rows, ParseInt)
  }

  /** The year cast with the text-to-int conversion `parse` as a parameter. */
  function CastYearsBy<V>(rows: seq<Row<string, V>>, parse: string -> Option<int>): (r: Result<seq<Row<int, V>>>)
    ensures r.Ok? <==> forall i :: 0 <= i < |rows| ==> parse(rows[i].year).Some?
    ensures r.Ok? ==> |r.value| == |rows|
    ensures r.Ok? ==> forall i :: 0 <= i < |rows| ==>
      r.value[i] == Row(rows[i].key, parse(rows[i].year).value, rows[i].value)
    ensures r.Err? ==> exists i :: 0 <= i < |rows| && parse(rows[i].year).None? && r.error == YearCast(rows[i].year)
  {
    if rows == [] then Ok([])
    else match parse(rows[0].year)
      case None => Err(YearCast(rows[0].year))
      case Some(y) =>
        var rest := CastYearsBy(rows[1..], parse);
        assert forall i :: 1 <= i < |rows| ==> rows[i] == rows[1..][i - 1];
        if rest.Err? then
          var k :| 0 <= k < |rows[1..]| && parse(rows[1..][k].year).None? && rest.error == YearCast(rows[1..][k].year);
          assert rows[k + 1] == rows[1..][k];
          Err(rest.error)
        else Ok([Row(rows[0].key, y, rows[0].value)] + rest.value)
  }

  /** Every row of a successful year cast is the cast of an input row. */
  lemma CastYearsFromBy<V>(rows: seq<Row<string, V>>, parse: string -> Option<int>, out: seq<Row<int, V>>,
                           y: Row<int, V>) returns (z: Row<string, V>)
    requires CastYearsBy(rows, parse) == Ok(out) && y in out
    ensures z in rows && parse(z.year).Some? && y == Row(z.key, parse(z.year).value, z.value)
  {
    var k :| 0 <= k < |out| && out[k] == y;
    z := rows[k];
  }

  /** The float cast of the `value` column: all values cast, or the first failing text reported. */
  function CastValues<Y>(rows: seq<Row<Y, string>>): (r: Result<seq<Row<Y, Number>>>)
    ensures r.Ok? <==> forall i :: 0 <= i < |rows| ==> ParseFloat(rows[i].value).Some?
    ensures r.Ok? ==> |r.value| == |rows|
    ensures r.Ok? ==> forall i :: 0 <= i < |rows| ==>
      r.value[i] == Row(rows[i].key, rows[i].year, ParseFloat(rows[i].value).value)
    ensures r.Err? ==> exists i :: 0 <= i < |rows| && ParseFloat(rows[i].value).None? && r.error == ValueCast(rows[i].value)
  {
    CastValuesBy(rows, ParseFloat)
  }

  /** The value cast with the text-to-number conversion `parse` as a parameter. */
  function CastValuesBy<Y>(rows: seq<Row<Y, string>>, parse: string -> Option<Number>): (r: Result<seq<Row<Y, Number>>>)
    ensures r.Ok? <==> forall i :: 0 <= i < |rows| ==> parse(rows[i].value).Some?
    ensures r.Ok? ==> |r.value| == |rows|
    ensures r.Ok? ==> forall i :: 0 <= i < |rows| ==>
      r.value[i] == Row(rows[i].key, rows[i].year, parse(rows[i].value).value)
    ensures r.Err? ==> exists i :: 0 <= i < |rows| && parse(rows[i].value).None? && r.error == ValueCast(rows[i].value)
  {
    if rows == [] then Ok([])
    else match parse(rows[0].value)
      case None => Err(ValueCast(rows[0].value))
      case Some(v) =>
        var rest := CastValuesBy(rows[1..], parse);
        assert forall i :: 1 <= i < |rows| ==> rows[i] == rows[1..][i - 1];
        if rest.Err? then
          var k :| 0 <= k < |rows[1..]| && parse(rows[1..][k].value).None? && rest.error == ValueCast(rows[1..][k].value);
          assert rows[k + 1] == rows[1..][k];
          Err(rest.error)
        else Ok([Row(rows[0].key, rows[0].year, v)] + rest.value)
  }

  /** Every row of a successful value cast is the cast of an input row. */
  lemma CastValuesFromBy<Y>(rows: seq<Row<Y, string>>, parse: string -> Option<Number>, out: seq<Row<Y, Number>>,
                            x: Row<Y, Number>) returns (t: Row<Y, string>)
    requires CastValuesBy(rows, parse) == Ok(out) && x in out
    ensures t in rows && parse(t.value).Some? && x == Row(t.key, t.year, parse(t.value).value)
  {
    var k :| 0 <= k < |out| && out[k] == x;
    t := rows[k];
  }

  /** `_cast_types`, one `astype` call for both columns: the columns are
      converted in frame order, so a bad year is reported before a bad value;
      one bad cell fails the whole table. */
  function CastTypes(rows: seq<TextRow>): (r: Result<seq<LongRow>>)
    ensures r.Ok? <==> forall i :: 0 <= i < |rows| ==> ParseInt(rows[i].year).Some? && ParseFloat(rows[i].value).Some?
    ensures r.Ok? ==> |r.value| == |rows|
    ensures r.Ok? ==> forall i :: 0 <= i < |rows| ==>
      r.value[i] == Row(rows[i].key, ParseInt(rows[i].year).value, ParseFloat(rows[i].value).value)
    ensures r.Err? && (exists i :: 0 <= i < |rows| && ParseInt(rows[i].year).None?) ==>
      exists i :: 0 <= i < |rows| && ParseInt(rows[i].year).None? && r.error == YearCast(rows[i].year)
    ensures r.Err? && (forall i :: 0 <= i < |rows| ==> ParseInt(rows[i].year).Some?) ==>
      exists i :: 0 <= i < |rows| && ParseFloat(rows[i].value).None? && r.error == ValueCast(rows[i].value)
  {
    CastTypesBy(rows, ParseInt, ParseFloat)
  }

  /** The cast of both columns with the conversions as parameters. */
  function CastTypesBy(rows: seq<TextRow>, year: string -> Option<int>, value: string -> Option<Number>): (r: Result<seq<LongRow>>)
    ensures r.Ok? <==> forall i :: 0 <= i < |rows| ==> year(rows[i].year).Some? && value(rows[i].value).Some?
    ensures r.Ok? ==> |r.value| == |rows|
    ensures r.Ok? ==> forall i :: 0 <= i < |rows| ==>
      r.value[i] == Row(rows[i].key, year(rows[i].year).value, value(rows[i].value).value)
    ensures r.Err? && (exists i :: 0 <= i < |rows| && year(rows[i].year).None?) ==>
      exists i :: 0 <= i < |rows| && year(rows[i].year).None? && r.error == YearCast(rows[i].year)
    ensures r.Err? && (forall i :: 0 <= i < |rows| ==> year(rows[i].year).Some?) ==>
      exists i :: 0 <= i < |rows| && value(rows[i].value).None? && r.error == ValueCast(rows[i].value)
  {
    var years :- CastYearsBy(rows, year);
    CastValuesBy(years, value)
  }

  // ----- Selecting a region -----

  /** `filter_region`, a boolean mask on the region column: the rows whose region equals
      `region` exactly, in their original order. */
  function FilterRegion<Y, V>(rows: seq<Row<Y, V>>, region: string): (r: seq<Row<Y, V>>)
    ensures IsSubsequence(r, rows) && |r| <= |rows|
    ensures forall k :: 0 <= k < |r| ==> r[k].key.region == region
    ensures forall i :: 0 <= i < |rows| && rows[i].key.region == region ==> multiset(r)[rows[i]] == multiset(rows)[rows[i]]
  {
    Filter(rows, (x: Row<Y, V>) => x.key.region == region)
  }

  /** Filtering a filtered table for the same region changes nothing. */
  lemma FilterRegionIdempotent<Y, V>(rows: seq<Row<Y, V>>, region: string)
    ensures FilterRegion(FilterRegion(rows, region), region) == FilterRegion(rows, region)
  {
    FilterIdempotent(rows, (x: Row<Y, V>) => x.key.region == region);
  }

  // ----- The pipeline -----

  /** What the cast step of `clean_data` receives from a split table. */
  function CastInput(s: SplitTable): seq<TextRow>
    requires s.Rectangular()
  {
    RemoveEmptyValues(StripValues(Unpivot(s)))
  }

  /** `clean_data`: split, unpivot, clean, drop empty values, cast, in that
      order. Without a year column the cleaning step raises. */
  function CleanData(t: WideTable): (r: Result<seq<LongRow>>)
    requires t.Rectangular()
    ensures SplitColumns(t).Err? ==> r == Err(SplitColumns(t).error)
    ensures SplitColumns(t).Ok? && t.years == [] ==> r == Err(ValuesNotText)
    ensures SplitColumns(t).Ok? && t.years != [] && r.Err? ==> r.error.YearCast? || r.error.ValueCast?
    ensures r.Ok? ==> |r.value| <= |t.years| * |t.rows|
  {
    var split :- SplitColumns(t);
    if !MeltHasText(split) then Err(ValuesNotText)
    else CastTypes(CastInput(split))
  }

  /** After cleaning and dropping, no value is empty and none starts or ends
      with a flag character. */
  lemma CleanedValuesBare(rows: seq<TextRow>)
    ensures forall k :: 0 <= k < |RemoveEmptyValues(StripValues(rows))| ==>
      RemoveEmptyValues(StripValues(rows))[k].value != "" && Bare(RemoveEmptyValues(StripValues(rows))[k].value, FlagChars)
  {
    var stripped := StripValues(rows);
    var kept := RemoveEmptyValues(stripped);
    forall k | 0 <= k < |kept|
      ensures kept[k].value != "" && Bare(kept[k].value, FlagChars)
    {
      FilterFrom(stripped, (y: TextRow) => y.value != "", kept[k]);
      var m :| 0 <= m < |stripped| && stripped[m] == kept[k];
    }
  }

  /** The cast in `clean_data` never sees an empty value, nor one that still
      starts or ends with a flag character. */
  lemma CastSeesCleanValues(s: SplitTable)
    requires s.Rectangular()
    ensures forall k :: 0 <= k < |CastInput(s)| ==> CastInput(s)[k].value != "" && Bare(CastInput(s)[k].value, FlagChars)
  {
    CleanedValuesBare(Unpivot(s));
  }

  /** A clean non-empty cell (i, j) reaches the cast. */
  lemma CellReachesCast(s: SplitTable, i: nat, j: nat)
    requires s.Rectangular() && i < |s.rows| && j < |s.years|
    requires CleanValue(s.rows[i].cells[j]) != ""
    ensures Row(s.rows[i].key, s.years[j], CleanValue(s.rows[i].cells[j])) in CastInput(s)
  {
    var long := Unpivot(s);
    var m := Pos(j, i, |s.rows|);
    assert long[m] == MeltCell(s, i, j);
    var stripped := StripValues(long);
    assert stripped[m] == Row(s.rows[i].key, s.years[j], CleanValue(s.rows[i].cells[j]));
    FilterKeeps(stripped, (y: TextRow) => y.value != "", stripped[m]);
  }

  /** A row reaching the cast is a melted cell with its value cleaned. */
  lemma CastInputFromCell(s: SplitTable, x: TextRow)
    requires s.Rectangular() && x in CastInput(s)
    ensures x.value != ""
    ensures exists j, i ::
      0 <= j < |s.years| && 0 <= i < |s.rows| && x == Row(s.rows[i].key, s.years[j], CleanValue(s.rows[i].cells[j]))
  {
    var long := Unpivot(s);
    var stripped := StripValues(long);
    FilterFrom(stripped, (y: TextRow) => y.value != "", x);
    var m :| 0 <= m < |stripped| && stripped[m] == x;
    UnpivotMember(s, long[m]);
    var j, i :| 0 <= j < |s.years| && 0 <= i < |s.rows| && long[m] == MeltCell(s, i, j);
    assert x == Row(s.rows[i].key, s.years[j], CleanValue(s.rows[i].cells[j]));
  }

  /** Cell (i, j) of a split table yields long row `x`: its cleaned value is
      not empty, `x` carries row i's key, the year header read as an int and
      the cleaned value read as a float. */
  ghost predicate CellGives(s: SplitTable, i: nat, j: nat, x: LongRow)
    requires s.Rectangular() && i < |s.rows| && j < |s.years|
  {
    && CleanValue(s.rows[i].cells[j]) != ""
    && x.key == s.rows[i].key
    && ParseInt(s.years[j]) == Some(x.year)
    && ParseFloat(CleanValue(s.rows[i].cells[j])) == Some(x.value)
  }

  /** A successful `clean_data` holds exactly the rows the cells yield: one for
      each cell whose cleaned value is not empty, and nothing else. */
  lemma CleanDataRows(t: WideTable, s: SplitTable, x: LongRow)
    requires t.Rectangular() && SplitColumns(t) == Ok(s) && CleanData(t).Ok?
    ensures x in CleanData(t).value <==>
      exists j, i :: 0 <= j < |s.years| && 0 <= i < |s.rows| && CellGives(s, i, j, x)
  {
    if x in CleanData(t).value {
      CleanDataRowFromCell(t, s, x);
    }
    if exists j, i :: 0 <= j < |s.years| && 0 <= i < |s.rows| && CellGives(s, i, j, x) {
      var j, i :| 0 <= j < |s.years| && 0 <= i < |s.rows| && CellGives(s, i, j, x);
      CellReachesOutput(t, s, i, j, x);
    }
  }

  lemma CleanDataRowFromCell(t: WideTable, s: SplitTable, x: LongRow)
    requires t.Rectangular() && SplitColumns(t) == Ok(s) && CleanData(t).Ok?
    requires x in CleanData(t).value
    ensures exists j, i :: 0 <= j < |s.years| && 0 <= i < |s.rows| && CellGives(s, i, j, x)
  {
    assert CastTypes(CastInput(s)) == CleanData(t);
    CastOutputFromCell(s, x);
  }

  lemma CastOutputFromCell(s: SplitTable, x: LongRow)
    requires s.Rectangular() && CastTypes(CastInput(s)).Ok? && x in CastTypes(CastInput(s)).value
    ensures exists j, i :: 0 <= j < |s.years| && 0 <= i < |s.rows| && CellGives(s, i, j, x)
  {
    var y := CastTypesFrom(CastInput(s), x);
    CastInputFromCell(s, y);
    var j, i :| 0 <= j < |s.years| && 0 <= i < |s.rows| &&
      y == Row(s.rows[i].key, s.years[j], CleanValue(s.rows[i].cells[j]));
    CastGives(s, i, j, y, x);
  }

  lemma CastGives(s: SplitTable, i: nat, j: nat, y: TextRow, x: LongRow)
    requires s.Rectangular() && i < |s.rows| && j < |s.years|
    requires y == Row(s.rows[i].key, s.years[j], CleanValue(s.rows[i].cells[j])) && y.value != ""
    requires ParseInt(y.year).Some? && ParseFloat(y.value).Some?
    requires x == Row(y.key, ParseInt(y.year).value, ParseFloat(y.value).value)
    ensures CellGives(s, i, j, x)
  {
  }

  /** Each row of a successful cast comes from an input row that both casts accept. */
  lemma CastTypesFrom(rows: seq<TextRow>, x: LongRow) returns (y: TextRow)
    requires CastTypes(rows).Ok? && x in CastTypes(rows).value
    ensures y in rows && ParseInt(y.year).Some? && ParseFloat(y.value).Some?
    ensures x == Row(y.key, ParseInt(y.year).value, ParseFloat(y.value).value)
  {
    var out := CastTypes(rows).value;
    var k :| 0 <= k < |out| && out[k] == x;
    y := rows[k];
  }

  lemma CellReachesOutput(t: WideTable, s: SplitTable, i: nat, j: nat, x: LongRow)
    requires t.Rectangular() && SplitColumns(t) == Ok(s) && CleanData(t).Ok?
    requires i < |s.rows| && j < |s.years| && CellGives(s, i, j, x)
    ensures x in CleanData(t).value
  {
    var input := CastInput(s);
    var out := CleanData(t).value;
    assert CastTypes(input) == Ok(out);
    CellReachesCast(s, i, j);
    var k :| 0 <= k < |input| && input[k] == Row(s.rows[i].key, s.years[j], CleanValue(s.rows[i].cells[j]));
    assert out[k] == x;
  }

  /** `main` without the load and save: the cleaned table filtered to `region`,
      which defaults to "PT". Every returned row is of that region. */
  function MainPipeline(t: WideTable, region: string := DefaultRegion): (r: Result<seq<LongRow>>)
    requires t.Rectangular()
    ensures r.Ok? <==> CleanData(t).Ok?
    ensures r.Ok? ==> IsSubsequence(r.value, CleanData(t).value)
    ensures r.Ok? ==> forall k :: 0 <= k < |r.value| ==> r.value[k].key.region == region
    ensures r.Ok? ==> |r.value| <= |t.years| * |t.rows|
    ensures r.Ok? ==> forall i :: 0 <= i < |CleanData(t).value| && CleanData(t).value[i].key.region == region ==>
      multiset(r.value)[CleanData(t).value[i]] == multiset(CleanData(t).value)[CleanData(t).value[i]]
  {
    var cleaned :- CleanData(t);
    Ok(FilterRegion(cleaned, region))
  }

  /** A successful `main` holds a row exactly when the row is of `region` and
      some cell of the split table yields it. */
  lemma MainPipelineRows(t: WideTable, s: SplitTable, region: string, x: LongRow)
    requires t.Rectangular() && SplitColumns(t) == Ok(s) && MainPipeline(t, region).Ok?
    ensures x in MainPipeline(t, region).value <==>
      x.key.region == region && exists j, i :: 0 <= j < |s.years| && 0 <= i < |s.rows| && CellGives(s, i, j, x)
  {
    var cleaned := CleanData(t).value;
    assert MainPipeline(t, region).value == FilterRegion(cleaned, region);
    CleanDataRows(t, s, x);
    if x in FilterRegion(cleaned, region) {
      FilterFrom(cleaned, (y: LongRow) => y.key.region == region, x);
    }
    if x.key.region == region && x in cleaned {
      FilterKeeps(cleaned, (y: LongRow) => y.key.region == region, x);
    }
  }
}
