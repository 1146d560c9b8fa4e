/** The tables the cleaning scripts pass between their steps, and the errors
    that abort a run. A pandas DataFrame is modelled by the one shape each
    step produces: the wide table read from the TSV extract, the table with
    its composite key split, and the long table of one row per (key, year). */
module Table {

  /** Header of the composite key column: unit, sex, age and region joined by commas. */
  const KeyColumn: string := "unit,sex,age,geo\\time"

  /** The region every script falls back to. */
  const DefaultRegion: string := "PT"

  datatype Error =
    | MissingColumn(name: string)   // a column lookup by name fails (pandas KeyError / AttributeError)
    | KeyArity(tokens: nat)         // a composite key does not split into exactly four fields
    | YearCast(text: string)        // `int` rejects a year label
    | ValueCast(text: string)       // `float` rejects a value
    | EmptyValueColumn              // the token table built from an empty column has no column 0
    | ValuesNotText                 // `.str` on a melted `value` column that holds no text (pandas AttributeError)

  datatype Result<T> = Ok(value: T) | Err(error: Error) {
    predicate IsFailure() { Err? }

    function PropagateFailure<U>(): Result<U>
      requires Err?
    {
      Err(error)
    }

    function Extract(): T
      requires Ok?
    {
      value
    }
  }

  /** The four category fields of a row, in output column order. */
  datatype Key = Key(unit: string, sex: string, age: string, region: string)

  /** A row of the raw extract: the composite key text and one raw cell per year column. */
  datatype WideRow = WideRow(key: string, cells: seq<string>)

  /** The raw extract: the header of its first column, the year headers of the
      other columns, and the rows. */
  datatype WideTable = WideTable(keyLabel: string, years: seq<string>, rows: seq<WideRow>) {
    /** Every row has one cell per year column, as in any DataFrame. */
    predicate Rectangular()
    {
      forall i :: 0 <= i < |rows| ==> |rows[i].cells| == |years|
    }
  }

  /** A row after the key split: four key columns followed by the year cells. */
  datatype SplitRow = SplitRow(key: Key, cells: seq<string>)

  datatype SplitTable = SplitTable(years: seq<string>, rows: seq<SplitRow>) {
    predicate Rectangular()
    {
      forall i :: 0 <= i < |rows| ==> |rows[i].cells| == |years|
    }
  }

  /** A row of the long table: the key columns, then `year` and `value`. The
      types of those two change as the script casts them. */
  datatype Row<Y, V> = Row(key: Key, year: Y, value: V)

  /** The value column replaced by `f` of itself, every other column kept. */
  function MapValues<Y>(rows: seq<Row<Y, string>>, f: string -> string): (r: seq<Row<Y, string>>)
    ensures |r| == |rows|
    ensures forall i :: 0 <= i < |rows| ==> r[i].key == rows[i].key && r[i].year == rows[i].year
    ensures forall i :: 0 <= i < |rows| ==> r[i].value == f(rows[i].value)
  {
    seq(|rows|, i requires 0 <= i < |rows| => Row(rows[i].key, rows[i].year, f(rows[i].value)))
  }

  /** Every row of a value mapping is the image of an input row. */
  lemma MapValuesFrom<Y>(rows: seq<Row<Y, string>>, f: string -> string, t: Row<Y, string>) returns (y: Row<Y, string>)
    requires t in MapValues(rows, f)
    ensures y in rows && t == Row(y.key, y.year, f(y.value))
  {
    var out := MapValues(rows, f);
    var k :| 0 <= k < |out| && out[k] == t;
    y := rows[k];
  }

  /** The year column replaced by `f` of itself, every other column kept. */
  function MapYears<V>(rows: seq<Row<string, V>>, f: string -> string): (r: seq<Row<string, V>>)
    ensures |r| == |rows|
    ensures forall i :: 0 <= i < |rows| ==> r[i].key == rows[i].key && r[i].value == rows[i].value
    ensures forall i :: 0 <= i < |rows| ==> r[i].year == f(rows[i].year)
  {
    seq(|rows|, i requires 0 <= i < |rows| => Row(rows[i].key, f(rows[i].year), rows[i].value))
  }

  /** `MapValues` as an in-place column assignment on a frame held in an array. */
  method AssignValueColumn<Y>(a: array<Row<Y, string>>, f: string -> string)
    modifies a
    ensures a[..] == MapValues(old(a[..]), f)
  {
    for i := 0 to a.Length
      invariant forall k :: 0 <= k < i ==> a[k] == Row(old(a[k]).key, old(a[k]).year, f(old(a[k]).value))
      invariant forall k :: i <= k < a.Length ==> a[k] == old(a[k])
    {
      a[i] := Row(a[i].key, a[i].year, f(a[i].value));
    }
  }

  /** `MapYears` as an in-place column assignment on a frame held in an array. */
  method AssignYearColumn<V>(a: array<Row<string, V>>, f: string -> string)
    modifies a
    ensures a[..] == MapYears(old(a[..]), f)
  {
    for i := 0 to a.Length
      invariant forall k :: 0 <= k < i ==> a[k] == Row(old(a[k]).key, f(old(a[k]).year), old(a[k]).value)
      invariant forall k :: i <= k < a.Length ==> a[k] == old(a[k])
    {
      a[i] := Row(a[i].key, f(a[i].year), a[i].value);
    }
  }
}
