/** Concrete runs of the pipeline of life_expectancy/life_expectancy/cleaning.py. */
module Scenarios {
  import opened Strings
  import opened Numbers
  import opened Table
  import opened Cleaning

  const PortugalKey: Key := Key("Y", "F", "Y10", "PT")

  /** One wide row for Portugal with an estimated 2019 value and a missing 2020 value. */
  const Extract: WideTable :=
    WideTable(KeyColumn, ["2019 ", "2020 "], [WideRow("Y,F,Y10,PT", ["72.3 e", ": "])])

  /** The estimated 2019 value is kept without its flag as 72.3; the missing
      2020 value leaves no row. */
  lemma PortugalScenario()
    ensures Extract.Rectangular()
    ensures MainPipeline(Extract, "PT") == Ok([Row(PortugalKey, 2019, Finite(false, 723, -1))])
  {
    var s := SplitPortugal();
    var long := MeltPortugal(s);
    var x := Row(PortugalKey, "2019 ", "72.3");
    var input := CleanPortugal(long);
    assert CastInput(s) == [x];
    var y := CastPortugal(x);
    CastOne(x);
    assert CleanData(Extract) == Ok([y]);
    KeepOne(y, "PT");
  }

  lemma CastOne(x: TextRow)
    requires ParseInt(x.year).Some? && ParseFloat(x.value).Some?
    ensures CastTypes([x]) == Ok([Row(x.key, ParseInt(x.year).value, ParseFloat(x.value).value)])
  {
    CastOneBy(x, ParseInt, ParseFloat);
  }

  lemma CastOneBy(x: TextRow, year: string -> Option<int>, value: string -> Option<Number>)
    requires year(x.year).Some? && value(x.value).Some?
    ensures CastTypesBy([x], year, value) == Ok([Row(x.key, year(x.year).value, value(x.value).value)])
  {
    var r := CastTypesBy([x], year, value);
    assert r.Ok? && |r.value| == 1;
    assert r.value[0] == Row(x.key, year(x.year).value, value(x.value).value);
    assert r.value == [r.value[0]];
  }

  lemma KeepOne(y: LongRow, region: string)
    requires y.key.region == region
    ensures FilterRegion([y], region) == [y]
  {
    assert [y][1..] == [];
  }

  lemma SplitPortugal() returns (s: SplitTable)
    ensures Extract.Rectangular()
    ensures SplitColumns(Extract) == Ok(s)
    ensures s == SplitTable(["2019 ", "2020 "], [SplitRow(PortugalKey, ["72.3 e", ": "])])
  {
    KeyPortugal();
    s := SplitOneRow(Extract, PortugalKey);
  }

  /** A one-row extract with a well-formed key splits into that key and the row's cells. */
  lemma SplitOneRow(t: WideTable, k: Key) returns (s: SplitTable)
    requires t.Rectangular() && t.keyLabel == KeyColumn && |t.rows| == 1 && KeyOf(t.rows[0].key) == Ok(k)
    ensures SplitColumns(t) == Ok(s) && s == SplitTable(t.years, [SplitRow(k, t.rows[0].cells)])
  {
    assert [t.rows[0]] == t.rows;
    assert KeysOf(t.rows[1..]) == Ok([]);
    assert [k] + [] == [k];
    s := AttachCells(t, [k]);
  }

  lemma KeyPortugal()
    ensures KeyOf("Y,F,Y10,PT") == Ok(PortugalKey)
  {
    JoinPortugal();
    KeyOfJoinKey(PortugalKey);
  }

  lemma JoinPortugal()
    ensures JoinKey(PortugalKey) == "Y,F,Y10,PT" && CommaFree(PortugalKey)
  {
    var f := Fields(PortugalKey);
    assert Join(f[3..], ',') == "PT";
    assert Join(f[2..], ',') == "Y10,PT";
    assert Join(f[1..], ',') == "F,Y10,PT";
  }

  lemma MeltPortugal(s: SplitTable) returns (long: seq<TextRow>)
    requires s == SplitTable(["2019 ", "2020 "], [SplitRow(PortugalKey, ["72.3 e", ": "])])
    ensures Unpivot(s) == long
    ensures long == [Row(PortugalKey, "2019 ", "72.3 e"), Row(PortugalKey, "2020 ", ": ")]
  {
    long := Unpivot(s);
    assert long[Pos(0, 0, 1)] == MeltCell(s, 0, 0);
    assert long[Pos(1, 0, 1)] == MeltCell(s, 0, 1);
  }

  lemma CleanPortugal(long: seq<TextRow>) returns (input: seq<TextRow>)
    requires long == [Row(PortugalKey, "2019 ", "72.3 e"), Row(PortugalKey, "2020 ", ": ")]
    ensures RemoveEmptyValues(StripValues(long)) == input
    ensures input == [Row(PortugalKey, "2019 ", "72.3")]
  {
    var stripped := StripPortugal(long);
    input := RemoveEmptyValues(stripped);
    DropSecond(stripped[0], stripped[1]);
  }

  lemma DropSecond(a: TextRow, b: TextRow)
    requires a.value != "" && b.value == ""
    ensures RemoveEmptyValues([a, b]) == [a]
  {
    assert [a, b][1..] == [b] && [b][1..] == [];
  }

  lemma StripPortugal(long: seq<TextRow>) returns (stripped: seq<TextRow>)
    requires long == [Row(PortugalKey, "2019 ", "72.3 e"), Row(PortugalKey, "2020 ", ": ")]
    ensures StripValues(long) == stripped
    ensures stripped == [Row(PortugalKey, "2019 ", "72.3"), Row(PortugalKey, "2020 ", "")]
  {
    MapTwo(long[0], long[1], CleanValue);
    CleanValueEstimated();
    CleanValueSentinel();
    stripped := [Row(PortugalKey, "2019 ", "72.3"), Row(PortugalKey, "2020 ", "")];
  }

  /** A value mapping of two rows maps each of them. */
  lemma MapTwo(a: TextRow, b: TextRow, f: string -> string)
    ensures MapValues([a, b], f) == [Row(a.key, a.year, f(a.value)), Row(b.key, b.year, f(b.value))]
  {
    var r := MapValues([a, b], f);
    assert |r| == 2;
    assert r[0] == Row(a.key, a.year, f(a.value));
    assert r[1] == Row(b.key, b.year, f(b.value));
  }

  lemma CastPortugal(x: TextRow) returns (y: LongRow)
    requires x == Row(PortugalKey, "2019 ", "72.3")
    ensures ParseInt(x.year) == Some(2019) && ParseFloat(x.value) == Some(Finite(false, 723, -1))
    ensures y == Row(PortugalKey, 2019, Finite(false, 723, -1))
  {
    Year2019();
    Value723();
    y := Row(PortugalKey, 2019, Finite(false, 723, -1));
  }

  lemma Year2019()
    ensures ParseInt("2019 ") == Some(2019)
  {
    assert IntToString(2019) == "2019" by {
      Numeral2019();
    }
    ParseIntRoundTrip(2019, "", " ");
    assert "" + "2019" + " " == "2019 ";
  }

  lemma Numeral2019()
    ensures NatToString(2019) == "2019"
  {
    assert NatToString(2) == "2";
    assert NatToString(20) == "20";
    assert NatToString(201) == "201";
  }

  lemma Value723()
    ensures ParseFloat("72.3") == Some(Finite(false, 723, -1))
  {
    var whole, fraction := "72", "3";
    ParseFloatFixedPoint(whole, fraction);
    Concat723(whole, fraction);
    Digits723(whole + fraction);
  }

  lemma Concat723(whole: string, fraction: string)
    requires whole == "72" && fraction == "3"
    ensures whole + "." + fraction == "72.3" && whole + fraction == "723"
  {
  }

  lemma Digits723(d: string)
    requires d == "723"
    ensures AllDigits(d) && DigitsValue(d) == 723
  {
    var d2, d1 := d[..2], d[..1];
    assert d2[..1] == d1 && d1[..0] == [];
    assert DigitsValue(d1) == 7;
    assert DigitsValue(d2) == 72;
  }

  /** A key of three fields aborts the run at the split, before any value is
      looked at. */
  lemma ThreeFieldKeyFails(cells: seq<string>, years: seq<string>, region: string)
    requires |cells| == |years|
    ensures MainPipeline(WideTable(KeyColumn, years, [WideRow("Y,F,PT", cells)]), region) == Err(KeyArity(3))
  {
    ThreeFields();
    OneRowKeyFails(WideTable(KeyColumn, years, [WideRow("Y,F,PT", cells)]));
  }

  lemma ThreeFields()
    ensures KeyOf("Y,F,PT") == Err(KeyArity(3))
  {
    var three := JoinThree();
    KeyOfArity(three);
  }

  lemma JoinThree() returns (three: seq<string>)
    ensures |three| == 3 && Join(three, ',') == "Y,F,PT"
    ensures forall i :: 0 <= i < |three| ==> ',' !in three[i]
  {
    three := ["Y", "F", "PT"];
    assert Join(three[2..], ',') == "PT";
    assert Join(three[1..], ',') == "F,PT";
  }

  /** A one-row extract whose key does not split into four fields fails at the split. */
  lemma OneRowKeyFails(t: WideTable)
    requires t.Rectangular() && t.keyLabel == KeyColumn && |t.rows| == 1 && KeyOf(t.rows[0].key).Err?
    ensures SplitColumns(t) == Err(KeyOf(t.rows[0].key).error)
  {
  }
}
