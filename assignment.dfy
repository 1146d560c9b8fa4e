/** assignments/life_expectancy/cleaning.py: the older pipeline with the region
    written into the code instead of taken as an argument. */
module AssignmentCleaning {
  import opened Table
  import opened Cleaning
  import LegacyCleaning

  /** The only region this script keeps. */
  const Region: string := "PT"

  /** `clean_data()` without the load and the save. No parameter selects the
      region: every row it keeps is a Portuguese one. */
  method CleanData(t: WideTable) returns (r: Result<seq<LongRow>>)
    requires t.Rectangular()
    ensures r == LegacyCleaning.Pipeline(t, Region)
    ensures r.Ok? ==> forall k :: 0 <= k < |r.value| ==> r.value[k].key.region == "PT"
  {
    r := LegacyCleaning.CleanData(t, Region);
  }
}
