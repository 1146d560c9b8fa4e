# Life-expectancy cleaning pipeline in Dafny

This project models the cleaning pipeline for the Eurostat life-expectancy extract. The extract is a wide table. Its first column, `unit,sex,age,geo\time`, holds a composite key. Every further column holds one year's values, written as text with annotation flags: ": " for not available, "e" for estimated, "p" for provisional, "b" for a break in series.

The pipeline does five things:

- It splits the key into `unit`, `sex`, `age` and `region`.
- It melts the year columns into long rows `(key, year, value)`.
- It cleans and drops the missing values.
- It casts `year` to an integer and `value` to a float.
- It keeps the rows of one region, "PT" by default.

The repository carries five variants of this pipeline. Each one is a module here, built on four shared modules:

- `Strings`: Python's `str.split(sep)`, which keeps empty pieces. Also `str.strip(chars)`, the argument-less `str.strip()` over Python's whitespace characters, and the first space-separated token.
- `Sequences`: boolean-mask selection (`Filter`) and the subsequence relation.
- `Numbers`: Python's `int(str)` and `float(str)` as text parsers. A float is kept as an exact decimal (`Finite(negative, mantissa, exponent)`), or as infinity or NaN.
- `Table`: the wide table, rows, keys and errors, and the column assignments that overwrite a frame's column in place. Those are array methods proved against `MapValues` and `MapYears`.

The five variants:

- `Cleaning` covers life_expectancy/life_expectancy/cleaning.py. Each stage is a function, and `clean_data` chains them. Its proofs say what the result is: a row is in the result exactly when some cell yields it (`CleanDataRows`).
- `CleaningWithClass` covers life_expectancy/cleaning_with_class.py. The class `LifeExpectancy` has a `df` field that every step overwrites. A step that raises leaves the field as the previous step left it, and the model states that state.
- `Temp` covers life_expectancy/temp.py. The class `LifeExpectancyData` strips the year labels and the flags and casts only `year`. It drops empty values only in the region filter.
- `LegacyCleaning` covers life_expectancy/cleaning.py. It casts `year` first and drops only the exact sentinel ": ". It keeps the text before the first space of each value, then casts `value`.
- `AssignmentCleaning` covers assignments/life_expectancy/cleaning.py. It is the same older pipeline with the region fixed to "PT".

A raised exception is modelled as `Err(e)` of a `Result`. The error kinds are:

- `MissingColumn`: a column lookup failed.
- `KeyArity(n)`: a key split into n ≠ 4 fields.
- `YearCast`: `int` rejected a year label.
- `ValueCast`: `float` rejected a value.
- `EmptyValueColumn`: the older scripts look up column 0 of an empty frame.
- `ValuesNotText`: a `.str` step met a `value` column without text. This happens when the table has no year column: the melt then has an empty `value` column that pandas types as float.

Reading the file and writing the CSV are left out. Each pipeline takes the table as it is read and returns the table it would write.

Some behaviour of the code is easy to miss, and the model keeps it:

- No variant checks the requested region against a list of known regions. The region is compared as a plain string, so an unknown region gives an empty result.
- `year` is cast with `int`, which accepts zero, negative numbers, leading zeros and surrounding whitespace (`ParseIntSigned`).
- `value` is cast with `float`, which also accepts "inf", "infinity" and "nan" in any case (`ParseFloatSpecial`), and scientific notation (`ScientificUnsigned`, `ScientificWholeUnsigned`). `ParseFloat` states exactly which texts it reads, as the grammar `FloatText`; "72.3 e", "1 2", "1e", "." and "infin" are among those refused.
- In life_expectancy/temp.py the key is split with `expand=True`, which makes one column per field of the longest key. An extract with a header and no rows therefore has no key columns, and the melt fails with a missing `unit` column (`HeaderOnlyFails`). The other variants name their four key columns explicitly and give an empty result instead.
- Only values that are empty after stripping are dropped; the older scripts drop only the exact ": ". Any other unreadable value aborts the whole cast (`ColonCellFails`).

## Model

| member | source | states |
|---|---|---|
| Strings.Split | life_expectancy/life_expectancy/cleaning.py:26 | gives at least one piece, no piece holds the separator, and joining the pieces with it gives the input back |
| Strings.SplitJoin | life_expectancy/life_expectancy/cleaning.py:26 | splitting a join of separator-free pieces returns exactly those pieces |
| Strings.Strip | life_expectancy/life_expectancy/cleaning.py:45 | the result is a contiguous piece of the input; everything removed before and after it is in the character set; the result neither starts nor ends with such a character |
| Strings.StripUnique | life_expectancy/life_expectancy/cleaning.py:45 | any piece with those two properties is the strip result, so the contract of `Strip` determines it |
| Strings.StripIdempotent | life_expectancy/life_expectancy/cleaning.py:45 | stripping twice gives what stripping once gives |
| Strings.StripPadded | life_expectancy/life_expectancy/cleaning.py:45 | flag characters around a bare text are removed and the text is kept |
| Strings.StripSameSet | life_expectancy/temp.py:55 | two character lists with the same members strip alike, so a doubled space changes nothing |
| Strings.StripSpace | life_expectancy/temp.py:54 | the argument-less strip removes exactly the surrounding whitespace |
| Strings.FirstToken | life_expectancy/cleaning.py:44 | column 0 of the space split: the longest space-free prefix, ended by a space or by the end of the text; the whole text when it has no space |
| Sequences.Filter | life_expectancy/life_expectancy/cleaning.py:53 | a boolean mask keeps exactly the elements the predicate accepts, each as often as in the input, in their order |
| Sequences.FilterIdempotent | life_expectancy/life_expectancy/cleaning.py:64 | applying the same mask twice keeps what applying it once keeps |
| Sequences.FilterBoth | life_expectancy/temp.py:64-67 | a mask of two conditions joined with `&` selects what the two masks applied one after the other select |
| Numbers.ParseSignedDigits | life_expectancy/life_expectancy/cleaning.py:58 | a number is read exactly when the text is one optional sign followed by one or more digits |
| Numbers.ParseInt | life_expectancy/life_expectancy/cleaning.py:58 | `int` reads a text exactly when, with surrounding whitespace and one optional sign removed, one or more digits remain |
| Numbers.ParseFloat | life_expectancy/life_expectancy/cleaning.py:58 | `float` reads a text exactly when it is `FloatText`: whitespace around an optional sign and then a special name or a decimal numeral (a mantissa with at most one point and at least one digit, optionally followed by 'e' or 'E' and a signed exponent) |
| Numbers.UnsignedGrammar | life_expectancy/life_expectancy/cleaning.py:58 | the text after the sign is read exactly when it is a special name or a decimal numeral |
| Numbers.DecimalGrammar | life_expectancy/life_expectancy/cleaning.py:58 | a decimal numeral is read exactly when it is a mantissa, or a mantissa, a marker and an exponent |
| Numbers.MantissaGrammar | life_expectancy/life_expectancy/cleaning.py:58 | a mantissa is read exactly when it is digits, or digits around one point with at least one digit |
| Numbers.ExponentGrammar | life_expectancy/life_expectancy/cleaning.py:58 | an exponent is read exactly when it is one or more digits with an optional sign |
| Numbers.DecimalChars | life_expectancy/life_expectancy/cleaning.py:58 | a decimal numeral holds only digits, '.', 'e', 'E', '+' and '-' |
| Numbers.TrailingMarker | life_expectancy/life_expectancy/cleaning.py:58 | a text ending in 'e' or 'E' is no decimal numeral |
| Numbers.BareRejected | life_expectancy/life_expectancy/cleaning.py:58 | an unpadded, unsigned text with a character no numeral holds is refused, unless it is a special name |
| Numbers.SpacedMarkerRejected | life_expectancy/life_expectancy/cleaning.py:58 | "72.3 e" is refused |
| Numbers.SpacedDigitsRejected | life_expectancy/life_expectancy/cleaning.py:58 | "1 2" is refused |
| Numbers.MarkerAloneRejected | life_expectancy/life_expectancy/cleaning.py:58 | "1e" is refused |
| Numbers.PointAloneRejected | life_expectancy/life_expectancy/cleaning.py:58 | "." is refused |
| Numbers.CutNameRejected | life_expectancy/life_expectancy/cleaning.py:58 | "infin" is refused |
| Numbers.ParseIntRoundTrip | life_expectancy/life_expectancy/cleaning.py:58 | `int` reads back every integer's decimal numeral, also with whitespace around it |
| Numbers.ParseIntSigned | life_expectancy/life_expectancy/cleaning.py:58 | `int` reads an optional sign and one or more digits, leading zeros included and with whitespace around them, as the signed value of the digits |
| Numbers.ParseFloatSigned | life_expectancy/life_expectancy/cleaning.py:58 | `float` ignores the whitespace around a text and reads an optional sign in front of the rest; the result is the rest read with that sign |
| Numbers.ParseFloatSpecial | life_expectancy/life_expectancy/cleaning.py:58 | "inf", "infinity" and "nan" in any mix of case, signed and padded, are infinity with the given sign and NaN |
| Numbers.ParseFloatWhole | life_expectancy/life_expectancy/cleaning.py:58 | a signed, padded integer numeral is a float with the digits' value, the sign and exponent zero |
| Numbers.ScientificUnsigned | life_expectancy/life_expectancy/cleaning.py:58 | "W.F", then 'e' or 'E', then an exponent X with optional sign, is the digits of W and F as one integer times ten to X minus the length of F |
| Numbers.ScientificWholeUnsigned | life_expectancy/life_expectancy/cleaning.py:58 | digits D, then 'e' or 'E', then an exponent X with optional sign, is the digits of D times ten to X |
| Numbers.ScientificBare | life_expectancy/life_expectancy/cleaning.py:58 | such a numeral has no whitespace at its ends and no leading sign, so `ParseFloatSigned` carries its value to the signed, padded text |
| Numbers.ParseFloatFixedPoint | life_expectancy/life_expectancy/cleaning.py:58 | `float` reads "W.F" as the digits of W and F as one integer scaled down by the length of F |
| Numbers.ParseFloatEmpty | life_expectancy/life_expectancy/cleaning.py:50-58 | the empty string is not a float, so the empty values must be dropped before the cast |
| Table.MapValues | life_expectancy/life_expectancy/cleaning.py:45 | a column assignment to `value` keeps the number of rows, their order, keys and years, and replaces each value by its image |
| Table.MapYears | life_expectancy/temp.py:54 | the same for the `year` column |
| Table.AssignValueColumn | life_expectancy/cleaning.py:44 | overwriting the `value` column in place leaves the frame equal to `MapValues` of its old contents |
| Table.AssignYearColumn | life_expectancy/temp.py:54 | overwriting the `year` column in place leaves the frame equal to `MapYears` of its old contents |
| Cleaning.KeyOf | life_expectancy/life_expectancy/cleaning.py:26-27 | a composite key is read exactly when it splits into four fields; the fields hold no comma and joining them gives the key text back; otherwise the error reports the arity |
| Cleaning.KeyOfJoinKey | life_expectancy/life_expectancy/cleaning.py:26-27 | reading the text a comma-free key is written as gives that key back |
| Cleaning.KeyOfArity | life_expectancy/life_expectancy/cleaning.py:26-27 | comma-free fields of any count other than four, joined with commas, are refused with exactly that count as the reported arity |
| Cleaning.SplitKeys | life_expectancy/life_expectancy/cleaning.py:26-27 | fails when the key column is missing, or when some key is not four fields, with that key's field count as the reported arity; otherwise gives each row's fields in order |
| Cleaning.SplitColumns | life_expectancy/life_expectancy/cleaning.py:24-31 | succeeds exactly when the keys split; keeps the year headers, the number of rows and each row's cells, and puts the split key in front |
| Cleaning.Unpivot | life_expectancy/life_expectancy/cleaning.py:37-39 | R rows of K years give K * R long rows; row j * R + i is the key of row i, year header j and cell (i, j) |
| Cleaning.UnpivotMember | life_expectancy/life_expectancy/cleaning.py:37-39 | a long row is in the melt exactly when it is the melt of some cell |
| Cleaning.CleanValue | life_expectancy/life_expectancy/cleaning.py:45 | flag characters " epb:" are removed from both ends and nowhere else |
| Cleaning.CleanValueIdempotent | life_expectancy/life_expectancy/cleaning.py:45 | cleaning a cleaned value changes nothing |
| Cleaning.CleanValueEstimated | life_expectancy/life_expectancy/cleaning.py:45 | "72.3 e" becomes "72.3" |
| Cleaning.CleanValueManyFlags | life_expectancy/life_expectancy/cleaning.py:45 | "0.7 bep" becomes "0.7" |
| Cleaning.CleanValueSentinel | life_expectancy/life_expectancy/cleaning.py:45 | the not-available sentinel ": " becomes empty |
| Cleaning.CleanValueColon | life_expectancy/life_expectancy/cleaning.py:45 | a bare ":" becomes empty too |
| Cleaning.CleanValueColumn | life_expectancy/life_expectancy/cleaning.py:42-47 | the value column of the given frame is overwritten with its cleaned values, and that same frame is returned |
| Cleaning.RemoveEmptyValues | life_expectancy/life_expectancy/cleaning.py:53 | keeps exactly the rows with a non-empty value, each as often as before, in their order |
| Cleaning.CastYears | life_expectancy/cleaning.py:36 | succeeds exactly when every year label is an int; then it keeps every row in order with its year read and its key and value unchanged; otherwise it reports a failing label |
| Cleaning.CastValues | life_expectancy/cleaning.py:47 | the same for the float cast of `value` |
| Cleaning.CastTypes | life_expectancy/life_expectancy/cleaning.py:58 | succeeds exactly when every row's year and value both parse, and then casts every row in order; an error names a bad year when there is one, and otherwise a bad value |
| Cleaning.CastTypesFrom | life_expectancy/life_expectancy/cleaning.py:58 | every row of a successful cast is the cast of an input row both parsers accept |
| Cleaning.FilterRegion | life_expectancy/life_expectancy/cleaning.py:61-64 | keeps exactly the rows whose region equals the argument, each as often as before, in their order |
| Cleaning.FilterRegionIdempotent | life_expectancy/life_expectancy/cleaning.py:61-64 | filtering a filtered table for the same region changes nothing |
| Cleaning.CleanData | life_expectancy/life_expectancy/cleaning.py:67-77 | a failed split is the run's error; after a split, a table without year columns fails on the value cleaning, and otherwise only a year or value cast can fail; a result has at most one row per cell |
| Cleaning.CleanedValuesBare | life_expectancy/life_expectancy/cleaning.py:45-53 | after cleaning and dropping, every value is non-empty and neither starts nor ends with a flag character |
| Cleaning.CastSeesCleanValues | life_expectancy/life_expectancy/cleaning.py:70-77 | the cast in `clean_data` never sees an empty value or a leftover flag at either end |
| Cleaning.CellReachesCast | life_expectancy/life_expectancy/cleaning.py:70-75 | a cell whose cleaned value is non-empty reaches the cast with its key, year header and cleaned value |
| Cleaning.CastInputFromCell | life_expectancy/life_expectancy/cleaning.py:70-75 | every row reaching the cast comes from a cell, with its value cleaned and non-empty |
| Cleaning.CleanDataRows | life_expectancy/life_expectancy/cleaning.py:67-77 | a successful run holds a row exactly when some cell yields it: non-empty cleaned value, same key, year header read as int, cleaned value read as float |
| Cleaning.MainPipeline | life_expectancy/life_expectancy/cleaning.py:80-97 | succeeds exactly when `clean_data` does; the result is a subsequence of its output, all of the requested region (default "PT"), and holds each row of that region as often as the output does |
| Cleaning.MainPipelineRows | life_expectancy/life_expectancy/cleaning.py:80-97 | a successful run holds a row exactly when it is of the region and some cell yields it |
| CleaningWithClass.LifeExpectancy.constructor | life_expectancy/cleaning_with_class.py:23-25 | stores the region (default "PT") and the table as read |
| CleaningWithClass.LifeExpectancy.SplitColumnsIntoSeveral | life_expectancy/cleaning_with_class.py:44-56 | on success the field holds the split table; on failure it reports the error and leaves the field unchanged |
| CleaningWithClass.LifeExpectancy.UnpivotDataframe | life_expectancy/cleaning_with_class.py:58-64 | the field becomes the melt of the split table, with years times rows long rows, marked as text exactly when there is a year column |
| CleaningWithClass.LifeExpectancy.RemoveNans | life_expectancy/cleaning_with_class.py:66-74 | on a text column the field becomes the cleaned rows with an empty value dropped, a subsequence in which every value is non-empty and free of flags at both ends; on a column without text the error is reported and the field kept |
| CleaningWithClass.LifeExpectancy.CastTypes | life_expectancy/cleaning_with_class.py:77-79 | the field becomes the cast table, or keeps the long table and the error is reported |
| CleaningWithClass.LifeExpectancy.FilterRegion | life_expectancy/cleaning_with_class.py:81-84 | the field keeps the rows of the object's region, in order |
| CleaningWithClass.LifeExpectancy.PreprocessData | life_expectancy/cleaning_with_class.py:86-101 | ends with the functional pipeline's result in the field, or with its error; after a failed split the raw table remains, without year columns the melt remains, and after a failed cast the cleaned long table remains |
| CleaningWithClass.RunMain | life_expectancy/cleaning_with_class.py:110-128 | the object-based run computes what the functional `main` computes |
| Temp.TempFlagsAreFlags | life_expectancy/temp.py:55 | stripping " epb: " is the flag cleaning of the other variants |
| Temp.StripThenParseInt | life_expectancy/temp.py:54-58 | stripping the year labels before `int` changes no cast result |
| Temp.PreparedCast | life_expectancy/temp.py:51-59 | the year cast of the prepared melt succeeds exactly when every year label is an int, and gives each row its year as int and its cleaned value as text, in order |
| Temp.RegionRows | life_expectancy/temp.py:62-67 | keeps exactly the rows of the region with a non-empty value, each as often as before, in order |
| Temp.RegionRowsInTwoSteps | life_expectancy/temp.py:62-67 | the combined mask equals dropping empty values and then filtering the region |
| Temp.LifeExpectancyData.constructor | life_expectancy/temp.py:11-12 | the object holds the table as read |
| Temp.LifeExpectancyData.GetLifeExpectancyDf | life_expectancy/temp.py:19-21 | returns the stored table |
| Temp.LifeExpectancyData.SetLifeExpectancyDf | life_expectancy/temp.py:23-25 | the stored table becomes the argument |
| Temp.LifeExpectancyData.SplitColumnIntoSeveral | life_expectancy/temp.py:27-36 | gives the split keys of the stored raw table, field by field from the comma split, or a missing-column error once the table is typed |
| Temp.LifeExpectancyData.CleanDataframe | life_expectancy/temp.py:38-49 | succeeds exactly when the stored table is raw, splits and has a row; a table without rows fails in the melt, its expand split having no key columns; the result is the melt of the split table, years times rows long |
| Temp.LifeExpectancyData.CastColumnsToCorrectTypes | life_expectancy/temp.py:51-59 | stores the year-cast prepared melt, or reports the split error, the melt error of a table without rows, the missing text of a table without year columns or the cast error, and keeps the stored table |
| Temp.LifeExpectancyData.FilterDatasetByRegion | life_expectancy/temp.py:62-67 | of a typed table, the rows of the region with a value; of a raw table, a missing `region` column |
| Temp.TempPipeline | life_expectancy/temp.py:70-80 | a failed key split is the run's error; a table without rows fails in the melt; a table without year columns fails on the value strip; otherwise a failed year cast is the run's error, and no other error occurs; every row written is of the region and has a non-empty value |
| Temp.HeaderOnlyFails | life_expectancy/temp.py:27-49 | an extract with a header and no rows fails in the melt with the first `id_vars` column missing |
| Temp.CleanData | life_expectancy/temp.py:70-80 | the object-based run computes `TempPipeline` |
| Temp.TempPipelineRows | life_expectancy/temp.py:70-80 | a successful run holds a row exactly when it is of the region and some cell yields it: same key, year header read as int, cleaned value non-empty |
| LegacyCleaning.DropMissing | life_expectancy/cleaning.py:41 | keeps exactly the rows whose value is not ": ", each as often as before, in order |
| LegacyCleaning.FirstTokens | life_expectancy/cleaning.py:44 | fails exactly when no row is left; otherwise each value becomes its first token |
| LegacyCleaning.FirstTokenExamples | life_expectancy/cleaning.py:44 | "72.3 e" gives "72.3", and "72.3" stays as it is |
| LegacyCleaning.Pipeline | life_expectancy/cleaning.py:23-50 | a failed key split is the run's error, and so is a failed year cast after it; a table without year columns fails on the first-token step; every row kept is of the region, with at most one row per cell |
| LegacyCleaning.CleanData | life_expectancy/cleaning.py:9-54 | the step-by-step run with the in-place value overwrite computes `Pipeline` |
| LegacyCleaning.OverwriteValues | life_expectancy/cleaning.py:43-44 | overwriting the value column in place, row by row, leaves every row with its key and year and the first space-separated token of its value |
| LegacyCleaning.BadYearFails | life_expectancy/cleaning.py:36 | for any region, a year label `int` rejects fails the run with a year error, whatever the values hold |
| LegacyCleaning.ColonCellFails | life_expectancy/cleaning.py:41-47 | with readable years, a bare ":" cell survives the sentinel drop and fails the float cast |
| LegacyCleaning.ColonRowFails | life_expectancy/cleaning.py:41-47 | a ":" value left after the year cast makes the value cast fail |
| LegacyCleaning.AllMissingFails | life_expectancy/cleaning.py:41-44 | with some year column, readable years and every cell ": ", no row is left and the column-0 lookup fails |
| LegacyCleaning.PipelineRows | life_expectancy/cleaning.py:23-50 | a successful run holds a row exactly when it is of the region and some cell yields it: not ": ", same key, year header read as int, first token read as float |
| AssignmentCleaning.CleanData | assignments/life_expectancy/cleaning.py:8-53 | computes the older pipeline for region "PT", so every row kept is Portuguese |
| Scenarios.PortugalScenario | life_expectancy/life_expectancy/cleaning.py:67-97 | a Portuguese row with "72.3 e" for 2019 and ": " for 2020 gives the single row (2019, 72.3) |
| Scenarios.ThreeFieldKeyFails | life_expectancy/life_expectancy/cleaning.py:24-31 | a key of three fields aborts the run with a key-arity error, whatever the cells hold |

## Left out

- Reading the tab-separated extract, writing the CSV, `load_save` and the output file names are left out. So are `save_dataframe_to_csv` and the `argparse` entry points. Each pipeline takes the table as read and returns the table it would write.
- Type inference when pandas reads the file is left out. Every header and cell is text, and an empty cell that pandas would read as NaN is not modelled.
- `reset_index(drop=True)` is left out: rows are sequences, and their positions are the index.
- Error values are kinds, not pandas' exception messages.
- Floats are exact decimals, not binary doubles, so rounding is not modelled.
- Numbers.ParseSignedDigits: does not accept underscores between digits or non-ASCII digits.
- Numbers.ParseFloat: does not accept underscores between digits or non-ASCII digits.
- Cleaning.SplitKeys: treats any key that does not split into four fields as an error. pandas pads short key lists with missing fields when at least one key has four fields, and that padding is not modelled. The arity reported is that of some key, the first bad one; pandas reports the widest row's field count.
- Numbers.ParseInt: reads an unbounded integer. pandas' `astype('int')` casts to int64 and raises OverflowError on a year outside that range, and that overflow is not modelled.
- Temp.LifeExpectancyData.SplitColumnIntoSeveral: treats any key that does not split into four fields as an error. With `expand=True`, pandas pads a short key with missing fields and leaves the extra fields of a long key in unnamed columns that the melt ignores.
- CleaningWithClass.LifeExpectancy.constructor: the docstring allows a region of None for "all regions". The code would compare with None and keep nothing, and the model takes the region as a string only.
