# Immunisation records ETL — transform stage in Dafny

The notebook `etl.py` loads a table of school immunisation records (year,
zone, vaccine, eligible and immunised counts, coverage, a 95% confidence
interval), normalises it with a chain of Spark DataFrame rewrites and writes
the result to a table. This project models the normalisation chain and
proves what each stage guarantees:

1. the header canonicaliser `to_snake_case` and the loop that renames every
   column with it;
2. the count coercion of `no_immunized` and `no_eligible` (remove every `,`,
   cast to int, null when the text is not an integer);
3. the rescaling of `pct_coverage` by 100 into `decimal(4,1)`;
4. the split of `95_pct_ci` on `-` into `lower_95_pct_ci` and
   `upper_95_pct_ci`, both `decimal(4,1)`, followed by dropping `95_pct_ci`;
5. the derivation of `vaccine_group`: the text before the first `" - "`,
   forced to `"MEN-C"` when it starts with `MEN-C`.

A data frame is a value `Frame(columns, rows)`. The notebook rebinds `df`
after each step; each step here is a function from a frame to a frame or
to the schema error Spark would raise (a column name that refers to no
column, or to more than one). The two `for` loops of the notebook (the
rename loop and the count loop) are methods with `while` loops, proved equal
to declarative functions; `Etl.Transform` runs all stages and is proved equal
to `Etl.Pipeline`.

The frame operations follow Spark's default behaviour, with names restricted
to ASCII. Column names are compared without regard to ASCII letter case. `withColumnRenamed` and `drop`
act on every column the name refers to and do nothing when there is none.
`withColumn` replaces every column the name refers to, giving it the new
spelling, or appends a column at the end. A column named inside an
expression (`F.col`, `F.split`, `F.regexp_replace`) must refer to exactly one
column. Because the canonical name depends only on the lower-cased name
and is idempotent, the rename loop gives every column its own canonical
name even when one rename also hits a column renamed earlier
(`Etl.RenameColumns`).

Cells are `Value = Null | Str | Int | Double | Fixed`. `Fixed(t)` is a
`decimal(4,1)` holding `t` tenths. The cast to `decimal(4,1)` rounds half
away from zero. A value that needs more than four digits becomes null,
which is Spark's behaviour outside ANSI mode.

Modules:

- `Wrappers`: `Option` and `Result`.
- `Text`: ASCII lower-casing, finding a separator, `split`, removing a character.
- `Numbers`: digit strings, the int and decimal text grammars, printed forms, rounding.
- `Header`: `to_snake_case` and its character-by-character reading.
- `Cells`: cell values and casts.
- `Expressions`: the per-cell column expressions.
- `Frames`: the Spark frame operations.
- `Etl`: the stages, the two loops and the pipeline.
- `Scenarios`: worked instances on the data set's headers and cell texts.
- `DataSet`: the whole transform on the data set's own seven headers, and one record taken through it.

## Model

| member | source | states |
|---|---|---|
| Header.SpaceBeforeSymbols | etl.py:153 | The first substitution only inserts text: the name never gets shorter. |
| Header.SpaceBeforeSymbolsOfPlain | etl.py:153 | A name without `#` or `%` gets nothing inserted. |
| Header.Replacement | etl.py:155-163 | Every matched character is replaced by a non-empty text. |
| Header.ReplaceSpecials | etl.py:165 | After the second substitution no `#`, `%` or space is left, and the name never gets shorter. |
| Header.ReplaceSpecialsOfPlain | etl.py:165 | A name without `#`, `%` or space is left unchanged by the second substitution. |
| Header.SnakeCase | etl.py:152-165 | The canonical name has no `#`, `%` or space and no upper-case letter, and it is never shorter than the name. |
| Header.SnakeCaseIsPieceWise | etl.py:152-165 | The canonical name, read character by character: `#` gives "no", `%` gives "pct", a space gives "_", any other character is only lower-cased, and a word character directly followed by `#` or `%` gets an "_" after it. Inserted text is never rescanned. |
| Header.SnakeCaseStepPair | etl.py:153 | A word character followed by `#` or `%` becomes the lower-cased character, "_", then the symbol's replacement; the scan resumes after the symbol. |
| Header.SnakeCaseStepOne | etl.py:153-165 | In every other case only the first character is rewritten and the rest is canonicalised on its own. |
| Header.ReplaceSpecialsAppend | etl.py:155-165 | The substitution of `#`, `%` and space works on each part of a name separately: one pass, with no rescanning. |
| Header.SnakeCaseFixesCanonical | etl.py:152-165 | A name that is already canonical is left unchanged. |
| Header.SnakeCaseIdempotent | etl.py:152-165 | Applying `to_snake_case` to its own output changes nothing. |
| Header.SnakeCaseIgnoresCase | etl.py:165 | Names that differ only in letter case get the same canonical name. |
| Header.SnakeCaseOfLowered | etl.py:165 | Lower-casing a name first does not change its canonical name. |
| Header.SnakeCaseOfPlain | etl.py:165 | A name without `#`, `%` or space is only lower-cased. |
| Header.SnakeCaseSymbolWord | etl.py:153-165 | A leading symbol, a space and a plain word, as in "# Eligible", become the symbol's token, "_" and the lower-cased word. |
| Etl.RenameList | etl.py:169 | The list of new names has one entry per column: the canonical name of that column. |
| Etl.RenameSettles | etl.py:173-174 | A later rename that hits a column still named `x`, or already renamed to `x`'s canonical name, renames it to `x`'s canonical name. |
| Etl.RenameStep | etl.py:173-174 | One pass of the rename loop keeps the loop invariant: columns before `i` are canonical, and later columns are original or already canonical. |
| Etl.RenameColumns | etl.py:173-174 | The loop keeps the cells and the number and order of columns, and column `i` ends up with the canonical name of original column `i`. |
| Etl.Renamed | etl.py:169-174 | The renamed frame has the same cells, the same number of columns, and column `i` is named by the canonical name of column `i`. |
| Etl.RenamedCanonical | etl.py:169-174 | After renaming, every header is canonical. |
| Etl.RenamedIdempotent | etl.py:169-174 | Renaming an already renamed frame changes nothing. |
| Etl.CountName | etl.py:189 | A rewritten count column keeps its name up to letter case. |
| Etl.CountedFrame | etl.py:186-189 | The frame after both count rewrites has the input's shape: one row per input row and one cell per column. |
| Etl.CoercedCounts | etl.py:186-189 | The count stage succeeds exactly when both count names each refer to one column. The frame keeps its shape. |
| Etl.CountsStep | etl.py:188-189 | One pass of the count loop rewrites exactly the columns the current count name refers to. It casts their cells and gives them the lower-case spelling. |
| Etl.CountsAdvance | etl.py:188-189 | One pass of the count loop either fails with the error `CoercedCounts` reports, or keeps the loop invariant one name further. |
| Etl.CoerceCounts | etl.py:186-189 | The count loop, including its stop at the first count name that does not resolve, yields exactly `CoercedCounts`. |
| Etl.RescaleCoverage | etl.py:202 | Succeeds exactly when `pct_coverage` refers to one column. It rewrites only that column, in place, to `RescalePct` of each cell, and changes nothing else. |
| Etl.SplitInterval | etl.py:217-219 | Succeeds exactly when `95_pct_ci` refers to one column; the result has no column that `95_pct_ci` refers to. |
| Etl.WithBounds | etl.py:217-218 | The two bound columns never take over the interval column, which still resolves to the same place before the drop. |
| Etl.BoundsColumnAt | etl.py:217-218 | Before the drop, a column is either a bound column or an untouched input column. A bound column holds the bound parsed from its own row's original interval text. |
| Etl.SplitKeepsOthers | etl.py:217-219 | Every input column except the interval column keeps its cells and its place after the split, if no bound name refers to it. Past the dropped column, "its place" is one to the left. |
| Etl.SplitBoundColumns | etl.py:217-219 | Any output column a bound name refers to is that bound column. It holds `LowerBound` or `UpperBound` of the original interval cell of its row. |
| Etl.SplitHasBounds | etl.py:217-219 | Both `lower_95_pct_ci` and `upper_95_pct_ci` exist after the split. |
| Etl.GroupColumnResolves | etl.py:236-240 | After the first grouping step, `vaccine_group` refers to exactly one column unless two input columns were already called that. The column sits at `GroupIndex`. |
| Etl.GroupVaccines | etl.py:236-240 | Grouping succeeds exactly when `vaccine` refers to one column and `vaccine_group` is not ambiguous. The error is the one Spark raises first. |
| Etl.GroupVaccinesColumns | etl.py:236-240 | The group column holds the "MEN-C"-overridden prefix of each row's vaccine, and every other column is unchanged. A column is appended only when none was called `vaccine_group` before. |
| Etl.Pipeline | etl.py:169-240 | The stages in order, stopping at the first schema error; the result is rectangular with one row per input row. On the data set's own headers the exact output is `DataSet.PipelineOnDataSet`. |
| Etl.Transform | etl.py:169-240 | The notebook's sequence of rebindings of `df` computes exactly `Pipeline`. |
| Frames.Matches | etl.py:174 | A name refers to a column spelled the same way, and only to columns of its own length. |
| Frames.Resolve | etl.py:202 | A column reference resolves to the one column it matches. It is "not found" exactly when nothing matches and "ambiguous" only when two columns match. |
| Frames.ResolveIgnoresCase | etl.py:188-189 | Resolution looks at names only up to letter case. |
| Frames.ResolveUnique | etl.py:202 | A name that matches exactly one column resolves to it. |
| Frames.WithColumnRenamed | etl.py:174 | Every matching column takes the new name; cells and other names are kept. |
| Frames.WithColumn | etl.py:189 | Every matching column is replaced in place and respelled, or the column is appended; unmatched columns keep their names and cells. |
| Frames.WithColumnAt | etl.py:189 | After `withColumn`, each column is either the new column or an untouched old one. |
| Frames.WithColumnKeepsOther | etl.py:217-218 | A `withColumn` under an unrelated name leaves another column and its resolution alone. |
| Frames.Derive | etl.py:202 | `withColumn(target, g(col(source)))` fails exactly when `source` does not resolve. Otherwise it writes `g` of the source cells. |
| Frames.DeriveInPlace | etl.py:202 | Deriving a column from itself rewrites only that column, in place. |
| Frames.MapColumn | etl.py:202 | The expression over one column gives one value per row, computed from that row's cell. |
| Frames.Drop | etl.py:219 | No remaining column matches the dropped name; the rows keep one cell per column. |
| Frames.DropOne | etl.py:219 | Dropping a name that matches exactly one column removes that column, and that cell of every row, at that position. |
| Frames.DropOneKeeps | etl.py:219 | Every other column moves to `Shift(j, i)` with its cells. |
| Frames.DropNone | etl.py:219 | Dropping a name that matches nothing changes nothing. |
| Expressions.CoerceCount | etl.py:189 | The result is null or an int. It is an int exactly when the cell's text, with every `,` removed, is an integer literal. Null stays null. |
| Expressions.CoerceGroupedCount | etl.py:189 | A count printed with `,` between digit groups ("1,234") reads back as that count. |
| Expressions.CoerceIgnoresCommas | etl.py:189 | A `,` anywhere is ignored. |
| Expressions.CoerceKeepsInt | etl.py:189 | An int cell is kept. |
| Expressions.CoerceIdempotent | etl.py:189 | Coercing twice is coercing once. |
| Expressions.CoerceWithoutDigits | etl.py:189 | Text without digits becomes null. |
| Expressions.RescalePct | etl.py:202 | Null stays null. A value becomes 100 times itself to the nearest tenth (within half a tenth), with at most four digits. It is non-null whenever it fits. |
| Expressions.RescaleThousandths | etl.py:202 | A fraction with three decimals becomes exactly that many tenths of a per cent. |
| Expressions.LowerBound | etl.py:217 | The lower bound is the text before the first `-`, cast to `decimal(4,1)`. |
| Expressions.UpperBound | etl.py:218 | The upper bound is null when the text has no `-`. |
| Expressions.UpperBoundBetweenDashes | etl.py:218 | Otherwise the upper bound is the text between the first and the second `-` (or the end), cast. |
| Expressions.BoundsOfSplit | etl.py:217-218 | The lower bound is the cast of the first item of the split, the upper bound that of the second item, or null when there is only one. |
| Expressions.CastShowTenths | etl.py:217-218 | A printed non-negative bound within four digits casts back to itself. |
| Expressions.IntervalItem | etl.py:217-218 | A missing item, and a null cell, give null. |
| Expressions.IntervalRoundTrip | etl.py:217-218 | An interval printed as "lo-hi" with non-negative bounds splits back into exactly `lo` and `hi`. |
| Expressions.SplitTenths | etl.py:217-218 | Such a text splits into exactly the two printed bounds. |
| Expressions.TenthsWithoutDash | etl.py:217-218 | A printed non-negative bound contains no `-`. |
| Expressions.SplitGroup | etl.py:236 | The first item of the split is the text before the first `" - "`, or the whole text. |
| Expressions.MenCOverride | etl.py:240 | A text starting with "MEN-C" becomes exactly "MEN-C"; everything else, null included, is kept. |
| Expressions.Group | etl.py:236-240 | The group label is a prefix of the vaccine name. |
| Expressions.GroupCells | etl.py:236-240 | The two cells together compute `Group` on text and keep null as null. |
| Expressions.GroupShape | etl.py:236-240 | The group is a prefix of the vaccine name and never contains `" - "`. It is "MEN-C" when the prefix before `" - "` starts with "MEN-C", and that prefix otherwise. |
| Expressions.GroupOfDose | etl.py:236-240 | A name made of a prefix without spaces, `" - "` and a dose gets that prefix as group, or "MEN-C" when the prefix starts with it. |
| Expressions.GroupOfWord | etl.py:236-240 | A name without spaces is its own group, or "MEN-C" when it starts with it. |
| Expressions.GroupWithoutSeparator | etl.py:236-240 | A name without `" - "` that does not start with "MEN-C" is its own group. |
| Expressions.GroupIdempotent | etl.py:236-240 | Grouping a group again returns it unchanged. |
| Cells.NumericValue | etl.py:202 | A null cell has no numeric value, so the rescale keeps null as null. |
| Cells.CastDecimal41 | etl.py:202 | The cast gives the nearest tenth, halves away from zero, and null exactly when the rounded value needs more than four digits. |
| Cells.CastExactTenths | etl.py:217-218 | A value with one fractional digit casts to itself. |
| Cells.CastTextDecimal41 | etl.py:217-218 | Text that is not a decimal becomes null; a non-null result came from text with a digit. |
| Cells.CastCount | etl.py:189 | Text with `,` removed casts to an int exactly when it is an integer literal. |
| Cells.CellText | etl.py:189 | Text is read as itself; null has no text. |
| Numbers.ParseInt | etl.py:189 | Text parses exactly when it is an optional sign followed by digits; a negative result has a leading `-`. |
| Numbers.ParseShowInt | etl.py:189 | Printing an int and parsing the text gives the int back. |
| Numbers.GroupedDigits | etl.py:189 | Removing the `,` separators from a grouped count leaves its plain digits. |
| Numbers.ParseGrouped | etl.py:189 | A grouped count with the separators removed parses to the count. |
| Numbers.ParseDecimal | etl.py:217-218 | A parsed decimal came from text containing a digit. A negative one has a leading `-`. |
| Numbers.ParseUnsigned | etl.py:217-218 | An unsigned decimal text parses to a non-negative value, and only when it has a digit. |
| Numbers.ParseShowTenths | etl.py:217-218 | A printed tenths value parses back to itself. |
| Numbers.RoundHalfUp | etl.py:202 | The rounded value is within one half, and a tie goes away from zero. |
| Text.Lower | etl.py:165 | Lower-casing keeps the length and lower-cases each character. |
| Text.FindFirst | etl.py:217 | The position found is the leftmost occurrence of the separator, or the end when there is none. |
| Text.Split | etl.py:217 | The split has at least one item, and the first item is the text before the first separator. |
| Text.JoinSplit | etl.py:217 | Splitting loses nothing: joining the items with the separator gives the text back. |
| Text.SplitPiecesFree | etl.py:217 | No item contains the separator. |
| Text.SplitWithout | etl.py:218 | A text without the separator splits into itself alone. |
| Text.SplitAfterHead | etl.py:217-218 | The split cuts after a leading part that lacks the separator's first character. |
| Text.SplitAtFirst | etl.py:217 | The split is the text before the first separator followed by the split of the text after it. |
| Text.Remove | etl.py:189 | Removing every `,` leaves no `,`, never lengthens the text, and changes nothing when there is no `,`. |
| Text.RemoveAppend | etl.py:189 | Removing a character works on each part of a text separately. |
| DataSet.CanonicalHeaders | etl.py:169 | The seven headers "Year", "Zone", "Vaccine", "# Immunized", "# Eligible", "% Coverage" and "95% CI" are renamed to "year", "zone", "vaccine", "no_immunized", "no_eligible", "pct_coverage" and "95_pct_ci". |
| DataSet.RenameSeven | etl.py:169 | The rename list of seven names is the list of their canonical names. |
| DataSet.CanonicalResolves | etl.py:188-217 | On the renamed headers each of `no_immunized`, `no_eligible`, `pct_coverage` and `95_pct_ci` refers to its own column only. |
| DataSet.CountStage | etl.py:186-189 | On these headers the count stage rewrites the two count cells of every row and nothing else. |
| DataSet.RescaleStage | etl.py:202 | The coverage cell of every row is rescaled in place. |
| DataSet.BoundsStage | etl.py:217-218 | The two bound columns are appended after the seven headers, holding the bounds of each row's interval. |
| DataSet.SplitStage | etl.py:217-219 | After the drop the interval cell of every row is replaced by its two bounds, and the headers are the first six followed by the two bound names. |
| DataSet.DropInterval | etl.py:219 | Dropping `95_pct_ci` removes exactly the seventh column of the nine. |
| DataSet.GroupStage | etl.py:236-240 | `vaccine_group` is appended after the eight headers, holding the group of each row's vaccine. |
| DataSet.PipelineOnDataSet | etl.py:169-240 | A table with the data set's seven headers and any rows of seven cells always goes through the whole transform. The output has the nine headers ending in `lower_95_pct_ci`, `upper_95_pct_ci` and `vaccine_group`, and each output row is the transformed source row, cell by cell. |
| DataSet.PipelineOnRecord | etl.py:169-240 | One record goes through the whole transform as its transformed row. |
| DataSet.ExampleOutputRow | etl.py:186-240 | The record (2018, "Central", "HBV - Dose 1", "1,050", "1,200", 0.875, "82.0-92.0") becomes (2018, "Central", "HBV - Dose 1", 1050, 1200, 87.5, 82.0, 92.0, "HBV"). |
| DataSet.ExampleRecord | etl.py:169-240 | That record, under the source headers, comes out of the whole transform as that transformed row under the output headers. |
| Scenarios.YearHeader | etl.py:152-165 | "Year" becomes "year". |
| Scenarios.ZoneHeader | etl.py:152-165 | "Zone" becomes "zone". |
| Scenarios.VaccineHeader | etl.py:152-165 | "Vaccine" becomes "vaccine". |
| Scenarios.EligibleHeader | etl.py:152-165 | "# Eligible" becomes "no_eligible". |
| Scenarios.ImmunizedHeader | etl.py:152-165 | "# Immunized" becomes "no_immunized". |
| Scenarios.CoverageHeader | etl.py:152-165 | "% Coverage" becomes "pct_coverage". |
| Scenarios.IntervalHeader | etl.py:152-165 | "95% CI" becomes "95_pct_ci". |
| Scenarios.GroupedCountCell | etl.py:189 | "1,234" becomes 1234. |
| Scenarios.UnparsableCountCell | etl.py:189 | "n/a" becomes null. |
| Scenarios.CoverageCell | etl.py:202 | 0.875 becomes 87.5. |
| Scenarios.IntervalCell | etl.py:217-218 | "82.0-92.0" gives 82.0 and 92.0. |
| Scenarios.SingleValueCell | etl.py:217-218 | "80.0" gives 80.0 and a null upper bound. |
| Scenarios.CastFive | etl.py:218 | "5.0" casts to 5.0. |
| Scenarios.FiveToTen | etl.py:217 | "5.0-10.0" splits into "5.0" and "10.0". |
| Scenarios.SplitNegative | etl.py:217 | "-5.0-10.0" splits into "", "5.0" and "10.0". |
| Scenarios.NegativeLowerBound | etl.py:217 | The lower bound of "-5.0-10.0" is null. |
| Scenarios.NegativeUpperBound | etl.py:218 | The upper bound of "-5.0-10.0" is 5.0. |
| Scenarios.DoseGroupCell | etl.py:236 | "HBV - Dose 1" is in group "HBV". |
| Scenarios.PlainGroupCell | etl.py:236 | "HBV" is in group "HBV". |
| Scenarios.MenCVariantGroupCell | etl.py:240 | "MEN-C-ACYW135" is in group "MEN-C". |
| Scenarios.MenCDoseGroupCell | etl.py:236-240 | "MEN-C - Dose 2" is in group "MEN-C". |

## Left out

- Reading the CSV, writing and re-reading the Delta table (etl.py:29-43, 261-268): storage I/O.
- `display`, `printSchema`, `count`, the distinct-value and uniqueness queries: exploration only, with no effect on the table.
- The commented-out year-by-vaccine cross join (etl.py:112-122): dead code.
- The claim that every group occurs in every year (etl.py:251). It is a property of the data, not the code.
- Distributed execution: the model applies every stage to an in-memory sequence of rows.
- Expressions.RescalePct: the double multiplication `pct_coverage * 100` is taken exactly. Double rounding is not modelled.
- Cells.CastDecimal41: Spark's rounding mode and overflow handling are engine defaults the notebook does not choose. The model rounds half away from zero and gives null past four digits (non-ANSI mode).
- Numbers.ParseInt: whitespace trimming, fractional text such as "12.5", and int32 overflow in Spark's string-to-int cast are not modelled. The grammar is an optional sign followed by digits.
- Numbers.ParseDecimal: exponents and surrounding whitespace are not accepted.
- Cells.CellText: the text Spark prints for double and decimal cells is not modelled. Casting such a cell as text gives null here.
- Text.Lower: `lower()` and the regular-expression class `\w` are applied to ASCII only. Non-ASCII letters are left as they are and are not word characters. The same holds for column-name resolution (`Frames.Matches`): Spark compares names with a Unicode case-insensitive comparison, the model with ASCII lower-casing.
- Etl.SplitInterval: the code splits the interval text at every `-` and checks no order between the bounds; the model follows the code. A negative lower bound therefore gives a null lower bound and takes the next number as the upper bound (`Scenarios.NegativeLowerBound`, `Scenarios.NegativeUpperBound`).
