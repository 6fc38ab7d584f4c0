/**
 The transform on the data set's own schema: the seven headers of the
 immunisation table, and any rows with one cell per header. Each stage is
 followed on this schema, ending with the columns and the cells of every
 output row; the last lemma takes one record through the whole transform.
 */
module DataSet {
  import opened Wrappers
  import opened Text
  import opened Numbers
  import opened Header
  import opened Cells
  import opened Expressions
  import opened Frames
  import opened Etl
  import Scenarios

  /** The headers of the immunisation table as the file spells them. */
  const SOURCE_HEADERS: seq<string> := ["Year", "Zone", "Vaccine", "# Immunized", "# Eligible", "% Coverage", "95% CI"]

  /** The same headers after renaming. */
  const CANONICAL_HEADERS: seq<string> := ["year", "zone", VACCINE, NO_IMMUNIZED, NO_ELIGIBLE, PCT_COVERAGE, CI]

  /** The headers after the split of the interval, before the grouping. */
  const SPLIT_HEADERS: seq<string> := ["year", "zone", VACCINE, NO_IMMUNIZED, NO_ELIGIBLE, PCT_COVERAGE, LOWER_CI, UPPER_CI]

  /** The headers of the transformed table. */
  const OUTPUT_HEADERS: seq<string> := SPLIT_HEADERS + [VACCINE_GROUP]

  /** Every row has one cell per source header. */
  predicate SourceShaped(rows: seq<seq<Value>>)
  {
    forall k :: 0 <= k < |rows| ==> |rows[k]| == 7
  }

  // ------------------------------------------------------------------ headers

  /** The rename list of the source headers is the list of canonical headers. */
  lemma CanonicalHeaders()
    ensures RenameList(SOURCE_HEADERS) == CANONICAL_HEADERS
  {
    Scenarios.YearHeader();
    Scenarios.ZoneHeader();
    Scenarios.VaccineHeader();
    Scenarios.ImmunizedHeader();
    Scenarios.EligibleHeader();
    Scenarios.CoverageHeader();
    Scenarios.IntervalHeader();
    RenameSeven("Year", "Zone", "Vaccine", "# Immunized", "# Eligible", "% Coverage", "95% CI",
                "year", "zone", VACCINE, NO_IMMUNIZED, NO_ELIGIBLE, PCT_COVERAGE, CI);
  }

  /** The rename list of seven names, one canonical name at a time. */
  lemma RenameSeven(c0: string, c1: string, c2: string, c3: string, c4: string, c5: string, c6: string,
                    n0: string, n1: string, n2: string, n3: string, n4: string, n5: string, n6: string)
    requires SnakeCase(c0) == n0 && SnakeCase(c1) == n1 && SnakeCase(c2) == n2 && SnakeCase(c3) == n3
    requires SnakeCase(c4) == n4 && SnakeCase(c5) == n5 && SnakeCase(c6) == n6
    ensures RenameList([c0, c1, c2, c3, c4, c5, c6]) == [n0, n1, n2, n3, n4, n5, n6]
  {
    var columns := [c0, c1, c2, c3, c4, c5, c6];
    var names := [n0, n1, n2, n3, n4, n5, n6];
    var r := RenameList(columns);
    assert r[0] == n0 && r[1] == n1 && r[2] == n2 && r[3] == n3;
    assert r[4] == n4 && r[5] == n5 && r[6] == n6;
  }

  lemma DistinctCounts()
    ensures !Matches(PCT_COVERAGE, NO_IMMUNIZED)
  {
    assert Lower(PCT_COVERAGE)[0] != Lower(NO_IMMUNIZED)[0];
  }

  /** On the canonical headers each name the transform uses refers to its own column. */
  lemma CanonicalResolves()
    ensures Resolve(CANONICAL_HEADERS, NO_IMMUNIZED) == Ok(3)
    ensures Resolve(CANONICAL_HEADERS, NO_ELIGIBLE) == Ok(4)
    ensures Resolve(CANONICAL_HEADERS, PCT_COVERAGE) == Ok(5)
    ensures Resolve(CANONICAL_HEADERS, CI) == Ok(6)
  {
    ImmunizedResolves();
    EligibleResolves();
    CoverageResolves();
    IntervalResolves();
  }

  lemma ImmunizedResolves()
    ensures Resolve(CANONICAL_HEADERS, NO_IMMUNIZED) == Ok(3)
  {
    DistinctCounts();
    ResolveUnique(CANONICAL_HEADERS, NO_IMMUNIZED, 3);
  }

  lemma EligibleResolves()
    ensures Resolve(CANONICAL_HEADERS, NO_ELIGIBLE) == Ok(4)
  {
    ResolveUnique(CANONICAL_HEADERS, NO_ELIGIBLE, 4);
  }

  lemma CoverageResolves()
    ensures Resolve(CANONICAL_HEADERS, PCT_COVERAGE) == Ok(5)
  {
    DistinctCounts();
    ResolveUnique(CANONICAL_HEADERS, PCT_COVERAGE, 5);
  }

  lemma IntervalResolves()
    ensures Resolve(CANONICAL_HEADERS, CI) == Ok(6)
  {
    ResolveUnique(CANONICAL_HEADERS, CI, 6);
  }

  // ------------------------------------------------------------------- stages

  /** A source row once the two counts are rewritten. */
  function CountedRow(r: seq<Value>): seq<Value>
    requires |r| == 7
  {
    [r[0], r[1], r[2], CoerceCount(r[3]), CoerceCount(r[4]), r[5], r[6]]
  }

  /** ... and the coverage rescaled. */
  function RescaledRow(r: seq<Value>): seq<Value>
    requires |r| == 7
  {
    [r[0], r[1], r[2], CoerceCount(r[3]), CoerceCount(r[4]), RescalePct(r[5]), r[6]]
  }

  /** ... and the interval replaced by its two bounds. */
  function BoundedRow(r: seq<Value>): seq<Value>
    requires |r| == 7
  {
    [r[0], r[1], r[2], CoerceCount(r[3]), CoerceCount(r[4]), RescalePct(r[5]), LowerBound(r[6]), UpperBound(r[6])]
  }

  /** A transformed row: the group of the vaccine appended. */
  function OutputRow(r: seq<Value>): seq<Value>
    requires |r| == 7
  {
    [r[0], r[1], r[2], CoerceCount(r[3]), CoerceCount(r[4]), RescalePct(r[5]), LowerBound(r[6]), UpperBound(r[6]),
     MenCOverride(SplitGroup(r[2]))]
  }

  function CountedRows(rows: seq<seq<Value>>): seq<seq<Value>>
    requires SourceShaped(rows)
  {
    seq(|rows|, k requires 0 <= k < |rows| => CountedRow(rows[k]))
  }

  function RescaledRows(rows: seq<seq<Value>>): seq<seq<Value>>
    requires SourceShaped(rows)
  {
    seq(|rows|, k requires 0 <= k < |rows| => RescaledRow(rows[k]))
  }

  function BoundedRows(rows: seq<seq<Value>>): seq<seq<Value>>
    requires SourceShaped(rows)
  {
    seq(|rows|, k requires 0 <= k < |rows| => BoundedRow(rows[k]))
  }

  function OutputRows(rows: seq<seq<Value>>): seq<seq<Value>>
    requires SourceShaped(rows)
  {
    seq(|rows|, k requires 0 <= k < |rows| => OutputRow(rows[k]))
  }

  /** The count loop on seven headers whose count columns are 3 and 4, already spelled as the count names. */
  lemma CountStage(h: seq<string>, rows: seq<seq<Value>>)
    requires |h| == 7 && SourceShaped(rows)
    requires Resolve(h, NO_IMMUNIZED) == Ok(3) && Resolve(h, NO_ELIGIBLE) == Ok(4)
    requires forall j :: 0 <= j < 7 ==> CountName(h[j]) == h[j]
    requires forall j :: 0 <= j < 7 ==> (CoercedBefore(h[j], 2) <==> j == 3 || j == 4)
    ensures CoercedCounts(Frame(h, rows)) == Ok(Frame(h, CountedRows(rows)))
  {
    var c := CountedFrame(Frame(h, rows));
    assert c.columns == h;
    forall k | 0 <= k < |rows| ensures c.rows[k] == CountedRow(rows[k]) {
      assert |c.rows[k]| == 7;
    }
    assert c.rows == CountedRows(rows);
  }

  /** The rescale on seven headers whose coverage column is 5. */
  lemma RescaleStage(h: seq<string>, rows: seq<seq<Value>>)
    requires |h| == 7 && SourceShaped(rows)
    requires Resolve(h, PCT_COVERAGE) == Ok(5) && h[5] == PCT_COVERAGE
    ensures RescaleCoverage(Frame(h, CountedRows(rows))) == Ok(Frame(h, RescaledRows(rows)))
  {
    var r := RescaleCoverage(Frame(h, CountedRows(rows))).value;
    assert r.columns == h;
    forall k | 0 <= k < |rows| ensures r.rows[k] == RescaledRow(rows[k]) {
      assert |r.rows[k]| == 7;
    }
    assert r.rows == RescaledRows(rows);
  }

  /** The two bound columns are appended after seven headers that neither bound name refers to. */
  lemma BoundsStage(h: seq<string>, rows: seq<seq<Value>>)
    requires |h| == 7 && SourceShaped(rows) && Resolve(h, CI) == Ok(6)
    requires forall j :: 0 <= j < 7 ==> !Matches(h[j], LOWER_CI) && !Matches(h[j], UPPER_CI)
    ensures var u := WithBounds(Frame(h, RescaledRows(rows)));
      && u.columns == h + [LOWER_CI, UPPER_CI]
      && |u.rows| == |rows|
      && forall k :: 0 <= k < |rows| ==> u.rows[k] == RescaledRow(rows[k]) + [LowerBound(rows[k][6]), UpperBound(rows[k][6])]
  {
    var df := Frame(h, RescaledRows(rows));
    var lower := MapColumn(df, 6, LowerBound);
    WithColumnAppends(df, LOWER_CI, lower);
    var withLower := WithColumn(df, LOWER_CI, lower);
    NamesDistinct(LOWER_CI);
    assert withLower.columns == h + [LOWER_CI];
    var upper := MapColumn(withLower, 6, UpperBound);
    WithColumnAppends(withLower, UPPER_CI, upper);
    assert h + [LOWER_CI] + [UPPER_CI] == h + [LOWER_CI, UPPER_CI];
    forall k | 0 <= k < |rows|
      ensures WithColumn(withLower, UPPER_CI, upper).rows[k] == RescaledRow(rows[k]) + [LowerBound(rows[k][6]), UpperBound(rows[k][6])]
    {
      assert withLower.rows[k] == RescaledRow(rows[k]) + [LowerBound(rows[k][6])];
    }
  }

  /** Dropping the interval column, the sixth of nine, leaves the two bounds in its place. */
  lemma SplitStage(h: seq<string>, rows: seq<seq<Value>>)
    requires |h| == 7 && SourceShaped(rows) && Resolve(h, CI) == Ok(6)
    requires forall j :: 0 <= j < 7 ==> !Matches(h[j], LOWER_CI) && !Matches(h[j], UPPER_CI)
    ensures SplitInterval(Frame(h, RescaledRows(rows))) == Ok(Frame(h[..6] + [LOWER_CI, UPPER_CI], BoundedRows(rows)))
  {
    var u := WithBounds(Frame(h, RescaledRows(rows)));
    BoundsStage(h, rows);
    DropInterval(h, rows, u);
  }

  /** The drop itself, on the frame that `BoundsStage` describes. */
  lemma DropInterval(h: seq<string>, rows: seq<seq<Value>>, u: Frame)
    requires |h| == 7 && SourceShaped(rows) && Resolve(h, CI) == Ok(6)
    requires Rectangular(u) && u.columns == h + [LOWER_CI, UPPER_CI] && |u.rows| == |rows|
    requires forall k :: 0 <= k < |rows| ==> u.rows[k] == RescaledRow(rows[k]) + [LowerBound(rows[k][6]), UpperBound(rows[k][6])]
    ensures Drop(u, CI) == Frame(h[..6] + [LOWER_CI, UPPER_CI], BoundedRows(rows))
  {
    NamesDistinct(LOWER_CI);
    NamesDistinct(UPPER_CI);
    forall j | 0 <= j < |u.columns| ensures Matches(u.columns[j], CI) <==> j == 6 {
    }
    DropOne(u, CI, 6);
    var d := Drop(u, CI);
    assert d.columns == h[..6] + [LOWER_CI, UPPER_CI];
    forall k | 0 <= k < |rows| ensures d.rows[k] == BoundedRow(rows[k]) {
      DropIntervalCell(rows[k], u.rows[k]);
    }
    assert d.rows == BoundedRows(rows);
  }

  /** Removing the interval cell from a rescaled row with its bounds appended gives the bounded row. */
  lemma DropIntervalCell(r: seq<Value>, x: seq<Value>)
    requires |r| == 7 && x == RescaledRow(r) + [LowerBound(r[6]), UpperBound(r[6])]
    ensures x[..6] + x[7..] == BoundedRow(r)
  {
  }

  /** The grouping appends `vaccine_group` after eight headers none of which is called that. */
  lemma GroupStage(h: seq<string>, rows: seq<seq<Value>>)
    requires |h| == 8 && SourceShaped(rows) && Resolve(h, VACCINE) == Ok(2)
    requires forall j :: 0 <= j < 8 ==> !Matches(h[j], VACCINE_GROUP)
    ensures GroupVaccines(Frame(h, BoundedRows(rows))) == Ok(Frame(h + [VACCINE_GROUP], OutputRows(rows)))
  {
    var df := Frame(h, BoundedRows(rows));
    assert Resolve(h, VACCINE_GROUP) == Err(ColumnNotFound(VACCINE_GROUP));
    GroupVaccinesColumns(df);
    var out := GroupVaccines(df).value;
    assert GroupIndex(df) == 8;
    assert out.columns == h + [VACCINE_GROUP];
    forall k | 0 <= k < |rows| ensures out.rows[k] == OutputRow(rows[k]) {
      GroupCellAppended(rows[k], out.rows[k]);
    }
    assert out.rows == OutputRows(rows);
  }

  /** A bounded row followed by the group of its vaccine is the transformed row. */
  lemma GroupCellAppended(r: seq<Value>, x: seq<Value>)
    requires |r| == 7 && |x| == 9
    requires forall j :: 0 <= j < 8 ==> x[j] == BoundedRow(r)[j]
    requires x[8] == MenCOverride(SplitGroup(BoundedRow(r)[2]))
    ensures x == OutputRow(r)
  {
  }

  /** The count columns of the canonical headers are the columns 3 and 4, already spelled as the count names. */
  lemma CanonicalCounts()
    ensures forall j :: 0 <= j < 7 ==> CountName(CANONICAL_HEADERS[j]) == CANONICAL_HEADERS[j]
    ensures forall j :: 0 <= j < 7 ==> (CoercedBefore(CANONICAL_HEADERS[j], 2) <==> j == 3 || j == 4)
  {
    DistinctCounts();
  }

  /** Neither bound name refers to a canonical header. */
  lemma CanonicalBoundsFree()
    ensures forall j :: 0 <= j < 7 ==> !Matches(CANONICAL_HEADERS[j], LOWER_CI) && !Matches(CANONICAL_HEADERS[j], UPPER_CI)
  {
  }

  /** The headers after the split: `vaccine` is column 2 and nothing is called `vaccine_group` yet. */
  lemma SplitHeaderFacts()
    ensures CANONICAL_HEADERS[..6] + [LOWER_CI, UPPER_CI] == SPLIT_HEADERS
    ensures Resolve(SPLIT_HEADERS, VACCINE) == Ok(2)
    ensures forall j :: 0 <= j < 8 ==> !Matches(SPLIT_HEADERS[j], VACCINE_GROUP)
  {
    ResolveUnique(SPLIT_HEADERS, VACCINE, 2);
  }

  // ----------------------------------------------------------------- pipeline

  /**
   On the data set's own headers the transform succeeds for any rows: the
   output has the columns `OUTPUT_HEADERS`, and each row is its input row with
   the counts cast, the coverage rescaled, the interval replaced by its two
   bounds and the vaccine group appended.
   */
  lemma PipelineOnDataSet(rows: seq<seq<Value>>)
    requires SourceShaped(rows)
    ensures Pipeline(Frame(SOURCE_HEADERS, rows)) == Ok(Frame(OUTPUT_HEADERS, OutputRows(rows)))
  {
    CanonicalHeaders();
    assert Renamed(Frame(SOURCE_HEADERS, rows)) == Frame(CANONICAL_HEADERS, rows);
    CanonicalResolves();
    CanonicalCounts();
    CountStage(CANONICAL_HEADERS, rows);
    RescaleStage(CANONICAL_HEADERS, rows);
    CanonicalBoundsFree();
    SplitStage(CANONICAL_HEADERS, rows);
    SplitHeaderFacts();
    GroupStage(SPLIT_HEADERS, rows);
  }

  // ------------------------------------------------------------------ example

  /** A record of the table, in the order of `SOURCE_HEADERS`. */
  const EXAMPLE_RECORD: seq<Value> :=
    [Int(2018), Str("Central"), Str("HBV - Dose 1"), Str("1,050"), Str("1,200"), Double(0.875), Str("82.0-92.0")]

  /** The same record transformed, in the order of `OUTPUT_HEADERS`. */
  const EXAMPLE_OUTPUT: seq<Value> :=
    [Int(2018), Str("Central"), Str("HBV - Dose 1"), Int(1050), Int(1200), Fixed(875), Fixed(820), Fixed(920), Str("HBV")]

  lemma ExampleCounts()
    ensures CoerceCount(Str("1,050")) == Int(1050)
    ensures CoerceCount(Str("1,200")) == Int(1200)
  {
    assert Pad3(50) == "050" && Pad3(200) == "200";
    assert Grouped(1050) == "1,050";
    assert Grouped(1200) == "1,200";
    CoerceGroupedCount(1050);
    CoerceGroupedCount(1200);
  }

  /** A transformed row, cell by cell. */
  lemma OutputRowOf(r: seq<Value>, out: seq<Value>)
    requires |r| == 7 && |out| == 9
    requires out[0] == r[0] && out[1] == r[1] && out[2] == r[2]
    requires out[3] == CoerceCount(r[3]) && out[4] == CoerceCount(r[4]) && out[5] == RescalePct(r[5])
    requires out[6] == LowerBound(r[6]) && out[7] == UpperBound(r[6]) && out[8] == MenCOverride(SplitGroup(r[2]))
    ensures OutputRow(r) == out
  {
    var o := OutputRow(r);
    forall k | 0 <= k < 9
      ensures o[k] == out[k]
    {
    }
  }

  lemma ExampleCountCells()
    ensures EXAMPLE_OUTPUT[3] == CoerceCount(EXAMPLE_RECORD[3])
    ensures EXAMPLE_OUTPUT[4] == CoerceCount(EXAMPLE_RECORD[4])
  {
    ExampleCounts();
  }

  lemma ExampleCoverageCell()
    ensures EXAMPLE_OUTPUT[5] == RescalePct(EXAMPLE_RECORD[5])
  {
    Scenarios.CoverageCell();
  }

  lemma ExampleIntervalCells()
    ensures EXAMPLE_OUTPUT[6] == LowerBound(EXAMPLE_RECORD[6])
    ensures EXAMPLE_OUTPUT[7] == UpperBound(EXAMPLE_RECORD[6])
  {
    Scenarios.IntervalCell();
  }

  lemma DoseGroupValue()
    ensures MenCOverride(SplitGroup(Str("HBV - Dose 1"))) == Str("HBV")
  {
    Scenarios.DoseGroupCell();
    GroupCellOf(Str("HBV - Dose 1"), "HBV");
  }

  lemma ExampleGroupCell()
    ensures EXAMPLE_OUTPUT[8] == MenCOverride(SplitGroup(EXAMPLE_RECORD[2]))
  {
    assert EXAMPLE_RECORD[2] == Str("HBV - Dose 1");
    assert EXAMPLE_OUTPUT[8] == Str("HBV");
    DoseGroupValue();
  }

  lemma GroupCellOf(v: Value, g: string)
    requires v.Str? && Group(v.s) == g
    ensures MenCOverride(SplitGroup(v)) == Str(g)
  {
    GroupCells(v);
  }

  lemma ExampleOutputRow()
    ensures OutputRow(EXAMPLE_RECORD) == EXAMPLE_OUTPUT
  {
    ExampleCountCells();
    ExampleCoverageCell();
    ExampleIntervalCells();
    ExampleGroupCell();
    OutputRowOf(EXAMPLE_RECORD, EXAMPLE_OUTPUT);
  }

  /** One record with one cell per source header goes through the transform as `OutputRow` says. */
  lemma PipelineOnRecord(r: seq<Value>, out: seq<Value>)
    requires |r| == 7 && OutputRow(r) == out
    ensures Pipeline(Frame(SOURCE_HEADERS, [r])) == Ok(Frame(OUTPUT_HEADERS, [out]))
  {
    PipelineOnDataSet([r]);
    OneOutputRow(r, out);
  }

  lemma OneOutputRow(r: seq<Value>, out: seq<Value>)
    requires |r| == 7 && OutputRow(r) == out
    ensures OutputRows([r]) == [out]
  {
    var o := OutputRows([r]);
    assert o[0] == OutputRow(r);
  }

  /** The record goes through the whole transform as expected. */
  lemma ExampleRecord()
    ensures Pipeline(Frame(SOURCE_HEADERS, [EXAMPLE_RECORD])) == Ok(Frame(OUTPUT_HEADERS, [EXAMPLE_OUTPUT]))
  {
    ExampleOutputRow();
    PipelineOnRecord(EXAMPLE_RECORD, EXAMPLE_OUTPUT);
  }
}
