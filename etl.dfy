/**
 The transform stage of the notebook (etl.py:152-240): the headers are
 canonicalised, the two count columns are cast to int, the coverage is
 rescaled to a percentage, the confidence interval is split into two
 decimal columns, and a vaccine group is derived from the vaccine name.
 The notebook rebinds `df` after each step; here each step is a function
 from frame to frame (or to the schema error Spark would raise), and the
 two loops of the notebook are methods proved equal to those functions.
 */
module Etl {
  import opened Wrappers
  import opened Text
  import opened Header
  import opened Cells
  import opened Expressions
  import opened Frames

  const NO_IMMUNIZED: string := "no_immunized"
  const NO_ELIGIBLE: string := "no_eligible"
  /** The count columns, in the order the notebook rewrites them. */
  const NUM_COLS: seq<string> := [NO_IMMUNIZED, NO_ELIGIBLE]
  const PCT_COVERAGE: string := "pct_coverage"
  const CI: string := "95_pct_ci"
  const LOWER_CI: string := "lower_95_pct_ci"
  const UPPER_CI: string := "upper_95_pct_ci"
  const VACCINE: string := "vaccine"
  const VACCINE_GROUP: string := "vaccine_group"

  /** No column name can refer to two of the names the transform uses. */
  lemma NamesDistinct(c: string)
    ensures !(Matches(c, NO_IMMUNIZED) && Matches(c, NO_ELIGIBLE))
    ensures !(Matches(c, CI) && Matches(c, LOWER_CI))
    ensures !(Matches(c, CI) && Matches(c, UPPER_CI))
    ensures !(Matches(c, LOWER_CI) && Matches(c, UPPER_CI))
    ensures !(Matches(c, VACCINE) && Matches(c, VACCINE_GROUP))
  {
    assert |Lower(NO_IMMUNIZED)| != |Lower(NO_ELIGIBLE)|;
    assert |Lower(CI)| != |Lower(LOWER_CI)| && |Lower(CI)| != |Lower(UPPER_CI)|;
    assert Lower(LOWER_CI)[0] == 'l' && Lower(UPPER_CI)[0] == 'u';
    assert |Lower(VACCINE)| != |Lower(VACCINE_GROUP)|;
  }

  // ----------------------------------------------------------------- headers

  /** The list of new names: the canonical name of every column, in order (etl.py:169). */
  function RenameList(columns: seq<string>): (names: seq<string>)
    ensures |names| == |columns|
    ensures forall i :: 0 <= i < |columns| ==> names[i] == SnakeCase(columns[i])
  {
    seq(|columns|, i requires 0 <= i < |columns| => SnakeCase(columns[i]))
  }

  /**
   A column that still has its original name `x`, or already its canonical
   name, and that `existing` refers to, is renamed to what it would have been
   renamed to anyway.
   */
  lemma RenameSettles(x: string, c: string, existing: string)
    requires c == x || c == SnakeCase(x)
    requires Matches(c, existing)
    ensures SnakeCase(existing) == SnakeCase(x)
  {
    SnakeCaseIgnoresCase(existing, c);
    if c != x {
      SnakeCaseIdempotent(x);
    }
  }

  /**
   After the first `i` renames: those columns have their canonical names, and
   every later column has its original name or already its canonical one.
   */
  predicate PartlyRenamed(original: seq<string>, current: seq<string>, i: nat)
  {
    && |current| == |original| && i <= |original|
    && (forall j :: 0 <= j < i ==> current[j] == SnakeCase(original[j]))
    && (forall j :: i <= j < |original| ==> current[j] == original[j] || current[j] == SnakeCase(original[j]))
  }

  /** One more rename keeps `PartlyRenamed`, one column further. */
  lemma RenameStep(original: seq<string>, f: Frame, i: nat)
    requires i < |original| && PartlyRenamed(original, f.columns, i)
    ensures PartlyRenamed(original, WithColumnRenamed(f, original[i], SnakeCase(original[i])).columns, i + 1)
  {
    var r := WithColumnRenamed(f, original[i], SnakeCase(original[i]));
    forall j | 0 <= j < |original|
      ensures r.columns[j] == SnakeCase(original[j]) || (j > i && r.columns[j] == original[j])
    {
      if Matches(f.columns[j], original[i]) {
        RenameSettles(original[j], f.columns[j], original[i]);
      } else if j == i {
        assert Matches(original[i], original[i]);
      }
    }
  }

  /**
   The rename loop (etl.py:173-174): each original name in turn is renamed
   to its entry of the rename list. Every rename acts on all the
   columns its old name matches, so a later rename can hit a column renamed
   earlier; since the canonical name depends only on the lower-cased name and
   is idempotent, every column still ends with its own canonical name.
   */
  method RenameColumns(df: Frame) returns (r: Frame)
    ensures r.rows == df.rows
    ensures r.columns == RenameList(df.columns)
  {
    var renameCols := RenameList(df.columns);
    r := df;
    var i := 0;
    while i < |df.columns|
      invariant r.rows == df.rows
      invariant PartlyRenamed(df.columns, r.columns, i)
    {
      RenameStep(df.columns, r, i);
      r := WithColumnRenamed(r, df.columns[i], renameCols[i]);
      i := i + 1;
    }
  }

  // ------------------------------------------------------------------ counts

  /** Whether a rewrite of the `m`-th count column (counting from 0) has reached column `c`. */
  predicate CoercedBefore(c: string, m: nat)
  {
    (m > 0 && Matches(c, NO_IMMUNIZED)) || (m > 1 && Matches(c, NO_ELIGIBLE))
  }

  /** The name a count column takes once it has been rewritten. */
  function CountName(c: string): (n: string)
    ensures Lower(n) == Lower(c)
  {
    if Matches(c, NO_IMMUNIZED) then NO_IMMUNIZED
    else if Matches(c, NO_ELIGIBLE) then NO_ELIGIBLE
    else c
  }

  /**
   The effect of the count loop at once: both count names must refer to
   exactly one column; those two columns are cast to int after their `,`
   separators are removed and take the lower-case spelling; nothing else
   changes.
   */
  function CoercedCounts(df: Frame): (r: Result<Frame, SchemaError>)
    requires Rectangular(df)
    ensures r.Ok? <==> Resolve(df.columns, NO_IMMUNIZED).Ok? && Resolve(df.columns, NO_ELIGIBLE).Ok?
    ensures r.Ok? ==> Rectangular(r.value) && |r.value.rows| == |df.rows| && |r.value.columns| == |df.columns|
  {
    match Resolve(df.columns, NO_IMMUNIZED)
    case Err(e) => Err(e)
    case Ok(_) =>
      match Resolve(df.columns, NO_ELIGIBLE)
      case Err(e) => Err(e)
      case Ok(_) => Ok(CountedFrame(df))
  }

  /** The frame once both count columns are rewritten. */
  function CountedFrame(df: Frame): (r: Frame)
    requires Rectangular(df)
    ensures Rectangular(r) && |r.rows| == |df.rows| && |r.columns| == |df.columns|
  {
    Frame(seq(|df.columns|, j requires 0 <= j < |df.columns| => CountName(df.columns[j])),
          seq(|df.rows|, k requires 0 <= k < |df.rows| =>
            seq(|df.columns|, j requires 0 <= j < |df.columns| =>
              if CoercedBefore(df.columns[j], 2) then CoerceCount(df.rows[k][j]) else df.rows[k][j])))
  }

  /** The frame after the first `i` rewrites of the count loop. */
  predicate CountsUpTo(df: Frame, out: Frame, i: nat)
  {
    && i <= |NUM_COLS| && Rectangular(df)
    && Rectangular(out) && |out.columns| == |df.columns| && |out.rows| == |df.rows|
    && (forall m :: 0 <= m < i ==> Resolve(df.columns, NUM_COLS[m]).Ok?)
    && (forall j :: 0 <= j < |df.columns| ==>
          out.columns[j] == if CoercedBefore(df.columns[j], i) then CountName(df.columns[j]) else df.columns[j])
    && (forall k, j :: 0 <= k < |df.rows| && 0 <= j < |df.columns| ==>
          out.rows[k][j] == if CoercedBefore(df.columns[j], i) then CoerceCount(df.rows[k][j]) else df.rows[k][j])
  }

  /** Between rewrites, every column keeps its name up to letter case. */
  lemma CountsUpToCase(df: Frame, out: Frame, i: nat)
    requires Rectangular(df) && CountsUpTo(df, out, i)
    ensures Resolve(out.columns, NUM_COLS[0]) == Resolve(df.columns, NUM_COLS[0])
    ensures Resolve(out.columns, NUM_COLS[1]) == Resolve(df.columns, NUM_COLS[1])
  {
    forall j | 0 <= j < |df.columns| ensures Lower(out.columns[j]) == Lower(df.columns[j]) {
    }
    ResolveIgnoresCase(out.columns, df.columns, NUM_COLS[0]);
    ResolveIgnoresCase(out.columns, df.columns, NUM_COLS[1]);
  }

  /** The `i`-th rewrite reaches exactly the columns `NUM_COLS[i]` refers to. */
  lemma CoercedBeforeStep(x: string, i: nat)
    requires i < |NUM_COLS|
    ensures CoercedBefore(x, i + 1) <==> CoercedBefore(x, i) || Matches(x, NUM_COLS[i])
    ensures Matches(x, NUM_COLS[i]) ==> !CoercedBefore(x, i) && CountName(x) == NUM_COLS[i]
  {
    NamesDistinct(x);
  }

  /** One rewrite of the count loop that succeeds. */
  lemma CountsStep(df: Frame, out: Frame, i: nat)
    requires i < |NUM_COLS| && CountsUpTo(df, out, i)
    requires Resolve(df.columns, NUM_COLS[i]).Ok?
    ensures Derive(out, NUM_COLS[i], NUM_COLS[i], CoerceCount).Ok?
    ensures CountsUpTo(df, Derive(out, NUM_COLS[i], NUM_COLS[i], CoerceCount).value, i + 1)
  {
    var c := NUM_COLS[i];
    CountsUpToCase(df, out, i);
    var p := Resolve(df.columns, c).value;
    DeriveInPlace(out, c, CoerceCount);
    var r := Derive(out, c, c, CoerceCount).value;
    CountsStepColumns(df, out, r, i, p);
    CountsStepRows(df, out, r, i, p);
  }

  lemma CountsStepColumns(df: Frame, out: Frame, r: Frame, i: nat, p: nat)
    requires i < |NUM_COLS| && CountsUpTo(df, out, i) && |r.columns| == |df.columns|
    requires Resolve(df.columns, NUM_COLS[i]) == Ok(p)
    requires r.columns[p] == NUM_COLS[i]
    requires forall j :: 0 <= j < |df.columns| && j != p ==> r.columns[j] == out.columns[j]
    ensures forall j :: 0 <= j < |df.columns| ==>
      r.columns[j] == if CoercedBefore(df.columns[j], i + 1) then CountName(df.columns[j]) else df.columns[j]
  {
    forall j | 0 <= j < |df.columns|
      ensures r.columns[j] == if CoercedBefore(df.columns[j], i + 1) then CountName(df.columns[j]) else df.columns[j]
    {
      CoercedBeforeStep(df.columns[j], i);
    }
  }

  lemma CountsStepRows(df: Frame, out: Frame, r: Frame, i: nat, p: nat)
    requires i < |NUM_COLS| && CountsUpTo(df, out, i) && |r.rows| == |df.rows|
    requires Resolve(df.columns, NUM_COLS[i]) == Ok(p)
    requires forall k :: 0 <= k < |df.rows| ==> |r.rows[k]| == |df.columns|
    requires forall k :: 0 <= k < |df.rows| ==> r.rows[k][p] == CoerceCount(out.rows[k][p])
    requires forall k, j :: 0 <= k < |df.rows| && 0 <= j < |df.columns| && j != p ==> r.rows[k][j] == out.rows[k][j]
    ensures forall k, j :: 0 <= k < |df.rows| && 0 <= j < |df.columns| ==>
      r.rows[k][j] == if CoercedBefore(df.columns[j], i + 1) then CoerceCount(df.rows[k][j]) else df.rows[k][j]
  {
    forall k, j | 0 <= k < |df.rows| && 0 <= j < |df.columns|
      ensures r.rows[k][j] == if CoercedBefore(df.columns[j], i + 1) then CoerceCount(df.rows[k][j]) else df.rows[k][j]
    {
      CoercedBeforeStep(df.columns[j], i);
    }
  }

  /** After both rewrites the frame is the one `CoercedCounts` describes. */
  lemma CountsDone(df: Frame, out: Frame)
    requires Rectangular(df) && CountsUpTo(df, out, |NUM_COLS|)
    ensures CoercedCounts(df) == Ok(out)
  {
    assert NUM_COLS[0] == NO_IMMUNIZED && NUM_COLS[1] == NO_ELIGIBLE;
    assert Resolve(df.columns, NUM_COLS[0]).Ok? && Resolve(df.columns, NUM_COLS[1]).Ok?;
    CountsDoneFrame(df, out);
  }

  lemma CountsDoneFrame(df: Frame, out: Frame)
    requires Rectangular(df) && CountsUpTo(df, out, |NUM_COLS|)
    ensures out == CountedFrame(df)
  {
    var expected := CountedFrame(df);
    assert out.columns == expected.columns;
    forall k | 0 <= k < |df.rows| ensures out.rows[k] == expected.rows[k] {
      assert |out.rows[k]| == |expected.rows[k]|;
    }
    assert out.rows == expected.rows;
  }

  /** A rewrite of the count loop that fails stops the loop with the error `CoercedCounts` reports. */
  lemma CountsFail(df: Frame, out: Frame, i: nat)
    requires i < |NUM_COLS| && CountsUpTo(df, out, i)
    requires Derive(out, NUM_COLS[i], NUM_COLS[i], CoerceCount).Err?
    ensures CoercedCounts(df) == Err(Derive(out, NUM_COLS[i], NUM_COLS[i], CoerceCount).error)
  {
    CountsUpToCase(df, out, i);
    assert NUM_COLS[0] == NO_IMMUNIZED && NUM_COLS[1] == NO_ELIGIBLE;
    assert i == 1 ==> Resolve(df.columns, NO_IMMUNIZED).Ok?;
  }

  /** One pass of the count loop, whichever way it ends. */
  lemma CountsAdvance(df: Frame, out: Frame, i: nat)
    requires i < |NUM_COLS| && CountsUpTo(df, out, i)
    ensures var step := Derive(out, NUM_COLS[i], NUM_COLS[i], CoerceCount);
      && (step.Err? ==> CoercedCounts(df) == Err(step.error))
      && (step.Ok? ==> CountsUpTo(df, step.value, i + 1))
  {
    var step := Derive(out, NUM_COLS[i], NUM_COLS[i], CoerceCount);
    if step.Err? {
      CountsFail(df, out, i);
    } else {
      CountsUpToCase(df, out, i);
      assert Resolve(df.columns, NUM_COLS[i]) == Resolve(out.columns, NUM_COLS[i]) by {
        assert i == 0 || i == 1;
      }
      CountsStep(df, out, i);
    }
  }

  /** Before the count loop nothing is rewritten. */
  lemma CountsStart(df: Frame)
    requires Rectangular(df)
    ensures CountsUpTo(df, df, 0)
  {
  }

  /**
   The count loop (etl.py:186-189): for each count name in turn, the column
   it names is replaced by its cells with every `,` removed and cast to int.
   The first count name that does not refer to exactly one column stops the
   notebook with that error.
   */
  method CoerceCounts(df: Frame) returns (r: Result<Frame, SchemaError>)
    requires Rectangular(df)
    ensures r == CoercedCounts(df)
  {
    var out := df;
    var i := 0;
    CountsStart(df);
    while i < |NUM_COLS|
      invariant CountsUpTo(df, out, i)
    {
      var step := Derive(out, NUM_COLS[i], NUM_COLS[i], CoerceCount);
      CountsAdvance(df, out, i);
      if step.Err? {
        return Err(step.error);
      }
      out := step.value;
      i := i + 1;
    }
    CountsDone(df, out);
    return Ok(out);
  }

  // ---------------------------------------------------------------- coverage

  /**
   The coverage rescale (etl.py:202): the coverage column alone is rewritten
   in place, each fraction multiplied by 100 and cast to a decimal with four
   digits, one of them fractional.
   */
  function RescaleCoverage(df: Frame): (r: Result<Frame, SchemaError>)
    requires Rectangular(df)
    ensures r.Ok? <==> Resolve(df.columns, PCT_COVERAGE).Ok?
    ensures r.Err? ==> r.error == Resolve(df.columns, PCT_COVERAGE).error
    ensures r.Ok? ==>
      var i := Resolve(df.columns, PCT_COVERAGE).value;
      && Rectangular(r.value) && |r.value.rows| == |df.rows| && |r.value.columns| == |df.columns|
      && r.value.columns[i] == PCT_COVERAGE
      && (forall j :: 0 <= j < |df.columns| && j != i ==> r.value.columns[j] == df.columns[j])
      && (forall k :: 0 <= k < |df.rows| ==> r.value.rows[k][i] == RescalePct(df.rows[k][i]))
      && (forall k, j :: 0 <= k < |df.rows| && 0 <= j < |df.columns| && j != i ==>
            r.value.rows[k][j] == df.rows[k][j])
  {
    DeriveInPlace(df, PCT_COVERAGE, RescalePct);
    Derive(df, PCT_COVERAGE, PCT_COVERAGE, RescalePct)
  }

  // ---------------------------------------------------------------- interval

  /**
   The interval split (etl.py:217-219): the lower bound column gets the first
   item of the interval text split at every `-`, the upper bound column the
   second item, both cast to decimal; then the interval column is dropped.
   Only a missing or ambiguous interval
   column makes it fail: the two bound columns cannot take over the interval
   column's name.
   */
  function SplitInterval(df: Frame): (r: Result<Frame, SchemaError>)
    requires Rectangular(df)
    ensures r.Ok? <==> Resolve(df.columns, CI).Ok?
    ensures r.Err? ==> r.error == Resolve(df.columns, CI).error
    ensures r.Ok? ==> Rectangular(r.value) && |r.value.rows| == |df.rows|
    ensures r.Ok? ==> forall j :: 0 <= j < |r.value.columns| ==> !Matches(r.value.columns[j], CI)
  {
    match Derive(df, LOWER_CI, CI, LowerBound)
    case Err(e) => Err(e)
    case Ok(withLower) =>
      var ci := Resolve(df.columns, CI).value;
      WithColumnKeepsOther(df, LOWER_CI, MapColumn(df, ci, LowerBound), CI, ci);
      match Derive(withLower, UPPER_CI, CI, UpperBound)
      case Err(e) => Err(e)
      case Ok(withUpper) => Ok(Drop(withUpper, CI))
  }

  /** The frame after the two `withColumn` calls of the split, before the drop. */
  function WithBounds(df: Frame): (u: Frame)
    requires Rectangular(df) && Resolve(df.columns, CI).Ok?
    ensures Rectangular(u) && |u.rows| == |df.rows|
    ensures Resolve(u.columns, CI) == Resolve(df.columns, CI)
    ensures SplitInterval(df) == Ok(Drop(u, CI))
  {
    var ci := Resolve(df.columns, CI).value;
    var withLower := WithColumn(df, LOWER_CI, MapColumn(df, ci, LowerBound));
    WithColumnKeepsOther(df, LOWER_CI, MapColumn(df, ci, LowerBound), CI, ci);
    WithColumnKeepsOther(withLower, UPPER_CI, MapColumn(withLower, ci, UpperBound), CI, ci);
    WithColumn(withLower, UPPER_CI, MapColumn(withLower, ci, UpperBound))
  }

  /**
   A column of the frame before the drop: one of the two bound columns,
   holding the bounds of the interval cell of its row, or a column of the
   input that neither bound name refers to, unchanged.
   */
  lemma BoundsColumnAt(df: Frame, j: nat)
    requires Rectangular(df) && Resolve(df.columns, CI).Ok?
    requires j < |WithBounds(df).columns|
    ensures var ci := Resolve(df.columns, CI).value;
            var u := WithBounds(df);
      || (u.columns[j] == LOWER_CI
          && forall k :: 0 <= k < |df.rows| ==> u.rows[k][j] == LowerBound(df.rows[k][ci]))
      || (u.columns[j] == UPPER_CI
          && forall k :: 0 <= k < |df.rows| ==> u.rows[k][j] == UpperBound(df.rows[k][ci]))
      || (&& j < |df.columns| && !Matches(df.columns[j], LOWER_CI) && !Matches(df.columns[j], UPPER_CI)
          && u.columns[j] == df.columns[j]
          && forall k :: 0 <= k < |df.rows| ==> u.rows[k][j] == df.rows[k][j])
  {
    var ci := Resolve(df.columns, CI).value;
    var withLower := WithColumn(df, LOWER_CI, MapColumn(df, ci, LowerBound));
    WithColumnKeepsOther(df, LOWER_CI, MapColumn(df, ci, LowerBound), CI, ci);
    WithColumnAt(withLower, UPPER_CI, MapColumn(withLower, ci, UpperBound), j);
    if j < |withLower.columns| && !Matches(withLower.columns[j], UPPER_CI) {
      WithColumnAt(df, LOWER_CI, MapColumn(df, ci, LowerBound), j);
      NamesDistinct(LOWER_CI);
    }
  }

  /** Column `j` of the split frame is column `j`, or `j + 1` past the interval column, of the frame before the drop. */
  lemma DroppedAt(df: Frame, j: nat)
    requires Rectangular(df) && Resolve(df.columns, CI).Ok?
    requires j < |SplitInterval(df).value.columns|
    ensures var ci := Resolve(df.columns, CI).value;
            var u := WithBounds(df);
            var out := SplitInterval(df).value;
            var at := if j < ci then j else j + 1;
      && at < |u.columns| && at != ci
      && out.columns[j] == u.columns[at]
      && forall k :: 0 <= k < |df.rows| ==> out.rows[k][j] == u.rows[k][at]
  {
    var ci := Resolve(df.columns, CI).value;
    var u := WithBounds(df);
    assert SplitInterval(df).value == Drop(u, CI);
    DropOneAt(u, CI, ci, j);
  }

  /**
   The split keeps every column of the input other than the interval column
   that neither bound name refers to, with its cells, one place to the left
   past the interval column.
   */
  lemma SplitKeepsOthers(df: Frame, j: nat)
    requires Rectangular(df) && Resolve(df.columns, CI).Ok?
    requires j < |df.columns| && j != Resolve(df.columns, CI).value
    requires !Matches(df.columns[j], LOWER_CI) && !Matches(df.columns[j], UPPER_CI)
    ensures var ci := Resolve(df.columns, CI).value;
            var out := SplitInterval(df).value;
      && Shift(j, ci) < |out.columns|
      && out.columns[Shift(j, ci)] == df.columns[j]
      && forall k :: 0 <= k < |df.rows| ==> out.rows[k][Shift(j, ci)] == df.rows[k][j]
  {
    var ci := Resolve(df.columns, CI).value;
    var u := WithBounds(df);
    assert SplitInterval(df).value == Drop(u, CI);
    BoundsColumnAt(df, j);
    DropOneKeeps(u, CI, ci, j);
  }

  /** Every column of the split frame a bound name refers to is that bound column, parsed from the interval. */
  lemma SplitBoundColumns(df: Frame, j: nat)
    requires Rectangular(df) && Resolve(df.columns, CI).Ok?
    requires j < |SplitInterval(df).value.columns|
    ensures var ci := Resolve(df.columns, CI).value;
            var out := SplitInterval(df).value;
      && (Matches(out.columns[j], LOWER_CI) ==>
            && out.columns[j] == LOWER_CI
            && forall k :: 0 <= k < |df.rows| ==> out.rows[k][j] == LowerBound(df.rows[k][ci]))
      && (Matches(out.columns[j], UPPER_CI) ==>
            && out.columns[j] == UPPER_CI
            && forall k :: 0 <= k < |df.rows| ==> out.rows[k][j] == UpperBound(df.rows[k][ci]))
  {
    var ci := Resolve(df.columns, CI).value;
    var at := if j < ci then j else j + 1;
    DroppedAt(df, j);
    BoundsColumnAt(df, at);
    NamesDistinct(LOWER_CI);
    NamesDistinct(UPPER_CI);
  }

  /** Both bound columns exist after the split. */
  lemma SplitHasBounds(df: Frame)
    requires Rectangular(df) && Resolve(df.columns, CI).Ok?
    ensures var out := SplitInterval(df).value;
      && (exists j :: 0 <= j < |out.columns| && out.columns[j] == LOWER_CI)
      && (exists j :: 0 <= j < |out.columns| && out.columns[j] == UPPER_CI)
  {
    var ci := Resolve(df.columns, CI).value;
    var u := WithBounds(df);
    assert SplitInterval(df).value == Drop(u, CI);
    var lo, hi := BoundsPresent(df);
    DropOneKeeps(u, CI, ci, lo);
    DropOneKeeps(u, CI, ci, hi);
  }

  /** Before the drop, both bound columns exist and neither is the interval column. */
  lemma BoundsPresent(df: Frame) returns (lo: nat, hi: nat)
    requires Rectangular(df) && Resolve(df.columns, CI).Ok?
    ensures var ci := Resolve(df.columns, CI).value;
            var u := WithBounds(df);
      && lo < |u.columns| && hi < |u.columns| && lo != ci && hi != ci
      && u.columns[lo] == LOWER_CI && u.columns[hi] == UPPER_CI
  {
    var ci := Resolve(df.columns, CI).value;
    NamesDistinct(LOWER_CI);
    NamesDistinct(UPPER_CI);
    var withLower := WithColumn(df, LOWER_CI, MapColumn(df, ci, LowerBound));
    WithColumnKeepsOther(df, LOWER_CI, MapColumn(df, ci, LowerBound), CI, ci);
    var u := WithColumn(withLower, UPPER_CI, MapColumn(withLower, ci, UpperBound));
    assert u == WithBounds(df);
    lo := FirstMatch(df.columns, LOWER_CI, 0);
    assert withLower.columns[lo] == LOWER_CI;
    hi := FirstMatch(withLower.columns, UPPER_CI, 0);
  }

  // ---------------------------------------------------------------- grouping

  /** Where the group column is: the one column `vaccine_group` refers to, else appended at the end. */
  function GroupIndex(df: Frame): (g: nat)
    ensures g <= |df.columns|
  {
    if Resolve(df.columns, VACCINE_GROUP).Ok? then Resolve(df.columns, VACCINE_GROUP).value else |df.columns|
  }

  /**
   After the first `withColumn` of the grouping, `vaccine_group` refers to
   exactly one column, at `GroupIndex`, unless the input already had two
   columns it refers to.
   */
  lemma GroupColumnResolves(df: Frame, values: seq<Value>)
    requires Rectangular(df) && |values| == |df.rows|
    ensures var split := WithColumn(df, VACCINE_GROUP, values);
      && (Resolve(split.columns, VACCINE_GROUP).Ok? <==> Resolve(df.columns, VACCINE_GROUP) != Err(AmbiguousColumn(VACCINE_GROUP)))
      && (Resolve(split.columns, VACCINE_GROUP).Ok? ==> Resolve(split.columns, VACCINE_GROUP).value == GroupIndex(df))
  {
    var split := WithColumn(df, VACCINE_GROUP, values);
    var g := GroupIndex(df);
    match Resolve(df.columns, VACCINE_GROUP)
    case Ok(p) =>
      forall j | 0 <= j < |split.columns| ensures Matches(split.columns[j], VACCINE_GROUP) <==> j == p {
        WithColumnAt(df, VACCINE_GROUP, values, j);
      }
      ResolveUnique(split.columns, VACCINE_GROUP, p);
    case Err(e) =>
      if e == ColumnNotFound(VACCINE_GROUP) {
        forall j | 0 <= j < |split.columns| ensures Matches(split.columns[j], VACCINE_GROUP) <==> j == g {
          WithColumnAt(df, VACCINE_GROUP, values, j);
        }
        ResolveUnique(split.columns, VACCINE_GROUP, g);
      } else {
        var a, b :| 0 <= a < b < |df.columns| && Matches(df.columns[a], VACCINE_GROUP) && Matches(df.columns[b], VACCINE_GROUP);
        assert Matches(split.columns[a], VACCINE_GROUP) && Matches(split.columns[b], VACCINE_GROUP);
      }
  }

  /**
   The vaccine grouping (etl.py:236, 240): the group column first gets the
   text of the vaccine before the first " - ", and is then overwritten with
   "MEN-C" wherever it starts with "MEN-C". It fails when `vaccine` does
   not refer to exactly one column, or when two columns are already called
   `vaccine_group`.
   */
  function GroupVaccines(df: Frame): (r: Result<Frame, SchemaError>)
    requires Rectangular(df)
    ensures r.Ok? <==> Resolve(df.columns, VACCINE).Ok? && Resolve(df.columns, VACCINE_GROUP) != Err(AmbiguousColumn(VACCINE_GROUP))
    ensures r.Err? ==> r.error == if Resolve(df.columns, VACCINE).Err? then Resolve(df.columns, VACCINE).error else AmbiguousColumn(VACCINE_GROUP)
    ensures r.Ok? ==> Rectangular(r.value) && |r.value.rows| == |df.rows|
  {
    match Derive(df, VACCINE_GROUP, VACCINE, SplitGroup)
    case Err(e) => Err(e)
    case Ok(split) =>
      GroupColumnResolves(df, MapColumn(df, Resolve(df.columns, VACCINE).value, SplitGroup));
      Derive(split, VACCINE_GROUP, VACCINE_GROUP, MenCOverride)
  }

  /**
   What the grouping produces: the group column, at `GroupIndex`, holds for
   each row the text of the vaccine cell before the first " - ", or "MEN-C"
   when that text starts with "MEN-C"; every column not called
   `vaccine_group` is unchanged; a column is appended only when none was
   called `vaccine_group` before.
   */
  lemma GroupVaccinesColumns(df: Frame)
    requires Rectangular(df) && GroupVaccines(df).Ok?
    ensures var vi := Resolve(df.columns, VACCINE).value;
            var g := GroupIndex(df);
            var out := GroupVaccines(df).value;
      && |out.columns| == (if g < |df.columns| then |df.columns| else |df.columns| + 1)
      && out.columns[g] == VACCINE_GROUP
      && (forall k :: 0 <= k < |df.rows| ==> out.rows[k][g] == MenCOverride(SplitGroup(df.rows[k][vi])))
      && (forall j :: 0 <= j < |df.columns| && !Matches(df.columns[j], VACCINE_GROUP) ==>
            && out.columns[j] == df.columns[j]
            && forall k :: 0 <= k < |df.rows| ==> out.rows[k][j] == df.rows[k][j])
  {
    var vi := Resolve(df.columns, VACCINE).value;
    var values := MapColumn(df, vi, SplitGroup);
    var split := WithColumn(df, VACCINE_GROUP, values);
    GroupColumnResolves(df, values);
    var g := GroupIndex(df);
    assert GroupVaccines(df) == Derive(split, VACCINE_GROUP, VACCINE_GROUP, MenCOverride);
    DeriveInPlace(split, VACCINE_GROUP, MenCOverride);
    assert forall k :: 0 <= k < |df.rows| ==> split.rows[k][g] == values[k];
    forall j | 0 <= j < |df.columns| && !Matches(df.columns[j], VACCINE_GROUP)
      ensures j != g
    {
    }
  }

  // ---------------------------------------------------------------- pipeline

  /** The headers with their canonical names, the cells as they were. */
  function Renamed(df: Frame): (r: Frame)
    ensures r.rows == df.rows && |r.columns| == |df.columns|
    ensures forall j :: 0 <= j < |df.columns| ==> r.columns[j] == SnakeCase(df.columns[j])
  {
    Frame(RenameList(df.columns), df.rows)
  }

  /** After renaming every header is canonical: no `#`, `%` or space, no upper-case letter. */
  lemma RenamedCanonical(df: Frame)
    ensures forall j :: 0 <= j < |df.columns| ==> IsCanonical(Renamed(df).columns[j])
  {
  }

  /** Renaming a frame whose headers were already renamed changes nothing. */
  lemma RenamedIdempotent(df: Frame)
    ensures Renamed(Renamed(df)) == Renamed(df)
  {
    var once := Renamed(df);
    forall j | 0 <= j < |df.columns| ensures Renamed(once).columns[j] == once.columns[j] {
      SnakeCaseIdempotent(df.columns[j]);
    }
  }

  /** The transform, step by step as the notebook runs it; the first schema error stops it. */
  function Pipeline(df: Frame): (r: Result<Frame, SchemaError>)
    requires Rectangular(df)
    ensures r.Ok? ==> Rectangular(r.value) && |r.value.rows| == |df.rows|
  {
    match CoercedCounts(Renamed(df))
    case Err(e) => Err(e)
    case Ok(counted) =>
      match RescaleCoverage(counted)
      case Err(e) => Err(e)
      case Ok(rescaled) =>
        match SplitInterval(rescaled)
        case Err(e) => Err(e)
        case Ok(split) => GroupVaccines(split)
  }

  /** The transform stage of the notebook, one rebinding of `df` after another. */
  method Transform(df: Frame) returns (r: Result<Frame, SchemaError>)
    requires Rectangular(df)
    ensures r == Pipeline(df)
  {
    var renamed := RenameColumns(df);
    assert renamed == Renamed(df);
    var counted := CoerceCounts(renamed);
    if counted.Err? {
      return Err(counted.error);
    }
    var rescaled := RescaleCoverage(counted.value);
    if rescaled.Err? {
      return Err(rescaled.error);
    }
    var split := SplitInterval(rescaled.value);
    if split.Err? {
      return Err(split.error);
    }
    r := GroupVaccines(split.value);
  }
}
