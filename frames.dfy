/**
 A data frame as the notebook sees it: an ordered list of column names and
 rows of cells, one cell per column. The three frame operations the
 transform uses follow Spark's default behaviour: names are compared
 without regard to case, `withColumnRenamed` and `drop` act on every column
 the name matches and do nothing when none does, `withColumn` replaces every
 matching column (which then takes the given spelling) or appends a new one,
 and a column referenced inside an expression must match exactly one column.
 */
module Frames {
  import opened Wrappers
  import opened Text
  import opened Cells

  datatype Frame = Frame(columns: seq<string>, rows: seq<seq<Value>>)

  /** Every row has one cell per column. */
  predicate Rectangular(f: Frame)
  {
    forall k :: 0 <= k < |f.rows| ==> |f.rows[k]| == |f.columns|
  }

  /** Spark's default resolver: a name refers to a column when they agree up to letter case. */
  predicate Matches(column: string, name: string): (b: bool)
    ensures column == name ==> b
    ensures b ==> |column| == |name|
  {
    Lower(column) == Lower(name)
  }

  datatype SchemaError = ColumnNotFound(name: string) | AmbiguousColumn(name: string)

  /** The first column at or after `from` that `name` matches, or `|columns|`. */
  function FirstMatch(columns: seq<string>, name: string, from: nat): (j: nat)
    requires from <= |columns|
    ensures from <= j <= |columns|
    ensures j < |columns| ==> Matches(columns[j], name)
    ensures forall i :: from <= i < j ==> !Matches(columns[i], name)
    decreases |columns| - from
  {
    if from == |columns| then from
    else if Matches(columns[from], name) then from
    else FirstMatch(columns, name, from + 1)
  }

  /** A column reference: the one column the name refers to. */
  function Resolve(columns: seq<string>, name: string): (r: Result<nat, SchemaError>)
    ensures r.Ok? ==> r.value < |columns| && Matches(columns[r.value], name)
    ensures r.Ok? ==> forall j :: 0 <= j < |columns| && j != r.value ==> !Matches(columns[j], name)
    ensures r.Err? ==> r.error == ColumnNotFound(name) || r.error == AmbiguousColumn(name)
    ensures r == Err(ColumnNotFound(name)) <==> forall j :: 0 <= j < |columns| ==> !Matches(columns[j], name)
    ensures r == Err(AmbiguousColumn(name)) ==>
      exists i, j :: 0 <= i < j < |columns| && Matches(columns[i], name) && Matches(columns[j], name)
  {
    var i := FirstMatch(columns, name, 0);
    if i == |columns| then Err(ColumnNotFound(name))
    else if FirstMatch(columns, name, i + 1) < |columns| then Err(AmbiguousColumn(name))
    else Ok(i)
  }

  /** Resolution looks at names only up to letter case. */
  lemma ResolveIgnoresCase(a: seq<string>, b: seq<string>, name: string)
    requires |a| == |b|
    requires forall j :: 0 <= j < |a| ==> Lower(a[j]) == Lower(b[j])
    ensures Resolve(a, name) == Resolve(b, name)
  {
    FirstMatchIgnoresCase(a, b, name, 0);
    var i := FirstMatch(a, name, 0);
    if i < |a| {
      FirstMatchIgnoresCase(a, b, name, i + 1);
    }
  }

  lemma {:induction false} FirstMatchIgnoresCase(a: seq<string>, b: seq<string>, name: string, from: nat)
    requires |a| == |b| && from <= |a|
    requires forall j :: 0 <= j < |a| ==> Lower(a[j]) == Lower(b[j])
    ensures FirstMatch(a, name, from) == FirstMatch(b, name, from)
    decreases |a| - from
  {
    if from < |a| {
      FirstMatchIgnoresCase(a, b, name, from + 1);
    }
  }

  /** `df.withColumnRenamed(existing, newName)`: every matching column takes the new name; cells are kept. */
  function WithColumnRenamed(f: Frame, existing: string, newName: string): (r: Frame)
    ensures r.rows == f.rows && |r.columns| == |f.columns|
    ensures forall j :: 0 <= j < |f.columns| ==>
      r.columns[j] == if Matches(f.columns[j], existing) then newName else f.columns[j]
  {
    Frame(seq(|f.columns|, j requires 0 <= j < |f.columns| =>
            if Matches(f.columns[j], existing) then newName else f.columns[j]),
          f.rows)
  }

  /**
   `df.withColumn(name, values)` with one new value per row: every column
   the name matches is replaced in place and takes the spelling `name`;
   when none matches, the column is appended at the end.
   */
  function WithColumn(f: Frame, name: string, values: seq<Value>): (r: Frame)
    requires Rectangular(f) && |values| == |f.rows|
    ensures Rectangular(r) && |r.rows| == |f.rows|
    ensures FirstMatch(f.columns, name, 0) < |f.columns| ==> |r.columns| == |f.columns|
    ensures FirstMatch(f.columns, name, 0) == |f.columns| ==>
      && |r.columns| == |f.columns| + 1
      && r.columns[|f.columns|] == name
      && forall k :: 0 <= k < |f.rows| ==> r.rows[k][|f.columns|] == values[k]
    ensures forall j :: 0 <= j < |f.columns| && !Matches(f.columns[j], name) ==>
      && r.columns[j] == f.columns[j]
      && forall k :: 0 <= k < |f.rows| ==> r.rows[k][j] == f.rows[k][j]
    ensures forall j :: 0 <= j < |f.columns| && Matches(f.columns[j], name) ==>
      && r.columns[j] == name
      && forall k :: 0 <= k < |f.rows| ==> r.rows[k][j] == values[k]
  {
    if FirstMatch(f.columns, name, 0) < |f.columns| then
      Frame(seq(|f.columns|, j requires 0 <= j < |f.columns| =>
              if Matches(f.columns[j], name) then name else f.columns[j]),
            seq(|f.rows|, k requires 0 <= k < |f.rows| =>
              seq(|f.columns|, j requires 0 <= j < |f.columns| =>
                if Matches(f.columns[j], name) then values[k] else f.rows[k][j])))
    else
      Frame(f.columns + [name], seq(|f.rows|, k requires 0 <= k < |f.rows| => f.rows[k] + [values[k]]))
  }

  /** The cells of column `i`, each passed through `g`: a column expression over one column. */
  function MapColumn(f: Frame, i: nat, g: Value -> Value): (values: seq<Value>)
    requires Rectangular(f) && i < |f.columns|
    ensures |values| == |f.rows|
    ensures forall k :: 0 <= k < |f.rows| ==> values[k] == g(f.rows[k][i])
  {
    seq(|f.rows|, k requires 0 <= k < |f.rows| => g(f.rows[k][i]))
  }

  /** A new or replaced column `target` computed cell by cell from column `source`: fails when `source` does not name exactly one column. */
  function Derive(f: Frame, target: string, source: string, g: Value -> Value): (r: Result<Frame, SchemaError>)
    requires Rectangular(f)
    ensures r.Ok? <==> Resolve(f.columns, source).Ok?
    ensures r.Err? ==> r.error == Resolve(f.columns, source).error
    ensures r.Ok? ==> r.value == WithColumn(f, target, MapColumn(f, Resolve(f.columns, source).value, g))
  {
    match Resolve(f.columns, source)
    case Err(e) => Err(e)
    case Ok(i) => Ok(WithColumn(f, target, MapColumn(f, i, g)))
  }

  /** A name that matches exactly column `i` resolves to `i`. */
  lemma ResolveUnique(columns: seq<string>, name: string, i: nat)
    requires i < |columns|
    requires forall j :: 0 <= j < |columns| ==> (Matches(columns[j], name) <==> j == i)
    ensures Resolve(columns, name) == Ok(i)
  {
    var first := FirstMatch(columns, name, 0);
    assert Matches(columns[i], name);
    if first < |columns| {
      assert Matches(columns[first], name);
    }
    assert first == i;
    var second := FirstMatch(columns, name, i + 1);
    assert second == |columns|;
  }

  /** `withColumn` under a name that matches no column appends the column, and a cell to every row. */
  lemma WithColumnAppends(f: Frame, name: string, values: seq<Value>)
    requires Rectangular(f) && |values| == |f.rows|
    requires forall j :: 0 <= j < |f.columns| ==> !Matches(f.columns[j], name)
    ensures WithColumn(f, name, values).columns == f.columns + [name]
    ensures forall k :: 0 <= k < |f.rows| ==> WithColumn(f, name, values).rows[k] == f.rows[k] + [values[k]]
  {
    assert FirstMatch(f.columns, name, 0) == |f.columns|;
  }

  /** Each column after `withColumn` is either the new column or an untouched old one. */
  lemma WithColumnAt(f: Frame, name: string, values: seq<Value>, j: nat)
    requires Rectangular(f) && |values| == |f.rows|
    requires j < |WithColumn(f, name, values).columns|
    ensures var r := WithColumn(f, name, values);
      || (r.columns[j] == name && forall k :: 0 <= k < |f.rows| ==> r.rows[k][j] == values[k])
      || (&& j < |f.columns| && !Matches(f.columns[j], name) && r.columns[j] == f.columns[j]
          && forall k :: 0 <= k < |f.rows| ==> r.rows[k][j] == f.rows[k][j])
  {
  }

  /** `withColumn` under a name that cannot refer to column `i` leaves that column, and its resolution, alone. */
  lemma WithColumnKeepsOther(f: Frame, target: string, values: seq<Value>, source: string, i: nat)
    requires Rectangular(f) && |values| == |f.rows| && Lower(source) != Lower(target)
    requires Resolve(f.columns, source) == Ok(i)
    ensures var r := WithColumn(f, target, values);
      && Resolve(r.columns, source) == Ok(i)
      && r.columns[i] == f.columns[i]
      && forall k :: 0 <= k < |f.rows| ==> r.rows[k][i] == f.rows[k][i]
  {
    var r := WithColumn(f, target, values);
    forall j | 0 <= j < |r.columns| ensures Matches(r.columns[j], source) <==> j == i {
      WithColumnAt(f, target, values, j);
    }
    ResolveUnique(r.columns, source, i);
  }

  /**
   Deriving a column from itself, under a name that matches exactly one
   column, rewrites that column in place and nothing else.
   */
  lemma DeriveInPlace(f: Frame, name: string, g: Value -> Value)
    requires Rectangular(f)
    ensures Resolve(f.columns, name).Ok? ==>
      var i := Resolve(f.columns, name).value;
      var r := Derive(f, name, name, g).value;
      && Rectangular(r) && |r.rows| == |f.rows| && |r.columns| == |f.columns|
      && r.columns[i] == name
      && (forall j :: 0 <= j < |f.columns| && j != i ==> r.columns[j] == f.columns[j])
      && (forall k :: 0 <= k < |f.rows| ==> r.rows[k][i] == g(f.rows[k][i]))
      && (forall k, j :: 0 <= k < |f.rows| && 0 <= j < |f.columns| && j != i ==> r.rows[k][j] == f.rows[k][j])
  {
    if Resolve(f.columns, name).Ok? {
      var i := Resolve(f.columns, name).value;
      assert FirstMatch(f.columns, name, 0) == i;
    }
  }

  /** The entries of `xs` whose column `name` does not match. */
  function KeepUnmatched<T>(columns: seq<string>, xs: seq<T>, name: string): (r: seq<T>)
    requires |xs| == |columns|
    ensures |r| <= |xs|
  {
    if columns == [] then []
    else (if Matches(columns[0], name) then [] else [xs[0]]) + KeepUnmatched(columns[1..], xs[1..], name)
  }

  /** `df.drop(name)`: every matching column is removed; nothing happens when none matches. */
  function Drop(f: Frame, name: string): (r: Frame)
    requires Rectangular(f)
    ensures Rectangular(r) && |r.rows| == |f.rows|
    ensures forall j :: 0 <= j < |r.columns| ==> !Matches(r.columns[j], name)
  {
    var columns := KeepUnmatched(f.columns, f.columns, name);
    KeepUnmatchedColumns(f.columns, name);
    var rows := seq(|f.rows|, k requires 0 <= k < |f.rows| => KeepUnmatched(f.columns, f.rows[k], name));
    assert forall k :: 0 <= k < |f.rows| ==> |rows[k]| == |columns| by {
      forall k | 0 <= k < |f.rows| ensures |rows[k]| == |columns| {
        KeepUnmatchedLength(f.columns, f.rows[k], f.columns, name);
      }
    }
    Frame(columns, rows)
  }

  lemma {:induction false} KeepUnmatchedColumns(columns: seq<string>, name: string)
    ensures forall j :: 0 <= j < |KeepUnmatched(columns, columns, name)| ==>
      !Matches(KeepUnmatched(columns, columns, name)[j], name)
    decreases |columns|
  {
    if columns != [] {
      KeepUnmatchedColumnsSuffix(columns, columns, name);
    }
  }

  lemma {:induction false} KeepUnmatchedColumnsSuffix(columns: seq<string>, xs: seq<string>, name: string)
    requires xs == columns
    ensures forall j :: 0 <= j < |KeepUnmatched(columns, xs, name)| ==> !Matches(KeepUnmatched(columns, xs, name)[j], name)
    decreases |columns|
  {
    if columns != [] {
      KeepUnmatchedColumnsSuffix(columns[1..], xs[1..], name);
    }
  }

  lemma {:induction false} KeepUnmatchedLength<S, T>(columns: seq<string>, xs: seq<S>, ys: seq<T>, name: string)
    requires |xs| == |columns| && |ys| == |columns|
    ensures |KeepUnmatched(columns, xs, name)| == |KeepUnmatched(columns, ys, name)|
    decreases |columns|
  {
    if columns != [] {
      KeepUnmatchedLength(columns[1..], xs[1..], ys[1..], name);
    }
  }

  /** When only column `i` matches, keeping the unmatched entries removes entry `i` alone. */
  lemma {:induction false} KeepUnmatchedOne<T>(columns: seq<string>, xs: seq<T>, name: string, i: nat)
    requires |xs| == |columns| && i < |columns|
    requires forall j :: 0 <= j < |columns| ==> (Matches(columns[j], name) <==> j == i)
    ensures KeepUnmatched(columns, xs, name) == xs[..i] + xs[i + 1..]
    decreases |columns|
  {
    if i == 0 {
      KeepUnmatchedNone(columns[1..], xs[1..], name);
    } else {
      KeepUnmatchedOne(columns[1..], xs[1..], name, i - 1);
      assert xs[1..][..i - 1] + xs[1..][i..] == xs[1..i] + xs[i + 1..];
      assert xs[..i] == [xs[0]] + xs[1..i];
    }
  }

  lemma {:induction false} KeepUnmatchedNone<T>(columns: seq<string>, xs: seq<T>, name: string)
    requires |xs| == |columns|
    requires forall j :: 0 <= j < |columns| ==> !Matches(columns[j], name)
    ensures KeepUnmatched(columns, xs, name) == xs
    decreases |columns|
  {
    if columns != [] {
      KeepUnmatchedNone(columns[1..], xs[1..], name);
    }
  }

  /** Dropping a name that matches exactly column `i` removes that column at its position. */
  lemma DropOne(f: Frame, name: string, i: nat)
    requires Rectangular(f) && i < |f.columns|
    requires forall j :: 0 <= j < |f.columns| ==> (Matches(f.columns[j], name) <==> j == i)
    ensures Drop(f, name).columns == f.columns[..i] + f.columns[i + 1..]
    ensures forall k :: 0 <= k < |f.rows| ==> Drop(f, name).rows[k] == f.rows[k][..i] + f.rows[k][i + 1..]
  {
    KeepUnmatchedOne(f.columns, f.columns, name, i);
    forall k | 0 <= k < |f.rows| ensures Drop(f, name).rows[k] == f.rows[k][..i] + f.rows[k][i + 1..] {
      KeepUnmatchedOne(f.columns, f.rows[k], name, i);
    }
  }

  /** Column `j` after dropping the one column `i` is column `j` or `j + 1` before it. */
  lemma DropOneAt(f: Frame, name: string, i: nat, j: nat)
    requires Rectangular(f) && i < |f.columns|
    requires forall j :: 0 <= j < |f.columns| ==> (Matches(f.columns[j], name) <==> j == i)
    requires j < |Drop(f, name).columns|
    ensures var at := if j < i then j else j + 1;
      && at < |f.columns| && at != i
      && Drop(f, name).columns[j] == f.columns[at]
      && forall k :: 0 <= k < |f.rows| ==> Drop(f, name).rows[k][j] == f.rows[k][at]
  {
    DropOne(f, name, i);
  }

  /** Where column `j` ends up once column `i` is dropped. */
  function Shift(j: nat, i: nat): nat
  {
    if j <= i then j else j - 1
  }

  /** Dropping the one column `i` moves every other column `j` to `Shift(j, i)` with its cells. */
  lemma DropOneKeeps(f: Frame, name: string, i: nat, j: nat)
    requires Rectangular(f) && i < |f.columns|
    requires forall j :: 0 <= j < |f.columns| ==> (Matches(f.columns[j], name) <==> j == i)
    requires j < |f.columns| && j != i
    ensures Shift(j, i) < |Drop(f, name).columns|
    ensures Drop(f, name).columns[Shift(j, i)] == f.columns[j]
    ensures forall k :: 0 <= k < |f.rows| ==> Drop(f, name).rows[k][Shift(j, i)] == f.rows[k][j]
  {
    DropOne(f, name, i);
  }

  /** Dropping a name that matches no column changes nothing. */
  lemma DropNone(f: Frame, name: string)
    requires Rectangular(f)
    requires forall j :: 0 <= j < |f.columns| ==> !Matches(f.columns[j], name)
    ensures Drop(f, name) == f
  {
    KeepUnmatchedNone(f.columns, f.columns, name);
    forall k | 0 <= k < |f.rows| ensures Drop(f, name).rows[k] == f.rows[k] {
      KeepUnmatchedNone(f.columns, f.rows[k], name);
    }
  }
}
