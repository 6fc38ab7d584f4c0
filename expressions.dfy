/**
 The per-cell column expressions of the transform cells of etl.py: count
 coercion (line 189), coverage rescaling (line 202), the two bounds of the
 confidence-interval split (lines 217-218) and the vaccine grouping (lines
 236 and 240). Each maps the value of one source cell to the new cell.
 */
module Expressions {
  import opened Wrappers
  import opened Text
  import opened Numbers
  import opened Cells

  // ---------------------------------------------------------------- counts

  /** A count cell: every `,` removed, then cast to int; text that is not an integer gives null (etl.py:189). */
  function CoerceCount(v: Value): (r: Value)
    ensures r.Null? || r.Int?
    ensures v.Null? ==> r.Null?
    ensures r.Int? <==> CellText(v).Some? && IsIntLiteral(Remove(CellText(v).value, ','))
  {
    match CellText(v)
    case None => Null
    case Some(t) => CastCount(t)
  }

  /** A count printed with `,` between digit groups, as in "1,234", is read back as that count. */
  lemma CoerceGroupedCount(n: nat)
    ensures CoerceCount(Str(Grouped(n))) == Int(n)
  {
    ParseGrouped(n);
  }

  /** Text with the separators in other places is read as the digits alone: "12,34" is 1234. */
  lemma CoerceIgnoresCommas(a: string, b: string)
    ensures CoerceCount(Str(a + "," + b)) == CoerceCount(Str(a + b))
  {
    RemoveSeparatorAnywhere(a, b);
  }

  lemma RemoveSeparatorAnywhere(a: string, b: string)
    ensures Remove(a + "," + b, ',') == Remove(a + b, ',')
  {
    var sep := ",";
    assert Remove(sep, ',') == [] by {
      assert sep[0] == ',' && sep[1..] == [];
    }
    RemoveAppend(a + sep, b, ',');
    RemoveAppend(a, sep, ',');
    RemoveAppend(a, b, ',');
  }

  /** A column that is already int keeps its values. */
  lemma CoerceKeepsInt(n: int)
    ensures CoerceCount(Int(n)) == Int(n)
  {
    ParseShowInt(n);
  }

  /** Coercing a coerced column again changes nothing. */
  lemma CoerceIdempotent(v: Value)
    ensures CoerceCount(CoerceCount(v)) == CoerceCount(v)
  {
    if CoerceCount(v).Int? {
      CoerceKeepsInt(CoerceCount(v).n);
    }
  }

  /** Text without any digit cannot be cast and becomes null rather than an error. */
  lemma CoerceWithoutDigits(s: string)
    requires forall i :: 0 <= i < |s| ==> !IsDigit(s[i])
    ensures CoerceCount(Str(s)) == Null
  {
    var t := Remove(s, ',');
    if IsIntLiteral(t) {
      var i := if IsDigit(t[0]) then 0 else 1;
      assert IsDigit(t[i]);
      RemoveKeepsOnly(s, ',', i);
      assert false;
    }
  }

  /** Every character of `Remove(s, c)` comes from `s`. */
  lemma {:induction false} RemoveKeepsOnly(s: string, c: char, i: nat)
    requires i < |Remove(s, c)|
    ensures exists j :: 0 <= j < |s| && s[j] == Remove(s, c)[i]
  {
    if s != [] {
      if s[0] == c {
        RemoveKeepsOnly(s[1..], c, i);
        var j :| 0 <= j < |s[1..]| && s[1..][j] == Remove(s[1..], c)[i];
        assert s[j + 1] == Remove(s, c)[i];
      } else if i == 0 {
        assert s[0] == Remove(s, c)[0];
      } else {
        RemoveKeepsOnly(s[1..], c, i - 1);
        var j :| 0 <= j < |s[1..]| && s[1..][j] == Remove(s[1..], c)[i - 1];
        assert s[j + 1] == Remove(s, c)[i];
      }
    }
  }

  // -------------------------------------------------------------- coverage

  /** A coverage cell: multiplied by 100, then cast to a decimal with one fractional digit (etl.py:202). */
  function RescalePct(v: Value): (r: Value)
    ensures r.Null? || r.Fixed?
    ensures v.Null? ==> r.Null?
    ensures r.Fixed? ==> NumericValue(v).Some?
    ensures r.Fixed? ==> -MAX_TENTHS <= r.tenths <= MAX_TENTHS
    ensures r.Fixed? ==>
      1000.0 * NumericValue(v).value - 0.5 <= r.tenths as real <= 1000.0 * NumericValue(v).value + 0.5
    ensures NumericValue(v).Some? && -9999.5 < 1000.0 * NumericValue(v).value < 9999.5 ==> r.Fixed?
  {
    match NumericValue(v)
    case None => Null
    case Some(x) => CastDecimal41(100.0 * x)
  }

  /** A fraction with three decimals, such as 0.873, becomes that many tenths of a percent: 87.3. */
  lemma RescaleThousandths(k: int)
    requires -MAX_TENTHS <= k <= MAX_TENTHS
    ensures RescalePct(Double(k as real / 1000.0)) == Fixed(k)
  {
    var x := k as real / 1000.0;
    assert 100.0 * x == k as real / 10.0;
    CastExactTenths(k);
  }

  // ----------------------------------------------------- confidence interval

  /** Item `i` of the interval text split at every `-`, cast to decimal; a missing item is null (etl.py:217-218). */
  function IntervalItem(v: Value, i: nat): (r: Value)
    ensures r.Null? || r.Fixed?
    ensures v.Null? ==> r.Null?
    ensures CellText(v).Some? && i >= |Split(CellText(v).value, "-")| ==> r.Null?
  {
    match CellText(v)
    case None => Null
    case Some(t) =>
      var parts := Split(t, "-");
      if i < |parts| then CastTextDecimal41(parts[i]) else Null
  }

  /** `lower_95_pct_ci` (etl.py:217). */
  function LowerBound(v: Value): (r: Value)
    ensures r.Null? || r.Fixed?
    ensures v.Str? ==> r == CastTextDecimal41(v.s[..FindFirst(v.s, "-")])
  {
    IntervalItem(v, 0)
  }

  /** `upper_95_pct_ci` (etl.py:218), computed from the same original text as the lower bound. */
  function UpperBound(v: Value): (r: Value)
    ensures r.Null? || r.Fixed?
    ensures v.Str? && !Contains(v.s, "-") ==> r.Null?
  {
    SecondItemWithoutDash(v);
    IntervalItem(v, 1)
  }

  /** Text without `-` has no second item. */
  lemma SecondItemWithoutDash(v: Value)
    ensures v.Str? && !Contains(v.s, "-") ==> IntervalItem(v, 1).Null?
  {
    if v.Str? && !Contains(v.s, "-") {
      SplitWithout(v.s, "-");
    }
  }

  /**
   With the first `-` at position k, the upper bound is the text from k + 1 to
   the next `-` (or to the end) cast to decimal.
   */
  lemma UpperBoundBetweenDashes(s: string, k: nat, rest: string)
    requires k == FindFirst(s, "-") && k < |s| && rest == s[k + 1..]
    ensures UpperBound(Str(s)) == CastTextDecimal41(rest[..FindFirst(rest, "-")])
  {
    SplitAtFirst(s, "-", k);
    BoundsOfSplit(s, [s[..k]] + Split(rest, "-"));
  }

  /** The bounds of an interval text are the casts of the first and the second item of its split. */
  lemma BoundsOfSplit(s: string, parts: seq<string>)
    requires Split(s, "-") == parts
    ensures LowerBound(Str(s)) == CastTextDecimal41(parts[0])
    ensures |parts| >= 2 ==> UpperBound(Str(s)) == CastTextDecimal41(parts[1])
    ensures |parts| == 1 ==> UpperBound(Str(s)) == Null
  {
    assert IntervalItem(Str(s), 1) == UpperBound(Str(s));
  }

  /** "80.0-95.5" splits into 80.0 and 95.5: non-negative bounds survive printing and splitting. */
  lemma IntervalRoundTrip(lo: nat, hi: nat)
    requires lo <= MAX_TENTHS && hi <= MAX_TENTHS
    ensures LowerBound(Str(ShowTenths(lo) + "-" + ShowTenths(hi))) == Fixed(lo)
    ensures UpperBound(Str(ShowTenths(lo) + "-" + ShowTenths(hi))) == Fixed(hi)
  {
    SplitTenths(lo, hi);
    BoundsOfSplit(ShowTenths(lo) + "-" + ShowTenths(hi), [ShowTenths(lo), ShowTenths(hi)]);
    CastShowTenths(lo);
    CastShowTenths(hi);
  }

  /** A printed `decimal(4,1)` value casts back to itself. */
  lemma CastShowTenths(t: nat)
    requires t <= MAX_TENTHS
    ensures CastTextDecimal41(ShowTenths(t)) == Fixed(t)
  {
    ParseShowTenths(t);
    CastExactTenths(t);
  }

  lemma SplitTenths(lo: nat, hi: nat)
    ensures Split(ShowTenths(lo) + "-" + ShowTenths(hi), "-") == [ShowTenths(lo), ShowTenths(hi)]
  {
    var a := ShowTenths(lo);
    var b := ShowTenths(hi);
    TenthsWithoutDash(lo);
    TenthsWithoutDash(hi);
    forall j: nat | j < |a| ensures !OccursAt(a + "-" + b, "-", j) {
      assert (a + "-" + b)[j..j + 1] == a[j..j + 1];
      assert !OccursAt(a, "-", j);
    }
    SplitAfterFirst(a, "-", b);
    SplitWithout(b, "-");
  }

  lemma TenthsWithoutDash(t: nat)
    ensures !Contains(ShowTenths(t), "-")
  {
    var s := ShowTenths(t);
    assert forall i :: 0 <= i < |s| ==> s[i] != '-';
    forall k: nat | k <= |s| ensures !OccursAt(s, "-", k) {
      if k + 1 <= |s| {
        assert s[k..k + 1][0] == s[k];
      }
    }
  }

  // ---------------------------------------------------------------- vaccine

  const GROUP_SEPARATOR: string := " - "

  const MEN_C: string := "MEN-C"

  /** The first item of the vaccine name split at " - ": the text before the first " - " (etl.py:236). */
  function SplitGroup(v: Value): (r: Value)
    ensures v.Null? ==> r.Null?
    ensures v.Str? ==> r == Str(v.s[..FindFirst(v.s, GROUP_SEPARATOR)])
  {
    match CellText(v)
    case None => Null
    case Some(t) => Str(Split(t, GROUP_SEPARATOR)[0])
  }

  /**
   A group starting with "MEN-C" becomes exactly "MEN-C" and any other value
   is kept (etl.py:240); a null does not match the pattern and stays null.
   */
  function MenCOverride(v: Value): (r: Value)
    ensures CellText(v).Some? && StartsWith(CellText(v).value, MEN_C) ==> r == Str(MEN_C)
    ensures !(CellText(v).Some? && StartsWith(CellText(v).value, MEN_C)) ==> r == v
  {
    match CellText(v)
    case Some(g) => if StartsWith(g, MEN_C) then Str(MEN_C) else v
    case None => v
  }

  /** The group label of a vaccine name, as the two cells compute it together. */
  function Group(s: string): (r: string)
    ensures StartsWith(s, r)
  {
    var g := s[..FindFirst(s, GROUP_SEPARATOR)];
    if StartsWith(g, MEN_C) then
      assert s[..|MEN_C|] == g[..|MEN_C|];
      MEN_C
    else g
  }

  /** The two cells (etl.py:236, 240) compute `Group` on text and keep null as null. */
  lemma GroupCells(v: Value)
    ensures v.Str? ==> MenCOverride(SplitGroup(v)) == Str(Group(v.s))
    ensures v.Null? ==> MenCOverride(SplitGroup(v)) == Null
  {
  }

  lemma MenCWithoutSeparator()
    ensures !Contains(MEN_C, GROUP_SEPARATOR)
  {
    forall k: nat | k <= |MEN_C| ensures !OccursAt(MEN_C, GROUP_SEPARATOR, k) {
      if k + 3 <= |MEN_C| {
        assert MEN_C[k..k + 3][0] == MEN_C[k] != ' ';
      }
    }
  }

  /**
   The group is a prefix of the vaccine name, never contains " - ", and a
   name whose text before the first " - " starts with "MEN-C" is in group
   "MEN-C".
   */
  lemma GroupShape(s: string)
    ensures StartsWith(s, Group(s))
    ensures !Contains(Group(s), GROUP_SEPARATOR)
    ensures StartsWith(s[..FindFirst(s, GROUP_SEPARATOR)], MEN_C) ==> Group(s) == MEN_C
    ensures !StartsWith(s[..FindFirst(s, GROUP_SEPARATOR)], MEN_C) ==> Group(s) == s[..FindFirst(s, GROUP_SEPARATOR)]
  {
    var k := FindFirst(s, GROUP_SEPARATOR);
    var g := s[..k];
    PrefixBeforeFirstFree(s, GROUP_SEPARATOR);
    if StartsWith(g, MEN_C) {
      MenCWithoutSeparator();
      assert s[..|MEN_C|] == g[..|MEN_C|];
    }
  }

  /** A name without " - " that does not start with "MEN-C" is its own group. */
  lemma GroupWithoutSeparator(s: string)
    requires !Contains(s, GROUP_SEPARATOR) && !StartsWith(s, MEN_C)
    ensures Group(s) == s
  {
    assert s[..FindFirst(s, GROUP_SEPARATOR)] == s;
  }

  /** A name "head - rest", where head has no space, is in the group of head. */
  lemma GroupOfDose(s: string, head: string, rest: string)
    requires s == head + GROUP_SEPARATOR + rest && ' ' !in head
    ensures Group(s) == if StartsWith(head, MEN_C) then MEN_C else head
  {
    FindFirstAfter(head, GROUP_SEPARATOR, rest);
    assert s[..|head|] == head;
  }

  /** A name without a space is its own group, unless it starts with "MEN-C". */
  lemma GroupOfWord(s: string)
    requires ' ' !in s
    ensures Group(s) == if StartsWith(s, MEN_C) then MEN_C else s
  {
    FindFirstNone(s, GROUP_SEPARATOR);
    assert s[..|s|] == s;
  }

  /** Grouping a group label again gives the same label. */
  lemma GroupIdempotent(s: string)
    ensures Group(Group(s)) == Group(s)
  {
    var g := Group(s);
    GroupShape(s);
    assert g[..FindFirst(g, GROUP_SEPARATOR)] == g;
  }
}
