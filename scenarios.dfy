/**
 Worked instances of the transform on the headers and cell texts of the
 immunisation data set. Each instance is split into small steps: the
 spelling of a literal, then the general lemma that applies to it.
 */
module Scenarios {
  import opened Text
  import opened Numbers
  import opened Header
  import opened Cells
  import opened Expressions

  // ----------------------------------------------------------------- headers

  /** "Year" becomes "year". */
  lemma YearHeader()
    ensures SnakeCase("Year") == "year"
  {
    var name := "Year";
    assert Lower(name) == "year";
    SnakeCaseOfPlain(name);
  }

  /** "Zone" becomes "zone". */
  lemma ZoneHeader()
    ensures SnakeCase("Zone") == "zone"
  {
    var name := "Zone";
    assert Lower(name) == "zone";
    SnakeCaseOfPlain(name);
  }

  /** "Vaccine" becomes "vaccine". */
  lemma VaccineHeader()
    ensures SnakeCase("Vaccine") == "vaccine"
  {
    var name := "Vaccine";
    assert Lower(name) == "vaccine";
    SnakeCaseOfPlain(name);
  }

  lemma EligibleSpelling()
    ensures "# Eligible" == ['#', ' '] + "Eligible"
    ensures forall i :: 0 <= i < |"Eligible"| ==> !IsSpecial("Eligible"[i])
    ensures Replacement('#') + "_" + Lower("Eligible") == "no_eligible"
  {
  }

  /** "# Eligible" becomes "no_eligible". */
  lemma EligibleHeader()
    ensures SnakeCase("# Eligible") == "no_eligible"
  {
    EligibleSpelling();
    SnakeCaseSymbolWord("# Eligible", '#', "Eligible");
  }

  lemma ImmunizedSpelling()
    ensures "# Immunized" == ['#', ' '] + "Immunized"
    ensures forall i :: 0 <= i < |"Immunized"| ==> !IsSpecial("Immunized"[i])
    ensures Replacement('#') + "_" + Lower("Immunized") == "no_immunized"
  {
  }

  /** "# Immunized" becomes "no_immunized". */
  lemma ImmunizedHeader()
    ensures SnakeCase("# Immunized") == "no_immunized"
  {
    ImmunizedSpelling();
    SnakeCaseSymbolWord("# Immunized", '#', "Immunized");
  }

  lemma CoverageSpelling()
    ensures "% Coverage" == ['%', ' '] + "Coverage"
    ensures forall i :: 0 <= i < |"Coverage"| ==> !IsSpecial("Coverage"[i])
    ensures Replacement('%') + "_" + Lower("Coverage") == "pct_coverage"
  {
  }

  /** "% Coverage" becomes "pct_coverage". */
  lemma CoverageHeader()
    ensures SnakeCase("% Coverage") == "pct_coverage"
  {
    CoverageSpelling();
    SnakeCaseSymbolWord("% Coverage", '%', "Coverage");
  }

  /** The tail " CI" of "95% CI", character by character. */
  lemma IntervalTailPieces()
    ensures PieceWise(" CI") == "_ci"
  {
    assert PieceWise("I") == "i";
    assert PieceWise("CI") == "ci";
  }

  /** "95% CI" character by character: the `5` before `%` gets an "_" after it. */
  lemma IntervalPieces()
    ensures PieceWise("95% CI") == "95_pct_ci"
  {
    IntervalTailPieces();
    assert "95% CI"[3..] == " CI";
    assert PieceWise("% CI") == "pct_ci";
    assert PieceWise("5% CI") == "5_pct_ci";
  }

  /** "95% CI" becomes "95_pct_ci". */
  lemma IntervalHeader()
    ensures SnakeCase("95% CI") == "95_pct_ci"
  {
    IntervalPieces();
    SnakeCaseIsPieceWise("95% CI");
  }

  // ------------------------------------------------------------------ counts

  /** "1,234" is read as 1234. */
  lemma GroupedCountCell()
    ensures CoerceCount(Str("1,234")) == Int(1234)
  {
    assert Pad3(234) == "234";
    assert Grouped(1234) == "1,234";
    CoerceGroupedCount(1234);
  }

  /** Text without digits is not a count: it becomes null, not an error. */
  lemma UnparsableCountCell()
    ensures CoerceCount(Str("n/a")) == Null
  {
    CoerceWithoutDigits("n/a");
  }

  /** A coverage of 0.875 becomes 87.5 per cent. */
  lemma CoverageCell()
    ensures RescalePct(Double(0.875)) == Fixed(875)
  {
    RescaleThousandths(875);
  }

  // --------------------------------------------------------------- intervals

  lemma IntervalText()
    ensures ShowTenths(820) + "-" + ShowTenths(920) == "82.0-92.0"
  {
    assert ShowTenths(820) == "82.0";
    assert ShowTenths(920) == "92.0";
  }

  /** "82.0-92.0" gives the bounds 82.0 and 92.0. */
  lemma IntervalCell()
    ensures LowerBound(Str("82.0-92.0")) == Fixed(820)
    ensures UpperBound(Str("82.0-92.0")) == Fixed(920)
  {
    IntervalText();
    IntervalRoundTrip(820, 920);
  }

  lemma EightyText()
    ensures ShowTenths(800) == "80.0"
    ensures Split("80.0", "-") == ["80.0"]
  {
    FindFirstNone("80.0", "-");
  }

  /** A single value "80.0" gives the lower bound 80.0 and no upper bound. */
  lemma SingleValueCell()
    ensures LowerBound(Str("80.0")) == Fixed(800)
    ensures UpperBound(Str("80.0")) == Null
  {
    EightyText();
    BoundsOfSplit("80.0", ["80.0"]);
    CastShowTenths(800);
  }

  lemma FiveText()
    ensures ShowTenths(50) == "5.0"
  {
    assert ShowNat(5) == "5";
    assert DigitChar(0) == '0';
  }

  /** "5.0" casts to 5.0. */
  lemma CastFive()
    ensures CastTextDecimal41("5.0") == Fixed(50)
  {
    FiveText();
    CastShowTenths(50);
  }

  lemma TenAlone()
    ensures Split("10.0", "-") == ["10.0"]
  {
    FindFirstNone("10.0", "-");
  }

  lemma FiveToTen()
    ensures Split("5.0-10.0", "-") == ["5.0", "10.0"]
  {
    TenAlone();
    SplitAfterHead("5.0-10.0", "5.0", "-", "10.0");
  }

  lemma NegativeSpelling()
    ensures "-5.0-10.0" == "" + "-" + "5.0-10.0"
  {
  }

  /** Every `-` separates items, a leading minus sign too. */
  lemma SplitNegative()
    ensures Split("-5.0-10.0", "-") == ["", "5.0", "10.0"]
  {
    FiveToTen();
    NegativeSpelling();
    SplitAfterHead("-5.0-10.0", "", "-", "5.0-10.0");
  }

  /** The split on every `-`: "-5.0-10.0" has an empty first item, so its lower bound is null. */
  lemma NegativeLowerBound()
    ensures LowerBound(Str("-5.0-10.0")) == Null
  {
    SplitNegative();
    BoundsOfSplit("-5.0-10.0", ["", "5.0", "10.0"]);
    assert ParseDecimal("").None?;
  }

  /** ... and its upper bound is 5.0, the text between the first and the second `-`. */
  lemma NegativeUpperBound()
    ensures UpperBound(Str("-5.0-10.0")) == Fixed(50)
  {
    SplitNegative();
    BoundsOfSplit("-5.0-10.0", ["", "5.0", "10.0"]);
    CastFive();
  }

  // ------------------------------------------------------------------ groups

  /** "HBV - Dose 1" belongs to the group "HBV". */
  lemma DoseGroupCell()
    ensures Group("HBV - Dose 1") == "HBV"
  {
    GroupOfDose("HBV - Dose 1", "HBV", "Dose 1");
  }

  /** A name without " - " is its own group. */
  lemma PlainGroupCell()
    ensures Group("HBV") == "HBV"
  {
    GroupOfWord("HBV");
  }

  lemma MenCVariantSpelling()
    ensures "MEN-C-ACYW135" == MEN_C + "-ACYW135"
    ensures ' ' !in "MEN-C-ACYW135"
  {
  }

  /** A name starting with "MEN-C" belongs to "MEN-C" even without " - ". */
  lemma MenCVariantGroupCell()
    ensures Group("MEN-C-ACYW135") == "MEN-C"
  {
    MenCVariantSpelling();
    var s := "MEN-C-ACYW135";
    assert s[..|MEN_C|] == MEN_C;
    GroupOfWord(s);
  }

  /** "MEN-C - Dose 2" belongs to "MEN-C". */
  lemma MenCDoseGroupCell()
    ensures Group("MEN-C - Dose 2") == "MEN-C"
  {
    GroupOfDose("MEN-C - Dose 2", "MEN-C", "Dose 2");
  }
}
