/**
 Cell values of a data frame and the casts the transform applies to them:
 text to int, text or number to `decimal(4,1)`.
 */
module Cells {
  import opened Wrappers
  import opened Text
  import opened Numbers

  /**
   A cell: null, text, an int, a double (taken at its exact value) or a
   `decimal(4,1)` held as a whole number of tenths.
   */
  datatype Value = Null | Str(s: string) | Int(n: int) | Double(x: real) | Fixed(tenths: int)

  /** `decimal(4,1)` has four digits, one of them after the point: at most 999.9. */
  const MAX_TENTHS: int := 9999

  /**
   The text a string function sees in a cell. Text is itself; an int prints
   in decimal; the printed forms of doubles and decimals are not modelled and
   give null, as null does.
   */
  function CellText(v: Value): (t: Option<string>)
    ensures v.Str? ==> t == Some(v.s)
    ensures v.Null? ==> t.None?
  {
    match v
    case Str(s) => Some(s)
    case Int(n) => Some(ShowInt(n))
    case _ => None
  }

  /** The exact number a numeric cell holds, or the text of a text cell read as a decimal. */
  function NumericValue(v: Value): (x: Option<real>)
    ensures v.Null? ==> x.None?
  {
    match v
    case Null => None
    case Str(s) => ParseDecimal(s)
    case Int(n) => Some(n as real)
    case Double(x) => Some(x)
    case Fixed(t) => Some(t as real / 10.0)
  }

  /**
   `cast(x as decimal(4,1))`: rounded to tenths, halves away from zero; a
   value that does not fit in four digits becomes null.
   */
  function CastDecimal41(x: real): (r: Value)
    ensures r.Null? || r.Fixed?
    ensures r.Fixed? ==> -MAX_TENTHS <= r.tenths <= MAX_TENTHS
    ensures r.Fixed? ==> 10.0 * x - 0.5 <= r.tenths as real <= 10.0 * x + 0.5
    ensures r.Null? <==> (10.0 * x >= 9999.5 || 10.0 * x <= -9999.5)
    ensures r.Fixed? && r.tenths as real == 10.0 * x + 0.5 ==> x > 0.0
    ensures r.Fixed? && r.tenths as real == 10.0 * x - 0.5 ==> x < 0.0
  {
    var t := RoundHalfUp(10.0 * x);
    if -MAX_TENTHS <= t <= MAX_TENTHS then Fixed(t) else Null
  }

  /** A value that already has one fractional digit is cast to itself. */
  lemma CastExactTenths(t: int)
    requires -MAX_TENTHS <= t <= MAX_TENTHS
    ensures CastDecimal41(t as real / 10.0) == Fixed(t)
  {
    assert 10.0 * (t as real / 10.0) == t as real;
  }

  /** `cast(text as decimal(4,1))`: text that is not a decimal becomes null. */
  function CastTextDecimal41(s: string): (r: Value)
    ensures r.Null? || r.Fixed?
    ensures ParseDecimal(s).None? ==> r.Null?
    ensures r.Fixed? ==> exists i :: 0 <= i < |s| && IsDigit(s[i])
  {
    match ParseDecimal(s)
    case None => Null
    case Some(x) => CastDecimal41(x)
  }

  /** The int cast of a count's text once every `,` has been removed. */
  function CastCount(s: string): (r: Value)
    ensures r.Null? || r.Int?
    ensures r.Int? <==> IsIntLiteral(Remove(s, ','))
  {
    match ParseInt(Remove(s, ','))
    case None => Null
    case Some(n) => Int(n)
  }
}
