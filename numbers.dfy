/**
 Decimal text and numbers: the text-to-int and text-to-decimal casts the
 transform relies on, their printed forms, and rounding half away from zero.
 */
module Numbers {
  import opened Wrappers
  import opened Text

  predicate AllDigits(s: string) { forall i :: 0 <= i < |s| ==> IsDigit(s[i]) }

  function DigitValue(c: char): nat
    requires IsDigit(c)
  {
    c as int - '0' as int
  }

  function DigitChar(d: nat): (c: char)
    requires d < 10
    ensures IsDigit(c) && DigitValue(c) == d
  {
    ('0' as int + d) as char
  }

  function Pow10(n: nat): (p: nat)
    ensures p >= 1
  {
    if n == 0 then 1 else 10 * Pow10(n - 1)
  }

  /** The number a string of decimal digits denotes, the leftmost digit most significant. */
  function DigitsValue(s: string): nat
    requires AllDigits(s)
    decreases |s|
  {
    if s == [] then 0 else DigitsValue(s[..|s| - 1]) * 10 + DigitValue(s[|s| - 1])
  }

  lemma {:induction false} DigitsValueAppend(a: string, b: string)
    requires AllDigits(a) && AllDigits(b)
    ensures AllDigits(a + b)
    ensures DigitsValue(a + b) == DigitsValue(a) * Pow10(|b|) + DigitsValue(b)
    decreases |b|
  {
    if b == [] {
      assert a + b == a;
    } else {
      var b' := b[..|b| - 1];
      var d := DigitValue(b[|b| - 1]);
      assert (a + b)[..|a + b| - 1] == a + b';
      assert (a + b)[|a + b| - 1] == b[|b| - 1];
      DigitsValueAppend(a, b');
      assert DigitsValue(a + b) == DigitsValue(a + b') * 10 + d;
      assert DigitsValue(b) == DigitsValue(b') * 10 + d;
      assert Pow10(|b|) == 10 * Pow10(|b'|);
      ShiftDigit(DigitsValue(a), Pow10(|b'|), DigitsValue(b'), d);
    }
  }

  /** Appending a digit to `x` followed by `|b'|` digits `y` shifts `x` one place further. */
  lemma ShiftDigit(x: nat, p: nat, y: nat, d: nat)
    ensures (x * p + y) * 10 + d == x * (10 * p) + (y * 10 + d)
  {
  }

  /** Decimal digits of `n`, most significant first, without leading zeros. */
  function ShowNat(n: nat): (s: string)
    ensures |s| >= 1 && AllDigits(s) && DigitsValue(s) == n
    ensures '.' !in s && ',' !in s
  {
    if n < 10 then [DigitChar(n)]
    else
      var s := ShowNat(n / 10) + [DigitChar(n % 10)];
      assert s[..|s| - 1] == ShowNat(n / 10);
      s
  }

  /** How an int cell prints: a minus sign for negative values, then the digits. */
  function ShowInt(n: int): (s: string)
    ensures ',' !in s
  {
    if n < 0 then "-" + ShowNat(-n) else ShowNat(n)
  }

  /** The text `cast(... as int)` accepts here: an optional sign, then one or more digits. */
  predicate IsIntLiteral(s: string)
  {
    || (|s| >= 1 && AllDigits(s))
    || (|s| >= 2 && (s[0] == '-' || s[0] == '+') && AllDigits(s[1..]))
  }

  /** Text to int; text outside the literal grammar gives null. */
  function ParseInt(s: string): (r: Option<int>)
    ensures r.Some? <==> IsIntLiteral(s)
    ensures r.Some? && r.value < 0 ==> s[0] == '-'
  {
    if |s| >= 2 && s[0] == '-' && AllDigits(s[1..]) then Some(0 - DigitsValue(s[1..]))
    else if |s| >= 2 && s[0] == '+' && AllDigits(s[1..]) then Some(DigitsValue(s[1..]))
    else if |s| >= 1 && AllDigits(s) then Some(DigitsValue(s))
    else None
  }

  /** Printing an int and casting the text back gives the same int. */
  lemma ParseShowInt(n: int)
    ensures ParseInt(ShowInt(n)) == Some(n)
  {
    if n < 0 {
      var s := ShowInt(n);
      assert s[1..] == ShowNat(-n);
    }
  }

  /** Three digits, with leading zeros, for a number below 1000. */
  function Pad3(k: nat): (s: string)
    requires k < 1000
    ensures |s| == 3 && AllDigits(s) && DigitsValue(s) == k && ',' !in s
  {
    var s := [DigitChar(k / 100), DigitChar(k / 10 % 10), DigitChar(k % 10)];
    assert s[..2] == [s[0], s[1]] && s[..2][..1] == [s[0]] && [s[0]][..0] == [];
    assert DigitsValue([s[0]]) == k / 100;
    assert DigitsValue(s[..2]) == (k / 100) * 10 + k / 10 % 10;
    assert k == ((k / 100) * 10 + k / 10 % 10) * 10 + k % 10;
    s
  }

  /** A count as the data set prints it: digit groups of three separated by `,`, as in "1,234". */
  function Grouped(n: nat): string
  {
    if n < 1000 then ShowNat(n) else Grouped(n / 1000) + "," + Pad3(n % 1000)
  }

  /** Removing the separators from a grouped count leaves the plain digits of that count. */
  lemma {:induction false} GroupedDigits(n: nat)
    ensures |Remove(Grouped(n), ',')| >= 1
    ensures AllDigits(Remove(Grouped(n), ','))
    ensures DigitsValue(Remove(Grouped(n), ',')) == n
  {
    if n >= 1000 {
      var hi := Grouped(n / 1000);
      var lo := Pad3(n % 1000);
      var hiDigits := Remove(hi, ',');
      GroupedDigits(n / 1000);
      assert Grouped(n) == hi + "," + lo;
      RemoveSeparator(hi, lo);
      assert Remove(Grouped(n), ',') == hiDigits + lo;
      DigitsValueAppend(hiDigits, lo);
      assert Pow10(3) == 1000 by {
        assert Pow10(1) == 10 && Pow10(2) == 100;
      }
      calc {
        DigitsValue(hiDigits + lo);
        DigitsValue(hiDigits) * Pow10(|lo|) + DigitsValue(lo);
        (n / 1000) * 1000 + n % 1000;
        n;
      }
    }
  }

  lemma RemoveSeparator(hi: string, lo: string)
    requires ',' !in lo
    ensures Remove(hi + "," + lo, ',') == Remove(hi, ',') + lo
  {
    var sep := ",";
    assert Remove(sep, ',') == [] by {
      assert sep[0] == ',' && sep[1..] == [];
    }
    RemoveAppend(hi + sep, lo, ',');
    RemoveAppend(hi, sep, ',');
    assert Remove(hi + sep, ',') == Remove(hi, ',');
  }

  /** Casting a grouped count with its separators removed gives the count back. */
  lemma ParseGrouped(n: nat)
    ensures ParseInt(Remove(Grouped(n), ',')) == Some(n)
  {
    GroupedDigits(n);
  }

  /** Unsigned decimal text: digits, optionally a point followed by more digits, at least one digit in all. */
  function ParseUnsigned(body: string): (r: Option<real>)
    ensures r.Some? ==> r.value >= 0.0
    ensures r.Some? ==> exists i :: 0 <= i < |body| && IsDigit(body[i])
  {
    var k := FindFirst(body, ".");
    var whole := body[..k];
    var frac := if k < |body| then body[k + 1..] else [];
    if AllDigits(whole) && AllDigits(frac) && |whole| + |frac| >= 1 then
      assert |whole| >= 1 ==> body[0] == whole[0];
      assert |whole| == 0 ==> body[k + 1] == frac[0];
      Some(DigitsValue(whole) as real + DigitsValue(frac) as real / Pow10(|frac|) as real)
    else None
  }

  /**
   Text to an exact decimal: an optional sign, then unsigned decimal text;
   anything else gives null.
   */
  function ParseDecimal(s: string): (r: Option<real>)
    ensures r.Some? ==> exists i :: 0 <= i < |s| && IsDigit(s[i])
    ensures r.Some? && r.value < 0.0 ==> s[0] == '-'
  {
    var signed := |s| >= 1 && (s[0] == '-' || s[0] == '+');
    var body := if signed then s[1..] else s;
    match ParseUnsigned(body)
    case None => None
    case Some(v) =>
      assert signed ==> forall i :: 0 <= i < |body| ==> body[i] == s[i + 1];
      Some(if signed && s[0] == '-' then -v else v)
  }

  /** A non-negative decimal(4,1) value as it prints: "80.0", "95.5". */
  function ShowTenths(t: nat): string
  {
    ShowNat(t / 10) + "." + [DigitChar(t % 10)]
  }

  /** Printing tenths and casting the text back gives the same value. */
  lemma ParseShowTenths(t: nat)
    ensures ParseDecimal(ShowTenths(t)) == Some(t as real / 10.0)
  {
    var s := ShowTenths(t);
    var whole := ShowNat(t / 10);
    assert s[0] != '-' && s[0] != '+' by { assert s[0] == whole[0]; }
    assert OccursAt(s, ".", |whole|) by { assert s[|whole|..|whole| + 1] == "."; }
    assert forall j: nat :: j < |whole| ==> !OccursAt(s, ".", j) by {
      forall j: nat | j < |whole| ensures !OccursAt(s, ".", j) {
        assert s[j] == whole[j];
        assert s[j..j + 1][0] == s[j];
      }
    }
    var k := FindFirst(s, ".");
    assert k == |whole|;
    assert s[..k] == whole;
    assert s[k + 1..] == [DigitChar(t % 10)];
    assert DigitsValue([DigitChar(t % 10)]) == t % 10 by {
      assert [DigitChar(t % 10)][..0] == [];
    }
    assert t == 10 * (t / 10) + t % 10;
  }

  /** Rounding to the nearest integer, halves away from zero (Java's HALF_UP). */
  function RoundHalfUp(y: real): (r: int)
    ensures y - 0.5 <= r as real <= y + 0.5
    ensures r as real == y + 0.5 ==> y > 0.0
    ensures r as real == y - 0.5 ==> y < 0.0
  {
    if y >= 0.0 then (y + 0.5).Floor else -((-y + 0.5).Floor)
  }
}
