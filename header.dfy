/**
 The header canonicaliser `to_snake_case` (etl.py:152-165): a space is put
 between a word character and a directly following `#` or `%`; then, in one
 left-to-right pass, `#` becomes "no", `%` becomes "pct" and a space becomes
 "_"; finally the name is lower-cased.
 */
module Header {
  import opened Text

  predicate IsSymbol(c: char) { c == '#' || c == '%' }

  /** The characters the second substitution rewrites. */
  predicate IsSpecial(c: char) { c == '#' || c == '%' || c == ' ' }

  /** A canonical name: no `#`, `%` or space, and no upper-case letter. */
  predicate IsCanonical(name: string)
  {
    forall i :: 0 <= i < |name| ==> !IsSpecial(name[i]) && !IsUpper(name[i])
  }

  /**
   The first substitution (etl.py:153): a space goes between a word character
   and a directly following `#` or `%`. The scan finds non-overlapping matches
   left to right and resumes after the symbol of each match.
   */
  function SpaceBeforeSymbols(s: string): (r: string)
    ensures |s| <= |r|
    decreases |s|
  {
    if |s| < 2 then s
    else if IsWordChar(s[0]) && IsSymbol(s[1]) then [s[0], ' ', s[1]] + SpaceBeforeSymbols(s[2..])
    else [s[0]] + SpaceBeforeSymbols(s[1..])
  }

  /** The replacement of one matched character: `#` gives "no", `%` gives "pct", a space gives "_". */
  function Replacement(c: char): (r: string)
    ensures |r| > 0
  {
    if c == '#' then "no" else if c == '%' then "pct" else if c == ' ' then "_" else [c]
  }

  /** The second substitution (etl.py:155-165): every `#`, `%` and space replaced in one pass; replacement text is not rescanned. */
  function ReplaceSpecials(s: string): (r: string)
    ensures |s| <= |r|
    ensures forall i :: 0 <= i < |r| ==> !IsSpecial(r[i])
  {
    if s == [] then [] else Replacement(s[0]) + ReplaceSpecials(s[1..])
  }

  /** The header canonicaliser (etl.py:152-165): both substitutions, then lower-casing. */
  function SnakeCase(name: string): (r: string)
    ensures IsCanonical(r)
    ensures |name| <= |r|
  {
    Lower(ReplaceSpecials(SpaceBeforeSymbols(name)))
  }

  /**
   Reference reading of `to_snake_case`, character by character: what the
   first character of `s` contributes to the canonical name, given the
   character after it.
   */
  function Piece(s: string): string
    requires |s| >= 1
  {
    var c := s[0];
    if IsSpecial(c) then Replacement(c)
    else if IsWordChar(c) && |s| >= 2 && IsSymbol(s[1]) then [LowerChar(c), '_']
    else [LowerChar(c)]
  }

  function PieceWise(s: string): string
  {
    if s == [] then [] else Piece(s) + PieceWise(s[1..])
  }

  /** A name without `#` or `%` gets no space inserted. */
  lemma {:induction false} SpaceBeforeSymbolsOfPlain(s: string)
    requires forall i :: 0 <= i < |s| ==> !IsSymbol(s[i])
    ensures SpaceBeforeSymbols(s) == s
    decreases |s|
  {
    if |s| >= 2 {
      SpaceBeforeSymbolsOfPlain(s[1..]);
      assert [s[0]] + s[1..] == s;
    }
  }

  /** A name without `#`, `%` or space is left alone by the second substitution. */
  lemma {:induction false} ReplaceSpecialsOfPlain(s: string)
    requires forall i :: 0 <= i < |s| ==> !IsSpecial(s[i])
    ensures ReplaceSpecials(s) == s
  {
    if s != [] {
      ReplaceSpecialsOfPlain(s[1..]);
      assert [s[0]] + s[1..] == s;
    }
  }

  lemma {:induction false} ReplaceSpecialsAppend(a: string, b: string)
    ensures ReplaceSpecials(a + b) == ReplaceSpecials(a) + ReplaceSpecials(b)
  {
    if a == [] {
      assert a + b == b;
    } else {
      assert (a + b)[0] == a[0];
      assert (a + b)[1..] == a[1..] + b;
      ReplaceSpecialsAppend(a[1..], b);
    }
  }

  lemma LowerReplacement(c: char)
    ensures Lower(Replacement(c)) == if IsSpecial(c) then Replacement(c) else [LowerChar(c)]
  {
    if IsSpecial(c) {
      LowerOfLowerFree(Replacement(c));
    }
  }

  /** One step of the scan when a word character is directly followed by a symbol. */
  lemma SnakeCaseStepPair(s: string)
    requires |s| >= 2 && IsWordChar(s[0]) && IsSymbol(s[1])
    ensures SnakeCase(s) == [LowerChar(s[0]), '_'] + Replacement(s[1]) + SnakeCase(s[2..])
  {
    var rest := SpaceBeforeSymbols(s[2..]);
    var head := [s[0], ' ', s[1]];
    assert SpaceBeforeSymbols(s) == head + rest;
    ReplaceSpecialsAppend(head, rest);
    assert ReplaceSpecials(head) == [s[0]] + "_" + Replacement(s[1]) by {
      assert head[1..] == [' ', s[1]] && head[1..][1..] == [s[1]];
      assert ReplaceSpecials([s[1]]) == Replacement(s[1]) + ReplaceSpecials([]);
    }
    var front := [s[0]] + "_" + Replacement(s[1]);
    LowerAppend(front, ReplaceSpecials(rest));
    LowerAppend([s[0]] + "_", Replacement(s[1]));
    LowerReplacement(s[1]);
    assert Lower([s[0]] + "_") == [LowerChar(s[0]), '_'];
  }

  /** One step of the scan in every other case: the first character alone. */
  lemma SnakeCaseStepOne(s: string)
    requires |s| >= 1 && !(|s| >= 2 && IsWordChar(s[0]) && IsSymbol(s[1]))
    ensures SnakeCase(s) == Lower(Replacement(s[0])) + SnakeCase(s[1..])
  {
    if |s| == 1 {
      assert SpaceBeforeSymbols(s) == s == [s[0]] + s[1..];
    }
    var rest := SpaceBeforeSymbols(s[1..]);
    assert SpaceBeforeSymbols(s) == [s[0]] + rest;
    ReplaceSpecialsAppend([s[0]], rest);
    assert ReplaceSpecials([s[0]]) == Replacement(s[0]) + ReplaceSpecials([]);
    LowerAppend(Replacement(s[0]), ReplaceSpecials(rest));
  }

  /** The character-wise reading of a word character directly followed by a symbol. */
  lemma PieceWisePair(s: string)
    requires |s| >= 2 && IsWordChar(s[0]) && IsSymbol(s[1])
    ensures PieceWise(s) == [LowerChar(s[0]), '_'] + Replacement(s[1]) + PieceWise(s[2..])
  {
    var tail := s[1..];
    assert tail[0] == s[1] && tail[1..] == s[2..];
    assert PieceWise(tail) == Piece(tail) + PieceWise(s[2..]);
  }

  /** The character-wise reading of the first character in every other case. */
  lemma PieceWiseOne(s: string)
    requires |s| >= 1 && !(|s| >= 2 && IsWordChar(s[0]) && IsSymbol(s[1]))
    ensures PieceWise(s) == Lower(Replacement(s[0])) + PieceWise(s[1..])
  {
    LowerReplacement(s[0]);
  }

  /**
   The two substitutions and the lower-casing amount to the character-wise
   reading: `#` gives "no", `%` gives "pct", a space gives "_", any other
   character is only lower-cased, and a word character directly followed by
   `#` or `%` is followed by an inserted "_".
   */
  lemma {:induction false} SnakeCaseIsPieceWise(s: string)
    ensures SnakeCase(s) == PieceWise(s)
    decreases |s|
  {
    if s == [] {
    } else if |s| >= 2 && IsWordChar(s[0]) && IsSymbol(s[1]) {
      SnakeCaseStepPair(s);
      PieceWisePair(s);
      SnakeCaseIsPieceWise(s[2..]);
    } else {
      SnakeCaseStepOne(s);
      PieceWiseOne(s);
      SnakeCaseIsPieceWise(s[1..]);
    }
  }

  lemma {:induction false} PieceWiseOfCanonical(s: string)
    requires IsCanonical(s)
    ensures PieceWise(s) == s
  {
    if s != [] {
      assert IsCanonical(s[1..]);
      PieceWiseOfCanonical(s[1..]);
      assert Piece(s) == [s[0]];
    }
  }

  /** Canonical names are left alone. */
  lemma SnakeCaseFixesCanonical(name: string)
    requires IsCanonical(name)
    ensures SnakeCase(name) == name
  {
    SnakeCaseIsPieceWise(name);
    PieceWiseOfCanonical(name);
  }

  lemma {:induction false} PieceWisePlain(s: string)
    requires forall i :: 0 <= i < |s| ==> !IsSpecial(s[i])
    ensures PieceWise(s) == Lower(s)
  {
    if s != [] {
      PieceWisePlain(s[1..]);
      LowerAppend([s[0]], s[1..]);
      assert [s[0]] + s[1..] == s;
    }
  }

  /** A name without `#`, `%` or space is only lower-cased. */
  lemma SnakeCaseOfPlain(name: string)
    requires forall i :: 0 <= i < |name| ==> !IsSpecial(name[i])
    ensures SnakeCase(name) == Lower(name)
  {
    SnakeCaseIsPieceWise(name);
    PieceWisePlain(name);
  }

  /** A leading `#` or `%`, a space and a plain word: "# Eligible" becomes "no_eligible". */
  lemma SnakeCaseSymbolWord(name: string, c: char, word: string)
    requires IsSymbol(c) && name == [c, ' '] + word
    requires forall i :: 0 <= i < |word| ==> !IsSpecial(word[i])
    ensures SnakeCase(name) == Replacement(c) + "_" + Lower(word)
  {
    SnakeCaseIsPieceWise(name);
    PieceWisePlain(word);
    assert name[1..][1..] == word;
    assert PieceWise(name[1..]) == "_" + Lower(word);
  }

  /** `to_snake_case` is idempotent. */
  lemma SnakeCaseIdempotent(name: string)
    ensures SnakeCase(SnakeCase(name)) == SnakeCase(name)
  {
    SnakeCaseFixesCanonical(SnakeCase(name));
  }

  lemma {:induction false} PieceWiseIgnoresCase(s: string)
    ensures PieceWise(Lower(s)) == PieceWise(s)
  {
    if s != [] {
      var t := Lower(s);
      assert t[1..] == Lower(s[1..]);
      PieceWiseIgnoresCase(s[1..]);
      assert Piece(t) == Piece(s);
    }
  }

  /** Names that differ only in ASCII letter case have the same canonical name. */
  lemma SnakeCaseIgnoresCase(a: string, b: string)
    requires Lower(a) == Lower(b)
    ensures SnakeCase(a) == SnakeCase(b)
  {
    SnakeCaseIsPieceWise(a);
    SnakeCaseIsPieceWise(b);
    PieceWiseIgnoresCase(a);
    PieceWiseIgnoresCase(b);
  }

  /** A canonical name is the lower-case form of every name that maps to it. */
  lemma SnakeCaseOfLowered(name: string)
    ensures SnakeCase(Lower(name)) == SnakeCase(name)
  {
    SnakeCaseIsPieceWise(name);
    SnakeCaseIsPieceWise(Lower(name));
    PieceWiseIgnoresCase(name);
  }
}
