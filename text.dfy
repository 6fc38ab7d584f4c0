/**
 Character classes, ASCII case folding, substring search and the literal-separator
 split used by Spark's `split` (Java's `String.split` with limit -1: every
 occurrence separates, leading and trailing empty pieces are kept).
 */
module Text {

  predicate IsUpper(c: char) { 'A' <= c <= 'Z' }

  predicate IsLetter(c: char) { 'A' <= c <= 'Z' || 'a' <= c <= 'z' }

  predicate IsDigit(c: char) { '0' <= c <= '9' }

  /** The regular-expression class `\w`, restricted to ASCII. */
  predicate IsWordChar(c: char) { IsLetter(c) || IsDigit(c) || c == '_' }

  /** Python's `str.lower` on one character, restricted to ASCII. */
  function LowerChar(c: char): (d: char)
    ensures !IsUpper(d)
    ensures !IsUpper(c) ==> d == c
    ensures IsUpper(c) ==> IsLetter(d) && d != c
  {
    if IsUpper(c) then (c as int + 32) as char else c
  }

  function Lower(s: string): (r: string)
    ensures |r| == |s|
    ensures forall i :: 0 <= i < |s| ==> r[i] == LowerChar(s[i])
  {
    seq(|s|, i requires 0 <= i < |s| => LowerChar(s[i]))
  }

  predicate NoUpper(s: string) { forall i :: 0 <= i < |s| ==> !IsUpper(s[i]) }

  lemma LowerAppend(a: string, b: string)
    ensures Lower(a + b) == Lower(a) + Lower(b)
  {
    assert forall i :: 0 <= i < |a + b| ==> Lower(a + b)[i] == (Lower(a) + Lower(b))[i];
  }

  lemma LowerOfLowerFree(s: string)
    requires NoUpper(s)
    ensures Lower(s) == s
  {
  }

  predicate StartsWith(s: string, p: string) { |p| <= |s| && s[..|p|] == p }

  predicate OccursAt(s: string, sep: string, k: nat) { k + |sep| <= |s| && s[k..k + |sep|] == sep }

  /** True when `sep` occurs somewhere in `s`. */
  predicate Contains(s: string, sep: string) { exists k: nat | k <= |s| :: OccursAt(s, sep, k) }

  /** Position of the leftmost occurrence of `sep` in `s`, or `|s|` when there is none. */
  function FindFirst(s: string, sep: string): (k: nat)
    requires |sep| > 0
    ensures k <= |s|
    ensures k < |s| ==> OccursAt(s, sep, k)
    ensures forall j: nat :: j < k ==> !OccursAt(s, sep, j)
    ensures k == |s| ==> !Contains(s, sep)
    decreases |s|
  {
    if |s| < |sep| then |s|
    else if s[..|sep|] == sep then 0
    else
      var k := 1 + FindFirst(s[1..], sep);
      assert forall j: nat :: 1 <= j ==> (OccursAt(s, sep, j) <==> OccursAt(s[1..], sep, j - 1));
      k
  }

  /** `sep` does not occur at a position holding a character other than its first. */
  lemma NotOccursAt(s: string, sep: string, j: nat)
    requires |sep| > 0 && j < |s| && s[j] != sep[0]
    ensures !OccursAt(s, sep, j)
  {
    if j + |sep| <= |s| {
      assert s[j..j + |sep|][0] == s[j];
    }
  }

  /** An occurrence with none before it is the leftmost one. */
  lemma FindFirstAt(s: string, sep: string, k: nat)
    requires |sep| > 0 && OccursAt(s, sep, k)
    requires forall j: nat :: j < k ==> !OccursAt(s, sep, j)
    ensures FindFirst(s, sep) == k
  {
  }

  /** In `head + sep + tail`, where `head` lacks the first character of `sep`, the first `sep` follows `head`. */
  lemma FindFirstAfter(head: string, sep: string, tail: string)
    requires |sep| > 0 && sep[0] !in head
    ensures FindFirst(head + sep + tail, sep) == |head|
  {
    var s := head + sep + tail;
    forall j: nat | j < |head| ensures !OccursAt(s, sep, j) {
      assert s[j] == head[j];
      NotOccursAt(s, sep, j);
    }
    assert s[|head|..|head| + |sep|] == sep;
    FindFirstAt(s, sep, |head|);
  }

  /** Text lacking the first character of `sep` has no `sep` in it. */
  lemma FindFirstNone(s: string, sep: string)
    requires |sep| > 0 && sep[0] !in s
    ensures FindFirst(s, sep) == |s|
  {
    var f := FindFirst(s, sep);
    if f < |s| {
      NotOccursAt(s, sep, f);
    }
  }

  /**
   Spark's `split(str, sep)` for a separator without regular-expression
   metacharacters: the pieces between successive leftmost occurrences.
   */
  function Split(s: string, sep: string): (parts: seq<string>)
    requires |sep| > 0
    ensures |parts| >= 1
    ensures parts[0] == s[..FindFirst(s, sep)]
    decreases |s|
  {
    var k := FindFirst(s, sep);
    if k == |s| then [s] else [s[..k]] + Split(s[k + |sep|..], sep)
  }

  /** Splitting `head + sep + tail`, where `head` lacks the first character of `sep`, cuts after `head`. */
  lemma SplitAfterHead(s: string, head: string, sep: string, tail: string)
    requires |sep| > 0 && sep[0] !in head && s == head + sep + tail
    ensures Split(s, sep) == [head] + Split(tail, sep)
  {
    FindFirstAfter(head, sep, tail);
    assert s[..|head|] == head && s[|head| + |sep|..] == tail;
  }

  /** Inverse of `Split`: the pieces glued together with the separator between them. */
  function Join(parts: seq<string>, sep: string): string
    requires |parts| >= 1
    decreases |parts|
  {
    if |parts| == 1 then parts[0] else parts[0] + sep + Join(parts[1..], sep)
  }

  /** A split at a first separator at `k`: the text before it, then the split of the rest. */
  lemma SplitAtFirst(s: string, sep: string, k: nat)
    requires |sep| > 0 && k == FindFirst(s, sep) && k < |s|
    ensures Split(s, sep) == [s[..k]] + Split(s[k + |sep|..], sep)
  {
    var a, b := s[..k], s[k + |sep|..];
    AroundOccurrence(s, sep, k);
    PrefixBeforeFirstFree(s, sep);
    SplitAfterFirst(a, sep, b);
  }

  /** A text is the part before an occurrence of `sep`, `sep`, and the part after. */
  lemma AroundOccurrence(s: string, sep: string, k: nat)
    requires OccursAt(s, sep, k)
    ensures s == s[..k] + sep + s[k + |sep|..]
  {
    assert s == s[..k] + s[k..k + |sep|] + s[k + |sep|..];
  }

  lemma JoinCons(head: string, rest: seq<string>, sep: string)
    requires |rest| >= 1
    ensures Join([head] + rest, sep) == head + sep + Join(rest, sep)
  {
    assert ([head] + rest)[1..] == rest;
  }

  /** Splitting loses nothing: joining the pieces gives back the input. */
  lemma {:induction false} JoinSplit(s: string, sep: string)
    requires |sep| > 0
    ensures Join(Split(s, sep), sep) == s
    decreases |s|
  {
    var k := FindFirst(s, sep);
    if k < |s| {
      var rest := s[k + |sep|..];
      SplitAtFirst(s, sep, k);
      AroundOccurrence(s, sep, k);
      JoinSplit(rest, sep);
      JoinCons(s[..k], Split(rest, sep), sep);
    }
  }

  /** No piece of a split contains the separator. */
  lemma {:induction false} SplitPiecesFree(s: string, sep: string)
    requires |sep| > 0
    ensures forall i :: 0 <= i < |Split(s, sep)| ==> !Contains(Split(s, sep)[i], sep)
    decreases |s|
  {
    var k := FindFirst(s, sep);
    var parts := Split(s, sep);
    PrefixBeforeFirstFree(s, sep);
    if k < |s| {
      var rest := s[k + |sep|..];
      var tail := Split(rest, sep);
      SplitPiecesFree(rest, sep);
      SplitAtFirst(s, sep, k);
      forall i | 0 <= i < |parts| ensures !Contains(parts[i], sep) {
        if i > 0 {
          assert parts[i] == tail[i - 1];
        }
      }
    }
  }

  /** The text before the first occurrence of `sep` does not contain `sep`. */
  lemma PrefixBeforeFirstFree(s: string, sep: string)
    requires |sep| > 0
    ensures !Contains(s[..FindFirst(s, sep)], sep)
  {
    var k := FindFirst(s, sep);
    if Contains(s[..k], sep) {
      var j: nat :| j <= k && OccursAt(s[..k], sep, j);
      assert s[..k][j..j + |sep|] == s[j..j + |sep|];
      assert OccursAt(s, sep, j);
      assert false;
    }
  }

  /** Splitting a text that does not contain the separator gives the text alone. */
  lemma SplitWithout(s: string, sep: string)
    requires |sep| > 0 && !Contains(s, sep)
    ensures Split(s, sep) == [s]
  {
    var k := FindFirst(s, sep);
    if k < |s| {
      assert false;
    }
  }

  /** Splitting `a + sep + b`, where `a` does not contain `sep`, first yields `a`, then the pieces of `b`. */
  lemma {:induction false} SplitAfterFirst(a: string, sep: string, b: string)
    requires |sep| > 0 && !Contains(a, sep)
    requires forall j: nat :: j < |a| ==> !OccursAt(a + sep + b, sep, j)
    ensures Split(a + sep + b, sep) == [a] + Split(b, sep)
  {
    var s := a + sep + b;
    assert OccursAt(s, sep, |a|) by { assert s[|a|..|a| + |sep|] == sep; }
    var k := FindFirst(s, sep);
    assert k == |a|;
    assert s[..k] == a;
    assert s[k + |sep|..] == b;
  }

  /** A regular-expression replacement of a one-character pattern by nothing: every `c` removed. */
  function Remove(s: string, c: char): (r: string)
    ensures c !in r
    ensures |r| <= |s|
    ensures c !in s ==> r == s
  {
    if s == [] then [] else (if s[0] == c then [] else [s[0]]) + Remove(s[1..], c)
  }

  lemma {:induction false} RemoveAppend(a: string, b: string, c: char)
    ensures Remove(a + b, c) == Remove(a, c) + Remove(b, c)
  {
    if a != [] {
      var head := if a[0] == c then [] else [a[0]];
      var tail := a[1..];
      assert (a + b)[0] == a[0];
      assert (a + b)[1..] == tail + b;
      assert Remove(a, c) == head + Remove(tail, c);
      assert Remove(a + b, c) == head + Remove(tail + b, c);
      RemoveAppend(tail, b, c);
    } else {
      assert a + b == b;
    }
  }
}
