/** Shared vocabulary for the model of `translate_and_post.py`: an Option type
    standing for Python's `None`-or-value returns, and the handful of string
    operations the script applies (`startswith`, `in`, `lower`, `strip`,
    `lstrip('/')`). Strings are `seq<char>`, one element per code point. */
module Basics {

  datatype Option<+T> = None | Some(value: T)

  /** `s.startswith(p)` */
  predicate StartsWith(s: string, p: string) {
    |p| <= |s| && s[..|p|] == p
  }

  /** `p in s`: p occurs in s at some position (the empty string occurs everywhere). */
  predicate Contains(s: string, p: string)
    decreases |s|
  {
    StartsWith(s, p) || (|s| > 0 && Contains(s[1..], p))
  }

  /** Positional reading of `Contains`: an occurrence is a start index. */
  ghost predicate OccursAt(s: string, p: string, i: int) {
    0 <= i && i + |p| <= |s| && s[i..i + |p|] == p
  }

  lemma {:induction false} OccurrenceGivesContains(s: string, p: string, i: int)
    requires OccursAt(s, p, i)
    ensures Contains(s, p)
    decreases i
  {
    if i == 0 {
      assert s[..|p|] == s[0..|p|];
    } else {
      assert s[1..][i - 1..i - 1 + |p|] == s[i..i + |p|];
      OccurrenceGivesContains(s[1..], p, i - 1);
    }
  }

  lemma {:induction false} ContainsGivesOccurrence(s: string, p: string) returns (i: int)
    requires Contains(s, p)
    ensures OccursAt(s, p, i)
    decreases |s|
  {
    if StartsWith(s, p) {
      i := 0;
    } else {
      var j := ContainsGivesOccurrence(s[1..], p);
      assert s[1..][j..j + |p|] == s[j + 1..j + 1 + |p|];
      i := j + 1;
    }
  }

  lemma ContainsIffOccurrence(s: string, p: string)
    ensures Contains(s, p) <==> exists i :: OccursAt(s, p, i)
  {
    if Contains(s, p) {
      var i := ContainsGivesOccurrence(s, p);
    }
    forall i | OccursAt(s, p, i) ensures Contains(s, p) {
      OccurrenceGivesContains(s, p, i);
    }
  }

  /** An occurrence in a suffix is an occurrence in the whole string. */
  lemma {:induction false} ContainsOfSuffix(s: string, k: nat, p: string)
    requires k <= |s|
    requires Contains(s[k..], p)
    ensures Contains(s, p)
    decreases k
  {
    if k > 0 {
      assert s[1..][k - 1..] == s[k..];
      ContainsOfSuffix(s[1..], k - 1, p);
    }
  }

  // ----- lower-casing -------------------------------------------------------

  /** `str.lower()` restricted to ASCII letters. */
  function LowerChar(c: char): char {
    if 'A' <= c <= 'Z' then (c as int + 32) as char else c
  }

  function Lower(s: string): (r: string)
    ensures |r| == |s|
    ensures forall i :: 0 <= i < |s| ==> r[i] == LowerChar(s[i])
  {
    seq(|s|, i requires 0 <= i < |s| => LowerChar(s[i]))
  }

  predicate IsLower(s: string) {
    forall i :: 0 <= i < |s| ==> !('A' <= s[i] <= 'Z')
  }

  lemma LowerIsLower(s: string)
    ensures IsLower(Lower(s))
    ensures IsLower(s) ==> Lower(s) == s
  {
  }

  // ----- whitespace stripping -----------------------------------------------

  /** The characters Python's `str.isspace()` accepts, i.e. what `str.strip()` removes. */
  predicate IsSpace(c: char) {
    ('\U{9}' <= c <= '\U{D}') || ('\U{1C}' <= c <= '\U{20}')
    || c == '\U{85}' || c == '\U{A0}' || c == '\U{1680}'
    || ('\U{2000}' <= c <= '\U{200A}') || c == '\U{2028}' || c == '\U{2029}'
    || c == '\U{202F}' || c == '\U{205F}' || c == '\U{3000}'
  }

  /** Neither end of s is whitespace, so `strip` leaves it alone. */
  predicate Trimmed(s: string) {
    |s| == 0 || (!IsSpace(s[0]) && !IsSpace(s[|s| - 1]))
  }

  /** The last character, if any, is not whitespace. */
  predicate EndsClean(s: string) {
    |s| == 0 || !IsSpace(s[|s| - 1])
  }

  function LeadingSpace(s: string): (n: nat)
    ensures n <= |s|
    ensures forall k :: 0 <= k < n ==> IsSpace(s[k])
    ensures n == |s| || !IsSpace(s[n])
    decreases |s|
  {
    if |s| > 0 && IsSpace(s[0]) then 1 + LeadingSpace(s[1..]) else 0
  }

  function TrailingSpace(s: string): (n: nat)
    ensures n <= |s|
    ensures forall k :: |s| - n <= k < |s| ==> IsSpace(s[k])
    ensures n == |s| || !IsSpace(s[|s| - n - 1])
    decreases |s|
  {
    if |s| > 0 && IsSpace(s[|s| - 1]) then 1 + TrailingSpace(s[..|s| - 1]) else 0
  }

  /** `s.strip()`: the infix left after removing whitespace at both ends. */
  function Strip(s: string): (r: string)
    ensures Trimmed(r)
    ensures var i := LeadingSpace(s);
            i + |r| <= |s| && r == s[i..i + |r|]
            && (forall k :: i + |r| <= k < |s| ==> IsSpace(s[k]))
    ensures Trimmed(s) ==> r == s
  {
    var t := s[LeadingSpace(s)..];
    t[..|t| - TrailingSpace(t)]
  }

  /** `s.lstrip('/')` */
  function DropLeadingSlashes(s: string): (r: string)
    ensures |r| <= |s| && r == s[|s| - |r|..]
    ensures forall k :: 0 <= k < |s| - |r| ==> s[k] == '/'
    ensures |r| == 0 || r[0] != '/'
    decreases |s|
  {
    if |s| > 0 && s[0] == '/' then DropLeadingSlashes(s[1..]) else s
  }

  /** Index of the first character satisfying `stop`, or |s| when there is none. */
  function IndexWhere(s: string, stop: char -> bool): (n: nat)
    ensures n <= |s|
    ensures forall k :: 0 <= k < n ==> !stop(s[k])
    ensures n == |s| || stop(s[n])
    decreases |s|
  {
    if |s| == 0 || stop(s[0]) then 0 else 1 + IndexWhere(s[1..], stop)
  }

  lemma {:induction false} IndexWhereIs(s: string, stop: char -> bool, n: nat)
    requires n <= |s|
    requires forall k :: 0 <= k < n ==> !stop(s[k])
    requires n == |s| || stop(s[n])
    ensures IndexWhere(s, stop) == n
    decreases n
  {
    if n > 0 {
      IndexWhereIs(s[1..], stop, n - 1);
    }
  }
}
