/** Text helpers that mirror the few Python string operations the application uses:
    `str.strip()`, `str.lower()`, `in` on strings and the plain substring search
    that underlies a regular-expression scan. Only the ASCII range is modelled. */
module Strings {

  datatype Option<+T> = None | Some(value: T)

  /** Python's `str.isspace` restricted to ASCII: space, \t \n \v \f \r and the
      four information separators \x1c..\x1f. */
  predicate IsSpace(c: char) {
    c == ' ' || '\t' <= c <= '\r' || '\U{1C}' <= c <= '\U{1F}'
  }

  predicate AllSpace(s: string) {
    forall k :: 0 <= k < |s| ==> IsSpace(s[k])
  }

  /** `r` is a contiguous piece of `s`. */
  ghost predicate IsSlice(r: string, s: string) {
    exists i, j :: 0 <= i <= j <= |s| && s[i..j] == r
  }

  /** A slice of a slice is a slice of the original. */
  lemma SliceOfSlice(s: string, b: nat, e: nat, i: nat, j: nat)
    requires b <= e <= |s| && i <= j <= e - b
    ensures s[b..e][i..j] == s[b + i..b + j]
  {
    assert forall k :: 0 <= k < j - i ==> s[b..e][i..j][k] == s[b + i..b + j][k];
  }

  /** Number of whitespace characters at the front of `s`. */
  function LeadingSpaces(s: string): (n: nat)
    ensures n <= |s|
    ensures forall k :: 0 <= k < n ==> IsSpace(s[k])
    ensures n < |s| ==> !IsSpace(s[n])
  {
    if |s| > 0 && IsSpace(s[0]) then 1 + LeadingSpaces(s[1..]) else 0
  }

  /** Number of whitespace characters at the back of `s`. */
  function TrailingSpaces(s: string): (n: nat)
    ensures n <= |s|
    ensures forall k :: |s| - n <= k < |s| ==> IsSpace(s[k])
    ensures n < |s| ==> !IsSpace(s[|s| - n - 1])
  {
    if |s| > 0 && IsSpace(s[|s| - 1]) then 1 + TrailingSpaces(s[..|s| - 1]) else 0
  }

  /** Python's `s.strip()`: the piece of `s` left once all leading and all trailing
      whitespace is removed. */
  function Strip(s: string): (r: string)
    ensures |r| <= |s|
    ensures r == [] || (!IsSpace(r[0]) && !IsSpace(r[|r| - 1]))
    ensures exists i, j :: 0 <= i <= j <= |s| && s[i..j] == r && AllSpace(s[..i]) && AllSpace(s[j..])
  {
    var i := LeadingSpaces(s);
    var t := s[i..];
    var n := TrailingSpaces(t);
    var j := i + |t| - n;
    assert s[i..j] == t[..|t| - n];
    assert forall k :: 0 <= k < |s[j..]| ==> s[j..][k] == t[|t| - n + k];
    assert i < j ==> s[i] == t[0] && s[j - 1] == t[|t| - n - 1];
    assert i == j ==> t[..|t| - n] == [];
    assert AllSpace(s[..i]) && AllSpace(s[j..]);
    t[..|t| - n]
  }

  lemma StripKeepsTrimmed(s: string)
    requires s == [] || (!IsSpace(s[0]) && !IsSpace(s[|s| - 1]))
    ensures Strip(s) == s
  {
    assert LeadingSpaces(s) == 0;
    assert TrailingSpaces(s) == 0;
  }

  /** Stripping twice is stripping once. */
  lemma StripIdempotent(s: string)
    ensures Strip(Strip(s)) == Strip(s)
  {
    StripKeepsTrimmed(Strip(s));
  }

  /** ASCII case folding, the part of `str.lower()` the model keeps. */
  function Lower(c: char): (d: char)
    ensures 'A' <= c <= 'Z' ==> d as int == c as int + 32
    ensures !('A' <= c <= 'Z') ==> d == c
  {
    if 'A' <= c <= 'Z' then (c as int + 32) as char else c
  }

  function LowerStr(s: string): (r: string)
    ensures |r| == |s|
    ensures forall k :: 0 <= k < |s| ==> r[k] == Lower(s[k])
  {
    seq(|s|, k requires 0 <= k < |s| => Lower(s[k]))
  }

  /** A character whose lower-case form is an ASCII letter is not whitespace and
      not punctuation. */
  lemma LowerLetterIsLetter(c: char)
    requires 'a' <= Lower(c) <= 'z'
    ensures !IsSpace(c) && c != ';'
  {
  }

  predicate OccursAt(pat: string, s: string, i: int) {
    0 <= i && i + |pat| <= |s| && s[i..i + |pat|] == pat
  }

  /** The leftmost position at or after `from` where `pat` occurs in `s`. */
  function Find(pat: string, s: string, from: nat): (r: Option<nat>)
    ensures r.Some? ==> from <= r.value && OccursAt(pat, s, r.value)
    ensures forall i :: from <= i && (r.None? || i < r.value) ==> !OccursAt(pat, s, i)
    decreases |s| - from
  {
    if from + |pat| > |s| then None
    else if s[from..from + |pat|] == pat then Some(from)
    else Find(pat, s, from + 1)
  }

  /** Python's `needle in hay`. */
  predicate Contains(hay: string, needle: string) {
    Find(needle, hay, 0).Some?
  }

  lemma ContainsMeansOccurs(hay: string, needle: string)
    ensures Contains(hay, needle) <==> exists i :: OccursAt(needle, hay, i)
  {
    if Contains(hay, needle) {
      assert OccursAt(needle, hay, Find(needle, hay, 0).value);
    }
  }

  /** The empty string is in every string. */
  lemma EmptyIsContained(hay: string)
    ensures Contains(hay, "")
  {
    assert OccursAt("", hay, 0);
  }

  /** Strip removes exactly the whitespace around a trimmed core. */
  lemma StripAround(a: string, y: string, b: string)
    requires AllSpace(a) && AllSpace(b)
    requires y == [] || (!IsSpace(y[0]) && !IsSpace(y[|y| - 1]))
    ensures Strip(a + y + b) == y
  {
    var s := a + y + b;
    var r := Strip(s);
    var i, j :| 0 <= i <= j <= |s| && s[i..j] == r && AllSpace(s[..i]) && AllSpace(s[j..]);
    if y != [] {
      assert s[|a|] == y[0] && s[|a| + |y| - 1] == y[|y| - 1];
      assert i == |a|;
      assert j == |a| + |y|;
      assert s[|a|..|a| + |y|] == y;
    } else {
      assert AllSpace(s) by {
        forall k | 0 <= k < |s| ensures IsSpace(s[k]) {
          if k < |a| { assert s[k] == a[k]; } else { assert s[k] == b[k - |a|]; }
        }
      }
    }
  }
}
