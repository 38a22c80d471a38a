/**
 * Character and string helpers shared by the keyword classifiers and the
 * fraud score: case mapping and substring search.
 *
 * Case mapping covers the ASCII letters and the Latin-1 letters
 * U+00C0..U+00DE / U+00E0..U+00FE (without the signs U+00D7 and U+00F7),
 * which is where Python's `str.lower()` and a JavaScript `/i` match agree on
 * the Portuguese keywords used by the system. Other code points are left as
 * they are.
 */
module Text {
  import opened Wrappers

  predicate IsUpper(c: char) {
    ('A' <= c <= 'Z') || ('\U{00C0}' <= c <= '\U{00DE}' && c != '\U{00D7}')
  }

  predicate IsLower(c: char) {
    ('a' <= c <= 'z') || ('\U{00E0}' <= c <= '\U{00FE}' && c != '\U{00F7}')
  }

  function LowerChar(c: char): (d: char)
    ensures IsUpper(c) ==> IsLower(d) && d as int == c as int + 32
    ensures !IsUpper(c) ==> d == c
  {
    if IsUpper(c) then (c as int + 32) as char else c
  }

  function UpperChar(c: char): (d: char)
    ensures IsLower(c) ==> IsUpper(d) && d as int == c as int - 32
    ensures !IsLower(c) ==> d == c
  {
    if IsLower(c) then (c as int - 32) as char else c
  }

  /** `str.lower()` restricted to the letters above. */
  function Lower(s: string): (r: string)
    ensures |r| == |s|
    ensures forall i :: 0 <= i < |s| ==> r[i] == LowerChar(s[i])
  {
    if s == [] then [] else [LowerChar(s[0])] + Lower(s[1..])
  }

  /** A text without capitals is its own lower-case form. */
  lemma LowerWithoutCapitals(s: string)
    requires forall i :: 0 <= i < |s| ==> !IsUpper(s[i])
    ensures Lower(s) == s
  {
    assert forall i :: 0 <= i < |s| ==> Lower(s)[i] == s[i];
  }

  /**
   * `(message or "").lower()`, as both keyword classifiers normalise their
   * input: a missing or empty message is the empty text.
   */
  function Normalized(message: Option<string>): (m: string)
    ensures message.None? ==> m == ""
    ensures |m| == |message.GetOr("")| && Lower(m) == m
    ensures forall i :: 0 <= i < |m| ==> m[i] == LowerChar(message.GetOr("")[i])
  {
    LowerIdempotent(message.GetOr(""));
    Lower(message.GetOr(""))
  }

  /** `str.upper()` restricted to the letters above. */
  function Upper(s: string): (r: string)
    ensures |r| == |s|
    ensures forall i :: 0 <= i < |s| ==> r[i] == UpperChar(s[i])
  {
    if s == [] then [] else [UpperChar(s[0])] + Upper(s[1..])
  }

  /** Lower-casing twice is lower-casing once. */
  lemma {:induction false} LowerIdempotent(s: string)
    ensures Lower(Lower(s)) == Lower(s)
  {
    if s != [] {
      LowerIdempotent(s[1..]);
      assert Lower(s)[1..] == Lower(s[1..]);
    }
  }

  /** Upper-casing first does not change the lower-cased text. */
  lemma {:induction false} LowerOfUpper(s: string)
    ensures Lower(Upper(s)) == Lower(s)
  {
    if s != [] {
      LowerOfUpper(s[1..]);
      assert Upper(s)[1..] == Upper(s[1..]);
    }
  }

  /** `k` occurs in `s` starting at index `i`. */
  predicate OccursAt(s: string, k: string, i: int) {
    0 <= i && i + |k| <= |s| && s[i..i + |k|] == k
  }

  /** Python's `k in s`; also a regular expression without special characters. */
  function Contains(s: string, k: string): (b: bool)
    ensures b <==> exists i :: OccursAt(s, k, i)
  {
    if |k| > |s| then false
    else if s[..|k|] == k then assert OccursAt(s, k, 0); true
    else
      assert forall i :: OccursAt(s, k, i) ==> i >= 1 && OccursAt(s[1..], k, i - 1);
      assert forall i :: OccursAt(s[1..], k, i) ==> OccursAt(s, k, i + 1);
      Contains(s[1..], k)
  }

  /** A keyword with a character that the text lacks does not occur in it. */
  lemma MissingCharNotContained(s: string, k: string, c: char)
    requires c in k && c !in s
    ensures !Contains(s, k)
  {
    var j :| 0 <= j < |k| && k[j] == c;
    forall i
      ensures !OccursAt(s, k, i)
    {
      if 0 <= i && i + |k| <= |s| {
        assert s[i..i + |k|][j] == s[i + j];
      }
    }
  }

  /** True iff one of the keywords occurs in `s` (Python's `any(k in s for k in ks)`). */
  function ContainsAny(s: string, ks: seq<string>): (b: bool)
    ensures b <==> exists j :: 0 <= j < |ks| && Contains(s, ks[j])
  {
    if ks == [] then false else Contains(s, ks[0]) || ContainsAny(s, ks[1..])
  }
}
