/** ASCII approximations of the two pieces of Python's Unicode text handling
    that the pipeline relies on: the regular-expression word class `\w`
    (which decides where `\b` holds) and `str.lower()`. */
module Ascii {

  /** A character of the class `\w`: a letter, a digit or the underscore. */
  predicate IsWordChar(c: char)
    ensures c in " \t\n-<>\"/=;:." ==> !IsWordChar(c)
  {
    ('a' <= c <= 'z') || ('A' <= c <= 'Z') || ('0' <= c <= '9') || c == '_'
  }

  /** `c.lower()` for an ASCII character: capitals become small letters,
      everything else is left alone. */
  function LowerChar(c: char): (r: char)
    ensures IsWordChar(r) == IsWordChar(c)
    ensures !('A' <= r <= 'Z')
    ensures r == c || 'A' <= c <= 'Z'
  {
    if 'A' <= c <= 'Z' then (c as int - 'A' as int + 'a' as int) as char else c
  }

  /** `s.lower()`: the same string with every capital replaced by its small letter. */
  function Lower(s: string): (r: string)
    ensures |r| == |s|
    ensures forall k :: 0 <= k < |s| ==> r[k] == LowerChar(s[k])
  {
    seq(|s|, k requires 0 <= k < |s| => LowerChar(s[k]))
  }

  /** Lower-casing is idempotent, so `w.lower().lower() == w.lower()`. */
  lemma LowerIdempotent(s: string)
    ensures Lower(Lower(s)) == Lower(s)
  {
    assert forall k :: 0 <= k < |s| ==> Lower(Lower(s))[k] == Lower(s)[k];
  }
}
