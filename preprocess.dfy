/** The text normaliser: `preprocess_text` deletes every hyphen that is
    immediately followed by a line break, together with that line break, so
    that a word split across two lines is joined again. It is the single
    substitution `re.sub(r'-\n', '', text)`: one left-to-right pass that
    removes non-overlapping occurrences of the two-character pattern. */
module Preprocess {

  /** An occurrence of the pattern `"-\n"` starts at index `i` of `s`. */
  predicate PairAt(s: string, i: int) {
    0 <= i && i + 1 < |s| && s[i] == '-' && s[i + 1] == '\n'
  }

  /** `s` contains the pattern `"-\n"` somewhere. */
  predicate ContainsPair(s: string) {
    exists i | 0 <= i < |s| :: PairAt(s, i)
  }

  /** The regular-expression substitution: scanning from the left, a `"-\n"`
      is dropped and the scan resumes after it; any other character is
      copied and the scan moves on by one. The result is never longer than
      the input and holds only characters of the input. */
  function PreprocessText(s: string): (r: string)
    ensures |r| <= |s|
    ensures forall c :: c in r ==> c in s
    decreases |s|
  {
    if PairAt(s, 0) then PreprocessText(s[2..])
    else if s == [] then []
    else [s[0]] + PreprocessText(s[1..])
  }

  /** Number of indices at which the pattern occurs, counted at every
      position (overlaps included). */
  function PairCount(s: string): (n: nat)
    decreases |s|
  {
    if |s| < 2 then 0
    else (if PairAt(s, 0) then 1 else 0) + PairCount(s[1..])
  }

  /** The character at index `i` belongs to some occurrence of the pattern. */
  predicate InPair(s: string, i: int) {
    PairAt(s, i) || PairAt(s, i - 1)
  }

  /** Reference definition: the characters of `s` from index `i` on that do
      not belong to any occurrence of the pattern, in their original order. */
  function KeptFrom(s: string, i: nat): (r: string)
    requires i <= |s|
    decreases |s| - i
  {
    if i == |s| then []
    else (if InPair(s, i) then [] else [s[i]]) + KeptFrom(s, i + 1)
  }

  /** The scan deletes exactly the characters that belong to an occurrence
      of `"-\n"` and keeps every other character, in order. (The pattern
      cannot overlap itself, so the non-overlapping scan misses none.) */
  lemma {:induction false} PreprocessKeepsAllButPairs(s: string)
    ensures PreprocessText(s) == KeptFrom(s, 0)
  {
    PreprocessSuffix(s, 0);
    assert s[0..] == s;
  }

  lemma {:induction false} PreprocessSuffix(s: string, i: nat)
    requires i <= |s|
    requires !PairAt(s, i - 1)
    ensures PreprocessText(s[i..]) == KeptFrom(s, i)
    decreases |s| - i
  {
    if i == |s| {
    } else if PairAt(s, i) {
      assert PairAt(s[i..], 0);
      assert s[i..][2..] == s[i + 2..];
      assert !PairAt(s, i + 1);
      assert InPair(s, i + 1);
      PreprocessSuffix(s, i + 2);
      assert KeptFrom(s, i) == KeptFrom(s, i + 1) == KeptFrom(s, i + 2);
    } else {
      assert !PairAt(s[i..], 0);
      assert s[i..][1..] == s[i + 1..];
      PreprocessSuffix(s, i + 1);
    }
  }

  /** The output is shorter than the input by two characters for every
      occurrence of the pattern. */
  lemma {:induction false} PreprocessLength(s: string)
    ensures |PreprocessText(s)| == |s| - 2 * PairCount(s)
    decreases |s|
  {
    if PairAt(s, 0) {
      PreprocessLength(s[2..]);
      assert !PairAt(s[1..], 0);
      if |s| > 2 {
        assert s[1..][1..] == s[2..];
        assert PairCount(s[1..]) == PairCount(s[2..]);
      }
    } else if s == [] {
    } else {
      PreprocessLength(s[1..]);
    }
  }

  /** There is no occurrence of the pattern exactly when it is counted zero times. */
  lemma {:induction false} PairCountZero(s: string)
    ensures PairCount(s) == 0 <==> !ContainsPair(s)
    decreases |s|
  {
    if |s| >= 2 {
      PairCountZero(s[1..]);
      if ContainsPair(s[1..]) {
        var i :| 0 <= i < |s[1..]| && PairAt(s[1..], i);
        assert s[1..][i] == s[i + 1] && s[1..][i + 1] == s[i + 2];
        assert PairAt(s, i + 1);
      }
      if ContainsPair(s) && !PairAt(s, 0) {
        var i :| 0 <= i < |s| && PairAt(s, i);
        assert s[1..][i - 1] == s[i] && s[1..][i] == s[i + 1];
        assert PairAt(s[1..], i - 1);
      }
    } else {
      assert forall i :: !PairAt(s, i);
    }
  }

  /** `preprocess_text` returns its input unchanged if and only if the input
      contains no `"-\n"`. */
  lemma PreprocessUnchangedIff(s: string)
    ensures PreprocessText(s) == s <==> !ContainsPair(s)
  {
    PreprocessLength(s);
    PairCountZero(s);
    if !ContainsPair(s) {
      PreprocessKeepsAllButPairs(s);
      KeptFromAll(s, 0);
      assert s[0..] == s;
    }
  }

  lemma {:induction false} KeptFromAll(s: string, i: nat)
    requires i <= |s|
    requires !ContainsPair(s)
    ensures KeptFrom(s, i) == s[i..]
    decreases |s| - i
  {
    if i < |s| {
      assert !PairAt(s, i) && !PairAt(s, i - 1);
      KeptFromAll(s, i + 1);
      assert s[i..] == [s[i]] + s[i + 1..];
    }
  }

  /** Cutting the input anywhere except inside an occurrence of the pattern
      lets the two halves be processed separately. */
  lemma {:induction false} PreprocessAppend(a: string, b: string)
    requires !(|a| > 0 && |b| > 0 && a[|a| - 1] == '-' && b[0] == '\n')
    ensures PreprocessText(a + b) == PreprocessText(a) + PreprocessText(b)
    decreases |a|
  {
    if a == [] {
      assert a + b == b;
    } else if PairAt(a, 0) {
      assert PairAt(a + b, 0);
      assert (a + b)[2..] == a[2..] + b;
      PreprocessAppend(a[2..], b);
    } else if |a| == 1 {
      assert !PairAt(a + b, 0);
      assert (a + b)[1..] == b;
      assert a[1..] == [];
    } else {
      assert !PairAt(a + b, 0);
      assert (a + b)[1..] == a[1..] + b;
      PreprocessAppend(a[1..], b);
    }
  }

  /** A word broken across two lines is joined again: two hyphen-free
      halves around a `"-\n"` come out as one word. */
  lemma JoinsSplitWord(a: string, b: string)
    requires '-' !in a && '-' !in b
    ensures PreprocessText(a + "-\n" + b) == a + b
  {
    assert a + "-\n" + b == a + ("-\n" + b);
    PreprocessAppend(a, "-\n" + b);
    DropsLeadingPair(b);
    NoPairUnchanged(a);
    NoPairUnchanged(b);
  }

  /** A leading `"-\n"` is dropped and the rest is processed on its own. */
  lemma DropsLeadingPair(s: string)
    ensures PreprocessText("-\n" + s) == PreprocessText(s)
  {
    assert PairAt("-\n" + s, 0);
    assert ("-\n" + s)[2..] == s;
  }

  /** A text without a hyphen passes through unchanged. */
  lemma NoPairUnchanged(s: string)
    requires '-' !in s
    ensures PreprocessText(s) == s
  {
    assert forall i :: !PairAt(s, i);
    PreprocessUnchangedIff(s);
  }

  /** One pass is not enough to remove every pattern: `"--\n\n"` becomes
      `"-\n"`, so `preprocess_text` is not idempotent. */
  lemma NotIdempotent()
    ensures PreprocessText("--\n\n") == "-\n"
    ensures ContainsPair(PreprocessText("--\n\n"))
  {
    var s := "--\n\n";
    assert !PairAt(s, 0) && s[1..] == "-\n\n";
    assert PairAt(s[1..], 0) && s[1..][2..] == "\n";
    assert PreprocessText("\n") == "\n";
    assert PairAt("-\n", 0);
  }
}
