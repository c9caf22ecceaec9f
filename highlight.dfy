/** The highlighter, `highlight_matching_words`: for each pair of the zip of
    the matched words and the styles, every case-insensitive whole-word
    occurrence of the word is replaced by an inline-styled `<span>` holding
    the word as given. Each step is
    `re.sub(rf'\b({re.escape(word)})\b', span, text, flags=re.IGNORECASE)`,
    modelled here as a left-to-right scan over the text. */
module Highlight {
  import opened Ascii

  /** The fallback style used when no styles are supplied. */
  const Yellow: string := "background-color: yellow;"

  /** The three-entry palette that the occurrence extractor passes in. */
  const Palette: seq<string> :=
    ["background-color: yellow;", "background-color: pink;", "background-color: lightblue;"]

  /** `\b` at position `p` (between `text[p-1]` and `text[p]`): exactly one
      side is a word character, the outside of the string counting as a
      non-word character. */
  predicate Boundary(text: string, p: nat)
    requires p <= |text|
  {
    (p > 0 && IsWordChar(text[p - 1])) != (p < |text| && IsWordChar(text[p]))
  }

  /** The pattern `\b(word)\b` matches, ignoring case, at index `i` of `text`. */
  predicate MatchAt(text: string, word: string, i: nat)
    requires i <= |text|
  {
    i + |word| <= |text|
    && Lower(text[i..i + |word|]) == Lower(word)
    && Boundary(text, i)
    && Boundary(text, i + |word|)
  }

  /** No match anywhere from index `i` on. */
  predicate NoMatchFrom(text: string, word: string, i: nat)
    requires i <= |text|
  {
    forall j :: i <= j <= |text| ==> !MatchAt(text, word, j)
  }

  /** The substitution scan from index `i`: at a match, the replacement is
      emitted and the scan resumes after the matched text; elsewhere one
      character is copied. A match of the empty word is empty: the
      replacement is inserted and the character at that position copied, as
      Python does for empty matches. A replacement at least as long as the
      word never makes the rest of the text shorter. */
  function ReplaceFrom(text: string, word: string, repl: string, i: nat): (r: string)
    requires i <= |text|
    ensures |repl| >= |word| ==> |r| >= |text| - i
    decreases |text| - i
  {
    if MatchAt(text, word, i) then
      if |word| == 0 then
        repl + (if i < |text| then [text[i]] + ReplaceFrom(text, word, repl, i + 1) else [])
      else
        repl + ReplaceFrom(text, word, repl, i + |word|)
    else if i < |text| then
      [text[i]] + ReplaceFrom(text, word, repl, i + 1)
    else
      []
  }

  /** The number of matches the scan from index `i` replaces. */
  function MatchesFrom(text: string, word: string, i: nat): (n: nat)
    requires i <= |text|
    decreases |text| - i
  {
    if MatchAt(text, word, i) then
      if |word| == 0 then
        1 + (if i < |text| then MatchesFrom(text, word, i + 1) else 0)
      else
        1 + MatchesFrom(text, word, i + |word|)
    else if i < |text| then
      MatchesFrom(text, word, i + 1)
    else
      0
  }

  /** `re.sub(rf'\b({re.escape(word)})\b', repl, text, flags=re.IGNORECASE)`. */
  function ReplaceWord(text: string, word: string, repl: string): (r: string)
    ensures |repl| >= |word| ==> |r| >= |text|
  {
    ReplaceFrom(text, word, repl, 0)
  }

  /** The markup that replaces each occurrence: the word as given, not the
      text that matched it. The markup adds the style and 22 characters, and
      the word sits just before the closing tag. */
  function Span(word: string, style: string): (r: string)
    ensures |r| == |word| + |style| + 22
    ensures r[|r| - 7 - |word|..|r| - 7] == word
  {
    "<span style=\"" + style + "\">" + word + "</span>"
  }

  /** One step of the loop: wrap every occurrence of `word` in its span. A
      step never shortens the text. */
  function HighlightStep(text: string, word: string, style: string): (r: string)
    ensures |r| >= |text|
  {
    ReplaceWord(text, word, Span(word, style))
  }

  /** The loop over `zip(words, styles)`: a left fold of `HighlightStep` that
      stops at the end of the shorter list. Highlighting never shortens the
      text, and with no pair to process it returns the text as it is. */
  function Highlighted(text: string, words: seq<string>, styles: seq<string>): (r: string)
    ensures |r| >= |text|
    ensures Min(|words|, |styles|) == 0 ==> r == text
    decreases |words|
  {
    if words == [] || styles == [] then text
    else Highlighted(HighlightStep(text, words[0], styles[0]), words[1..], styles[1..])
  }

  /** The styles actually used: `highlight_styles`, or one yellow style per
      word when it is absent or empty. */
  function EffectiveStyles(words: seq<string>, styles: seq<string>): (r: seq<string>)
    ensures styles == [] ==> |r| == |words| && forall k :: 0 <= k < |r| ==> r[k] == Yellow
    ensures styles != [] ==> r == styles
  {
    if styles == [] then seq(|words|, _ => Yellow) else styles
  }

  function Min(a: nat, b: nat): (m: nat)
    ensures m <= a && m <= b && (m == a || m == b)
  {
    if a <= b then a else b
  }

  /** `highlight_matching_words(text, matching_words, highlight_styles)`, with
      an absent `highlight_styles` passed as the empty list. */
  method HighlightMatchingWords(text: string, matchingWords: seq<string>, highlightStyles: seq<string>)
    returns (r: string)
    ensures r == Highlighted(text, matchingWords, EffectiveStyles(matchingWords, highlightStyles))
    ensures highlightStyles == [] ==>
      r == Highlighted(text, matchingWords, seq(|matchingWords|, _ => Yellow))
    ensures matchingWords == [] ==> r == text
  {
    var styles := highlightStyles;
    if styles == [] {
      styles := seq(|matchingWords|, _ => Yellow);
    }
    var n := Min(|matchingWords|, |styles|);
    r := text;
    var k := 0;
    while k < n
      invariant 0 <= k <= n
      invariant Highlighted(r, matchingWords[k..], styles[k..]) == Highlighted(text, matchingWords, styles)
    {
      assert matchingWords[k..][1..] == matchingWords[k + 1..];
      assert styles[k..][1..] == styles[k + 1..];
      r := HighlightStep(r, matchingWords[k], styles[k]);
      k := k + 1;
    }
    assert matchingWords[k..] == [] || styles[k..] == [];
  }

  // ---------------------------------------------------------------------
  // One substitution step

  /** Where nothing matches, the scan copies the text unchanged. */
  lemma {:induction false} ReplaceFromNoMatch(text: string, word: string, repl: string, i: nat)
    requires i <= |text|
    requires NoMatchFrom(text, word, i)
    ensures ReplaceFrom(text, word, repl, i) == text[i..]
    decreases |text| - i
  {
    assert !MatchAt(text, word, i);
    if i < |text| {
      ReplaceFromNoMatch(text, word, repl, i + 1);
      assert text[i..] == [text[i]] + text[i + 1..];
    }
  }

  /** Each replaced match changes the length by `|repl| - |word|`. */
  lemma {:induction false} ReplaceFromLength(text: string, word: string, repl: string, i: nat)
    requires i <= |text|
    ensures |ReplaceFrom(text, word, repl, i)|
         == |text| - i + MatchesFrom(text, word, i) * (|repl| - |word|)
    decreases |text| - i
  {
    if MatchAt(text, word, i) {
      var next := if |word| == 0 then i + 1 else i + |word|;
      if next <= |text| {
        ReplaceFromLength(text, word, repl, next);
        MatchLength(text, word, repl, i, next);
      } else {
        assert MatchesFrom(text, word, i) == 1;
      }
    } else if i < |text| {
      ReplaceFromLength(text, word, repl, i + 1);
    }
  }

  /** One replaced match, given the length of the rest of the scan. */
  lemma MatchLength(text: string, word: string, repl: string, i: nat, next: nat)
    requires i <= |text| && MatchAt(text, word, i)
    requires next == if |word| == 0 then i + 1 else i + |word|
    requires next <= |text|
    requires |ReplaceFrom(text, word, repl, next)|
          == |text| - next + MatchesFrom(text, word, next) * (|repl| - |word|)
    ensures |ReplaceFrom(text, word, repl, i)|
         == |text| - i + MatchesFrom(text, word, i) * (|repl| - |word|)
  {
    var c := MatchesFrom(text, word, next);
    assert MatchesFrom(text, word, i) == c + 1;
    assert |ReplaceFrom(text, word, repl, i)|
        == |repl| + (next - i - |word|) + |ReplaceFrom(text, word, repl, next)|;
    LengthStep(|text|, i, next, |word|, |repl|, c, |ReplaceFrom(text, word, repl, next)|);
  }

  /** The arithmetic of one replaced match, kept apart from the scan. */
  lemma LengthStep(n: int, i: int, next: int, w: int, r: int, c: int, lenRest: int)
    requires lenRest == n - next + c * (r - w)
    ensures r + (next - i - w) + lenRest == n - i + (c + 1) * (r - w)
  {
    assert (c + 1) * (r - w) == c * (r - w) + (r - w);
  }

  /** A match anywhere ahead of the scan means the scan replaces at least one
      match (possibly an earlier, overlapping one). */
  lemma {:induction false} SomeMatchReplaced(text: string, word: string, i: nat, j: nat)
    requires i <= j <= |text|
    requires MatchAt(text, word, j)
    ensures MatchesFrom(text, word, i) > 0
    decreases |text| - i
  {
    if !MatchAt(text, word, i) {
      SomeMatchReplaced(text, word, i + 1, j);
    }
  }

  /** The word consists of `\w` characters only, as a target word usually
      does (`re.escape` leaves such a word as it is). */
  predicate AllWordChars(word: string) {
    forall k :: 0 <= k < |word| ==> IsWordChar(word[k])
  }

  /** Every index at which the word occurs as a whole word, ignoring case. */
  function MatchPositions(text: string, word: string, i: nat): (r: set<nat>)
    requires i <= |text|
    ensures forall j :: j in r ==> i <= j <= |text|
  {
    set j: nat | i <= j <= |text| && MatchAt(text, word, j)
  }

  /** Occurrences of a word made of `\w` characters cannot overlap: inside
      a match both neighbours of every inner position are word characters,
      so `\b` does not hold there. */
  lemma NoOverlap(text: string, word: string, i: nat, j: nat)
    requires AllWordChars(word)
    requires i <= |text| && MatchAt(text, word, i)
    requires i < j < i + |word|
    ensures !MatchAt(text, word, j)
  {
    var m := text[i..i + |word|];
    assert Lower(m)[j - 1 - i] == Lower(word)[j - 1 - i];
    assert Lower(m)[j - i] == Lower(word)[j - i];
    assert m[j - 1 - i] == text[j - 1] && m[j - i] == text[j];
    assert IsWordChar(text[j - 1]) && IsWordChar(text[j]);
  }

  /** The scan misses no occurrence: for a word made of `\w` characters,
      the number of matches it replaces is the number of indices at which
      the word occurs as a whole word, ignoring case. */
  lemma {:induction false} MatchesFromCountsAll(text: string, word: string, i: nat)
    requires AllWordChars(word)
    requires i <= |text|
    ensures MatchesFrom(text, word, i) == |MatchPositions(text, word, i)|
    decreases |text| - i
  {
    if MatchAt(text, word, i) {
      var next := if |word| == 0 then i + 1 else i + |word|;
      if next <= |text| {
        MatchesFromCountsAll(text, word, next);
        PositionsAfterMatch(text, word, i, next);
      } else {
        assert MatchPositions(text, word, i) == {i};
      }
    } else if i < |text| {
      MatchesFromCountsAll(text, word, i + 1);
      assert MatchPositions(text, word, i) == MatchPositions(text, word, i + 1);
    } else {
      assert MatchPositions(text, word, i) == {};
    }
  }

  /** Without `AllWordChars` occurrences can overlap: `"a a"` occurs in
      `"a a a"` at 0 and at 2, and the scan, like `re.sub`, replaces only the
      first. */
  lemma OverlapReplacedOnce()
    ensures MatchAt("a a a", "a a", 0) && MatchAt("a a a", "a a", 2)
    ensures MatchesFrom("a a a", "a a", 0) == 1
    ensures ReplaceWord("a a a", "a a", "X") == "X a"
  {
    var t, w := "a a a", "a a";
    assert t[0..3] == w && t[2..5] == w;
    assert Lower(w) == [LowerChar('a'), LowerChar(' '), LowerChar('a')];
    assert !MatchAt(t, w, 3) && !MatchAt(t, w, 4) && !MatchAt(t, w, 5);
    assert ReplaceFrom(t, w, "X", 4) == "a";
    assert ReplaceFrom(t, w, "X", 3) == " a";
    assert MatchesFrom(t, w, 3) == 0;
  }

  /** After a match at `i`, the next match is at or past the scan's resume
      point `next`. */
  lemma PositionsAfterMatch(text: string, word: string, i: nat, next: nat)
    requires AllWordChars(word)
    requires i <= |text| && MatchAt(text, word, i)
    requires next == if |word| == 0 then i + 1 else i + |word|
    requires next <= |text|
    ensures MatchPositions(text, word, i) == {i} + MatchPositions(text, word, next)
    ensures i !in MatchPositions(text, word, next)
  {
    forall j | i < j < next ensures !MatchAt(text, word, j) {
      NoOverlap(text, word, i, j);
    }
  }

  /** A step's length in terms of the occurrences: each whole-word,
      case-insensitive occurrence of the word is replaced, and each changes
      the length by `|repl| - |word|`. */
  lemma ReplaceWordLength(text: string, word: string, repl: string)
    requires AllWordChars(word)
    ensures |ReplaceWord(text, word, repl)|
         == |text| + |MatchPositions(text, word, 0)| * (|repl| - |word|)
  {
    ReplaceFromLength(text, word, repl, 0);
    MatchesFromCountsAll(text, word, 0);
  }

  /** One step leaves the text unchanged exactly when the word occurs nowhere
      as a whole word (ignoring case): the replacement is always longer than
      the word it replaces. */
  lemma ReplaceWordUnchangedIff(text: string, word: string, repl: string)
    requires |repl| > |word|
    ensures ReplaceWord(text, word, repl) == text <==> NoMatchFrom(text, word, 0)
  {
    if NoMatchFrom(text, word, 0) {
      ReplaceFromNoMatch(text, word, repl, 0);
      assert text[0..] == text;
    } else {
      var j :| 0 <= j <= |text| && MatchAt(text, word, j);
      ReplaceFromGrows(text, word, repl, j);
    }
  }

  lemma ReplaceFromGrows(text: string, word: string, repl: string, j: nat)
    requires |repl| > |word|
    requires j <= |text| && MatchAt(text, word, j)
    ensures |ReplaceFrom(text, word, repl, 0)| > |text|
  {
    SomeMatchReplaced(text, word, 0, j);
    ReplaceFromLength(text, word, repl, 0);
    ProductAtLeast(MatchesFrom(text, word, 0), |repl| - |word|);
  }

  lemma ProductAtLeast(c: nat, d: nat)
    requires c >= 1 && d >= 1
    ensures c * d >= 1
  {
  }

  /** A highlighting step is the identity exactly on texts where the word
      has no whole-word, case-insensitive occurrence. */
  lemma HighlightStepUnchangedIff(text: string, word: string, style: string)
    ensures HighlightStep(text, word, style) == text <==> NoMatchFrom(text, word, 0)
  {
    ReplaceWordUnchangedIff(text, word, Span(word, style));
  }

  /** Whether a position matches depends on the word only through its
      lower-case form. */
  lemma ReplaceFromIgnoresCase(text: string, word: string, repl: string, i: nat)
    requires i <= |text|
    ensures ReplaceFrom(text, word, repl, i) == ReplaceFrom(text, Lower(word), repl, i)
  {
    LowerIdempotent(word);
    forall j | 0 <= j <= |text| ensures MatchAt(text, word, j) == MatchAt(text, Lower(word), j) {
      MatchAtSameLower(text, word, Lower(word), j);
    }
    assert SameMatches(text, word, Lower(word));
    ReplaceFromSameMatches(text, word, Lower(word), repl, i);
  }

  /** Two words of the same length that match at the same positions of the
      text. */
  predicate SameMatches(text: string, w1: string, w2: string) {
    && |w1| == |w2|
    && forall j :: 0 <= j <= |text| ==> MatchAt(text, w1, j) == MatchAt(text, w2, j)
  }

  /** Two such words are substituted alike. */
  lemma {:induction false} ReplaceFromSameMatches(text: string, w1: string, w2: string, repl: string, i: nat)
    requires i <= |text|
    requires SameMatches(text, w1, w2)
    ensures ReplaceFrom(text, w1, repl, i) == ReplaceFrom(text, w2, repl, i)
    decreases |text| - i
  {
    if MatchAt(text, w1, i) {
      if |w1| > 0 {
        ReplaceFromSameMatches(text, w1, w2, repl, i + |w1|);
      } else if i < |text| {
        ReplaceFromSameMatches(text, w1, w2, repl, i + 1);
      }
    } else if i < |text| {
      ReplaceFromSameMatches(text, w1, w2, repl, i + 1);
    }
  }

  lemma MatchAtSameLower(text: string, w1: string, w2: string, i: nat)
    requires i <= |text|
    requires |w1| == |w2| && Lower(w1) == Lower(w2)
    ensures MatchAt(text, w1, i) == MatchAt(text, w2, i)
  {
  }


  // ---------------------------------------------------------------------
  // The fold over zip(words, styles)

  /** `zip` truncates: only the first `min(|words|, |styles|)` words are
      processed. */
  lemma {:induction false} HighlightedZipTruncates(text: string, words: seq<string>, styles: seq<string>)
    ensures var m := Min(|words|, |styles|);
      Highlighted(text, words, styles) == Highlighted(text, words[..m], styles[..m])
    decreases |words|
  {
    var m := Min(|words|, |styles|);
    if words == [] || styles == [] {
      assert words[..m] == [];
    } else {
      var next := HighlightStep(text, words[0], styles[0]);
      var ws, ss := words[..m], styles[..m];
      assert Min(|words[1..]|, |styles[1..]|) == m - 1;
      HighlightedZipTruncates(next, words[1..], styles[1..]);
      assert ws[0] == words[0] && ss[0] == styles[0];
      assert ws[1..] == words[1..][..m - 1];
      assert ss[1..] == styles[1..][..m - 1];
      assert Highlighted(text, ws, ss) == Highlighted(next, ws[1..], ss[1..]);
    }
  }

  /** With the three-entry palette, words after the third are never
      processed, however many words matched. */
  lemma PaletteStopsAtThree(text: string, words: seq<string>)
    ensures Highlighted(text, words, Palette) == Highlighted(text, words[..Min(|words|, 3)], Palette)
  {
    HighlightedZipTruncates(text, words, Palette);
    assert Palette[..3] == Palette;
    HighlightedZipTruncates(text, words[..Min(|words|, 3)], Palette);
    assert words[..Min(|words|, 3)][..Min(|words|, 3)] == words[..Min(|words|, 3)];
  }

  /** The fold is sequential: highlighting with two lists one after the
      other is highlighting with their concatenation. */
  lemma {:induction false} HighlightedAppend(text: string, w1: seq<string>, s1: seq<string>, w2: seq<string>, s2: seq<string>)
    requires |w1| == |s1|
    ensures Highlighted(text, w1 + w2, s1 + s2) == Highlighted(Highlighted(text, w1, s1), w2, s2)
    decreases |w1|
  {
    if w1 == [] {
      assert w1 + w2 == w2 && s1 + s2 == s2;
    } else {
      assert (w1 + w2)[1..] == w1[1..] + w2;
      assert (s1 + s2)[1..] == s1[1..] + s2;
      HighlightedAppend(HighlightStep(text, w1[0], s1[0]), w1[1..], s1[1..], w2, s2);
    }
  }

  /** If none of the words occurs in the text, highlighting changes nothing. */
  lemma {:induction false} HighlightedNoMatch(text: string, words: seq<string>, styles: seq<string>)
    requires forall k :: 0 <= k < |words| ==> NoMatchFrom(text, words[k], 0)
    ensures Highlighted(text, words, styles) == text
    decreases |words|
  {
    if words != [] && styles != [] {
      HighlightStepUnchangedIff(text, words[0], styles[0]);
      HighlightedNoMatch(text, words[1..], styles[1..]);
    }
  }

  // ---------------------------------------------------------------------
  // Concrete behaviour

  /** The span holds the target word as given, so the casing of the text is
      lost: "Apple" highlighted for "apple" shows "apple". */
  lemma CasingLost()
    ensures HighlightStep("Apple", "apple", Yellow) == Span("apple", Yellow)
  {
    var t := "Apple";
    assert t[0..5] == t;
    assert Lower(t) == "apple";
    assert Lower("apple") == "apple";
    assert MatchAt(t, "apple", 0);
    assert !MatchAt(t, "apple", 5);
  }

  /** Word boundaries: "cat" does not match inside "category". */
  lemma NoMatchInsideWord()
    ensures HighlightStep("category", "cat", Yellow) == "category"
  {
    var t := "category";
    assert forall k | 0 <= k < |t| :: IsWordChar(t[k]);
    forall j | 0 <= j <= |t| ensures !MatchAt(t, "cat", j) {
      if j == 0 {
        assert IsWordChar(t[2]) && IsWordChar(t[3]);
        assert !Boundary(t, 3);
      } else if j < |t| {
        assert IsWordChar(t[j - 1]) && IsWordChar(t[j]);
        assert !Boundary(t, j);
      }
    }
    HighlightStepUnchangedIff(t, "cat", Yellow);
  }

  /** The hazard of sequential steps: after "apple" is wrapped, a later
      word such as "color" or "span" matches inside the inserted markup, so
      the next step rewrites the markup itself. */
  lemma MarkupIsRematched()
    ensures var first := HighlightStep("apple", "apple", Yellow);
      && first == Span("apple", Yellow)
      && MatchAt(first, "color", 24)
      && MatchAt(first, "span", 1)
      && HighlightStep(first, "color", "background-color: pink;") != first
  {
    WholeTextWrapped();
    var first := Span("apple", Yellow);
    assert MatchAt(first, "color", 24) by {
      ColorInMarkup();
    }
    assert MatchAt(first, "span", 1) by {
      SpanInMarkup();
    }
    HighlightStepUnchangedIff(first, "color", "background-color: pink;");
  }

  /** A text that is exactly the word is wrapped whole. */
  lemma WholeTextWrapped()
    ensures HighlightStep("apple", "apple", Yellow) == Span("apple", Yellow)
  {
    var t := "apple";
    assert t[0..5] == t;
    assert MatchAt(t, "apple", 0);
    assert !MatchAt(t, "apple", 5);
  }

  lemma ColorInMarkup()
    ensures MatchAt(Span("apple", Yellow), "color", 24)
  {
    var first := Span("apple", Yellow);
    assert first[23] == '-' && first[29] == ':';
    assert first[24..29] == "color";
    assert Lower("color") == "color";
    assert !IsWordChar(first[23]) && !IsWordChar(first[29]);
  }

  lemma SpanInMarkup()
    ensures MatchAt(Span("apple", Yellow), "span", 1)
  {
    var first := Span("apple", Yellow);
    SpanOpens("apple", Yellow);
    var opening := first[..6];
    assert opening[0] == '<' && opening[5] == ' ' && opening[1..5] == "span";
    assert first[1..5] == opening[1..5];
    assert Lower("span") == "span";
    assert !IsWordChar(first[0]) && !IsWordChar(first[5]);
  }

  /** Every span opens with `<span `. */
  lemma SpanOpens(word: string, style: string)
    ensures Span(word, style)[..6] == "<span "
  {
    var tag := "<span style=\"";
    assert Span(word, style) == tag + (style + "\">" + word + "</span>");
    assert tag[..6] == "<span ";
  }
}
