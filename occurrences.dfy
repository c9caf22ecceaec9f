/** Occurrence counting in `extract_words_with_occurrences_from_pdf`. The
    tokenizer and the token matcher are external; the model takes the
    tokens' texts as given. The matcher has one pattern
    `{"LOWER": word.lower()}` per target word, so it reports, in document
    order, every token whose lower-case form equals the lower-case form of
    some target word. The loop then builds a counter (`Counter`) and the set
    of matched words. */
module Occurrences {
  import opened Ascii

  /** `w` is the lower-case form of one of the target words. */
  predicate IsTarget(w: string, targets: seq<string>) {
    exists t | t in targets :: Lower(t) == w
  }

  /** The lower-case forms of the tokens, in document order. */
  function LowerAll(tokens: seq<string>): (r: seq<string>)
    ensures |r| == |tokens|
    ensures forall k :: 0 <= k < |tokens| ==> r[k] == Lower(tokens[k])
  {
    seq(|tokens|, k requires 0 <= k < |tokens| => Lower(tokens[k]))
  }

  /** What the matcher reports: the lower-cased text of each matching token,
      in document order. There are never more matches than tokens, and each
      match is the lower-case form of a target word. */
  function MatchedTokens(tokens: seq<string>, targets: seq<string>): (r: seq<string>)
    ensures |r| <= |tokens|
    ensures forall w :: w in r ==> IsTarget(w, targets)
    decreases |tokens|
  {
    if tokens == [] then []
    else
      (if IsTarget(Lower(tokens[0]), targets) then [Lower(tokens[0])] else [])
      + MatchedTokens(tokens[1..], targets)
  }

  /** The matches are exactly the lower-cased tokens that are target words,
      each as often as it occurs among the tokens. */
  lemma {:induction false} MatchedTokensCount(tokens: seq<string>, targets: seq<string>, w: string)
    ensures multiset(MatchedTokens(tokens, targets))[w]
         == if IsTarget(w, targets) then multiset(LowerAll(tokens))[w] else 0
    decreases |tokens|
  {
    if tokens != [] {
      MatchedTokensCount(tokens[1..], targets, w);
      assert LowerAll(tokens) == [Lower(tokens[0])] + LowerAll(tokens[1..]);
    }
  }

  /** Reference definition of the counter: each lower-cased token that is a
      target word, mapped to the number of tokens with that lower-case form.
      What it means is proved in `TokenCountsMeaning`. */
  function TokenCounts(tokens: seq<string>, targets: seq<string>): (r: map<string, nat>) {
    var lowered := LowerAll(tokens);
    map w | w in lowered && IsTarget(w, targets) :: multiset(lowered)[w]
  }

  /** The sum of the counts of a counter. */
  ghost function SumCounts(m: map<string, nat>): (n: nat)
    decreases |m|
  {
    if |m| == 0 then 0
    else
      var k := PickKey(m);
      m[k] + SumCounts(m - {k})
  }

  ghost function PickKey(m: map<string, nat>): (k: string)
    requires |m| > 0
    ensures k in m
  {
    var k :| k in m.Keys; k
  }

  lemma MapRemoveCard(m: map<string, nat>, k: string)
    requires k in m
    ensures |m - {k}| == |m| - 1
  {
    assert (m - {k}).Keys == m.Keys - {k};
    assert |m.Keys - {k}| == |m.Keys| - 1;
  }

  /** Any key may be taken out first when summing the counts. */
  lemma {:induction false} SumCountsRemove(m: map<string, nat>, k: string)
    requires k in m
    ensures SumCounts(m) == m[k] + SumCounts(m - {k})
    decreases |m|
  {
    MapRemoveCard(m, k);
    var j := PickKey(m);
    if j != k {
      MapRemoveCard(m, j);
      SumCountsRemove(m - {j}, k);
      SumCountsRemove(m - {k}, j);
      assert (m - {j}) - {k} == (m - {k}) - {j};
    }
  }

  /** `word_counter[w] += 1` adds one to the sum of the counts. */
  lemma SumCountsIncrement(m: map<string, nat>, w: string)
    ensures SumCounts(m[w := (if w in m then m[w] else 0) + 1]) == SumCounts(m) + 1
  {
    var m' := m[w := (if w in m then m[w] else 0) + 1];
    SumCountsRemove(m', w);
    if w in m {
      SumCountsRemove(m, w);
      assert m' - {w} == m - {w};
    } else {
      assert m' - {w} == m;
    }
  }

  /** The counter of a sequence: each word in it, mapped to the number of
      times it occurs, which is positive and at most the sequence's length. */
  function CountsOf(ms: seq<string>): (r: map<string, nat>)
    ensures forall w :: w in r ==> 0 < r[w] <= |ms|
  {
    map w | w in ms :: multiset(ms)[w]
  }

  /** `word_counter[w] += 1`: the counter with one more occurrence of `w`. */
  function Increment(counter: map<string, nat>, w: string): (r: map<string, nat>)
    ensures r.Keys == counter.Keys + {w}
    ensures r[w] == (if w in counter then counter[w] else 0) + 1
    ensures forall k :: k in counter && k != w ==> r[k] == counter[k]
  {
    counter[w := (if w in counter then counter[w] else 0) + 1]
  }

  /** Counting one more word is one increment. */
  lemma CountsOfSnoc(ms: seq<string>, w: string)
    ensures CountsOf(ms + [w]) == Increment(CountsOf(ms), w)
  {
    var a, b := CountsOf(ms + [w]), Increment(CountsOf(ms), w);
    assert multiset(ms + [w]) == multiset(ms) + multiset{w};
    assert forall v :: v in ms + [w] <==> v in ms || v == w;
    assert a.Keys == b.Keys;
  }

  /** The counts of a sequence add up to its length. */
  lemma {:induction false} SumCountsOf(ms: seq<string>)
    ensures SumCounts(CountsOf(ms)) == |ms|
    decreases |ms|
  {
    if ms == [] {
      assert CountsOf(ms) == map[];
    } else {
      var n := |ms| - 1;
      var prefix, last := ms[..n], ms[n];
      assert SumCounts(CountsOf(prefix)) == n by {
        SumCountsOf(prefix);
      }
      assert CountsOf(ms) == Increment(CountsOf(prefix), last) by {
        assert ms == prefix + [last];
        CountsOfSnoc(prefix, last);
      }
      SumCountsIncrement(CountsOf(prefix), last);
    }
  }

  /** Counting the matches gives the reference counter. */
  lemma CountsOfMatches(tokens: seq<string>, targets: seq<string>)
    ensures CountsOf(MatchedTokens(tokens, targets)) == TokenCounts(tokens, targets)
  {
    var matches, lowered := MatchedTokens(tokens, targets), LowerAll(tokens);
    var a, b := CountsOf(matches), TokenCounts(tokens, targets);
    forall w ensures (w in matches <==> w in b) && (w in matches ==> a[w] == b[w]) {
      MatchedTokensCount(tokens, targets, w);
    }
    assert a.Keys == b.Keys;
  }

  /** The counting loop over the matches: the counter it builds is the
      reference counter, its keys are the matched words, and its counts add
      up to the number of matches. */
  method CountOccurrences(tokens: seq<string>, targets: seq<string>)
    returns (wordCounter: map<string, nat>, matchingWords: set<string>)
    ensures wordCounter == TokenCounts(tokens, targets)
    ensures matchingWords == wordCounter.Keys
    ensures SumCounts(wordCounter) == |MatchedTokens(tokens, targets)|
  {
    var matches := MatchedTokens(tokens, targets);
    wordCounter, matchingWords := map[], {};
    var k := 0;
    while k < |matches|
      invariant 0 <= k <= |matches|
      invariant wordCounter == CountsOf(matches[..k])
      invariant matchingWords == wordCounter.Keys
    {
      var w := matches[k];
      assert matches[..k + 1] == matches[..k] + [w];
      CountsOfSnoc(matches[..k], w);
      wordCounter := Increment(wordCounter, w);
      matchingWords := matchingWords + {w};
      k := k + 1;
    }
    assert matches[..k] == matches;
    CountsOfMatches(tokens, targets);
    SumCountsOf(matches);
  }

  /** What the counter means: a word has an entry exactly when it is the
      lower-case form of some target word and of at least one token, and its
      entry is the number of tokens whose lower-case form it is. */
  lemma TokenCountsMeaning(tokens: seq<string>, targets: seq<string>, w: string)
    ensures var counter := TokenCounts(tokens, targets);
      && (w in counter <==> IsTarget(w, targets) && exists k :: 0 <= k < |tokens| && Lower(tokens[k]) == w)
      && (w in counter ==> counter[w] == |set k | 0 <= k < |tokens| && Lower(tokens[k]) == w|)
      && (w in counter ==> counter[w] > 0)
  {
    var lowered := LowerAll(tokens);
    assert (set k | 0 <= k < |tokens| && Lower(tokens[k]) == w) == (set k | 0 <= k < |lowered| && lowered[k] == w);
    if w in lowered {
      var k :| 0 <= k < |lowered| && lowered[k] == w;
      assert Lower(tokens[k]) == w;
    }
    CountIndices(lowered, w);
  }

  /** The multiplicity of `w` in a sequence is the number of indices holding it. */
  lemma {:induction false} CountIndices(s: seq<string>, w: string)
    ensures multiset(s)[w] == |set k | 0 <= k < |s| && s[k] == w|
    decreases |s|
  {
    if s != [] {
      var n := |s| - 1;
      CountIndices(s[..n], w);
      assert s == s[..n] + [s[n]];
      var before := set k | 0 <= k < n && s[..n][k] == w;
      var all := set k | 0 <= k < |s| && s[k] == w;
      if s[n] == w {
        assert all == before + {n};
      } else {
        assert all == before;
      }
    }
  }
}
