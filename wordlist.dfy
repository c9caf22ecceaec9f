/** The word list: the uploaded text file is read whole and split with
    `str.split(',')`, with no trimming, so entries may be empty or keep
    surrounding spaces and line breaks. */
module WordList {

  /** `s.split(sep)`: the pieces between the separators, in order. */
  function Split(s: string, sep: char): (r: seq<string>)
    ensures |r| >= 1
    ensures forall k :: 0 <= k < |r| ==> |r[k]| <= |s|
    decreases |s|
  {
    if s == [] then [""]
    else if s[0] == sep then [""] + Split(s[1..], sep)
    else
      var rest := Split(s[1..], sep);
      [[s[0]] + rest[0]] + rest[1..]
  }

  /** `sep.join(parts)`. */
  function Join(parts: seq<string>, sep: char): (r: string)
    ensures |parts| > 0 ==> |r| >= |parts[0]| + |parts| - 1 && r[..|parts[0]|] == parts[0]
    decreases |parts|
  {
    if parts == [] then ""
    else if |parts| == 1 then parts[0]
    else parts[0] + [sep] + Join(parts[1..], sep)
  }

  /** Number of occurrences of `c` in `s`. */
  function CountChar(s: string, c: char): (n: nat)
    ensures n <= |s|
    ensures n == 0 <==> c !in s
    decreases |s|
  {
    if s == [] then 0 else (if s[0] == c then 1 else 0) + CountChar(s[1..], c)
  }

  /** `file.read().split(',')` gives one entry more than there are commas,
      and no entry contains a comma. */
  lemma {:induction false} SplitShape(s: string, sep: char)
    ensures |Split(s, sep)| == CountChar(s, sep) + 1
    ensures forall k :: 0 <= k < |Split(s, sep)| ==> sep !in Split(s, sep)[k]
    decreases |s|
  {
    if s != [] {
      SplitShape(s[1..], sep);
      if s[0] != sep {
        var rest := Split(s[1..], sep);
        assert sep !in rest[0];
        assert forall k :: 1 <= k < |Split(s, sep)| ==> Split(s, sep)[k] == rest[k];
      }
    }
  }

  /** Joining the pieces with the separator gives back the text: the split
      loses nothing, in particular no whitespace. */
  lemma {:induction false} JoinSplit(s: string, sep: char)
    ensures Join(Split(s, sep), sep) == s
    decreases |s|
  {
    if s != [] {
      JoinSplit(s[1..], sep);
      if s[0] == sep {
        assert Split(s, sep)[1..] == Split(s[1..], sep);
        assert s == [sep] + s[1..];
      } else {
        JoinSplitPiece(s, sep);
      }
    }
  }

  /** The step of `JoinSplit` where the text starts inside a piece: the
      first character is prepended to the first piece of the rest. */
  lemma JoinSplitPiece(s: string, sep: char)
    requires s != [] && s[0] != sep
    requires Join(Split(s[1..], sep), sep) == s[1..]
    ensures Join(Split(s, sep), sep) == s
  {
    var rest := Split(s[1..], sep);
    var parts := Split(s, sep);
    var head := [s[0]] + rest[0];
    assert parts == [head] + rest[1..];
    assert s == [s[0]] + s[1..];
    if |rest| == 1 {
      assert s[1..] == rest[0];
    } else {
      var tail := Join(rest[1..], sep);
      assert parts[1..] == rest[1..];
      assert Join(parts, sep) == head + [sep] + tail;
      assert s[1..] == rest[0] + [sep] + tail;
      assert head + [sep] + tail == [s[0]] + (rest[0] + [sep] + tail);
    }
  }

  /** Splitting a joined list gives the list back when no piece contains the
      separator. */
  lemma {:induction false} SplitJoin(parts: seq<string>, sep: char)
    requires |parts| > 0
    requires forall k :: 0 <= k < |parts| ==> sep !in parts[k]
    ensures Split(Join(parts, sep), sep) == parts
    decreases |parts|
  {
    if |parts| == 1 {
      SplitNoSep(parts[0], sep);
    } else {
      SplitJoin(parts[1..], sep);
      SplitAppend(parts[0], Join(parts[1..], sep), sep);
    }
  }

  /** A text without the separator splits into itself alone. */
  lemma {:induction false} SplitNoSep(s: string, sep: char)
    requires sep !in s
    ensures Split(s, sep) == [s]
    decreases |s|
  {
    if s != [] {
      SplitNoSep(s[1..], sep);
      assert s == [s[0]] + s[1..];
    }
  }

  /** A piece without the separator, then the separator, then a text: the
      piece comes first, then the pieces of the text. */
  lemma {:induction false} SplitAppend(a: string, b: string, sep: char)
    requires sep !in a
    ensures Split(a + [sep] + b, sep) == [a] + Split(b, sep)
    decreases |a|
  {
    if a == [] {
      assert a + [sep] + b == [sep] + b;
      assert ([sep] + b)[1..] == b;
    } else {
      assert (a + [sep] + b)[1..] == a[1..] + [sep] + b;
      SplitAppend(a[1..], b, sep);
      assert [a[0]] + a[1..] == a;
    }
  }

  /** Two separator-free pieces joined by one separator split back into
      exactly those two pieces. */
  lemma SplitTwo(a: string, b: string, sep: char)
    requires sep !in a && sep !in b
    ensures Split(a + [sep] + b, sep) == [a, b]
  {
    SplitAppend(a, b, sep);
    SplitNoSep(b, sep);
  }

  /** No trimming: spaces after a comma and a trailing line break stay in
      the entries. */
  lemma SplitKeepsWhitespace()
    ensures Split("apple, pear\n", ',') == ["apple", " pear\n"]
  {
    assert ',' !in "apple" && ',' !in " pear\n";
    SplitTwo("apple", " pear\n", ',');
    assert "apple" + [','] + " pear\n" == "apple, pear\n";
  }
}
