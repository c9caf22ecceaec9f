/** The per-file pipeline `extract_words_with_occurrences_from_pdf` and the
    batch runner `process_pdf_files`. PDF text extraction and tokenization
    are external: the model receives the extracted text of each file through
    `extract` and the token texts of a normalised text through `tokenize`. */
module Batch {
  import opened Ascii
  import opened Preprocess
  import opened Highlight
  import opened Occurrences

  datatype Result<T, E> = Ok(value: T) | Err(error: E)

  /** What `extract_words_with_occurrences_from_pdf` returns: on empty text
      the three-element tuple `(Counter(), "", "")`, otherwise the pair of
      the counter and the highlighted text. */
  datatype Extraction =
    | Triple(occurrences: map<string, nat>, first: string, second: string)
    | Pair(occurrences: map<string, nat>, highlighted: string)

  /** One entry of the batch result. */
  datatype WordOccurrenceResult =
    WordOccurrenceResult(fileName: string, wordOccurrences: map<string, nat>, highlightedText: string)

  /** The failure of the batch: the unpacking `word_occurrences,
      highlighted_text = ...` raises `ValueError` when it receives three values. */
  datatype BatchError = TooManyValuesToUnpack(fileName: string)

  /** The text the matcher and the highlighter work on: lower-cased, then
      de-hyphenated. It is no longer than the extracted text and holds no
      capital letter. */
  function Article(extracted: string): (r: string)
    ensures |r| <= |extracted|
    ensures forall c :: c in r ==> !('A' <= c <= 'Z')
  {
    PreprocessText(Lower(extracted))
  }

  /** `order` lists every element of `s` exactly once. */
  ghost predicate IsEnumeration(order: seq<string>, s: set<string>) {
    && |order| == |s|
    && (forall x :: x in order <==> x in s)
    && (forall i, j :: 0 <= i < j < |order| ==> order[i] != order[j])
  }

  /** Iterating over a Python set: every element once, in an order the
      program does not control. */
  method IterationOrder(s: set<string>) returns (order: seq<string>)
    ensures IsEnumeration(order, s)
  {
    order := [];
    var rest := s;
    while rest != {}
      invariant |order| + |rest| == |s|
      invariant forall x :: x in s <==> x in order || x in rest
      invariant forall x :: x in order ==> x !in rest
      invariant forall i, j :: 0 <= i < j < |order| ==> order[i] != order[j]
      decreases rest
    {
      var x :| x in rest;
      order := order + [x];
      rest := rest - {x};
    }
  }

  /** `extract_words_with_occurrences_from_pdf`, given the text that the PDF
      extractor returned. The highlighter receives the matched words in the
      set's iteration order, returned here as `order`. */
  method ExtractWordsWithOccurrences(extracted: string, tokenize: string -> seq<string>, wordsToExtract: seq<string>)
    returns (r: Extraction, ghost order: seq<string>)
    ensures r.Triple? <==> extracted == []
    ensures r.Triple? ==> r == Triple(map[], "", "")
    ensures r.Pair? ==>
      Summarises(r.occurrences, r.highlighted, extracted, tokenize, wordsToExtract, order)
  {
    var articleText := Lower(extracted);
    if articleText == [] {
      return Triple(map[], "", ""), [];
    }
    articleText := PreprocessText(articleText);
    var tokens := tokenize(articleText);
    var wordCounter, matchingWords := CountOccurrences(tokens, wordsToExtract);
    var ordered := IterationOrder(matchingWords);
    var highlightedText := HighlightMatchingWords(articleText, ordered, Palette);
    r, order := Pair(wordCounter, highlightedText), ordered;
  }

  /** `s.endswith(suffix)`. */
  predicate EndsWith(s: string, suffix: string) {
    |suffix| <= |s| && s[|s| - |suffix|..] == suffix
  }

  /** `file.lower().endswith('.pdf')`: a selected name has at least the four
      characters of the suffix. */
  predicate IsPdfName(name: string)
    ensures IsPdfName(name) ==> |name| >= 4
  {
    EndsWith(Lower(name), ".pdf")
  }

  /** The list comprehension selecting the PDF files of a directory listing:
      a sub-list of PDF names. */
  function PdfFiles(listing: seq<string>): (r: seq<string>)
    ensures |r| <= |listing|
    ensures forall name :: name in r ==> IsPdfName(name)
    decreases |listing|
  {
    if listing == [] then []
    else (if IsPdfName(listing[0]) then [listing[0]] else []) + PdfFiles(listing[1..])
  }

  /** A name is selected exactly when it is listed and ends in `.pdf`,
      ignoring case. */
  lemma {:induction false} PdfFilesMembers(listing: seq<string>)
    ensures forall name :: name in PdfFiles(listing) <==> name in listing && IsPdfName(name)
    decreases |listing|
  {
    if listing != [] {
      PdfFilesMembers(listing[1..]);
      assert listing == [listing[0]] + listing[1..];
    }
  }

  /** Selection keeps the listing order: selecting from two listings one
      after the other is selecting from their concatenation. */
  lemma {:induction false} PdfFilesAppend(l1: seq<string>, l2: seq<string>)
    ensures PdfFiles(l1 + l2) == PdfFiles(l1) + PdfFiles(l2)
    decreases |l1|
  {
    if l1 == [] {
      assert l1 + l2 == l2;
    } else {
      assert (l1 + l2)[1..] == l1[1..] + l2;
      PdfFilesAppend(l1[1..], l2);
    }
  }

  /** Examples of the suffix test: upper case is accepted, the uploaded word
      list is not selected, and a `.pdf` that is not the suffix does not count. */
  lemma PdfFilesExample()
    ensures PdfFiles(["Report.PDF", "words.txt", "a.pdf.txt", "b.pdf"]) == ["Report.PDF", "b.pdf"]
  {
    PdfNameExamples();
    PdfFilesKeepsFirstAndLast("Report.PDF", "words.txt", "a.pdf.txt", "b.pdf");
  }

  /** Of four names, where only the first and the last pass the filter, the
      selection holds those two in listing order. */
  lemma PdfFilesKeepsFirstAndLast(a: string, b: string, c: string, d: string)
    requires IsPdfName(a) && !IsPdfName(b) && !IsPdfName(c) && IsPdfName(d)
    ensures PdfFiles([a, b, c, d]) == [a, d]
  {
    PdfFilesSingle(a);
    PdfFilesSingle(b);
    PdfFilesSingle(c);
    PdfFilesSingle(d);
    PdfFilesAppend([a, b], [c, d]);
    PdfFilesAppend([a], [b]);
    PdfFilesAppend([c], [d]);
    assert [a, b] + [c, d] == [a, b, c, d];
    assert [a] + [b] == [a, b];
    assert [c] + [d] == [c, d];
  }

  /** A one-name listing selects the name exactly when it passes the filter. */
  lemma PdfFilesSingle(name: string)
    ensures PdfFiles([name]) == if IsPdfName(name) then [name] else []
  {
    assert [name][1..] == [];
  }

  lemma PdfNameExamples()
    ensures IsPdfName("Report.PDF") && IsPdfName("b.pdf")
    ensures !IsPdfName("words.txt") && !IsPdfName("a.pdf.txt")
  {
    assert Lower("Report.PDF")[6..] == ".pdf";
    assert Lower("words.txt")[5..] == ".txt";
    assert Lower("a.pdf.txt")[5..] == ".txt";
    assert Lower("b.pdf")[1..] == ".pdf";
  }

  /** What the pipeline reports for one extracted text: the reference
      counter of its tokens, and the text highlighted with the palette in
      the iteration order of the matched words. */
  ghost predicate Summarises(occurrences: map<string, nat>, highlighted: string, extracted: string,
                             tokenize: string -> seq<string>, words: seq<string>, order: seq<string>) {
    && occurrences == TokenCounts(tokenize(Article(extracted)), words)
    && IsEnumeration(order, occurrences.Keys)
    && highlighted == Highlighted(Article(extracted), order, Palette)
  }

  /** What a batch entry holds for a file whose extracted text is not empty. */
  ghost predicate Describes(rec: WordOccurrenceResult, name: string, extract: string -> string,
                            tokenize: string -> seq<string>, words: seq<string>, order: seq<string>) {
    && rec.fileName == name
    && Summarises(rec.wordOccurrences, rec.highlightedText, extract(name), tokenize, words, order)
  }

  /** Entry by entry, the records describe the named files. */
  ghost predicate AllDescribe(recs: seq<WordOccurrenceResult>, names: seq<string>, extract: string -> string,
                              tokenize: string -> seq<string>, words: seq<string>, orders: seq<seq<string>>)
    decreases |recs|
  {
    && |recs| == |names| == |orders|
    && (recs != [] ==>
         var n := |recs| - 1;
         && AllDescribe(recs[..n], names[..n], extract, tokenize, words, orders[..n])
         && Describes(recs[n], names[n], extract, tokenize, words, orders[n]))
  }

  lemma AllDescribeSnoc(recs: seq<WordOccurrenceResult>, names: seq<string>, extract: string -> string,
                        tokenize: string -> seq<string>, words: seq<string>, orders: seq<seq<string>>,
                        rec: WordOccurrenceResult, name: string, order: seq<string>)
    requires AllDescribe(recs, names, extract, tokenize, words, orders)
    requires Describes(rec, name, extract, tokenize, words, order)
    ensures AllDescribe(recs + [rec], names + [name], extract, tokenize, words, orders + [order])
  {
    assert (recs + [rec])[..|recs|] == recs;
    assert (names + [name])[..|names|] == names;
    assert (orders + [order])[..|orders|] == orders;
  }

  lemma {:induction false} AllDescribeMeaning(recs: seq<WordOccurrenceResult>, names: seq<string>, extract: string -> string,
                                              tokenize: string -> seq<string>, words: seq<string>, orders: seq<seq<string>>)
    requires AllDescribe(recs, names, extract, tokenize, words, orders)
    ensures forall j :: 0 <= j < |recs| ==> Describes(recs[j], names[j], extract, tokenize, words, orders[j])
    decreases |recs|
  {
    if recs != [] {
      var n := |recs| - 1;
      AllDescribeMeaning(recs[..n], names[..n], extract, tokenize, words, orders[..n]);
      forall j | 0 <= j < |recs| ensures Describes(recs[j], names[j], extract, tokenize, words, orders[j]) {
        if j < n {
          assert recs[..n][j] == recs[j] && names[..n][j] == names[j] && orders[..n][j] == orders[j];
        }
      }
    }
  }

  lemma PrefixSnoc(names: seq<string>, i: nat)
    requires i < |names|
    ensures names[..i + 1] == names[..i] + [names[i]]
  {
  }

  /** The index of the first name, from `i` on, whose extracted text is
      empty, or `|names|` if there is none. */
  function FirstEmptyFrom(names: seq<string>, extract: string -> string, i: nat): (r: nat)
    requires i <= |names|
    ensures i <= r <= |names|
    decreases |names| - i
  {
    if i == |names| || extract(names[i]) == [] then i else FirstEmptyFrom(names, extract, i + 1)
  }

  /** `FirstEmptyFrom` finds the first empty text: every text before it is
      non-empty, and the text at it, if any, is empty. */
  lemma {:induction false} FirstEmptyFromMeaning(names: seq<string>, extract: string -> string, i: nat)
    requires i <= |names|
    ensures var f := FirstEmptyFrom(names, extract, i);
      && (forall k :: i <= k < f ==> extract(names[k]) != [])
      && (f < |names| ==> extract(names[f]) == [])
    decreases |names| - i
  {
    if i < |names| && extract(names[i]) != [] {
      FirstEmptyFromMeaning(names, extract, i + 1);
    }
  }

  /** `process_pdf_files` as written: one entry per selected file, in listing
      order, until a file whose extracted text is empty makes the unpacking
      of the three-element tuple fail. */
  method ProcessPdfFiles(listing: seq<string>, extract: string -> string,
                         tokenize: string -> seq<string>, wordsToExtract: seq<string>)
    returns (r: Result<seq<WordOccurrenceResult>, BatchError>, ghost orders: seq<seq<string>>)
    ensures r.Err? <==> FirstEmptyFrom(PdfFiles(listing), extract, 0) < |PdfFiles(listing)|
    ensures r.Err? ==> r.error == TooManyValuesToUnpack(PdfFiles(listing)[FirstEmptyFrom(PdfFiles(listing), extract, 0)])
    ensures r.Ok? ==> |r.value| == |PdfFiles(listing)| == |orders|
    ensures r.Ok? ==> forall j :: 0 <= j < |r.value| ==>
      Describes(r.value[j], PdfFiles(listing)[j], extract, tokenize, wordsToExtract, orders[j])
  {
    var results: seq<WordOccurrenceResult> := [];
    orders := [];
    var pdfFiles := PdfFiles(listing);
    var i := 0;
    while i < |pdfFiles|
      invariant 0 <= i <= |pdfFiles|
      invariant |results| == |orders| == i
      invariant FirstEmptyFrom(pdfFiles, extract, 0) == FirstEmptyFrom(pdfFiles, extract, i)
      invariant AllDescribe(results, pdfFiles[..i], extract, tokenize, wordsToExtract, orders)
    {
      var pdfFile := pdfFiles[i];
      var extraction, order := ExtractWordsWithOccurrences(extract(pdfFile), tokenize, wordsToExtract);
      if extraction.Triple? {
        return Err(TooManyValuesToUnpack(pdfFile)), orders;
      }
      var rec := WordOccurrenceResult(pdfFile, extraction.occurrences, extraction.highlighted);
      PrefixSnoc(pdfFiles, i);
      AllDescribeSnoc(results, pdfFiles[..i], extract, tokenize, wordsToExtract, orders, rec, pdfFile, order);
      results := results + [rec];
      orders := orders + [order];
      i := i + 1;
    }
    assert pdfFiles[..i] == pdfFiles;
    AllDescribeMeaning(results, pdfFiles, extract, tokenize, wordsToExtract, orders);
    r := Ok(results);
  }

  /** The early return with the evidently intended arity: an empty text
      gives an empty counter and an empty highlighted text. */
  method ExtractWordsFixed(extracted: string, tokenize: string -> seq<string>, wordsToExtract: seq<string>)
    returns (occurrences: map<string, nat>, highlighted: string, ghost order: seq<string>)
    ensures extracted == [] ==> occurrences == map[] && highlighted == []
    ensures extracted != [] ==>
      Summarises(occurrences, highlighted, extracted, tokenize, wordsToExtract, order)
  {
    var r;
    r, order := ExtractWordsWithOccurrences(extracted, tokenize, wordsToExtract);
    match r
    case Triple(c, _, _) =>
      occurrences, highlighted := c, "";
    case Pair(c, h) =>
      occurrences, highlighted := c, h;
  }

  /** `process_pdf_files` with the corrected early return: exactly one entry
      per selected file, in listing order, never a failure; a file with no
      text gets an empty entry. */
  method ProcessPdfFilesFixed(listing: seq<string>, extract: string -> string,
                              tokenize: string -> seq<string>, wordsToExtract: seq<string>)
    returns (results: seq<WordOccurrenceResult>, ghost orders: seq<seq<string>>)
    ensures |results| == |PdfFiles(listing)|
    ensures forall j :: 0 <= j < |results| ==> results[j].fileName == PdfFiles(listing)[j]
    ensures forall j :: 0 <= j < |results| && extract(PdfFiles(listing)[j]) == [] ==>
      results[j] == WordOccurrenceResult(PdfFiles(listing)[j], map[], "")
    ensures |orders| == |results|
    ensures forall j :: 0 <= j < |results| && extract(PdfFiles(listing)[j]) != [] ==>
      Describes(results[j], PdfFiles(listing)[j], extract, tokenize, wordsToExtract, orders[j])
  {
    results, orders := [], [];
    var pdfFiles := PdfFiles(listing);
    var i := 0;
    while i < |pdfFiles|
      invariant 0 <= i <= |pdfFiles|
      invariant |results| == |orders| == i
      invariant forall k :: 0 <= k < i ==> results[k].fileName == pdfFiles[k]
      invariant forall k :: 0 <= k < i && extract(pdfFiles[k]) == [] ==>
        results[k] == WordOccurrenceResult(pdfFiles[k], map[], "")
      invariant forall k :: 0 <= k < i && extract(pdfFiles[k]) != [] ==>
        Describes(results[k], pdfFiles[k], extract, tokenize, wordsToExtract, orders[k])
    {
      var pdfFile := pdfFiles[i];
      var occurrences, highlighted, order := ExtractWordsFixed(extract(pdfFile), tokenize, wordsToExtract);
      results := results + [WordOccurrenceResult(pdfFile, occurrences, highlighted)];
      orders := orders + [order];
      i := i + 1;
    }
  }
}
