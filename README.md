# PDF word highlighter: a Dafny model of its text pipeline

The application takes an uploaded PDF and a comma-separated list of target
words. It extracts the PDF's text, lower-cases it and joins words that were
hyphenated across line breaks. It counts the tokens that equal a target word,
ignoring case. It then wraps every whole-word occurrence of at most three of the
matched words in an inline-styled `<span>`: the palette has three entries,
and `zip` stops at the shorter list. The words are processed one after the
other, so a later step can rewrite markup that an earlier step inserted
(`Highlight.MarkupIsRematched`). The result is written to an HTML file named
after the PDF.

This project models the pipeline's logic in `app.py`:

- `ascii.dfy` (module `Ascii`): the regular-expression word class `\w` and
  `str.lower()`, approximated on ASCII.
- `preprocess.dfy` (module `Preprocess`): `preprocess_text`, the
  `re.sub(r'-\n', '', text)` de-hyphenation, as a left-to-right scan. It is
  proved to delete exactly the characters of every `"-\n"` and keep all
  others in order.
- `highlight.dfy` (module `Highlight`): one `re.sub(r'\b(word)\b', span, text,
  IGNORECASE)` step as a scan over the original text, and the fold over
  `zip(words, styles)`. `HighlightMatchingWords` is the loop, proved against
  that fold.
- `occurrences.dfy` (module `Occurrences`): the token matcher's result and the
  counting loop that fills the `Counter` and the set of matched words. The
  loop is proved against a reference counter, `TokenCounts`.
- `batch.dfy` (module `Batch`): `extract_words_with_occurrences_from_pdf`, the
  iteration of the matched-word set, the `.pdf` filter, and
  `process_pdf_files`. Both the code as written and a corrected version are
  modelled (see Findings).
- `wordlist.dfy` (module `WordList`): the word-list split `str.split(',')`.
- `html.dfy` (module `HtmlOutput`): the HTML envelope, the artefact name, POSIX
  `os.path.join`, and the path that the download route looks up.

Three behaviours of the code are easy to misread:

- An empty extraction does not produce an empty batch entry. The early return
  gives three values (app.py:51-52), and `process_pdf_files` unpacks two
  (app.py:101), so the batch fails (Findings).
- Which word gets which style depends on a set's iteration order. The matched
  words are collected in a Python set (app.py:77) and passed to the
  highlighter (app.py:92), where `zip` pairs them with the palette in that
  order (app.py:36). So the colours, and the final HTML, depend on that order.
  The model takes the order as arbitrary (`Batch.IterationOrder`).
- Counts and highlighted spans are not always consistent. Counting compares
  tokenizer tokens (app.py:67-81), while highlighting uses `\b`
  regular-expression matches on the text (app.py:36-42). The model keeps the
  two separate and does not claim they agree.

## Model

| member | source | states |
|---|---|---|
| `Ascii.IsWordChar` | app.py:38 | the `\w` class used by `\b`: space, tab, line break and the markup characters `-<>"/=;:.` are not word characters |
| `Ascii.LowerChar` | app.py:49 | lower-casing a character turns an ASCII capital into its small letter, leaves every other character alone, and keeps it a word character exactly when it was one |
| `Ascii.Lower` | app.py:49 | `str.lower()` keeps the length and lower-cases each character on its own |
| `Ascii.LowerIdempotent` | app.py:49 | lower-casing an already lower-cased text changes nothing |
| `Preprocess.PreprocessText` | app.py:26-29 | the substitution never lengthens the text and introduces no character that was not in it |
| `Preprocess.PreprocessKeepsAllButPairs` | app.py:26-29 | the substitution deletes exactly the characters that belong to an occurrence of `"-\n"` and keeps every other character in its original order |
| `Preprocess.PreprocessLength` | app.py:26-29 | the output is shorter than the input by 2 for each occurrence of `"-\n"` (occurrences cannot overlap, so the scan removes all of them) |
| `Preprocess.PreprocessUnchangedIff` | app.py:26-29 | the text is returned unchanged if and only if it contains no `"-\n"` |
| `Preprocess.PreprocessAppend` | app.py:26-29 | processing distributes over concatenation unless the cut separates a `-` from its following line break |
| `Preprocess.JoinsSplitWord` | app.py:27-28 | two hyphen-free halves around a `"-\n"` come out joined as one word |
| `Preprocess.NoPairUnchanged` | app.py:26-29 | a text without a hyphen is returned unchanged |
| `Preprocess.DropsLeadingPair` | app.py:28 | a text starting with `"-\n"` is processed as the text without it |
| `Preprocess.NotIdempotent` | app.py:28 | `"--\n\n"` becomes `"-\n"`, which still contains the pattern: one pass does not remove every pair |
| `Highlight.Boundary` | app.py:38 | `\b` holds at a position exactly when one side of it is a word character and the other is not; both ends of the string count as non-word |
| `Highlight.MatchAt` | app.py:38-41 | `\b(re.escape(word))\b` with `re.IGNORECASE` matches at a position exactly when the text there has the word's length and lower-case form and `\b` holds at both ends |
| `Highlight.EffectiveStyles` | app.py:32-34 | with no styles, one yellow style per word; otherwise the given styles |
| `Highlight.Span` | app.py:39 | the replacement is 22 characters of markup plus the style and the word, and holds the word as given just before the closing `</span>` |
| `Highlight.SpanOpens` | app.py:39 | every replacement opens with `<span ` |
| `Highlight.ReplaceFrom` | app.py:37-42 | with a replacement at least as long as the word, substituting in the rest of the text never shortens it |
| `Highlight.ReplaceWord` | app.py:37-42 | with a replacement at least as long as the word, a substitution never shortens the text |
| `Highlight.HighlightStep` | app.py:36-42 | a highlighting step never shortens the text |
| `Highlight.Highlighted` | app.py:36-43 | highlighting never shortens the text, and with no words or no styles it returns the text unchanged |
| `Highlight.HighlightMatchingWords` | app.py:31-43 | the loop's result is the left fold of one substitution step per pair of `zip(words, styles)`; with no styles each word gets the yellow style; with no words the text is returned unchanged |
| `Highlight.ReplaceFromNoMatch` | app.py:37-42 | where the word has no whole-word, case-insensitive occurrence, the substitution copies the text |
| `Highlight.ReplaceFromLength` | app.py:37-42 | each replaced occurrence changes the length by the replacement's length minus the word's length |
| `Highlight.NoOverlap` | app.py:38 | for a word made of word characters, two whole-word occurrences cannot overlap |
| `Highlight.MatchesFromCountsAll` | app.py:37-42 | for a word made of word characters, the scan replaces every whole-word, case-insensitive occurrence: the number it replaces equals the number of positions where the word occurs |
| `Highlight.OverlapReplacedOnce` | app.py:37-42 | `"a a"` occurs in `"a a a"` at 0 and at 2, yet only one occurrence is replaced, giving `"X a"` |
| `Highlight.ReplaceWordLength` | app.py:37-42 | for a word made of word characters, the new length is the old length plus, for each occurrence, the replacement's length minus the word's length |
| `Highlight.SomeMatchReplaced` | app.py:37-42 | if the word occurs at or after a position, the scan from there replaces at least one occurrence |
| `Highlight.ReplaceFromGrows` | app.py:37-42 | with a replacement longer than the word, a text in which the word occurs gets longer |
| `Highlight.ReplaceWordUnchangedIff` | app.py:37-42 | with a replacement longer than the word, a substitution step leaves the text unchanged if and only if the word has no whole-word, case-insensitive occurrence |
| `Highlight.HighlightStepUnchangedIff` | app.py:36-42 | a highlighting step is the identity exactly on texts where its word does not occur as a whole word, ignoring case |
| `Highlight.ReplaceFromIgnoresCase` | app.py:38-41 | the substitution depends on the word only through its lower-case form (IGNORECASE) |
| `Highlight.ReplaceFromSameMatches` | app.py:37-42 | the substitution depends on the word only through its length and the positions where it matches |
| `Highlight.HighlightedZipTruncates` | app.py:36 | only the first `min(|words|, |styles|)` words are processed |
| `Highlight.PaletteStopsAtThree` | app.py:84-92 | with the three-entry palette, words after the third are never processed |
| `Highlight.HighlightedAppend` | app.py:36-42 | the steps run in sequence: highlighting with two lists one after the other equals highlighting with their concatenation |
| `Highlight.HighlightedNoMatch` | app.py:36-43 | if no word occurs in the text, the text is returned unchanged |
| `Highlight.CasingLost` | app.py:39 | the span holds the target word as given, so `"Apple"` highlighted for `"apple"` shows `apple` |
| `Highlight.NoMatchInsideWord` | app.py:38 | word boundaries: `"cat"` does not match inside `"category"` |
| `Highlight.MarkupIsRematched` | app.py:36-42 | after `"apple"` is wrapped, `"color"` and `"span"` match inside the inserted markup, and a later `"color"` step rewrites it |
| `Occurrences.MatchedTokens` | app.py:67-73 | the matcher reports no more matches than there are tokens, and every reported word is the lower-case form of a target word |
| `Occurrences.TokenCounts` | app.py:67-81 | the reference counter of the lower-cased tokens that equal a target's lower-case form; what it holds is stated by `Occurrences.TokenCountsMeaning` |
| `Occurrences.CountsOf` | app.py:76-81 | every count of a counter built from a list of words is positive and at most the list's length |
| `Occurrences.MatchedTokensCount` | app.py:67-73 | the matcher reports each lower-cased token that equals the lower-case form of a target word, as often as it occurs among the tokens, and nothing else |
| `Occurrences.CountOccurrences` | app.py:76-81 | the loop's counter equals the reference counter, the set of matched words is the counter's keys, and the counts add up to the number of matches |
| `Occurrences.TokenCountsMeaning` | app.py:67-81 | a word has a counter entry exactly when it is the lower-case form of a target word and of some token; the entry is the number of such tokens and is positive |
| `Occurrences.SumCountsIncrement` | app.py:80 | `word_counter[w] += 1` adds one to the sum of the counts, whether or not `w` had an entry |
| `Occurrences.Increment` | app.py:80 | `word_counter[w] += 1`: the entry for `w` becomes one more than before, a missing entry counting as 0, and every other entry is kept |
| `Occurrences.CountsOfSnoc` | app.py:78-80 | counting one more matched word is exactly one `word_counter[w] += 1` |
| `Occurrences.SumCountsOf` | app.py:76-81 | the counts of a counter built from a list of words add up to the list's length |
| `Occurrences.CountsOfMatches` | app.py:67-81 | counting the matcher's matches gives the reference counter of target-word tokens |
| `Batch.Article` | app.py:49-55 | the lower-cased, de-hyphenated text is no longer than the extracted text and holds no capital letter |
| `Batch.IterationOrder` | app.py:36 | `zip` iterates the set of matched words passed at app.py:92: it yields each element exactly once, in an order the program does not control |
| `Batch.ExtractWordsWithOccurrences` | app.py:48-94 | empty extracted text gives the three-element `(Counter(), "", "")`; otherwise a pair of the reference counter of the lower-cased, de-hyphenated text's tokens and that text highlighted with the palette in the set's iteration order |
| `Batch.EndsWith` | app.py:98 | `str.endswith`: the suffix is no longer than the text and equals its last characters |
| `Batch.IsPdfName` | app.py:98 | a name that passes the filter has at least the four characters of `.pdf` |
| `Batch.PdfFiles` | app.py:98 | the selection is no longer than the listing and holds only names that pass the filter |
| `Batch.PdfNameExamples` | app.py:98 | the suffix test ignores case (`Report.PDF`, `b.pdf` pass) and looks only at the end (`words.txt`, `a.pdf.txt` fail) |
| `Batch.PdfFilesMembers` | app.py:98 | a name is selected exactly when it is listed and its lower-cased form ends in `.pdf` |
| `Batch.PdfFilesAppend` | app.py:98 | the selection keeps listing order: it distributes over concatenation of listings |
| `Batch.PdfFilesExample` | app.py:98 | `Report.PDF` and `b.pdf` are selected, `words.txt` and `a.pdf.txt` are not |
| `Batch.PdfFilesKeepsFirstAndLast` | app.py:98 | of four listed names of which only the first and the last pass the filter, exactly those two are selected, in listing order |
| `Batch.FirstEmptyFromMeaning` | app.py:99-101 | the index used for the batch's failure is that of the first selected file whose extracted text is empty |
| `Batch.ProcessPdfFiles` | app.py:96-111 | as written: the batch fails with a too-many-values unpacking error at the first selected file with empty text; otherwise one entry per selected file, in listing order, each carrying the file's name, counter and highlighted text |
| `Batch.ExtractWordsFixed` | app.py:51-52 | corrected early return: empty text gives an empty counter and an empty highlighted text; other texts as in the original |
| `Batch.ProcessPdfFilesFixed` | app.py:96-111 | corrected batch: exactly one entry per selected file, in listing order, never a failure; a file with empty text gets an empty entry |
| `WordList.Split` | app.py:162 | `split(',')` gives at least one entry, and no entry is longer than the text |
| `WordList.SplitShape` | app.py:162 | `split(',')` gives one entry more than there are commas, and no entry contains a comma |
| `WordList.JoinSplit` | app.py:162 | joining the entries with commas gives the text back: nothing, not even whitespace, is trimmed |
| `WordList.SplitJoin` | app.py:162 | splitting a comma-joined list of comma-free entries gives the list back |
| `WordList.SplitNoSep` | app.py:162 | a text without a comma gives a single entry, the whole text |
| `WordList.SplitTwo` | app.py:162 | two comma-free pieces around one comma split into exactly those two pieces |
| `WordList.SplitKeepsWhitespace` | app.py:162 | `"apple, pear\n"` splits into `"apple"` and `" pear\n"` |
| `HtmlOutput.HtmlDocument` | app.py:125-128 | the document is as long as the header, the highlighted text and the footer together, and the text can be read back from between the header and the footer |
| `HtmlOutput.HtmlDocumentShape` | app.py:125-128 | the written document starts with the fixed header and ends with the fixed footer |
| `HtmlOutput.HtmlDocumentInjective` | app.py:125-128 | different highlighted texts give different documents |
| `HtmlOutput.ArtefactName` | app.py:124 | the artefact name starts with the PDF's name and ends with `_highlighted_text.html` |
| `HtmlOutput.ArtefactNameInverse` | app.py:124 | the artefact name is the PDF's name followed by `_highlighted_text.html`, and removing that suffix gives the name back |
| `HtmlOutput.ArtefactNameInjective` | app.py:124 | distinct PDF names give distinct artefact names |
| `HtmlOutput.PathJoin` | app.py:124 | POSIX `os.path.join`: the result ends with the second part; an absolute second part replaces the first; otherwise the result starts with the first part |
| `HtmlOutput.UploadJoin` | app.py:185 | joining a relative path onto `uploads` inserts exactly one slash |
| `HtmlOutput.SaveHighlightedTextToHtml` | app.py:123-129 | the saved file's path ends in the artefact name, and the text between the header and footer of its contents is the highlighted text |
| `HtmlOutput.DownloadFindsSaved` | app.py:184-185 | the download route computes the same path string the save step wrote for a PDF name if and only if the `file` parameter is that name (other strings, such as `./x`, may still name the same file) |
| `HtmlOutput.DownloadPath` | app.py:184-185 | the looked-up path ends in `_highlighted_text.html`, and in the artefact name of the `file` parameter when one is given |
| `HtmlOutput.RelativeNameStaysInUploads` | app.py:185 | a `file` parameter not starting with `/` is looked up as `uploads/<name>_highlighted_text.html` |
| `HtmlOutput.AbsoluteNameLeavesUploads` | app.py:185 | a `file` parameter starting with `/` makes `os.path.join` discard `uploads/`, so the route looks up `<name>_highlighted_text.html` anywhere on the file system |
| `HtmlOutput.MissingParameter` | app.py:184-185 | without a `file` parameter the route looks for `uploads/_highlighted_text.html` |

## Findings

| source | as written | input that shows it | evidently intended | confidence | as-written member | corrected member |
|---|---|---|---|---|---|---|
| app.py:51-52, app.py:101 | on empty extracted text the function returns three values, but the caller unpacks two, which raises `ValueError` and aborts the whole batch | any upload folder holding a `.pdf` whose text extraction yields `""`, such as a scanned or corrupt PDF | an empty entry for that file (`Counter()` and `""`), with the batch going on | high; not executed | `Batch.ProcessPdfFiles` | `Batch.ProcessPdfFilesFixed` |

## Left out

- PDF text extraction with PyMuPDF (app.py:14-24) is a foreign library and file I/O. Each file's extracted text is a function parameter, `extract`, so the error path that returns `""` is one possible value of it.
- spaCy model loading and tokenization (app.py:58-61) are foreign. The token texts of a text are a function parameter, `tokenize`. Nothing ties the tokens to the text's characters.
- The `Matcher` (app.py:64-73) is modelled by its observable result, `Occurrences.MatchedTokens`: one match per token whose lower-case form is a target's lower-case form. Duplicate target words are assumed not to duplicate matches.
- Python's `\w`, `re.IGNORECASE` and `str.lower()` are Unicode-aware. The model uses ASCII letters, digits and `_`, and ASCII case folding. Length-changing Unicode lower-casing is not modelled.
- Highlight.MatchesFromCountsAll: stated only for words made of word characters. A word with other characters can overlap itself: `"a a"` occurs in `"a a a"` at 0 and at 2, and the scan, like `re.sub`, replaces only the first, giving `"X a"` (`Highlight.OverlapReplacedOnce`). Such a word reaches the highlighter only as a token whose text contains punctuation or spaces. `Highlight.NoOverlap` and `Highlight.ReplaceWordLength` carry the same restriction.
- Highlight.HighlightStep: the span is inserted literally. `re.sub` would interpret backslash escapes in the replacement template, so a word or style containing `\` is not modelled.
- `highlight_styles=None` is modelled as the empty list. The source treats both the same way (`if not highlight_styles`).
- The Flask routes, request validation, `render_template` and the download-link loop (app.py:131-176) are web plumbing. Only the word-list split (app.py:162) is modelled.
- The download route's file test and `send_file` (app.py:187-190) are not modelled. Only the path it computes is.
- Filesystem effects are not modelled: `delete_previous_uploads` (app.py:114-121), `os.makedirs`, saving uploads, and writing the HTML file. The model keeps only the names and the document text.
- Reading the word-list file in text mode translates line endings. The model splits the text as read.
- Two concurrent requests share and purge `uploads/`. That race is a concurrency hazard outside this sequential model.
