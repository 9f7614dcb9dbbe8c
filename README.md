# News summarizer: text logic

This project is a Dafny model of the text handling in `summarizer.py`. That
script reads one JSON request holding an article `text` and an optional
`title`. It summarizes the article with the pretrained `facebook/bart-large-cnn`
pipeline and writes one JSON response `{summary, model}`.

The model covers the parts that are plain string logic:

- **Title merging** (`NewsSummarizer.preprocess_text`). A non-empty title
  gets a period unless it already ends in `.`, `!` or `?`. It is then put in
  front of the text, followed by one space, but only when the adjusted title
  has more than two whitespace-separated words.
- **Summary trimming** (the post-processing in `NewsSummarizer.summarize`).
  The generated text is split on `". "`. With more than three pieces, the first
  three are joined again and a period is appended. The result is stripped.
- **Failure fallback**. If the pipeline call raises, returns no candidate, or
  returns a first candidate without `summary_text`, the summary is the fixed
  text `"Summary generation failed."`.
- **Response choice** (`main`). A request that is not JSON, or has no
  non-empty `text`, gets an error summary and exit status 1. Otherwise the
  request gets the summary and exit status 0. Every response names the model
  `facebook/bart-large-cnn`.

Files:

- `wrappers.dfy`: `Option`.
- `pystr.dfy`: the Python `str` builtins used, on `seq<char>`. These are
  `isspace` (Python's full whitespace set), `strip`, `split()`, `find`,
  `split(sep)` and `join`. It also holds their algebra: split/join round trip,
  prefixes of a split, and how stripping changes the number of pieces.
- `summarizer.dfy`: the generation constants, title merging, trimming and
  `summarize`.
- `entry.dfy`: `main`'s choice of response and exit status for an
  already-parsed request.

The inference pipeline is a function parameter of type
`(string, GenerationConfig) -> Inference`. An `Inference` either raised, or
returned a list of candidate records. The fixed decoding parameters (150, 50,
no sampling, 2.0, 4 beams) are the constant `Summarizer.Generation`.

Words are counted after the period is added to the title, so a two-word
title such as `"Breaking News"` (which becomes `"Breaking News."`, still two
words) is dropped, and the text comes back unchanged.
`Summarizer.PreprocessTwoWordTitle` proves that
`preprocess_text("hello world example text", "Breaking News")` returns
`"hello world example text"`.

## Model

| member | source | states |
|---|---|---|
| `PyStr.IsSpace` | summarizer.py:43 | The whitespace set that `split()` and `strip()` use: the characters for which CPython's `str.isspace` holds |
| `PyStr.StripLeft` | summarizer.py:73 | The result is a suffix of the input, everything removed is whitespace, and the result does not start with whitespace |
| `PyStr.StripRight` | summarizer.py:73 | The result is a prefix of the input, everything removed is whitespace, and the result does not end with whitespace |
| `PyStr.Strip` | summarizer.py:73 | The result has no whitespace at either end, and it is a contiguous slice of the input with only whitespace cut from each end |
| `PyStr.StripIdempotent` | summarizer.py:73 | Stripping twice is the same as stripping once |
| `PyStr.WordLength` | summarizer.py:43 | The length of the leading run of non-whitespace: it holds no whitespace and is followed by whitespace or the end |
| `PyStr.Words` | summarizer.py:43 | `str.split()`: every word is non-empty and holds no whitespace |
| `PyStr.WordsKeepAllText` | summarizer.py:43 | Concatenating the words gives exactly the non-whitespace characters of the input, in order |
| `PyStr.NoWordsIffBlank` | summarizer.py:43 | There are no words if and only if the string is all whitespace |
| `PyStr.WordsFirstRun` | summarizer.py:43 | After leading whitespace, a maximal run of non-whitespace (ending at whitespace or at the end) is the first word, and the remaining words are those of the rest: the words are exactly the maximal runs |
| `PyStr.WordsAppend` | summarizer.py:39-43 | Appending a non-whitespace character adds one word exactly when the string is empty or ends in whitespace |
| `PyStr.WordsAppendSpace` | summarizer.py:43 | Appending whitespace never changes the word count |
| `PyStr.WordsAppendWord` | summarizer.py:43 | Appending a non-empty run of non-whitespace adds one word exactly when the string is empty or ends in whitespace |
| `PyStr.FindLeftmost` | summarizer.py:69 | `find` returns the leftmost occurrence of the separator: the found index is an occurrence and none is earlier; `None` means there is no occurrence |
| `PyStr.FindOnPrefix` | summarizer.py:69-71 | On a prefix, `find` returns the same index when that occurrence fits inside the prefix, and nothing otherwise |
| `PyStr.Split` | summarizer.py:69 | `str.split(sep)` always gives at least one piece |
| `PyStr.SplitPiecesLackSep` | summarizer.py:69 | No piece of a split contains the separator |
| `PyStr.Join` | summarizer.py:71 | `sep.join(parts)`; a single part is returned as it is |
| `PyStr.JoinSplit` | summarizer.py:69-71 | Joining the pieces of a split with the same separator gives back the original string |
| `PyStr.SplitDropLast` | summarizer.py:69-73 | Removing the last character never increases the number of pieces |
| `PyStr.SplitDropFirstPlain` | summarizer.py:69-73 | Removing a first character where no separator starts keeps the number of pieces |
| `PyStr.StripFewerPieces` | summarizer.py:69-73 | For a separator that does not start with whitespace, stripping never increases the number of pieces |
| `PyStr.JoinedPiecesPrefix` | summarizer.py:69-71 | For any m smaller than the number of pieces, the first m pieces joined, followed by the separator, are a prefix of the string |
| `PyStr.SplitOfJoinedPieces` | summarizer.py:69-71 | Cutting after the m-th piece plus a proper prefix of the separator gives the first m-1 pieces, then the m-th piece with that prefix attached |
| `Summarizer.AdjustTitle` | summarizer.py:39-40 | An empty title stays empty. A title ending in `.`, `!` or `?` is unchanged. Any other title gets exactly one `.` appended. A non-empty result ends in one of the three marks |
| `Summarizer.AdjustTitleIdempotent` | summarizer.py:39-40 | Adjusting an adjusted title changes nothing |
| `Summarizer.AdjustedTitleWords` | summarizer.py:39-43 | For a title that gets a period, the word count rises by one exactly when the title ends in whitespace |
| `Summarizer.PreprocessText` | summarizer.py:37-48 | The text comes back unchanged if and only if the adjusted title is not informative (empty, or at most two words). Otherwise the result is the adjusted title, a space, then the text |
| `Summarizer.PreprocessEmptyTitle` | summarizer.py:39-46 | An empty title returns the text exactly |
| `Summarizer.PreprocessShortTitle` | summarizer.py:43-46 | An adjusted title of at most two words is dropped and the text is returned exactly |
| `Summarizer.PreprocessLongTitle` | summarizer.py:43-44 | An adjusted title of more than two words is prepended: the result starts with the adjusted title and a space, and ends with the text |
| `Summarizer.TwoWords` | summarizer.py:43 | Two non-empty runs of non-whitespace around one whitespace character count as two words |
| `Summarizer.PreprocessTrailingSpaceTitle` | summarizer.py:39-44 | The title `"a b "` becomes `"a b ."`, counts three words and is prepended |
| `Summarizer.PreprocessTwoWordTitle` | summarizer.py:39-46 | `"Breaking News"` becomes `"Breaking News."`, which has two words, so the text `"hello world example text"` comes back unchanged |
| `Summarizer.SentenceSepAt` | summarizer.py:69 | `". "` occurs at an index exactly when a period there is followed by a space |
| `Summarizer.NoSentenceSep` | summarizer.py:69 | A string with no period before its last character holds no `". "` |
| `Summarizer.Trim` | summarizer.py:66-73 | The summary has no whitespace at either end and re-splits into at most three pieces. With at most three pieces in the generated text, the result is that text stripped: nothing is cut and no period is added |
| `Summarizer.Truncate` | summarizer.py:69-71 | With at most three pieces, the text itself. With more, a prefix of the text that is followed by a space, ends in `"."` and has exactly three pieces: the first three pieces joined with `". "` plus `"."` meet exactly these conditions |
| `Summarizer.TrimBound` | summarizer.py:68-73 | Both branches of the post-processing end in at most three pieces |
| `Summarizer.ThreeSentences` | summarizer.py:69-73 | With more than three pieces, the first three joined, then `". "`, are a prefix of the generated text. The joined text with `.` appended splits into exactly three pieces, before and after stripping |
| `Summarizer.StripPeriodEnded` | summarizer.py:71-73 | Stripping a text that ends in the appended period keeps its number of pieces |
| `Summarizer.TrimCutsLong` | summarizer.py:69-73 | With more than three pieces, the summary is the first three joined, plus `.`, stripped. The joined text is followed by `". "` in the generated text, and the summary has exactly three pieces |
| `Summarizer.TrimIdempotent` | summarizer.py:66-73 | Trimming a trimmed summary changes nothing |
| `Summarizer.SplitAfterOneChar` | summarizer.py:69 | A one-character piece followed by `". "` is split off first |
| `Summarizer.SplitFourLetters` | summarizer.py:69 | Four one-letter sentences split into those four pieces, the last keeping its period |
| `Summarizer.TrimFourSentences` | summarizer.py:69-73 | For any four one-letter sentences, the summary keeps the first three and ends in a period |
| `Summarizer.TrimToStripped` | summarizer.py:69-73 | With more than three pieces, if the first three joined plus `.` are already stripped, that is exactly the summary |
| `Summarizer.TrimExample` | summarizer.py:69-73 | `"A. B. C. D."` is trimmed to exactly `"A. B. C."` |
| `Summarizer.FailedSummaryIsOneSentence` | summarizer.py:77 | The fallback message is one piece with no surrounding whitespace, so it meets the same bound as a trimmed summary |
| `Summarizer.Summarize` | summarizer.py:50-77 | A raised call, no candidate, or a first candidate without `summary_text` gives exactly `"Summary generation failed."`. Otherwise the result is the trimmed `summary_text` of the first candidate. Either way it is stripped and has at most three pieces |
| `Entry.Field` | summarizer.py:88-89 | `dict.get(key, "")`: the field's value when present, the empty string otherwise |
| `Entry.HandleRequest` | summarizer.py:83-119 | Every response names `facebook/bart-large-cnn`. The exit status is 0 if and only if the request decoded and has a non-empty `text`, and 1 otherwise. In the accepted case the summary is `summarize(text, title)` |
| `Entry.RejectsMissingText` | summarizer.py:88-92 | A missing or empty `text` gives summary `"Error during processing: No text provided for summarization"`, the model name and exit status 1 |
| `Entry.RejectsMalformed` | summarizer.py:106-112 | Input that does not decode gives a summary starting `"Error: Invalid JSON input - "` followed by the decoder's message, the model name and exit status 1 |
| `Entry.AcceptedSucceeds` | summarizer.py:95-104 | An accepted request exits 0 with the model name and a stripped summary of at most three pieces |
| `Entry.GenerationFailureStillResponds` | summarizer.py:75-77 | When generation fails, the run still exits 0 and reports `"Summary generation failed."` with the model name |

## Left out

- Model loading (`_load_model`, lines 17-35) is not modelled. It constructs the library pipeline, detects CUDA and picks float16 or float32. If it fails, the process aborts before any request is read.
- The inference itself is not modelled: tokenization, beam search and the length penalty are library behaviour. The pipeline is an opaque function parameter, and the decoding parameters are constants only.
- Reading standard input, JSON decoding and encoding (`json.loads`, `json.dumps` with and without `ensure_ascii`), the diagnostic prints and `sys.exit` are not modelled, and writing the response is assumed to succeed: if the print at line 104 raised (say a `UnicodeEncodeError` on a stdout that is not UTF-8), lines 112-119 would answer `"Error during processing: "` with exit 1, so `Entry.HandleRequest`'s exit 0 holds only when output succeeds. The decoded request is the input to `Entry.HandleRequest`, and the decoder's error message is a string parameter.
- Entry.HandleRequest: request fields are strings, and the decoded request is an object. Field values that are not strings are not modelled. In the source a falsy `text` (`null`, `0`, `false`) gets the missing-text error with exit 1. A falsy `title` acts as an empty one. A truthy `title` that is not a string makes `title.lower()` (line 39) raise inside `summarize`, which returns the fallback message with exit 0. A truthy `text` that is not a string is handed to the pipeline unchanged when the title is dropped, and formatted into `f"{title} {text}"` (line 44) otherwise. A top-level value that is not an object fails at `.get` (line 88) and gets `"Error during processing: "` followed by Python's own message, with exit 1.
- Summarizer.Summarize: the candidate's `summary_text` is a string. A non-string value, which would make `split` raise in the source, is not modelled.
- Case folding in `title.lower()` is not modelled. It does not change whether the title ends in `.`, `!` or `?`.
- PyStr.Split: only two-character separators are modelled, because the source only splits on `". "`. Other separator lengths, and the `ValueError` Python raises for an empty one, are not modelled. `PyStr.Find` has the same restriction.
