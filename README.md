# lit-reviewer upload loop, in Dafny

This project models the logic of `app.py` in lit-reviewer, a one-page literature-review tool.
The user uploads PDFs and presses a button. For each new file the application:

1. joins the text of its pages;
2. sends that text to a language model, with a prompt that asks for ten sections marked `[TITLE]`, `[AUTHORS]`, …, `[RELIABILITY]`;
3. slices the reply back into ten fields with a regular-expression extractor;
4. appends a numbered row to the session's master table and remembers the file's name.

A synthesis tab then joins the Findings of every row into a `Paper {#}: {Findings}` digest.

Modules:

- `Strings` (strings.dfy): Python's whitespace set, ASCII case folding, `strip`, `join`, `split` on one character, and `str(int)`.
- `Extractor` (extractor.dfy): `extract(label, next_label)`. The regular expression is specified step by step:
  - the leftmost case-insensitive `[LABEL]`;
  - the optional `:`;
  - the greedy `\s*`;
  - the lazy capture, ended by the lookahead for `\s*[NEXT]` or `$`;
  - `strip()` of the capture.

  `$` without MULTILINE means the end of the text, or just before a final newline.
- `Paper` (paper.dfy): the ten labels, the record of one row (`#` plus the ten columns in label order), and the chaining of `extract` (TITLE ended by AUTHORS, …, RELIABILITY to the end).
- `Reply` (reply.dfy): replies written as the prompt asks, one `[LABEL]: value` line per label in order, and the round trip through the extractor.
- `Batch` (session.dfy): the session state and the upload loop.
  - The class `ReviewState` keeps `masterData` and `processedFilenames` and updates them in place.
  - `Analyze` and `Review` describe one turn and a whole batch as functions. The methods are proved against them.
- `Digest` (digest.dfy): the findings digest.
- `Pages` (pages.dfy): the page-text join.

Behaviour of `app.py` the model keeps:

- A capture ends at the next expected label's marker, not at any `[`.
- Duplicates are detected by file name.
- The reply is used as it comes (no `*` is removed), the paper text is sent whole, and rows are never renumbered.
- The sentinel is `Data not found`.
- A PDF with no extractable text is still sent to the model. Only an exception counts as a failure.

## Model

| member | source | states |
|---|---|---|
| Strings.SkipSpace | app.py:96-96 | `\s*` stops at the first non-whitespace character at or after `i`, and everything it skips is whitespace |
| Strings.Strip | app.py:98-98 | `strip()` returns a string with no whitespace at either end that occurs contiguously in its input |
| Strings.StripIgnoresPadding | app.py:98-98 | whitespace added before and after a string does not change what `strip()` returns |
| Strings.StripPadded | app.py:98-98 | `strip()` of a trimmed string padded with whitespace gives exactly that string back |
| Strings.Decimal | app.py:137-137 | `str(#)` is a non-empty run of decimal digits with no leading zero |
| Strings.DecimalRoundTrip | app.py:137-137 | the digits written for `#` read back as `#` |
| Strings.SplitJoin | app.py:137-137 | splitting a `"\n".join` at `\n` gives back the pieces, when no piece holds a newline |
| Extractor.OccursAt | app.py:96-97 | the marker matches at a position under IGNORECASE; the exact text of the marker always matches |
| Extractor.MarkerMatch | app.py:96-97 | a label's marker matches exactly where the brackets stand as they are and each letter of the label appears in upper or lower case |
| Extractor.Find | app.py:97-97 | `re.search` finds the leftmost case-insensitive occurrence of the marker: nothing earlier matches, and none is found only if there is none |
| Extractor.AfterColon | app.py:96-96 | `:?` consumes one character exactly when a colon follows the marker, and nothing otherwise |
| Extractor.LazyEnd | app.py:96-96 | the lazy `(.*?)` ends at the first position where `\s*[NEXT]` or `$` can follow |
| Extractor.Capture | app.py:96-98 | the search fails exactly when `[LABEL]` occurs nowhere; a captured group, once stripped, is trimmed and a contiguous piece of the reply |
| Extractor.Extract | app.py:95-98 | `extract` returns `Data not found` when `[LABEL]` is absent; it always returns trimmed text that is the sentinel or a contiguous piece of the reply |
| Extractor.LazyEndBeforeNext | app.py:96-96 | the capture stops at most whitespace short of the first `[NEXT]` after the colon, or of the end of the text |
| Extractor.CaptureUpToNext | app.py:96-98 | with a next label, the group is the stripped text from after the first `[LABEL]` and its colon up to the first `[NEXT]` after it, or to the end |
| Extractor.CaptureRest | app.py:96-98 | without a next label, the group is the stripped rest of the reply after the first `[LABEL]` and its colon, later bracketed text included |
| Extractor.ExtractUpToNext | app.py:95-98 | `extract(label, next)` on a reply holding `[LABEL]` is the stripped text between the first `[LABEL]` (and its colon) and the next `[NEXT]`, or the end |
| Extractor.ExtractRest | app.py:111-111 | `extract("RELIABILITY")` is the stripped remainder of the reply after the first `[RELIABILITY]` and its colon |
| Extractor.FindFirst | app.py:97-97 | the leftmost occurrence is what the search returns, so only the first `[LABEL]` is used |
| Paper.BuildRecord | app.py:100-112 | the appended row carries the given `#` and ten columns, each `extract` of its label ended by the next; every column is trimmed text of the reply or the sentinel, and the sentinel whenever its label's marker is missing |
| Reply.MarkersExclusive | app.py:79-89 | markers of two different labels never start at the same place |
| Reply.RenderExtract | app.py:95-98 | in a reply in the prompt's format, `extract` of each label returns exactly that label's value |
| Reply.ValuesOfRender | app.py:100-111 | the ten chained extractions read a well-formed reply's values back, in order |
| Reply.RecordRoundTrip | app.py:79-111 | the reply `[TITLE]: t1` … `[RELIABILITY]: t10`, with trimmed values that hold no label's marker, yields a row holding exactly `t1..t10` |
| Batch.Analyze | app.py:69-114 | one turn of the loop only appends, by one row at most, and only adds names |
| Batch.AnalyzeUnchanged | app.py:69-114 | a turn leaves the table and the name set unchanged exactly when the name was already processed or the analysis raised |
| Batch.AnalyzeSuccess | app.py:100-113 | a successful turn for a new name appends exactly one row, numbered previous length + 1 and holding the reply's fields, then adds the name |
| Batch.AnalyzeConsistent | app.py:100-113 | a turn keeps the rows numbered 1..N and one processed name per row |
| Batch.AnalyzeOneRowPerName | app.py:100-113 | a turn adds a row exactly when it adds a name not seen before |
| Batch.ReviewConsistent | app.py:68-114 | a batch keeps the rows numbered 1..N and one processed name per row |
| Batch.ReviewNumbered | app.py:49-101 | from the fresh session, row `i` of the table has `#` equal to `i + 1` |
| Batch.Review | app.py:68-114 | the upload loop over a batch in order; it never removes or changes existing rows or processed names, and appends at most one row per upload |
| Batch.ReviewProcessed | app.py:69-114 | after a batch, a name is processed exactly when it was before or one of its uploads succeeded; a failed file stays open for a later batch |
| Batch.ReviewOneRowPerName | app.py:100-113 | the rows a batch appends are as many as the names it newly processes |
| Batch.ReviewFixed | app.py:68-69 | a batch in which every file is known or fails leaves the session unchanged |
| Batch.ReviewRerun | app.py:68-114 | pressing the button again on the same uploads changes nothing, when every file that failed the first time fails again |
| Batch.ReviewSecondPress | app.py:68-114 | a second press, with any outcomes, appends exactly one row per name it newly processes, and every such name was unprocessed before the first press and had no successful upload in it |
| Batch.ReviewState.constructor | app.py:49-50 | the session starts with an empty table and no processed name |
| Batch.ReviewState.AnalyzeFile | app.py:69-114 | the loop body in place: a known name or an exception changes nothing; otherwise the numbered row is appended and the name added; the invariant is kept |
| Batch.ReviewState.ExecuteReview | app.py:68-114 | the loop over the uploads in order leaves the session as `Review` of the batch and keeps the invariant |
| Digest.Entries | app.py:137-137 | one digest entry per row |
| Digest.EntryFree | app.py:137-137 | a line holds no newline when its Findings value holds none |
| Digest.Digest | app.py:137-137 | the `"\n"`-join of one `Paper {#}: {Findings}` entry per row, in table order: empty for an empty table, otherwise opening with the first row's entry |
| Digest.DigestAppend | app.py:137-137 | a new row adds its line after a newline, or as the whole digest when it is the first |
| Digest.DigestLines | app.py:137-137 | when no Findings value holds a newline, splitting the digest at newlines gives exactly the `Paper {#}: {Findings}` lines in table order |
| Digest.DigestEnd | app.py:137-137 | when the last row's Findings is trimmed (every extracted Findings value is), the digest ends with that row's entry and has no trailing newline |
| Digest.EntriesOfReview | app.py:49-137 | after a batch from a fresh session, whatever the Findings hold, the digest is the newline-join of one entry per row, entry `i` reading `Paper {i + 1}: {Findings}` |
| Digest.DigestOfReview | app.py:49-137 | after a batch from a fresh session, when no Findings value holds a newline, line `i` of the digest reads `Paper {i + 1}: {Findings}` |
| Pages.NonEmpty | app.py:73-73 | the comprehension keeps at most the pages it is given, and none of those it keeps is empty |
| Pages.JoinNoSeparator | app.py:73-73 | `"".join` is plain concatenation |
| Pages.FullText | app.py:73-73 | the `"".join` of the non-empty page texts; leaving out the empty pages changes nothing, so it is every page's text, in order |
| Pages.ConcatAppend | app.py:73-73 | the text of two runs of pages is the text of the first followed by the text of the second |
| Pages.ConcatLength | app.py:73-73 | the text is exactly as long as all the pages together |
| Pages.PageInFullText | app.py:73-73 | page `k` appears whole in the text, right after the pages before it |
| Pages.FullTextEmpty | app.py:73-73 | the text is empty exactly when every page's text is empty |

## Left out

- The page layout, CSS, tabs, cards, progress text and error display: this is presentation.
- The table display through pandas: this is presentation.
- The language-model client and its two calls, including the API key field: they are network calls to an opaque service.
  - The reply to the analysis prompt is the `Ok` payload of an upload.
  - The synthesis call that receives the digest is not modelled.
- PDF reading: `PdfReader` and `extract_text` are a foreign library.
  - The page texts are an input to `Pages.FullText`.
  - A page whose `extract_text` returns `None` is modelled as the empty string, which the comprehension also drops.
  - Whether the batch's uploads come from a readable PDF is folded into each upload's outcome.
- Exceptions: every exception raised while a file is processed becomes the `Fail` outcome. Their types and messages are not modelled.
- The guard `uploaded_files and llm and run_review`: `ExecuteReview` models what runs once that guard holds.
- Extractor.OccursAt: case-insensitive matching folds ASCII letters only. Python's `re.IGNORECASE` also folds non-ASCII letters. This matters only for the ten upper-case ASCII labels meeting non-ASCII look-alikes in a reply.
- Extractor.Extract: only the direction "absent marker ⇒ sentinel" holds. A reply may itself contain the text `Data not found` as a value.
- Reply.RecordRoundTrip: proved for replies laid out as `[LABEL]: value` followed by a newline, in the prompt's order. Other spacing or orderings are covered only by the general extractor lemmas.
- Digest.DigestLines: a multi-paragraph Findings value spreads over several lines of the digest, so the one-line-per-paper reading holds only for newline-free Findings; `Digest.EntriesOfReview` states the digest's shape without that condition.
- Streamlit's reruns of the script: the state that survives them is the `ReviewState` object.
