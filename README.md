# Universal Credit Act Analyzer — verified model of its core logic

The analyzer is a single-page Streamlit app (`main.py`). It extracts the text
of an uploaded PDF, sends it to an LLM completion endpoint, cuts the JSON
object out of the reply, and renders it: summary bullets, six section texts,
and a table of rule checks with a "passed/total" line. It keeps two
session-state entries, `analysis_result` and `pdf_name`, across reruns.

This Dafny project models the logic inside the app and proves its properties:

- `slicing.dfy` (module `Slicing`): Python's `str.find`, `str.rfind` and
  slice normalisation, and the first-`{`/last-`}` heuristic of
  `analyze_document`.
- `analyzer.dfy` (module `Analyzer`): what `analyze_document` returns once
  the completion call has answered. `json.loads` is a function parameter
  `parse`, constrained only by the predicate `LoadsLike`.
- `pdf_text.dfy` (module `PdfText`): the page loop of `extract_pdf_text` as a
  method with a loop invariant, and Python's `str.strip()` over the
  `str.isspace()` character set.
- `report.dfy` (module `Report`): the `dict.get` defaults of the results
  view, the upper-cased status label, and the pass tally.
- `session.dfy` (module `Session`): a class holding the two session entries,
  with the Upload, Analyze and Clear actions.
- `json_value.dfy` (module `Json`): decoded JSON values and Python truthiness.
- `wrappers.dfy` (module `Wrappers`): `Option`, used for Python's `None`.

The model follows what the code does, including these points where the
code's behaviour differs from what one might expect of the app:

- The results view shows six section texts, not seven. `penalties` is
  requested in the prompt but never displayed (`Report.ShownSections`).
- A reply without `{` is not always given an empty slice. `find` returns -1, so the
  slice starts at the last character, and it is `"}"` when the reply ends in
  `}` (`Slicing.JsonSlice`). Either way it never decodes to an object.
- A decoded but empty object `{}` is not stored, because `if result:` is
  false for it (`Session.SessionState.Analyze`).
- An extraction failure is not a separate error value: `extract_pdf_text`
  returns `None`. An empty document returns `""` instead. Both values are
  falsy at `if pdf_text:` (main.py:101), so neither leads to an analysis.

## Model

| member | source | states |
|---|---|---|
| `Slicing.Find` | main.py:70 | `find` returns -1 exactly when the character is absent; otherwise it returns an index holding it with no earlier occurrence |
| `Slicing.RFind` | main.py:71 | `rfind` returns -1 exactly when the character is absent; otherwise it returns an index holding it with no later occurrence |
| `Slicing.ClampIndex` | main.py:72 | a slice bound is clamped into `0..len`, and an in-range bound is kept as it is |
| `Slicing.Slice` | main.py:72 | a Python slice is a contiguous substring no longer than the string; in-range bounds give exactly `s[start..stop]`; crossed bounds give the empty string |
| `Slicing.JsonSlice` | main.py:70-72 | the slice is a substring of the reply; it is empty when there is no `}` or when the first `{` follows the last `}`; with no `{` it is `"}"` if the reply ends in `}` and empty otherwise; when the first `{` precedes the last `}` it runs from the first `{` through the last `}` |
| `Slicing.Enclosed` | main.py:70-72 | when the first `{` precedes the last `}`, the slice opens with `{`, closes with `}`, and no `{` precedes it and no `}` follows it in the reply |
| `Slicing.RecoversWrapped` | main.py:70-72 | round trip: an object wrapped in prose without braces is recovered exactly |
| `Slicing.NoOpenNoObject` | main.py:70-73 | a reply without `{` yields a slice of at most one character and without `{` |
| `Analyzer.AnalyzeDocument` | main.py:59-81 | a failed call or a `None` content gives the provider error (an empty content goes through the slice and gives the parse error); otherwise the result is what `json.loads` makes of the slice, and a decode failure gives the parse error; given `LoadsLike`, a success is always an object, and a reply missing `{` or `}` always gives the parse error |
| `Analyzer.WrappedReply` | main.py:69-77 | a reply made of an object wrapped in brace-free prose analyses to exactly what `json.loads` makes of the object |
| `PdfText.SkipSpace` | main.py:22 | the leading whitespace `strip` removes ends at the first non-whitespace character |
| `PdfText.SkipSpaceBack` | main.py:22 | the trailing whitespace `strip` removes starts right after the last non-whitespace character |
| `PdfText.Strip` | main.py:22 | the stripped text is a contiguous part of the input, has only whitespace around it in the input, and neither starts nor ends with whitespace |
| `PdfText.StripUnique` | main.py:22 | those properties determine the stripped text uniquely |
| `PdfText.StripIdempotent` | main.py:22 | stripping twice gives the same text as stripping once |
| `PdfText.StripAppend` | main.py:22 | appending text never changes the stripped text of what came before; it can only extend it |
| `PdfText.ConcatPagesAppend` | main.py:20-21 | the text of two runs of pages is the text of the first followed by the text of the second |
| `PdfText.PageOrder` | main.py:20-21 | pages contribute their text in page order; a page with no text contributes nothing, as if it were absent |
| `PdfText.ExtractPdfText` | main.py:16-25 | the loop's result is the stripped concatenation of the page texts in page order; a library failure gives `None` |
| `PdfText.ExtractGrowsWithPages` | main.py:18-22 | adding pages at the end keeps the extracted text as a prefix, so its length does not decrease |
| `PdfText.NoTextPages` | main.py:18-22 | a document whose pages all yield no text (`None` or `""`) extracts to the empty string |
| `Report.SectionsOf` | main.py:141 | a missing `sections` acts as an empty dictionary; a value that is not a dictionary makes the page raise |
| `Report.SectionText` | main.py:147-163 | a section text is the stored value, or `"N/A"` when the key is missing |
| `Report.RuleChecksOf` | main.py:169-172 | a missing `rule_checks` acts as an empty list; a list is usable exactly when every entry is a dictionary, and then it is used entry by entry in order; of the other values only `{}` and `""` are usable (they iterate nothing), and any other value makes the page raise |
| `Report.PassCount` | main.py:187 | the tally is between 0 and the number of checks; it is 0 exactly when no check passes and it equals the number of checks exactly when all pass |
| `Report.PassCountCountsPassing` | main.py:187-188 | the tally is the number of checks whose status is exactly `pass` |
| `Report.PassCountAppend` | main.py:187 | the tally of two runs of checks is the sum of their tallies |
| `Report.Upper` | main.py:172 | upper-casing keeps the length and upper-cases each letter |
| `Report.RowOf` | main.py:171-185 | a missing status shows as the empty string, and a present status is upper-cased; rule text and evidence default to `"N/A"` and confidence defaults to `0`; a status that is not a string makes the page raise |
| `Report.LabelAndTally` | main.py:172-187 | a check the tally counts is labelled `PASS`; a check with status `Pass` is also labelled `PASS` but is not counted |
| `Report.Render` | main.py:141-188 | the view is produced exactly when the sections value is a dictionary, the rule checks are iterable as dictionaries and every status is a string; it then shows the six section texts with their defaults and one row per rule check; "passed/total" is the number of passing checks over the number of checks, and passed is at most total |
| `Report.EmptyResultView` | main.py:141-188 | a result without sections and without rule checks shows every section as `N/A` and "0/0" |
| `Session.SessionState.constructor` | main.py:83-86 | both session entries start as `None` |
| `Session.SessionState.HasResult` | main.py:113 | the export and the Clear button are offered only while a result is stored; since a stored result is always truthy, the truthiness test amounts to a "not `None`" test |
| `Session.SessionState.Upload` | main.py:93-94 | an uploaded file sets `pdf_name`; nothing else changes |
| `Session.SessionState.Analyze` | main.py:97-108 | the result is replaced only when the extracted text is non-empty and the analysis returned a truthy value; otherwise the previous result is kept; `pdf_name` is untouched; a stored result is always truthy |
| `Session.SessionState.Clear` | main.py:113-125 | Clear resets both `analysis_result` and `pdf_name` to `None`; without a stored result the button is not shown and nothing changes |
| `Session.AnalyzeClicked` | main.py:97-108 | the new stored result is the decoded reply exactly when extraction succeeded with a non-empty stripped text and the analysis returned a truthy value, and otherwise the previous result; so a library failure, a provider failure or a reply without `{` leaves it untouched, and a new stored result is always a non-empty object |

## Left out

- The PDF library (`pdfplumber.open`, `page.extract_text`, main.py:19-21) is not modelled. Its output is an input: the optional text of each page, or `None` when opening the file or reading any page raised.
- The Groq client, its cached handle and the completion call (main.py:12-14, 59-67) are network I/O and are not modelled. Their result is an input: the reply text, or `None` when the call raised or returned no content.
- `json.loads` (main.py:73) is a foreign parser and is not modelled. It is a parameter, and `LoadsLike` assumes only that it rejects `""` and `"}"` and that a text opening with `{` decodes to an object when it decodes at all.
- JSON numbers are modelled as integers. Floating-point confidence values and their truthiness are not modelled.
- The prompt text (main.py:30-57) is a fixed template with no logic.
- The Streamlit rendering is not modelled: layout, spinners, messages, the summary bullet list (main.py:133-135), the raw JSON view and `st.rerun`. The results view is modelled only as the values it displays, and `Report.Render` does not model a page error raised by a malformed `summary`.
- The JSON export (`json.dumps`, main.py:114) and its file name are not modelled, because the name depends on the wall clock (main.py:118). Only when the export is offered is modelled (`HasResult`).
- The hard-coded API key (main.py:10) is not modelled.
- AnalyzeDocument: treats every exception from `json.loads` as a decode failure (the parse error). In the source, only `JSONDecodeError` is caught at main.py:75. Other exceptions, such as a `RecursionError` on very deep nesting or a `ValueError` on an over-long integer literal, reach the outer handler at main.py:79-81 and show the provider-error message. Both paths return `None`, so the stored result is the same either way.
- Upper: handles ASCII letters only. Python's `str.upper()` also maps other Unicode letters, which the model leaves unchanged.
