# verify.ai report pipeline, in Dafny

verify.ai asks a language model to judge whether a text was written by a
person or generated by a machine. The answer is a JSON "forensic report":
a score from 0 to 100, a verdict, narrative fields and heatmap annotations
(character spans of the text with a label, a colour and a tooltip). The
analysis view `components/AnalysisTool.tsx` does not trust that answer. It
works through these steps:

1. It guards the request: there must be at least two credits, and the text
   must not be blank and must have at least fifty characters.
2. It strips Markdown code fences from the reply (`cleanJson`) and parses
   what is left.
3. It re-derives the verdict from the score.
4. It drops annotations whose span does not fit the text.
5. If fewer than three annotations are left, it replaces the whole list
   with annotations computed locally from the text
   (`generateDefaultAnnotations`).
6. It shows the report and charges two credits.

`renderHeatmap` then cuts the text into plain and highlighted pieces along
the sorted annotations.

This project models that core and proves what it promises. The modules are:

- `Wrappers`: `Option` and `Result`.
- `JsString`: the ECMAScript string operations the code uses (`trim`,
  `indexOf`, `includes`, `substring`, a global `replace` by the empty
  string, and the decimal printing of a non-negative integer). One `char`
  stands for one character of the text. This agrees with JavaScript's
  UTF-16 lengths and indices for every text within the Basic Multilingual
  Plane.
- `ReportModel`: the report and annotation records, and the four verdict
  strings.
- `Sanitizer`: `cleanJson`.
- `Consistency`: the verdict chain and the index filter.
- `DefaultAnnotations`: `split(/[.!?]+/)`, the length filter and the
  forward-cursor search loop of `generateDefaultAnnotations`.
- `Heatmap`: the stable sort by start offset and the `forEach` walk of
  `renderHeatmap`.
- `Analysis`:
  - the post-processing;
  - the request (the model's reply and `JSON.parse` are parameters);
  - `handleAnalyze` as a function over the view state (`Session`);
  - `handleAnalyze` as a method of a `Workspace` class whose fields the
    handler updates in place.

Where the code updates a value in place (the verdict chain, the search
loop, the `forEach` walk, the credit balance), the model is a method with a
loop or with assignments. Each such method is proved equal to a
specification function, and the lemmas state what that function promises.

### What the code does not do

A pipeline of this kind might be expected to do more than this code does.
The model follows the code, in which:

- The score is not clamped to [0, 100].
- An annotation's colour is not repaired to agree with its label.
- `cleanJson` does not slice the reply from the first `{` to the last `}`.
- A reply that does not parse builds no fallback report. It reaches the
  `catch`, which shows an error and charges nothing.
- `generateDefaultAnnotations` has no single-annotation fallback, so it can
  return fewer than three annotations, or none.
- Its length filter keeps segments whose trimmed length is greater than 10.
  A segment of exactly ten characters is therefore dropped.

## Model

| member | source | states |
|---|---|---|
| JsString.Trim | components/AnalysisTool.tsx:187 | `trim` never lengthens a string and leaves no whitespace at either end. |
| JsString.TrimEmpty | components/AnalysisTool.tsx:236 | `text.trim()` is empty exactly when every character is ECMAScript whitespace. |
| JsString.IndexOf | components/AnalysisTool.tsx:588 | `indexOf(pat, from)` returns the first occurrence at or after the clamped start, or -1 exactly when there is none. |
| JsString.Includes | components/AnalysisTool.tsx:568 | `includes` holds exactly when the pattern occurs somewhere. |
| JsString.Substring | components/AnalysisTool.tsx:615-631 | `substring(a, b)` is the slice between the clamped ends, whichever comes first. |
| JsString.RemoveAll | components/AnalysisTool.tsx:187 | A global replace by `''` never lengthens its input and changes nothing when the pattern does not occur. |
| JsString.RemoveAllDeletesOccurrence | components/AnalysisTool.tsx:187 | An occurrence where the scan stands is deleted, and the scan goes on right after it. |
| JsString.RemoveAllKeepsPrefix | components/AnalysisTool.tsx:187 | Every character before the first occurrence is kept, unchanged and in place. |
| JsString.DecimalText | components/AnalysisTool.tsx:512 | The score is printed as decimal digits, without leading zeros, that denote its value. |
| Sanitizer.CleanJson | components/AnalysisTool.tsx:186-188 | The cleaned reply is no longer than the raw one, contains no "```" and has no whitespace at either end. |
| Sanitizer.RemovingFencesLeavesNone | components/AnalysisTool.tsx:187 | Deleting "```" markers left to right never glues backticks into a new marker. |
| Sanitizer.CleanJsonIdempotent | components/AnalysisTool.tsx:186-188 | Cleaning a cleaned reply changes nothing. |
| Sanitizer.CleanJsonWithoutFencesIsTrim | components/AnalysisTool.tsx:186-188 | On a reply without any "```", cleaning is exactly `trim`. |
| Sanitizer.CleanJsonUnwrapsFence | components/AnalysisTool.tsx:186-188 | A reply "```json" + payload + "```" cleans to the trimmed payload, for every payload without "```" that does not end in a backtick. |
| Consistency.BucketOf | components/AnalysisTool.tsx:509-521 | The score buckets: 90 and up is machine text, [70, 90) hybrid, [50, 70) inconclusive, below 50 human, each as an if-and-only-if. |
| Consistency.CorrectVerdict | components/AnalysisTool.tsx:508-522 | The in-place else-if chain leaves exactly the corrected report. |
| Consistency.CorrectedSpec | components/AnalysisTool.tsx:508-522 | After the chain the verdict is the score's bucket. The explanation is rewritten only when a score of 90 or more was not labelled machine text. No other field changes. |
| Consistency.CorrectedIdempotent | components/AnalysisTool.tsx:508-522 | Running the chain twice is running it once. |
| Consistency.CorrectedFixpoint | components/AnalysisTool.tsx:508-522 | The chain changes nothing exactly when the verdict already matches the score. |
| Consistency.FilterInBounds | components/AnalysisTool.tsx:526-530 | The filter keeps exactly the annotations with `0 <= start < end <= length`, each as often as it occurred, in their original order. A list that is already valid is kept unchanged. |
| DefaultAnnotations.SplitSpansTerminatorFree | components/AnalysisTool.tsx:580 | No piece of `split(/[.!?]+/)` contains a `.`, `!` or `?`. |
| DefaultAnnotations.SplitSpansSeparators | components/AnalysisTool.tsx:580 | Consecutive pieces are separated by a non-empty run made only of terminators. |
| DefaultAnnotations.SplitSpansOrdered | components/AnalysisTool.tsx:580 | The pieces come in text order and do not overlap. |
| DefaultAnnotations.Split | components/AnalysisTool.tsx:580 | The split yields at least one piece, and no piece holds a terminator. |
| DefaultAnnotations.FilterMembers | components/AnalysisTool.tsx:580 | The filter keeps exactly the pieces whose trimmed length is over ten. |
| DefaultAnnotations.KeepSpansSlices | components/AnalysisTool.tsx:580 | Filtering the pieces is filtering their ranges in the text. |
| DefaultAnnotations.VisitCount | components/AnalysisTool.tsx:586 | The loop visits `min(5, sentences.length)` sentences. |
| DefaultAnnotations.PlaceNext | components/AnalysisTool.tsx:587-602 | One pass of the loop body: a sentence not found is skipped, a found one is annotated and moves the cursor to its end. |
| DefaultAnnotations.GenerateDefaultAnnotations | components/AnalysisTool.tsx:579-607 | The loop returns exactly the specified default annotations. |
| DefaultAnnotations.PlaceFirstWellPlaced | components/AnalysisTool.tsx:585-602 | The cursor stays in the text. Every pushed annotation lies in the text and ends by the cursor. The annotations do not overlap. Each pass pushes at most one. |
| DefaultAnnotations.PlaceFirstCovers | components/AnalysisTool.tsx:587-601 | Each pushed annotation spans exactly one of the trimmed sentences visited and carries the label, colour and tooltip of the `score >= 70` test. |
| DefaultAnnotations.DefaultsWellFormed | components/AnalysisTool.tsx:579-607 | The defaults number at most five and lie in the text in order without overlap. All are AI/red or all human/blue by `score >= 70`. Each covers a whole trimmed sentence of more than ten characters. |
| DefaultAnnotations.PlaceFirstPointwise | components/AnalysisTool.tsx:587-601 | When the sentences occur in the text one after another, the j-th pushed annotation spans exactly the j-th trimmed sentence. |
| DefaultAnnotations.DefaultsPointwise | components/AnalysisTool.tsx:579-607 | The j-th default highlights exactly the j-th trimmed sentence of more than ten characters, so no sentence is highlighted twice and none is skipped. |
| DefaultAnnotations.DefaultsFindEverySentence | components/AnalysisTool.tsx:580-590 | The search never misses: there are exactly `min(5, n)` defaults, where `n` counts the sentences longer than ten characters. The `continue` is never taken. |
| Heatmap.SortByStartPermutes | components/AnalysisTool.tsx:613 | The sort returns the annotations it was given, each as often. |
| Heatmap.SortByStartSorted | components/AnalysisTool.tsx:613 | The sort orders the annotations by start offset. |
| Heatmap.SortByStartStable | components/AnalysisTool.tsx:613 | Annotations with the same start keep their relative order. |
| Heatmap.SortSortedIsIdentity | components/AnalysisTool.tsx:613 | Sorting annotations already in order changes nothing. |
| Heatmap.RenderHeatmap | components/AnalysisTool.tsx:609-633 | The `forEach` walk with its `lastIndex` cursor yields exactly the specified pieces, or nothing without a report or text. |
| Heatmap.RenderedHighlights | components/AnalysisTool.tsx:615-628 | Every annotation is highlighted exactly once, in start order, and nothing else is highlighted. |
| Heatmap.HighlightsOfAt | components/AnalysisTool.tsx:618-620 | The `i`-th highlight shows the slice and tooltip of the `i`-th sorted annotation. |
| Heatmap.SortByStartApart | components/AnalysisTool.tsx:613 | Sorting in-bounds annotations that do not overlap keeps them in bounds and apart. |
| Heatmap.SortedApartInTextOrder | components/AnalysisTool.tsx:613 | Once sorted, annotations that do not overlap each end before the next one starts. |
| Heatmap.RenderedRestoresText | components/AnalysisTool.tsx:611-631 | For in-bounds annotations that do not overlap, given in any order, the gap, highlight and tail pieces put together are exactly the text. |
| Heatmap.DefaultsRestoreText | components/AnalysisTool.tsx:609-633 | A report carrying the default annotations always renders back to its text. |
| Analysis.PostProcess | components/AnalysisTool.tsx:508-537 | The statements between `JSON.parse` and `setReport` leave exactly the post-processed report. |
| Analysis.BackstopReplaces | components/AnalysisTool.tsx:533-537 | Replace, never merge: with three or more in-bounds annotations the filtered list is kept as it is; otherwise the list is exactly the defaults. |
| Analysis.PostProcessedInBounds | components/AnalysisTool.tsx:524-537 | Every annotation of a post-processed report is a non-empty span inside the text. |
| Analysis.PostProcessedIdempotent | components/AnalysisTool.tsx:508-537 | Post-processing a post-processed report changes nothing. |
| Analysis.Request | components/AnalysisTool.tsx:502-537 | A report comes out exactly when the call answered and its cleaned content parsed. That report keeps the parsed score, carries the score's verdict and only in-bounds annotations. Otherwise the outcome is the message of the call's or the parser's error. |
| Analysis.CatchMessage | components/AnalysisTool.tsx:566-572 | The invalid-format message is shown exactly when the error's message contains "JSON", and the generic one otherwise. |
| Analysis.RejectedChangesOnlyTheMessage | components/AnalysisTool.tsx:230-239 | A request is turned away exactly when there are fewer than two credits, or the text is all whitespace or shorter than fifty characters. A turned-away request leaves the report and balances alone and shows only the modal or the matching message. |
| Analysis.ChargedIffCompleted | components/AnalysisTool.tsx:539-564 | A run that shows a report charges exactly two credits to the balance in use and none to the other. Every other run charges nothing. |
| Analysis.NoOverdraft | components/AnalysisTool.tsx:230-235 | No balance is driven below zero. |
| Analysis.ParseFailureIsInvalidFormat | components/AnalysisTool.tsx:566-570 | A parse failure shows the invalid-format message, leaves no report and charges nothing. |
| Analysis.ShownReportIsConsistent | components/AnalysisTool.tsx:508-539 | A report that reaches the screen has its score's verdict and only in-bounds annotations. |
| Analysis.Workspace.HandleAnalyze | components/AnalysisTool.tsx:229-576 | The handler, updating the view's fields in place, leaves exactly the state `Analyze` specifies. |
| Analysis.Workspace.Settle | components/AnalysisTool.tsx:539-572 | The end of the `try` or the `catch`: it shows the report and charges the balance in use, or shows the error's message. |

## Left out

- The Groq chat-completion call (components/AnalysisTool.tsx:248-502) is
  a network service. Its outcome is the parameter `Reply`: the first
  choice's content (`''` when it has none) or the message of the error it
  threw. The prompt templates are constant text.
- `JSON.parse` is a library parser. It is the parameter `parse`, which
  yields a `Report` or the message of a `SyntaxError`.
- A reply that parses to JSON that is not a report object is left out.
  The code does not reject such values. A string score such as `"95"` is
  coerced by the comparisons of the verdict chain
  (components/AnalysisTool.tsx:509-519), so the report is corrected,
  shown and charged. An object without `score` fails all four comparisons,
  so its verdict is kept, its default annotations are those of a human
  text, and it is shown and charged. A `null` reply throws a `TypeError`,
  which shows the generic message.
- Analysis.ParseFailureIsInvalidFormat takes as a precondition that the
  parser's error message contains "JSON". V8's `SyntaxError` messages do,
  but the parser is not part of this model.
- Supabase persistence is remote I/O: the insert of the analysis, the
  `user_credits` update, `setCurrentAnalysisId`, `onUpdateCredits` and
  `onUpdateGuestCredits`. Only the resulting balance change is modelled,
  as `credits - 2` or `guestCredits - 2` in the view state.
- Analysis.ChargedIffCompleted assumes the `user_credits` update of a
  signed-in user succeeds. The code ignores the error that update returns
  (components/AnalysisTool.tsx:557-560). After a failed write the report
  is shown but nothing is charged, while the model charges two credits.
- `isAnalyzing` is left out of the view state. It is set before the
  request and cleared in the `finally`, so it is the same before and after
  a click.
- `handleAnalyze` is modelled as one synchronous step. The model does not
  capture interleaving with other clicks while the request is pending.
- File extraction with mammoth and pdf.js, and the PDF export with
  html2canvas and jsPDF, are left out as foreign libraries and I/O.
- React state hooks, refs, timeouts, the JSX markup and the CSS classes are
  left out. A highlight keeps the annotation's colour, which picks the red
  or blue classes.
- `generateSampleAnnotations` and the static sample report are demo
  content, not part of the analysis path.
- Heatmap.Rendered: a report whose `heatmap_annotations` is missing makes
  the spread in `renderHeatmap` throw. The model requires the list to be
  present, as it always is on a post-processed report.
- The score is modelled as a mathematical integer. Fractional scores, NaN
  and the float formatting of `${data.score}` are left out.
- Labels, colours and confidences are modelled as the three closed sets
  the TypeScript types name. Other strings the model might return are left
  out.
- Texts with characters outside the Basic Multilingual Plane, such as most
  emoji, are outside the model. JavaScript counts such a character as two
  UTF-16 code units, while a Dafny `char` is a Unicode scalar value and
  cannot hold a lone surrogate. For such texts `|text|` and every offset
  would differ from `text.length` and the indices the code uses: the
  50-character guard, the bounds filter, `indexOf` and `substring`.
- No Unicode normalisation or case folding takes place in the code, so
  none is modelled.
