# GLUCOTAINE front end: a verified model of its local logic

GLUCOTAINE is a browser front end for screening diabetes-induced kidney
dysfunction. It collects glucose, creatinine, age and gender, sends them to a
remote generative-AI service, and renders the assessment that comes back. The
medical classification (glucose bands, gender-specific creatinine limits, the
creatinine ≥ 2.0 override, score bands, recommendation rules) exists only as
prose in the prompt sent to that service. The program never computes or checks
it: the reply is parsed and displayed as it arrives. This model therefore does
not state any of those rules as guarantees.

What the program does compute locally is modelled here, as pure functions over
immutable datatypes:

- `Patient` (types.ts): patient data, prediction result, history entry.
- `NumberParsing`: the decimal-literal part of `parseFloat` and the form's
  `parseFloat(value) || 0` rule.
- `RiskForm` (components/RiskForm.tsx): the initial state, the
  per-keystroke update, the range validator with its field→message map, and
  the submit gate.
- `Session` (App.tsx): `handlePredict` as one state transition. The awaited
  service call is replaced by its outcome, given as a parameter. It covers
  the bounded, most-recent-first history (at most 10 entries) and the
  error/loading handling.
- `Csv` and `CsvExport` (App.tsx): the quoting of text fields
  (section 2 of RFC 4180, rules 5–7), joining fields and lines, and the
  12-column export. `Csv` also holds a reader for the same format. The
  reader is the writer's partner: the lemmas state that what is written
  reads back.
- `Presentation` (components/ResultsDisplay.tsx, App.tsx): the clamped gauge
  marker, the risk-level style mapping with its default, the sidebar badge and
  trend-bar colours, and the case-insensitive status highlighting.

Calls into code that the model cannot see become parameters:
- the service's outcome;
- the random entry id;
- `String(number)` and `Date.prototype.toLocaleString`, which render the
  numeric and timestamp cells of the CSV.

The source disagrees with itself in three places. The model follows the code
that runs:
- types.ts:11-15 declares the risk level as a three-value enumeration
  ("Low", "Moderate", "High"). The response schema at
  services/geminiService.ts:52 only asks for a string, and nothing checks the
  reply. The level is therefore an arbitrary string here: `ParseLevel`
  recognises the three texts, and `RiskStyles` and `ToneOf` give every other
  text its default.
- components/RiskForm.tsx:23 accepts creatinine up to 15 mg/dL. The gauge at
  components/ResultsDisplay.tsx:282 and its labels at lines 287-290 run from
  0.3 to "3.0+", so `CreatinineMarker` pins every accepted value from 3.0 up
  to the right end.
- types.ts:7 types age as a number. components/RiskForm.tsx:41 stores
  `parseFloat` of the typed text, so a fractional age such as 45.5 is kept.
  Age is a real here, like the other two fields.

## Model

| member | source | states |
|---|---|---|
| Patient.Set | components/RiskForm.tsx:39-42 | writing one numeric field gives it the new value and keeps the other two fields and the gender |
| Patient.MakeItem | App.tsx:24-28 | the new history entry carries every field of the result unchanged, the generated id, and exactly the submitted data |
| NumberParsing.NumericEntry | components/RiskForm.tsx:41 | a typed numeric field becomes the value `parseFloat` reads, or 0 when it reads NaN (or a zero) |
| NumberParsing.NoDigitMeansNaN | components/RiskForm.tsx:41 | text without any digit is NaN to `parseFloat`, so the field becomes 0 |
| NumberParsing.ParseNatText | components/RiskForm.tsx:41 | the decimal text of any natural number is read back as exactly that number |
| NumberParsing.ParseFloat | components/RiskForm.tsx:41 | a number is read only from text that contains a digit |
| NumberParsing.UnsignedLiteral | components/RiskForm.tsx:41 | a literal is found only where the text starts with a digit or with a point and a digit, and its digits are all decimal digits |
| NumberParsing.ParseDigitsWithTail | components/RiskForm.tsx:41 | a run of digits followed by text that cannot continue a number (no digit, point or exponent mark) reads as that whole number; the trailing text is ignored |
| NumberParsing.ParseSignedDigits | components/RiskForm.tsx:41 | a leading minus sign negates the number read, and a leading plus sign keeps it |
| NumberParsing.ParseSignedNatText | components/RiskForm.tsx:41 | a signed decimal text of a natural number reads back as that number, negated for a minus sign |
| NumberParsing.ParseDecimalText | components/RiskForm.tsx:41 | "d.ds" reads as the digits of d and ds together, divided by 10 to the number of fraction digits |
| NumberParsing.DecimalValue | components/RiskForm.tsx:41 | that value is the whole part plus the fraction digits over 10 to their count, so "1.25" is 1 + 25/100 |
| NumberParsing.ScaleUp | components/RiskForm.tsx:41 | a positive exponent k multiplies the mantissa by 10^k |
| NumberParsing.ScaleDown | components/RiskForm.tsx:41 | a negative exponent -k divides the mantissa by 10^k |
| NumberParsing.ParseExponentText | components/RiskForm.tsx:41 | "d" followed by "e" or "E", an optional sign and digits reads as d scaled by that exponent, negated for a minus sign |
| RiskForm.Validate | components/RiskForm.tsx:20-27 | the error map has a key exactly for each field outside its inclusive range, with that field's message. Only field names are keys, never "gender". The map is empty iff all three fields are in range |
| RiskForm.Accepts | components/RiskForm.tsx:27 | the form is accepted exactly when all three fields are in their ranges |
| RiskForm.AcceptsIff | components/RiskForm.tsx:20-27 | the form is accepted iff 40 ≤ glucose ≤ 500, 0.3 ≤ creatinine ≤ 15 and 1 ≤ age ≤ 120 |
| RiskForm.BoundsInclusive | components/RiskForm.tsx:22-24 | each range's two end points produce no error for that field |
| RiskForm.FieldsCheckedIndependently | components/RiskForm.tsx:21-24 | whether a field is flagged, and with which message, depends only on that field's value |
| RiskForm.ZeroIsRejected | components/RiskForm.tsx:22-24 | a numeric field holding 0 is always flagged, since 0 is below every lower bound |
| RiskForm.InitialAccepted | components/RiskForm.tsx:11-27 | the initial state {100, 1.0, 45, Male} passes validation |
| RiskForm.HandleChange | components/RiskForm.tsx:37-42 | a keystroke sets its numeric field to `parseFloat(text)`, or to 0 when that is NaN or 0, and a gender choice sets the gender; every other field is unchanged |
| RiskForm.UnparseableEntryIsRejected | components/RiskForm.tsx:20-42 | after unreadable text is typed into a field, validation flags that field |
| RiskForm.GenderNeverValidated | components/RiskForm.tsx:20-42 | choosing a gender never changes the validation result |
| RiskForm.ApplyChange | components/RiskForm.tsx:37-43 | a change event updates the data and leaves the displayed errors as they were |
| RiskForm.HandleSubmit | components/RiskForm.tsx:30-35 | the current data is dispatched iff nothing is loading (the submit button is disabled while loading) and all fields are in range; otherwise nothing is dispatched. Whenever the submit runs, the errors shown become exactly the validator's map for the current data |
| Session.Push | App.tsx:29 | prepend-and-truncate: the new entry is at index 0, the length is min(n+1, 10), and the rest are the first min(n, 9) old entries in order |
| Session.PushFullDropsOldest | App.tsx:29 | with 10 old entries, exactly the oldest one is dropped |
| Session.ErrorText | App.tsx:31 | the error shown is the thrown message when it is non-empty, and exactly the fixed default text when it is empty |
| Session.Start | App.tsx:16-19 | while the call is pending: loading is on, the error is cleared, and the input is recorded; result and history are untouched |
| Session.HandlePredict | App.tsx:16-35 | on success the result becomes current, the error is cleared, and the history is the prepend-and-truncate of the new entry. On failure the history and current result are unchanged and the error is set. Loading is off at the end either way |
| Session.HistoryBounded | App.tsx:29 | the history never grows beyond 10 entries |
| Session.ReplayHistory | App.tsx:16-35 | after any sequence of calls from an empty history, the history is the entries of the 10 most recent successful calls, newest first; failed calls leave no trace |
| Session.Displayed | App.tsx:107 | a report is shown exactly when both a current result and a last input exist, and it shows those two |
| Session.FailureMismatchesReport | App.tsx:16-35 | as written, a failed call after a success leaves the previous result displayed next to the new, unassessed input |
| Session.FailureMismatchExample | App.tsx:16-35 | a concrete session: a success for glucose 100, then a failure for glucose 300, makes the report inconsistent |
| Session.HandlePredictPaired | App.tsx:16-35 | the corrected transition records the input only on success and otherwise matches `handlePredict` |
| Session.PairedKeepsReportConsistent | App.tsx:107-113 | with the corrected transition, the displayed result and input are always the newest history entry's |
| Session.PairedSessionConsistent | App.tsx:107-113 | the same holds for every session started from the initial state |
| Csv.DoubleQuotes | App.tsx:55-58 | doubling quotes never shortens a text and introduces no character other than `"` |
| Csv.Escape | App.tsx:55-58 | a quoted field starts and ends with `"` |
| Csv.ReadQuotedDoubled | App.tsx:55-58 | the body of a quoted field reads back as the original text, whatever follows the closing quote |
| Csv.EscapeReadsBack | App.tsx:55-58 | un-quoting a quoted field recovers the text exactly, even with commas, quotes or line breaks in it and more fields after it |
| Csv.EscapeInjective | App.tsx:55-58 | different texts have different quoted forms |
| Csv.RecordReadsBack | App.tsx:61-64 | a comma-joined line of encoded fields reads back as its values |
| Csv.RenderReadsBack | App.tsx:61-64 | lines joined with `\n` read back as the table, row by row in order |
| Csv.JoinShape | App.tsx:62-64 | joining no parts gives the empty text; otherwise the joined text is as long as the parts plus one separator between each two, starts with the first part, and has the separator right after it |
| Csv.JoinSplits | App.tsx:63 | a comma inside an unquoted cell writes the same text as two separate cells |
| CsvExport.RowValues | App.tsx:46-59 | every entry has 12 column values |
| CsvExport.RowCells | App.tsx:46-59 | the first eight cells are written verbatim and the last four (statuses, recommendation, explanation) are quoted |
| CsvExport.Rows | App.tsx:46 | one line of cells per history entry, in history order |
| CsvExport.Table | App.tsx:40-59 | the intended content: the header, then each entry's 12 values, newest first |
| CsvExport.ExportCsv | App.tsx:37-64 | an empty history exports nothing; any other history exports some text |
| CsvExport.HeaderPlain | App.tsx:40-44 | no column title needs quoting |
| CsvExport.ExportReadsBack | App.tsx:37-64 | when no verbatim cell contains a comma, line break or leading quote, the export reads back as the header plus one 12-field record per entry, newest first, with every text as returned |
| CsvExport.CommaInTimestampSplitsRecord | App.tsx:48 | as written, a locale time containing a comma splits the Timestamp column, so the entry's record has 13 fields |
| CsvExport.QuotedRowCells | App.tsx:46-59 | the corrected row quotes all 12 cells |
| CsvExport.ExportCsvQuoted | App.tsx:37-64 | the corrected export is empty exactly for an empty history |
| CsvExport.ExportQuotedReadsBack | App.tsx:37-64 | the corrected export reads back as the header plus every entry's 12 values, for any history and any rendering of numbers and times |
| Presentation.Clamp | components/ResultsDisplay.tsx:111 | the clamp lands in [0, 100] and keeps values already there |
| Presentation.MarkerPos | components/ResultsDisplay.tsx:109-112 | the marker position always lies in [0, 100]. For max > min and a value inside the scale it is the linear position: position × (max − min) = (val − min) × 100. The only NaN is `max == min` with `val == min`; on a zero-width scale a value above it gives 100 and a value below it gives 0 |
| Presentation.MarkerAtEnds | components/ResultsDisplay.tsx:110 | with max > min, the position is 0 at min and 100 at max |
| Presentation.MarkerClampsOutside | components/ResultsDisplay.tsx:111 | values below min clamp to 0, values above max clamp to 100 |
| Presentation.MarkerMonotone | components/ResultsDisplay.tsx:110-111 | with max > min, the position never decreases as the value grows |
| Presentation.GlucoseMarker | components/ResultsDisplay.tsx:256 | the glucose marker is the marker position on the 40–500 scale, always defined, and pinned at its ends outside it |
| Presentation.CreatinineMarker | components/ResultsDisplay.tsx:282 | the creatinine marker is the marker position on the 0.3–3.0 scale, always defined, so every value ≥ 3.0 shows at 100 |
| Presentation.ParseLevel | types.ts:11-15 | recognises exactly the three enumeration texts "Low", "Moderate" and "High" |
| Presentation.RiskStyles | components/ResultsDisplay.tsx:50-105 | each of the three level texts selects its own style; any other text gets the whole default slate style, and only such text is labelled "Unknown Status" |
| Presentation.LevelLabelsDistinct | components/ResultsDisplay.tsx:50-90 | the three known levels get three distinct labels |
| Presentation.ToneOf | App.tsx:163-167 | the badge is red iff the level is "High", amber iff it is "Moderate", and emerald for any other text |
| Presentation.BadgeClass | App.tsx:163-167 | the sidebar badge is red for "High", amber for "Moderate", and emerald for any other text |
| Presentation.TrendBarClass | App.tsx:190-193 | the trend bar is rose for "High", amber for "Moderate", and emerald for any other text |
| Presentation.UnknownLevelLooksLow | App.tsx:163-167 | an unrecognised level gets the sidebar badge and trend bar of "Low", while the results panel shows "Unknown Status" |
| Presentation.TrendBars | App.tsx:187-195 | the bars of the chart, when it is drawn, show the history oldest first, each bar with its entry's score and colour |
| Presentation.TrendCard | App.tsx:185-208 | the chart is drawn iff the history holds two or more entries, with one bar per entry, oldest first. With fewer, the card shows exactly "Graph will appear after multiple screenings." |
| Presentation.Lower | components/ResultsDisplay.tsx:302 | lower-casing maps every character and keeps the length |
| Presentation.Contains | components/ResultsDisplay.tsx:302 | `includes` holds iff the word occurs at some position |
| Presentation.GlucoseHighlighted | components/ResultsDisplay.tsx:302 | the glucose status is highlighted iff some six-character window of it reads "normal" in any mix of cases |
| Presentation.CreatinineHighlighted | components/ResultsDisplay.tsx:311 | the creatinine status is highlighted iff some eight-character window of it reads "elevated" in any mix of cases |
| Presentation.ContainsLowerWord | components/ResultsDisplay.tsx:302-311 | a status containing the lower-case word verbatim is highlighted, whatever surrounds it |
| Presentation.HighlightIgnoresCase | components/ResultsDisplay.tsx:302-311 | a status and its upper- and lower-case spellings are highlighted alike |
| Presentation.AbnormalIsHighlighted | components/ResultsDisplay.tsx:302 | "Abnormal" is highlighted like "Normal", because the test is for a substring, not a word |
| Presentation.NotElevatedIsHighlighted | components/ResultsDisplay.tsx:311 | "Not elevated" is highlighted as elevated |
| Presentation.DiabeticIsNotHighlighted | components/ResultsDisplay.tsx:302 | "Diabetic" is not highlighted |

## Findings

| source | as written | input that shows it | evidently intended | confidence | as-written member | corrected member |
|---|---|---|---|---|---|---|
| App.tsx:48 | the Timestamp cell (`toLocaleString()`) and the Risk Level cell are written without quotes | a browser in the en-US locale renders a time as "1/2/2026, 10:00:00 AM", so that entry's record reads back with 13 fields. A risk level containing a comma does the same | every row reads back as its 12 values, as the header promises | high; not executed | CsvExport.CommaInTimestampSplitsRecord | CsvExport.ExportQuotedReadsBack |
| App.tsx:19 | `lastInput` is replaced before the service call is awaited, while `currentResult` changes only on success | a success for glucose 100, then a failed call for glucose 300. The report still shows the first result, but its glucose value and marker are for 300 (the same happens while any call is pending) | the report shows a result together with the input it was computed for | medium; not executed | Session.FailureMismatchExample | Session.PairedSessionConsistent |

## Left out

- The risk classification rules (services/geminiService.ts:13-28) are prompt
  text for the remote model. The program neither computes nor checks them, so
  they are not modelled.
- The service call itself is not modelled: the network request, the SDK, and
  `JSON.parse` of the reply. A reply missing a text field would make the
  export and the panel throw at run time; the model assumes every field is
  present.
- React's state hooks, `await` and `finally` are collapsed into pure
  transitions. Resubmitting while a call is pending is impossible because the
  submit button is disabled; that appears only as the `isLoading` gate of
  `HandleSubmit`.
- The score animation (easeOutQuart, `requestAnimationFrame`), the ring's
  circumference and dash offset, and all layout and class markup other than
  the style and colour mappings are not modelled.
- The PDF report (html2canvas, jsPDF) is not modelled. Neither is the CSV
  download plumbing: Blob, object URL, link element, and the file name's date.
- Entry ids (`Math.random`), timestamps (`Date`) and the text rendering of
  numbers and dates are opaque parameters.
- components/Header.tsx is static markup and is not part of this model.
- NumberParsing.NumericEntry: numbers are exact reals. Rounding to the
  nearest double, overflow to Infinity (as in "1e400") and the literal
  "Infinity" prefix that `parseFloat` also accepts are not modelled.
- NumberParsing.ParseFloat: its own contract only says that a number needs a
  digit. What it reads is stated by lemmas for four forms: digit runs with a
  tail that cannot continue them, signed whole numbers, decimals ("7.25"),
  and whole numbers with an exponent ("3e2", "3E-2"). Other forms are
  computed by the model but have no lemma of their own: leading white space,
  a literal that starts with a point (".5"), fraction digits followed by an
  exponent ("1.5e2"), and a sign in front of a fraction or exponent.
- The HTML number input passes either "" or a valid floating-point string to
  the handler. The model accepts any text, which is a superset of that.
- Presentation.Lower: only ASCII letters change case. The full Unicode case
  mapping of `toLowerCase` is not modelled.
- Presentation.MarkerPos: exact real arithmetic stands in for floating-point
  division, so rounding at the gauge's ends is not modelled.
