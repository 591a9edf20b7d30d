# Data Processor Scan — a verified model of its core

Data Processor Scan is a browser tool. It checks a controller–processor
contract against Article 28(3) of the UK GDPR. The user uploads a TXT, DOCX
or PDF file, or pastes text. The tool extracts the text and checks its
length. It sends the text to an AI analysis service, which returns a
`ComplianceReport`. The report is shown on the page and can be downloaded
as an HTML "Remediation Schedule".

This project models the parts of that pipeline that have their own logic,
and proves what they promise:

- `Types` holds the report vocabulary: five compliance statuses, three risk
  levels and three document types, each with its exact string value, plus
  the three report records.
- `Constants` holds the two total lookup tables over statuses: the Tailwind
  colour classes and the shield icon.
- `ReportGenerator` is the HTML serialiser. It classifies badges by
  substring tests, skips compliant requirements in the amendments section,
  lists them in the trailing compliant list, picks the drafting preamble,
  and turns line feeds into `<br/>`.
- `FileParser` dispatches text extraction on the MIME type. It includes the
  PDF page loop, written as a `while` loop over pages, and the mapping of
  errors to messages.
- `Analysis` holds the request sent to the analysis service and the
  service's 30000-character prefix.
- `FileUpload` is the input form, a class. It has the 50-character gates for
  files (untrimmed) and pasted text (trimmed), and the Analyze button's
  disabled condition.
- `App` is the controller, a class with the four state cells `report`,
  `loading`, `docType` and `error`. It holds the analysis, reset and
  download handlers and the screen they select. Each `await` is split into
  a start step and a completion step.
- `Wrappers` and `Strings` are supporting modules. `Wrappers` holds the
  Option and Result types and the JavaScript notion of a thrown value.
  `Strings` models the JavaScript string operations the code uses:
  `includes`, `split`, `join`, `map`/`filter`/`join('')`, the global newline
  `replace` and `trim`. Each one comes with a reference definition or an
  inverse, and a lemma that ties the two together.

The external readers and the analysis service are inputs:

- An `UploadedFile` carries what `file.text()`, the DOCX library and the PDF
  library yield for that file, or the value each of them throws.
- The analysis service is a function from the request to a report or a
  thrown value.
- The report's generation date is a parameter.

## Model

| member | source | states |
|---|---|---|
| `Types.StatusTextInjective` | types.ts:1-7 | the five status strings are pairwise distinct: equal strings iff equal statuses |
| `Types.RiskAndDocumentTextInjective` | types.ts:9-13 | the three risk strings are pairwise distinct, and so are the three document-type strings |
| `Types.DocumentTypes` | types.ts:38-42 | the selector offers three options, DPA, schedule and clauses, whose strings are pairwise distinct |
| `Types.ParseDocumentTypeRoundTrip` | App.tsx:81-86 | reading an option's string value back gives the member that produced it; only the three values read back |
| `Wrappers.MessageOr` | App.tsx:23 | an Error yields its own message; any other thrown value yields the fallback |
| `Constants.StatusColor` | constants.tsx:4-10 | `STATUS_COLORS`, total over the statuses; always green, amber or red; the grouping is stated by `ColorGroups` |
| `Constants.StatusIcon` | constants.tsx:12-18 | `STATUS_ICONS`, total over the statuses; the grouping is stated by `IconsGroupLikeColors` |
| `Constants.ColorGroups` | constants.tsx:4-10 | green exactly for Compliant and Likely Compliant; amber exactly for Partially Compliant; red exactly for the two non-compliant statuses; so the three strings differ |
| `Constants.IconsGroupLikeColors` | constants.tsx:12-18 | two statuses share an icon iff they share a colour |
| `Constants.HueTokens` | constants.tsx:5-9 | a hue's class list splits on spaces into exactly its bg-, text- and border- classes |
| `Constants.ColorTokens` | components/AssessmentSummary.tsx:19-20 | every colour string has at least two space-separated tokens, with a `bg-` class first and a `text-` class second |
| `Strings.IncludesCorrect` | services/reportGenerator.ts:11-12 | the recursive substring test agrees with "t occurs at some index of s" |
| `Strings.JoinSplit` | components/AssessmentSummary.tsx:19 | joining the pieces of a one-character split with that character gives back the text |
| `Strings.TrimSpec` | components/FileUpload.tsx:53 | the text is whitespace + trimmed text + whitespace; the trimmed text starts and ends with non-whitespace; it is no longer than the text |
| `Strings.ReplaceNewlinesRemovesAll` | services/reportGenerator.ts:217 | no line feed is left after the replacement |
| `Strings.ReplaceNewlinesLength` | services/reportGenerator.ts:217 | the result is four characters longer per line feed, since each becomes `<br/>` |
| `Strings.ReplaceNewlinesIdentity` | services/reportGenerator.ts:217 | text without line feeds is left unchanged |
| `Strings.ReplaceNewlinesAppend` | services/reportGenerator.ts:217 | the replacement works piecewise over a concatenation |
| `Strings.FilterPartition` | services/reportGenerator.ts:183-229 | two complementary filters split a sequence as a multiset, so their lengths add up |
| `Strings.Split` | components/AssessmentSummary.tsx:19 | a split always has at least one piece |
| `Strings.SplitPiecesSeparatorFree` | components/AssessmentSummary.tsx:19 | no piece of a split contains the separator (with `JoinSplit`, the pieces are exactly the text between separators) |
| `Strings.JoinSnoc` | services/fileParser.ts:33 | joining [] gives "", joining one element gives it, and one more element follows the separator |
| `ReportGenerator.BadgeClass` | services/reportGenerator.ts:10-14 | `getBadgeClass`: always one of the three classes; which one is stated by `BadgeClassSpec` |
| `ReportGenerator.BadgeClassSpec` | services/reportGenerator.ts:10-14 | non-compliant iff "Non-Compliant" or "Not Found" occurs; otherwise partial iff "Partially" occurs; otherwise compliant (all three directions) |
| `ReportGenerator.CompliantMarkers` | types.ts:2-6 | "Compliant" and "Likely Compliant" contain none of the three marker substrings |
| `ReportGenerator.PartiallyCompliantMarkers` | types.ts:3 | "Partially Compliant" contains "Partially" and neither severe marker |
| `ReportGenerator.NotFoundMarkers` | types.ts:4 | "Not Found / Non-Compliant" contains both severe markers and not "Partially" |
| `ReportGenerator.LikelyNonCompliantMarkers` | types.ts:5 | "Likely Non-Compliant" contains "Non-Compliant" only |
| `ReportGenerator.StatusMarkers` | services/reportGenerator.ts:11-12 | for every status: which of the three substring tests it passes, as an iff |
| `ReportGenerator.StatusBadgeMatchesIcon` | services/reportGenerator.ts:161 | a status's badge tier is severe, partial or compliant exactly when its icon is alert, question or check |
| `ReportGenerator.DraftingPreamble` | services/reportGenerator.ts:215 | always one of the two preambles; which one is stated by `DraftingPreambleSpec` |
| `ReportGenerator.DraftingPreambleSpec` | services/reportGenerator.ts:215 | the "Insert the following new clause:" preamble iff "Not Found" occurs, otherwise "Replace/Amend with the following:" |
| `ReportGenerator.StatusPreamble` | services/reportGenerator.ts:215 | only "Not Found / Non-Compliant" is drafted as an insertion; "Likely Non-Compliant" is severe but drafted as an amendment |
| `ReportGenerator.IsCompliantIff` | services/reportGenerator.ts:184 | the string comparison with "Compliant" holds exactly for the Compliant status |
| `ReportGenerator.ListItemsInOrder` | services/reportGenerator.ts:168 | key risks and key strengths come out one `<li>` each, in the given order; an empty list gives nothing |
| `ReportGenerator.GenerateHtmlReport` | services/reportGenerator.ts:3-241 | `generateHTMLReport` with the date as a parameter; specified by the section lemmas below and `EveryRequirementRendered` |
| `ReportGenerator.AmendmentsAreRemediationBlocks` | services/reportGenerator.ts:183-222 | the amendments section is exactly one block per non-compliant requirement, in report order; compliant ones contribute the empty string |
| `ReportGenerator.AmendmentsGrowInOrder` | services/reportGenerator.ts:184-187 | one more requirement at the end adds its block at the end, or nothing when it is compliant |
| `ReportGenerator.CompliantGrowsInOrder` | services/reportGenerator.ts:227-229 | one more requirement at the end adds its line to the compliant list when it is compliant, and nothing otherwise |
| `ReportGenerator.CompliantItemShowsReference` | services/reportGenerator.ts:228 | a compliant line names the requirement and shows its clause reference, or "Found" when that is empty |
| `ReportGenerator.SectionsPartitionRequirements` | services/reportGenerator.ts:183-229 | the two sections split the requirements (multiset and count); a requirement is listed as compliant iff its status is Compliant, and needs amendment iff not |
| `ReportGenerator.EveryRequirementRendered` | services/reportGenerator.ts:3-241 | each requirement appears in the document: its amendment block when it needs one, its compliant line otherwise |
| `ReportGenerator.AllCompliantReport` | services/reportGenerator.ts:187 | when every requirement is compliant, the amendments section is empty and the compliant list holds all of them |
| `ReportGenerator.ExcerptBlockSpec` | services/reportGenerator.ts:204-209 | the excerpt block is present iff the excerpt is non-empty; it then carries the quoted excerpt and its caption; the caption shows the clause reference, or "N/A" when that is empty |
| `ReportGenerator.DraftingBlockSpec` | services/reportGenerator.ts:211-219 | no drafting block for a compliant requirement; otherwise present iff there is a suggestion, and then it carries the preamble and the rewritten suggestion, which has no line feed |
| `ReportGenerator.DraftingInBlock` | services/reportGenerator.ts:211-220 | the drafting preamble of a requirement with a suggestion appears in its amendment block |
| `ReportGenerator.PreambleScenario` | services/reportGenerator.ts:215 | a missing requirement with a suggestion is drafted as an insertion, a partial one as an amendment |
| `FileParser.PageTextSpec` | services/fileParser.ts:33 | a page's text is its items in order with one space between neighbours: no items give "", one item gives itself, each further item follows a single space |
| `FileParser.Extraction` | services/fileParser.ts:7-49 | `extractTextFromFile` as a function; specified by `ExtractionSpec` |
| `FileParser.ExtractionSpec` | services/fileParser.ts:9-48 | plain text and DOCX text come back verbatim; a TXT or DOCX reader's failure becomes an Error with the reader's Error message, or "Failed to extract text from file." for a non-Error; a PDF succeeds iff it opens and every page reads, otherwise it fails with the PDF message; other types fail with the unsupported-type message; every failure is an Error |
| `FileParser.PdfTextAppend` | services/fileParser.ts:29-35 | the text of a concatenation of page lists is the concatenation of their texts |
| `FileParser.PdfTextFirstPage` | services/fileParser.ts:29-36 | a zero-page PDF yields ""; otherwise the first page's joined tokens and a blank line come first |
| `FileParser.ThreePageExample` | services/fileParser.ts:29-36 | three one-token pages come out as "Page1\n\nPage2\n\nPage3\n\n" |
| `FileParser.AssemblePdfText` | services/fileParser.ts:29-39 | the page loop succeeds iff every page reads, and then yields the page texts in order, each followed by a blank line |
| `FileParser.ExtractTextFromFile` | services/fileParser.ts:7-49 | the extraction method, PDF loop included, agrees with the extraction function in every case |
| `Analysis.Truncate` | services/geminiService.ts:70 | the text sent is a prefix of the input, of length min(length, 30000) |
| `FileUpload.TrimOfWhiteSpace` | components/FileUpload.tsx:114 | all-whitespace text trims to the empty string |
| `FileUpload.PasteGateIsStricter` | components/FileUpload.tsx:30 | pasted text that passes its trimmed gate would pass the untrimmed file gate; fifty spaces pass the file gate but not the paste gate |
| `FileUpload.ButtonAndGate` | components/FileUpload.tsx:114 | text that passes the gate finds the button enabled when idle; blank text finds it disabled; "x" finds it enabled yet is rejected |
| `FileUpload.FileErrorsKeepTheirMessage` | components/FileUpload.tsx:32-33 | a failed extraction shows the extractor's own message; a plain-text read that threw a non-Error shows the generic extraction message |
| `FileUpload.Form.constructor` | components/FileUpload.tsx:12-14 | the form starts with empty text and no error |
| `FileUpload.Form.EditText` | components/FileUpload.tsx:109 | the typed text replaces the input; the error is kept |
| `FileUpload.Form.ProcessFile` | components/FileUpload.tsx:26-35 | the extracted text is forwarded iff extraction succeeds with at least 50 characters; the error is cleared on success, else set to the extractor's message or the empty-file message |
| `FileUpload.Form.HandleTextSubmit` | components/FileUpload.tsx:52-58 | text whose trimmed length is below 50 is not forwarded and sets the too-short message; other text is forwarded untrimmed and the error is kept |
| `App.ScreenOf` | App.tsx:56-105 | the view selection on report, loading and error; specified by `ScreenSelection` |
| `App.ScreenSelection` | App.tsx:56-105 | results iff there is a report; spinner iff no report and loading; input form (with the error) iff no report and not loading |
| `App.FailureMessage` | App.tsx:22-23 | a failed analysis stores the Error's message, or "An unexpected error occurred." |
| `App.Controller.constructor` | App.tsx:11-14 | no report, not loading, "Standalone DPA", no error |
| `App.Controller.SelectDocType` | App.tsx:81 | the chosen option's value becomes the document type (its string is that value); nothing else changes |
| `App.Controller.BeginAnalysis` | App.tsx:16-20 | loading set, error cleared, and the request carries the text and the current document type |
| `App.Controller.FinishAnalysis` | App.tsx:20-26 | a success stores the report; a failure stores its message; loading is false after either outcome |
| `App.Controller.HandleAnalysis` | App.tsx:16-27 | the two steps together: the outcome for (text, document type) decides the report or the error, and loading ends false |
| `App.Controller.Reset` | App.tsx:29-32 | report and error cleared; document type and loading unchanged |
| `App.Controller.Download` | App.tsx:34-41 | nothing without a report; otherwise the rendered schedule under "Data-Processor-Remediation-Report.html" |
| `App.SubmitPastedText` | components/FileUpload.tsx:52-58 | the typed text is kept; rejected text sets the too-short message and leaves the controller untouched; accepted text keeps the form's error and runs the analysis on the untrimmed text with the unchanged document type |
| `App.SubmitFile` | components/FileUpload.tsx:26-35 | the form's error becomes the extractor's message, the empty-file message or nothing; a failed or too-short extraction leaves the controller untouched; otherwise the analysis runs on the extracted text with the unchanged document type |

## Left out

- The analysis service (its SDK call, model configuration, prompt, schema and `JSON.parse`). It is a function parameter of `HandleAnalysis`. Its only own logic, the 30000-character prefix, is `Analysis.Truncate`.
- The reports the service returns are assumed to have the declared shape. The source casts the parsed JSON without checking it.
- The internals of the DOCX and PDF libraries, the PDF worker URL, and `file.text()`/`arrayBuffer()`. Each is a field of `UploadedFile`: the value it yields or the value it throws.
- The PDF library's page objects. A page is modelled as the `str` of its text items, in order.
- `toLocaleDateString`: the formatted date is a parameter of `GenerateHtmlReport`.
- The real stylesheet. `StyleSheet` is a placeholder constant.
- The inline `style` attributes, the indentation whitespace of the template literal, and part of the fixed prose under the amendments heading and in the footer. These are shortened constants; every value-dependent part of the document is modelled exactly.
- HTML escaping: there is none in the source, and none in the model. Report strings are inserted verbatim.
- The download's Blob, object URL and anchor click. `Download` returns the file name and the contents.
- `console.error` logging in the extractor.
- JSX layout, the other rendering components, drag state and tab state. The lookups these components use are modelled in `Constants`.
- Asynchrony:
  - Each `await` is two sequential steps, so interleavings, late responses after a reset, and the unmounting of the form while the spinner shows are not modelled.
  - The form's state persists across an analysis in the model.
- Lengths: JavaScript's `length` and `substring` count UTF-16 code units, while a Dafny `char` is a Unicode scalar value. The two 50-character gates and the 30000-character prefix of `Analysis.Truncate` agree with the source only on text inside the Basic Multilingual Plane; outside it the source can cut a surrogate pair in half, which the model cannot express.
- App.SubmitFile: models the file-input path (components/FileUpload.tsx:46-50). A dropped file (lines 37-44) goes through a handler memoised with `useCallback(..., [])`, so its analysis uses the `processFile`, and through it the `handleAnalysis` and document type, current when the form was mounted; a document type chosen after mounting is ignored for dropped files. That stale capture is not modelled.
- App.Controller.SelectDocType: takes one of the three option values, the only strings the selector can produce; the source's unchecked `as DocumentType` cast of any other string is not modelled.

## Notes on the code

- In the drafting block, `!isCompliant` is always true, because compliant requirements have already returned `''`. `DraftingBlockSpec` states both cases, so the redundancy is visible.
- `handleTextSubmit` clears no earlier error when the text passes. The model keeps the old error (`HandleTextSubmit`), as the code does.
