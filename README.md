# Document OCR and suggestions: verified model of the core

This system takes an uploaded PDF or image and extracts its text. It then asks a generative model for engagement suggestions about that text. The browser polls the job until both results are in. This Dafny project models three pieces of it:

- **OCR policy** (`OcrService`, `server/src/services/ocrService.js`). A PDF whose text layer, once trimmed, has more than 5 UTF-16 code units is returned as that trimmed text. Any other PDF is rasterised. Each page image whose name starts with the PDF's stem (its base name without the extension) and ends in `.jpg` is recognised in listing order. The page texts are each followed by `"\n"` and the whole is trimmed. Anything that is not a PDF is recognised directly. The first error of any collaborator is re-thrown unchanged. The collaborators are function-typed fields of an `Engines` value:
  - reading the file and parsing its text layer;
  - poppler's conversion followed by the directory listing;
  - tesseract's `recognize`.

  A ghost trace of `Call`s records which collaborators ran, in order. `DoOcr` is the imperative rendering, with the page loop as a `for` loop in `OcrPages`. It is proved equal to the functions `Extract`/`ExtractCalls`, and the properties are proved about those functions.
- **Suggestion parsing** (`SuggestionService`, `server/src/services/suggestionService.js`). Empty or whitespace-only text gives `[]` and never reaches the model. A thrown call gives `[]`. Otherwise the reply text (missing counts as `""`) is split on `"\n"`. Each line is trimmed and blank lines are dropped.
- **Job watcher** (`Client`, `client/src/components/ResultCard.jsx`). The class `ResultCard` holds the component's five state cells and a ghost log of the toasts raised for the current job. The class `PollLoop` is one run of the polling effect. It has its own `cancelled` flag and a phase: a poll is due, a request is in flight, or it has stopped. The progress bar, the caption and the suggestions section are functions of `result`.

JavaScript's string semantics are written out in `JsStrings`:

- `trim` removes exactly ECMAScript's WhiteSpace and LineTerminator characters.
- `.length` counts UTF-16 code units.
- `split` on one character always yields at least one piece.
- Node's POSIX `path.basename` and `path.extname` (`path.posix`, the behaviour on Linux and macOS) are modelled for paths without a trailing `/`.

Three behaviours of the code differ from what its structure suggests. The model follows the code:

- The watcher stops only when the status is neither pending nor processing and `suggestionsStatus` is `"done"`. A job whose suggestions `"failed"`, or a response without `result`, is polled forever (`Client.NoResultOrFailedKeepsPolling`).
- Cancellation is read only when a poll is entered. A response that arrives after the cleanup has set `cancelled` is still applied (`Client.PollLoop.Receive`, `Client.CancelWhileInFlight`), although the cleanup exists to stop the old job's polling.
- The flags `hasStarted`, `textNotified` and `suggestionNotified` exist to show each toast once per job. As written they do not; see "## Findings".

## Model

| member | source | states |
|---|---|---|
| JsStrings.Trim | server/src/services/suggestionService.js:28 | the result starts and ends with a non-whitespace character and is no longer than the input |
| JsStrings.LeadingWhitespaceSpec | server/src/services/ocrService.js:30 | the leading count covers only whitespace and stops at the first other character |
| JsStrings.TrailingWhitespaceSpec | server/src/services/ocrService.js:30 | the trailing count covers only whitespace and stops at the last other character |
| JsStrings.TrimDecompose | server/src/services/ocrService.js:30 | the input is all-whitespace prefix + trimmed text + all-whitespace suffix |
| JsStrings.TrimUnique | server/src/services/ocrService.js:62 | trimming whitespace + a trimmed string + whitespace gives back exactly that string |
| JsStrings.TrimAllWhitespace | server/src/services/suggestionService.js:28-29 | an all-whitespace string trims to `""` |
| JsStrings.TrimOfTrimmed | server/src/services/ocrService.js:62 | a string with no outer whitespace is its own trim |
| JsStrings.TrimIdempotent | server/src/services/ocrService.js:62 | trimming twice is trimming once |
| JsStrings.TrimEmptyIff | server/src/services/suggestionService.js:5 | `s.trim()` is empty exactly when every character of `s` is whitespace |
| JsStrings.Utf16Length | server/src/services/ocrService.js:44 | the code-unit length lies between the code-point count and twice it |
| JsStrings.Utf16LengthBmp | server/src/services/ocrService.js:44 | a string's code-unit length equals its character count exactly when no character lies beyond U+FFFF, so for such text `length > 5` means more than 5 characters |
| JsStrings.StartsWith | server/src/services/ocrService.js:22 | `startsWith`: the string begins with the prefix |
| JsStrings.EndsWith | server/src/services/ocrService.js:38 | `endsWith`: the string finishes with the suffix (also the `.jpg` test of line 22) |
| JsStrings.Split | server/src/services/suggestionService.js:27 | `split` yields at least one piece and no piece contains the separator |
| JsStrings.JoinSplit | server/src/services/suggestionService.js:27 | joining the pieces of a split with the separator restores the string |
| JsStrings.SplitJoin | server/src/services/suggestionService.js:27 | splitting a join of separator-free pieces gives back the pieces |
| JsStrings.LastIndexOf | server/src/services/ocrService.js:14 | the index holds the character and no later position does, or it is -1 |
| JsStrings.BaseName | server/src/services/ocrService.js:14 | `path.basename` is the suffix of the path after its last `/`: it ends the path, holds no `/`, and is the whole path or preceded by a `/` |
| JsStrings.ExtName | server/src/services/ocrService.js:14 | `path.extname` is empty or a proper suffix of the base name that starts with `.` and holds no other `.` |
| JsStrings.ExtNameEmptyIff | server/src/services/ocrService.js:14 | the extension is empty exactly when no `.` follows the name's first character, or the name is `..` |
| JsStrings.StemSplitsPath | server/src/services/ocrService.js:14 | the path's last component is its stem followed by its extension |
| JsStrings.StemHasNoSlash | server/src/services/ocrService.js:14 | the stem holds no `/` |
| JsStrings.StemNonEmpty | server/src/services/ocrService.js:14 | a name with an extension has a non-empty stem |
| JsStrings.StemExample | server/src/services/ocrService.js:14 | `uploads/report.v2.pdf` has the stem `report.v2`: only the last extension is cut off |
| JsStrings.StemOfDotName | server/src/services/ocrService.js:14 | `uploads/.pdf` has the stem `.pdf`: a leading `.` starts no extension |
| JsStrings.Stem | server/src/services/ocrService.js:14 | `path.basename(filePath, path.extname(filePath))`, the prefix poppler gives the page images |
| JsStrings.IsWhitespace | server/src/services/suggestionService.js:28 | the characters `trim` removes: ECMAScript's WhiteSpace and LineTerminator |
| SuggestionService.CleanLines | server/src/services/suggestionService.js:28-29 | every kept line is non-empty and trimmed, and no more lines come out than went in |
| SuggestionService.CleanLinesAppend | server/src/services/suggestionService.js:28-29 | cleaning works line by line and keeps order |
| SuggestionService.ParseSuggestions | server/src/services/suggestionService.js:25-29 | every suggestion is non-empty, trimmed and holds no newline |
| SuggestionService.Generate | server/src/services/suggestionService.js:4-36 | blank input gives `[]` (the model's reply plays no part); a thrown call gives `[]`; otherwise the parse of the reply text, with a missing text counting as `""` |
| SuggestionService.SuggestionCount | server/src/services/suggestionService.js:26-31 | the number of suggestions is the number of reply lines holding a non-whitespace character |
| SuggestionService.ParseJoin | server/src/services/suggestionService.js:26-29 | a reply listing clean suggestions one per line parses back to exactly that list |
| SuggestionService.ParseIdempotent | server/src/services/suggestionService.js:26-29 | re-joining and re-parsing parsed suggestions changes nothing |
| SuggestionService.MissingReplyText | server/src/services/suggestionService.js:25 | a response without text yields no suggestions |
| SuggestionService.NoCapAtFive | server/src/services/suggestionService.js:8-31 | any number of clean reply lines comes back in full; nothing caps the list at the five the prompt asks for |
| OcrService.PageImages | server/src/services/ocrService.js:20-23 | the filtered page list is no longer than the directory listing |
| OcrService.IsPageImage | server/src/services/ocrService.js:22 | the filter: the name starts with the prefix and ends in `.jpg` |
| OcrService.ImagePath | server/src/services/ocrService.js:23 | `path.join(outputDir, f)` |
| OcrService.PageOutcomes | server/src/services/ocrService.js:56-58 | one `ocrImage` outcome per page image, the k-th being that of the k-th image |
| OcrService.PageImagesExactly | server/src/services/ocrService.js:20-23 | an image path is returned exactly when its name is listed, starts with the prefix (the PDF's stem, in `Extract`) and ends in `.jpg` |
| OcrService.PageImagesAppend | server/src/services/ocrService.js:20-23 | the filter keeps listing order |
| OcrService.Accumulate | server/src/services/ocrService.js:54-60 | each page's text followed by `"\n"`, in order; the first failing page ends the loop with its error |
| OcrService.OcrImage | server/src/services/ocrService.js:28-31 | the text is trimmed; it fails exactly when `recognize` throws, with the same error |
| OcrService.Extract | server/src/services/ocrService.js:33-74 | any returned text is trimmed |
| OcrService.DoOcr | server/src/services/ocrService.js:33-74 | returns exactly `Extract` and invokes exactly the collaborators `ExtractCalls` lists, in order |
| OcrService.OcrPages | server/src/services/ocrService.js:54-60 | the loop yields exactly `PagesText` and invokes `recognize` exactly as `PageCalls` lists |
| OcrService.PagesText | server/src/services/ocrService.js:54-60 | the page loop's text, or the error of the first page that fails |
| OcrService.AccumulateStep | server/src/services/ocrService.js:56-59 | one more recognised page appends its text and `"\n"` to the loop's text |
| OcrService.LoopCallsStep | server/src/services/ocrService.js:56-58 | one more page the loop reaches adds exactly its `recognize` call to the trace |
| OcrService.AccumulateStopAt | server/src/services/ocrService.js:56-72 | the first page that fails ends the loop with that page's error |
| OcrService.LoopCallsStopAt | server/src/services/ocrService.js:56-72 | the first page that fails is the last one recognised; no later page is |
| OcrService.AccumulateAppend | server/src/services/ocrService.js:54-60 | the loop over a concatenated page list is the loop over the first part, then, unless that threw, the loop over the second, texts concatenated |
| OcrService.LoopCallsAppend | server/src/services/ocrService.js:56-58 | the recognitions over a concatenated page list are those over the first part, then those over the second only if the first did not throw |
| OcrService.AccumulateAllOk | server/src/services/ocrService.js:54-60 | when every page is recognised, the accumulated text is the page texts joined by `"\n"` plus a final `"\n"` (`""` for no pages) |
| OcrService.AccumulateOkIff | server/src/services/ocrService.js:56-60 | the loop finishes without throwing exactly when no page's recognition fails |
| OcrService.LoopCallsShape | server/src/services/ocrService.js:56-60 | the loop recognises pages in order from the first with none skipped; every page but the last reached succeeded; all pages are reached when it does not throw, and otherwise the last reached is the failure it throws |
| OcrService.PageCallError | server/src/services/ocrService.js:28-31 | a page's `recognize` call throws exactly when its `ocrImage` outcome is a failure, with that error |
| OcrService.PageCallsFailLast | server/src/services/ocrService.js:56-60 | every `recognize` call but the last succeeded; the last one failed exactly when the loop failed |
| OcrService.ScannedRethrows | server/src/services/ocrService.js:49-72 | after a successful text-layer read and rasterisation, only a page recognition can throw, and `doOCR` throws exactly its error |
| OcrService.ErrorsRethrown | server/src/services/ocrService.js:36-74 | every collaborator call but the last succeeded; `doOCR` throws exactly the error of the last call when it fails |
| OcrService.IsPdf | server/src/services/ocrService.js:38 | the PDF branch's condition: MIME type `application/pdf` or a path ending in `.pdf` |
| OcrService.HasSelectableText | server/src/services/ocrService.js:44 | a text layer that is present, non-empty and longer than 5 UTF-16 code units once trimmed |
| OcrService.PdfBranchIff | server/src/services/ocrService.js:38 | the text layer is read exactly when the MIME type is `application/pdf` or the path ends in `.pdf`, whatever the other says |
| OcrService.FastPath | server/src/services/ocrService.js:41-47 | a text layer longer than 5 code units once trimmed is returned trimmed, and nothing is rasterised or recognised |
| OcrService.ShortTextRasterises | server/src/services/ocrService.js:44-51 | a missing or short text layer leads to rasterisation |
| OcrService.TrimNewlineEnd | server/src/services/ocrService.js:59-62 | the final trim removes the page loop's trailing newline |
| OcrService.ScannedPdfText | server/src/services/ocrService.js:49-62 | for a scanned PDF, the result is the page texts joined by newlines, in listing order (the order the directory listing returns), trimmed |
| OcrService.ScannedPdfCalls | server/src/services/ocrService.js:41-60 | for a scanned PDF, the text layer is read, then rasterisation runs, then each page is recognised once, in order |
| OcrService.ReadRasterizeThenPages | server/src/services/ocrService.js:41-58 | a trace of the read, the rasterisation and a page loop without failures lists the two, then each page once, in order |
| OcrService.PageCallsAllRecognised | server/src/services/ocrService.js:56-58 | when no recognition fails, each page is recognised once, in order |
| OcrService.ImageInput | server/src/services/ocrService.js:65-68 | a non-PDF is recognised directly and its text trimmed, with no text-layer read or rasterisation |
| Client.Progress | client/src/components/ResultCard.jsx:76-80 | 30 exactly when there is no result, 100 exactly when suggestions are done, otherwise 70 |
| Client.LoadingText | client/src/components/ResultCard.jsx:69-73 | "Extracting text..." without a result, "Generating suggestions..." until suggestions are done, then `null` |
| Client.LoadingTextNullIffComplete | client/src/components/ResultCard.jsx:69-80 | the spinner caption is gone exactly when the bar is full |
| Client.SuggestionsSection | client/src/components/ResultCard.jsx:133-143 | "Generating suggestions..." exactly when suggestions are not done; a list exactly when they are done and the result's own list is non-empty, and then that list; otherwise "No suggestions generated." |
| Client.SectionAgreesWithProgress | client/src/components/ResultCard.jsx:133-134 | the section says "Generating suggestions..." exactly when the bar is at 70 and the caption says the same |
| Client.KeepPolling | client/src/components/ResultCard.jsx:52-54 | `keepPolling`: status pending or processing, or suggestions not reported done |
| Client.StopImpliesComplete | client/src/components/ResultCard.jsx:52-56 | polling stops only on a response whose status is neither pending nor processing and which fills the bar |
| Client.NoResultOrFailedKeepsPolling | client/src/components/ResultCard.jsx:52-56 | a response without result or with failed suggestions arms another poll, whatever its status |
| Client.PollToasts | client/src/components/ResultCard.jsx:41-49 | the toasts one response raises, given the two flags as the poll reads them |
| Client.CarriesText | client/src/components/ResultCard.jsx:41 | the response has a result whose text is non-empty |
| Client.ReportsDone | client/src/components/ResultCard.jsx:46 | the response has a result whose `suggestionsStatus` is `"done"` |
| Client.SessionToasts | client/src/components/ResultCard.jsx:38-49 | the toasts of a sequence of polls when each reads the flags the previous one set |
| Client.PollToastsCount | client/src/components/ResultCard.jsx:41-49 | one response raises each guarded toast at most once, and only when its flag is clear |
| Client.SessionToastsAtMostOnce | client/src/components/ResultCard.jsx:38-49 | with flags that are real state, each toast fires once over any number of polls when some response calls for it and its flag started clear, and otherwise never |
| Client.CapturedSessionToasts | client/src/components/ResultCard.jsx:31-49 | as written: every poll reads the same captured flags |
| Client.CapturedTextToastPerPoll | client/src/components/ResultCard.jsx:31-49 | as written, "Text extracted!" fires once per text-carrying poll when the captured flag is clear, and never when it is set |
| Client.CapturedFlagsRepeatToast | client/src/components/ResultCard.jsx:31-49 | two polls with text: twice as written on a fresh card, never as written after a job change, once with real flags |
| Client.CapturedStart | client/src/components/ResultCard.jsx:22-29 | as written: the start toast depends on the `hasStarted` of the render in which `jobId` changed |
| Client.CapturedStartSkipsSecondJob | client/src/components/ResultCard.jsx:14-29 | as written, the start toast is skipped and the flag left clear when the render's `hasStarted` is set |
| Client.ResultCard.constructor | client/src/components/ResultCard.jsx:8-12 | all cells at their initial values, no toasts, invariant established |
| Client.ResultCard.Reset | client/src/components/ResultCard.jsx:14-20 | all cells back to their initial values and the toast log empty |
| Client.ResultCard.Mount | client/src/components/ResultCard.jsx:22-29 | no loop without a job id; otherwise "Processing started…" unless already shown, and a fresh live loop for this card and job |
| Client.ResultCard.Apply | client/src/components/ResultCard.jsx:36-50 | status always set; result replaced only when present; each guarded toast raised and its flag set when called for and clear; the flag/toast-count invariant kept |
| Client.ResultCard.ApplyFailure | client/src/components/ResultCard.jsx:57-60 | status `"error"`, one error toast, nothing else changed |
| Client.ResultCard.ChangeJob | client/src/components/ResultCard.jsx:14-29 | the old loop is cancelled, the card reset, and the new job started with its start toast |
| Client.PollLoop.constructor | client/src/components/ResultCard.jsx:24 | a fresh run of the effect: not cancelled, a poll due, no request sent |
| Client.PollLoop.Issue | client/src/components/ResultCard.jsx:31-34 | a cancelled loop stops without a request; a live one sends exactly one |
| Client.PollLoop.Receive | client/src/components/ResultCard.jsx:35-56 | the response is applied, cancelled or not, and another poll is armed exactly when `keepPolling` holds |
| Client.PollLoop.Fail | client/src/components/ResultCard.jsx:57-60 | status `"error"`, error toast, and the loop stops |
| Client.PollLoop.Cancel | client/src/components/ResultCard.jsx:64 | the loop is cancelled; an armed timer or awaited request is left in place |
| Client.CancelWhileInFlight | client/src/components/ResultCard.jsx:31-64 | a response that arrives after cleanup still updates the card, and the poll it arms sends nothing |

## Left out

- Logging (`console.log`/`console.error`), file reading, directory creation, poppler, tesseract, pdf-parse and the generative-model call are collaborators. The model takes their outcomes as parameters and does not model them.
- The prompt text, the model name, `temperature` and `maxOutputTokens` have no effect on parsing and are not modelled.
- Timers, React's render and effect scheduling and the HTTP client are not modelled. A loop's phase says whether a poll is due, awaited or over.
- `ImageDir` stands for the absolute directory `path.join(__dirname, "../../tmp_pdf_images")`. Its absolute form and `path.join` normalisation are not modelled.
- `JsStrings.BaseName`: paths ending in `/` are not given Node's special handling, and `\` and drive prefixes are not separators, as under `path.win32`; the model is `path.posix`.
- Files left in the image directory by other uploads are part of the listing and pass the filter when their names start with the stem.
- `Client.JobResult`: a missing or `null` `text` is represented as `""`. Both are falsy, so the model treats them the same way.
- The copy-to-clipboard button, the framer-motion animation and the rest of the markup are presentation.
- `App.jsx` and `Dropzone.jsx` are not part of this model. Neither is the job store or orchestrator that sets `status` and `suggestionsStatus`.
- Whether a `"failed"` sub-status is ever set is decided by the orchestrator. `generate` itself returns `[]` on failure and never throws (`SuggestionService.Generate`).

## Findings

| source | as written | input that shows it | evidently intended | confidence | as-written member | corrected member |
|---|---|---|---|---|---|---|
| client/src/components/ResultCard.jsx:31-65 | `poll` reads `textNotified`/`suggestionNotified` from the render in which `jobId` changed, so every poll of the job sees the same values | on a fresh card, two polls returning text with suggestions pending raise "Text extracted!" twice; after a job change on the same card, they raise it never | each toast once per job, on the first response that calls for it | high (not executed) | Client.CapturedFlagsRepeatToast | Client.SessionToastsAtMostOnce |
| client/src/components/ResultCard.jsx:14-29 | the polling effect reads `hasStarted` from the render in which `jobId` changed, which still holds the previous job's `true` | a second upload on the same card: "Processing started…" is not shown and `hasStarted` stays `false` | the start toast for every job | high (not executed) | Client.CapturedStartSkipsSecondJob | Client.ResultCard.ChangeJob |
