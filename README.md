# Document portal core: text extraction and document actions

This project models the two places in a Django document-management portal that hold real policy.

- **`extract_text_from_file`** (api/utils.py) is the text extractor that runs on every upload. It picks a branch from the file name and the MIME type: PDF, then Word (.docx, or a legacy Word file decoded as latin-1), then plain text, then a fallback that keeps decoded text only if it looks printable. Blank output becomes a fixed placeholder. An exception becomes a prefixed error string. The result is always stripped.
- **`DocumentViewSet`** (api/views.py) has two parts:
  - `perform_create`, `perform_update` and `perform_destroy` keep the stored records and the files on disk in step.
  - `ask_ai` checks the question and the stored text, then the API key. It builds a prompt that embeds both verbatim, calls the AI service and normalises the answer.

Modules:

- `Wrappers`: `Option`.
- `Text`: the Python `str` operations used. These are `isspace` with its full Unicode list, `strip`, `startswith`, `endswith`, ASCII `lower` and `"".join`.
- `Extraction`: the extractor.
  - `Extracted` is the specification function.
  - `ExtractTextFromFile` is the imperative version, with its page and paragraph loops (`PdfText`, `DocxText`). It is proved equal to `Extracted`.
  - The lemmas state each branch's result.
- `Answering`: the pure parts of `ask_ai`.
  - The question check, the suitability test and the prompt.
  - The normalisation of the AI response.
  - `AnswerQuestion`, the whole action for a document the user may see. It takes the suitability test as a parameter: `AsWritten` is the test in the source, and `Corrected` also refuses the .doc failure text (see "## Findings").
- `Documents`: the class `DocumentViewSet`.
  - It holds a record map (`records`), the set of paths on disk (`disk`), the next id and an event log.
  - `events` exists only so that the order of saving, deleting and removing files can be stated.

These become inputs:

- **Foreign libraries** are fields of `Extraction.Platform`: `mimetypes.guess_type`, UTF-8 decoding with `errors='ignore'`, and `str.isprintable`.
- **A library's result or exception**: an uploaded file carries what each library would produce from it. That is the bytes `read()` returns, the page texts of the PDF reader and the paragraph texts of the .docx reader. Each of these may instead be an exception with its message.
- **The process environment** is a map.
- **The AI service** is a function from the request it is sent to its reply.
- **A failing `os.remove`** is a boolean argument.

Behaviours of the code that are easy to misread:

- **PDF pages.** Each kept page text is followed by `"\n"` (this is not `"\n".join`). The last newline disappears in the final strip.
- **Create without a file.** `perform_create` itself stores the empty string when the request has no file. Since `file` is a required field of the `Document` model (api/models.py:9), serializer validation normally refuses such a request before `perform_create` runs; that validation is left out.
- **Default answer and block reason.** The default "did not return a text response" answer is set before the text and the parts are inspected. So the block reason replaces the answer only when the text field was non-empty but all whitespace, or, with no text or an empty one, the joined parts were blank. It never replaces the default.
- **Fallback read failure.** When reading the bytes of an unknown type raises, the fallback gives the "Could not decode" message naming the MIME type.

## Model

| member | source | states |
|---|---|---|
| Text.IsSpace | api/utils.py:57 | Python's `str.isspace` on one character: the full list of characters `strip` removes |
| Text.StartsWith | api/views.py:199 | Python's `str.startswith` |
| Text.EndsWith | api/utils.py:24 | Python's `str.endswith`, used for the suffix tests |
| Text.Lower | api/utils.py:24 | Python's `str.lower` on ASCII letters (see "## Left out") |
| Text.Concat | api/views.py:240 | Python's `"".join` of strings, in order |
| Text.IsBlank | api/utils.py:57 | `not text.strip()`: every character is whitespace |
| Text.Strip | api/utils.py:67 | the stripped text has no whitespace (Python's `isspace` set) at either end, is the part of the input between a blank front and a blank back, and is empty exactly when the input is blank |
| Text.StripIdempotent | api/utils.py:67 | stripping an already stripped result changes nothing |
| Extraction.FileName | api/utils.py:16 | the file's `name`, or "unknown_file_type" without one |
| Extraction.Falsy | api/utils.py:20 | Python truthiness of an optional string: falsy when missing or empty (also the `if page_text:` test at api/utils.py:28) |
| Extraction.ResolveMime | api/utils.py:16-21 | the MIME type is the name-based guess whenever that guess is non-empty; `content_type` is used only when the guess is empty or missing; without a `content_type` the guess stays, even when empty |
| Extraction.MimeOf | api/utils.py:16-21 | the MIME type of a file: the guess from its name, resolved against its `content_type` |
| Extraction.NameEndsWith | api/utils.py:24 | `file_name.lower().endswith(suffix)`, the suffix test of every branch |
| Extraction.RouteOf | api/utils.py:24-45 | the branch taken: PDF by MIME type or `.pdf` suffix first, then the Word types and suffixes (`.docx` names to the paragraph reader, all others to latin-1), then plain text by MIME type or `.txt` suffix, then the fallback |
| Extraction.JoinLines | api/utils.py:26-36 | the `text += x + "\n"` accumulation of a sequence of lines, as a definition; the loops are proved against it |
| Extraction.KeptPages | api/utils.py:26-29 | the texts kept from the pages, in page order; every kept text is non-empty |
| Extraction.Latin1Decode | api/utils.py:40 | latin-1 decoding keeps the length and maps each byte to the code point of the same value |
| Extraction.Latin1Encode | api/utils.py:40 | latin-1 encoding, the inverse used to state that decoding loses nothing |
| Extraction.CountsAsNonPrintable | api/utils.py:50 | the per-character test of the fallback: not printable and not one of `\n`, `\r`, `\t` |
| Extraction.NonPrintableCount | api/utils.py:50 | the count of non-printable characters never exceeds the length of the sample |
| Extraction.Sample | api/utils.py:50 | `possible_text[:500]` |
| Extraction.LooksLikeText | api/utils.py:50 | the fallback's test: fewer than 50 characters of the sample count as non-printable |
| Extraction.BranchOutcome | api/utils.py:23-55 | what the `try` body produces up to the placeholder test: each branch's text and where it came from, or the exception a library raised |
| Extraction.MimeOrUnknown | api/utils.py:55 | `mime_type or 'unknown'` |
| Extraction.UndecodableMessage | api/utils.py:55 | the f-string of the undecodable-type message, with the MIME type or "unknown" |
| Extraction.Finish | api/utils.py:57-67 | the placeholder substitution, the `except` clause's error string and the final strip |
| Extraction.Extracted | api/utils.py:5-67 | whatever the file and whatever the libraries return or raise inside the `try`, the extractor returns a string with no whitespace at either end that is never empty (the `seek` calls and the MIME guess are outside the `try`; see "## Left out") |
| Extraction.IsDiagnostic | api/utils.py:41-62 | whether the result is a diagnostic (error string, .doc failure, unsupported-type message or placeholder) rather than text from the document |
| Extraction.PdfText | api/utils.py:26-29 | the PDF loop leaves each page that has text followed by a newline, in page order, and skips pages without text |
| Extraction.DocxText | api/utils.py:35-36 | the .docx loop leaves every paragraph, empty ones included, followed by a newline, in document order |
| Extraction.ExtractTextFromFile | api/utils.py:5-67 | the imperative extractor (branch choice, accumulation loops, placeholder, `except`, final strip) returns exactly `Extracted` |
| Extraction.FinishedText | api/utils.py:57-58 | a branch's text becomes the no-content placeholder exactly when it is blank, and otherwise is returned stripped |
| Extraction.ErrorString | api/utils.py:60-62 | an exception gives a result opening with "An error occurred during text extraction:"; it is that sentence, a space and the message without its trailing whitespace when the message is not blank, and the sentence with its colon alone when it is |
| Extraction.DocFailureString | api/utils.py:41-42 | a failed `.doc` read gives a result opening with "Could not reliably extract text from .doc file:" whatever the message |
| Extraction.DiagnosticTexts | api/utils.py:38-55 | the .doc failure text comes only from a raising read and carries its message; the unrecognised and undecodable results are exactly their fixed messages, the latter naming the resolved MIME type |
| Extraction.DocumentTextKept | api/utils.py:23-67 | a result that is not a diagnostic comes from the document: the chosen branch's text, which is not blank, with only its surrounding whitespace removed |
| Extraction.PdfSuffixWins | api/utils.py:24 | a name ending in `.pdf` in any letter case takes the PDF branch whatever the MIME type |
| Extraction.PdfBranch | api/utils.py:24-29 | on the PDF branch the result is the newline-terminated texts of the pages that have text, stripped, or the placeholder if that is blank |
| Extraction.PdfTwoPages | api/utils.py:26-29 | pages "A", missing, empty, "B" give exactly "A\nB" |
| Extraction.DocxBranch | api/utils.py:30-36 | a `.docx` name (not also `.pdf`) and a MIME type other than application/pdf give every paragraph followed by a newline, stripped, or the placeholder if that is blank |
| Extraction.DocxEmptyParagraph | api/utils.py:35-36 | paragraphs "a", "", "b" give "a\n\nb": an empty paragraph keeps its line |
| Extraction.LegacyWordIsLatin1 | api/utils.py:30-40 | an msword or docx MIME type, or a `.doc` name, without a `.docx` or `.pdf` name and with a MIME type other than application/pdf, gives the latin-1 decode of the bytes (stripped, or the placeholder) |
| Extraction.Latin1RoundTrip | api/utils.py:40 | latin-1 decoding loses nothing: encoding the decoded text gives the original bytes back |
| Extraction.PlainTextBranch | api/utils.py:43-44 | the plain-text branch returns the UTF-8 decode of the contents changed only by the final strip (or the placeholder when blank) |
| Extraction.PlainTextHelloWorld | api/utils.py:43-44 | a text file decoding to "hello\nworld" extracts to exactly "hello\nworld" |
| Extraction.NonPrintableCountAppend | api/utils.py:50 | the count of non-printable characters is additive over concatenation |
| Extraction.PrintableCountsNothing | api/utils.py:50 | text made of printable characters, newlines, carriage returns and tabs counts zero |
| Extraction.TailBeyondSampleIgnored | api/utils.py:50 | characters after the first 500 never change whether the fallback accepts the text |
| Extraction.ShortTextLooksLikeText | api/utils.py:50-51 | text shorter than 50 characters is always accepted by the fallback |
| Extraction.FallbackBranch | api/utils.py:45-53 | the fallback keeps the decoded text (stripped, or the placeholder) exactly when fewer than 50 of its first 500 characters count as non-printable, and otherwise returns exactly the "not recognized as plain text" message |
| Extraction.UndecodableFinish | api/utils.py:54-55 | an undecodable unknown type gives a result opening with "Unsupported file type (" |
| Extraction.UnrecognisedFinish | api/utils.py:53 | the "not recognized" message passes the placeholder test and the strip unchanged |
| Extraction.EmptyFileGivesPlaceholder | api/utils.py:57-58 | empty contents on a byte-reading branch, a PDF without pages and a .docx without paragraphs all give exactly the no-content placeholder |
| Answering.QuestionRejected | api/views.py:186 | the question check: missing, not a string, or only whitespace |
| Answering.QuestionAccepted | api/views.py:184-187 | a question is accepted exactly when it is a string with something besides whitespace |
| Answering.UnsuitableAsWritten | api/views.py:190-199 | the suitability test as written: no text, empty text, one of the five listed messages exactly, or text opening with one of the two listed prefixes |
| Answering.Unsuitable | api/views.py:190-199 | the corrected suitability test: as written, with the .doc failure wording also a prefix |
| Answering.Refuses | api/views.py:197-199 | the suitability test the action applies, as written or corrected |
| Answering.CorrectedAddsDocFailure | api/views.py:190-199 | the corrected test refuses exactly what the test as written refuses, plus the texts opening with the .doc failure wording |
| Answering.UnsuitableCharacterised | api/views.py:190-199 | the suitability test (with the correction below) refuses exactly missing or empty text, the no-content placeholder, and text opening with the extraction-error, unsupported-type or .doc-failure wording |
| Answering.ErrorStringRefused | api/views.py:194-199 | every error string the extractor produces is refused, by the test as written and by the corrected one |
| Answering.PlaceholderAndErrorRefused | api/views.py:190-199 | every extractor output equal to the placeholder or produced by an exception is refused, by both tests |
| Answering.DocFailureOpening | api/views.py:195-199 | text opening with the .doc failure sentence and its colon passes the test as written and is refused by the corrected one |
| Answering.DocFailureStringAsWritten | api/views.py:195-199 | the .doc failure string passes the test as written for every message, and is refused by the corrected one |
| Answering.DocFailureEscapesAsWritten | api/views.py:195-199 | a Word file whose read raises yields text that the test as written accepts |
| Answering.UndecodableRefused | api/views.py:193-199 | the undecodable-type message is refused for every MIME type, not only for "unknown", by the test as written and by the corrected one |
| Answering.UnrecognisedRefused | api/views.py:192-198 | the unrecognised-content result is refused, by the test as written and by the corrected one |
| Answering.DiagnosticsRefused | api/views.py:190-203 | with the correction, every diagnostic the extractor returns in place of document text is refused |
| Answering.BuildPrompt | api/views.py:216-230 | the prompt f-string with the document text and the question filled in |
| Answering.PromptHeadShape | api/views.py:216-224 | the prompt's fixed opening carries the exact refusal sentence and ends with the `---` line above the document text |
| Answering.PromptEmbedsVerbatim | api/views.py:216-230 | the prompt is the fixed opening, the document text verbatim, the closing `---` line and "User's Question: ", the question verbatim, and "Answer:" |
| Answering.PromptDeterminesEach | api/views.py:224-228 | with the question fixed, different texts give different prompts; with the text fixed, different questions do |
| Answering.PartTexts | api/views.py:238 | the collected `text` values: raising exactly when some part's `text` raises; empty exactly when no part has a `text`; holding `None` exactly when some part's `text` is `None` |
| Answering.JoinTexts | api/views.py:240 | `"".join` of the collected values raises (`TypeError`) exactly when one of them is `None` |
| Answering.JoinTextsInOrder | api/views.py:240 | joining values that are all strings is the in-order concatenation of those strings |
| Answering.PartTextsOfStrings | api/views.py:238 | parts that each carry a string give exactly those strings, in order |
| Answering.PartsOutcome | api/views.py:237-240 | the `parts` step: no joined text, a failure, or the joined text |
| Answering.HasText | api/views.py:235 | the response's `text` is present and non-empty, as `hasattr(ai_response, 'text') and ai_response.text` |
| Answering.CascadeAnswer | api/views.py:234-240 | the answer before the block fallback is missing (the source raises) exactly when reading `text` raises, or when without a non-empty `text` reading `parts` raises or some part's `text` raises or is `None`; an answer is always stripped |
| Answering.TextFieldFirst | api/views.py:235-236 | a `text` field that is not blank decides the answer: its stripped value |
| Answering.CarriedTexts | api/views.py:238 | the strings carried by the parts that have a `text`, in order |
| Answering.AbsentPartSkipped | api/views.py:238 | a part without `text`, wherever it stands, changes nothing in the collected texts |
| Answering.PartTextsOfCarried | api/views.py:238 | when each part has no `text` or a string one, the collected texts are exactly the carried strings, in order |
| Answering.PartsWithTextJoinedInOrder | api/views.py:234-240 | without a usable `text`, when at least one part carries a string and the others have none, the answer is the carried strings joined in order and stripped |
| Answering.PartsJoinedInOrder | api/views.py:237-240 | without a usable `text`, parts that each carry a string give those strings joined in order and stripped |
| Answering.DefaultWhenNoText | api/views.py:234-240 | without a `text`, and with no `parts` or no part carrying a `text`, exactly the fixed default answer |
| Answering.EmptyCascade | api/views.py:234-240 | the answer is empty before the fallback exactly when the text field, or failing it the joined parts, held only whitespace |
| Answering.Blocked | api/views.py:243 | the second half of the fallback test: a `prompt_feedback` is present and its `block_reason` is non-empty |
| Answering.BlockedAnswer | api/views.py:244 | the block message with `block_reason_message`, or `block_reason` when the message is empty |
| Answering.NormalisedAnswer | api/views.py:234-244 | the answer the action returns: the cascade, with the block message in place of an empty answer when a block reason is set |
| Answering.BlockReasonOnlyWhenEmpty | api/views.py:243-244 | the block reason replaces the answer exactly when the answer is empty at that point and a block reason is set |
| Answering.Getenv | api/views.py:206 | `os.getenv`: the variable's value, or `None` when it is not set |
| Answering.ModelName | api/views.py:212 | `GEMINI_MODEL_NAME`, or "gemini-1.5-flash-latest" when it is not set |
| Answering.AnswerQuestion | api/views.py:184-256 | for either suitability test, the AI service is sent a request only when the question is accepted, the test does not refuse the text and a key is set, and then exactly the key, the model name and the prompt built from the text and the question; the status is 200 exactly for an answer body |
| Answering.BadQuestionRejectedFirst | api/views.py:184-187 | a rejected question gets a 400 with its message and no call, whatever the text, key or service |
| Answering.UnsuitableTextRejected | api/views.py:197-203 | text the test refuses gets a 400 carrying the text, before the key is read or the service is called |
| Answering.MissingKeyRejected | api/views.py:205-209 | a missing or empty API key gets a 500 with the unavailable message and no call |
| Answering.CalledIffChecksPass | api/views.py:184-232 | for either test, the service is called exactly when all three checks pass |
| Answering.ResponseAfterCall | api/views.py:232-256 | after the call, a failure or an unreadable response is the generic 500 error, and otherwise a 200 with the normalised answer, the question and the document id |
| Answering.RefusalPassesThrough | api/views.py:219-251 | a service replying with the prompt's refusal sentence has that sentence returned to the user |
| Answering.DocFailureSentAsWritten | api/views.py:186-232 | with the test as written, an accepted question and a set key send the text of a failed `.doc` read to the AI service, in the prompt |
| Documents.CreatedText | api/views.py:102-104 | the text a create stores: the extractor's result for the upload, or "" without one |
| Documents.UpdatedText | api/views.py:125-133 | `extracted_text_to_save`: the old text, the new file's text, or "" when the file is cleared |
| Documents.UpdatedFile | api/views.py:136-139 | the record's file after the save: unchanged, cleared, or the new upload's path |
| Documents.RemovesOldFile | api/views.py:142-148 | the removal test after an update's save, as written (the `if` and `file_effectively_changed`) |
| Documents.RemovalRule | api/views.py:141-148 | after an update the old file is up for removal exactly when there was one and the file was cleared or replaced by one at a different path |
| Documents.UpdatedTextRule | api/views.py:124-139 | an update keeps the old text with no `file` key, stores "" when the file is cleared, and stores the new file's extracted (stripped, non-empty) text otherwise |
| Documents.DiagnosticNeverSent | api/views.py:190-203 | with the corrected test, text stored from an upload that produced only a diagnostic is never sent to the AI service |
| Documents.DocumentViewSet.constructor | api/views.py:70-83 | the service starts with no records, no files and an empty log |
| Documents.DocumentViewSet.PerformCreate | api/views.py:92-111 | a new record under a fresh id, owned by the user, with the upload's path and its extracted text ("" without an upload); the file is stored before the record is saved; nothing else changes |
| Documents.DocumentViewSet.RemoveIfOnDisk | api/views.py:149-153 | a path on disk is removed unless the removal fails, which is logged and changes nothing; records are never touched |
| Documents.DocumentViewSet.SaveUpdate | api/views.py:119-139 | the record gets the new title, the updated file and the updated text; a new upload is stored before the save |
| Documents.DocumentViewSet.PerformUpdate | api/views.py:113-153 | the save, then at most one removal of the old path, only when the removal rule holds and the path is on disk; a failed removal changes nothing; the file the record now refers to is never removed |
| Documents.DocumentViewSet.PerformDestroy | api/views.py:156-173 | the record is deleted first, then its file is removed if on disk; a failed removal leaves the record deleted and the disk unchanged |
| Documents.DocumentViewSet.AskAi | api/views.py:176-203 | a missing document or one owned by someone else is not found and nothing is sent; for either test, the service is only ever sent text of one of the user's own documents that the test does not refuse, with the question verbatim; one of the user's own documents gets exactly the action's answer for its stored text |

## Left out

- I/O side effects are not modelled. These are `file_obj.seek`, `print` logging, `load_dotenv` and the process environment apart from the two variables read.
- Extraction.Extracted: the `seek` calls (api/utils.py:12-13, 63-66) and `mimetypes.guess_type` (api/utils.py:17) lie outside the `except` and could raise out of the extractor. The model takes them as never raising, so "never empty, always stripped" covers only the exceptions raised inside the `try`.
- The PDF reader failing and one page failing are not told apart: either makes the whole PDF `Raised`. The outer `except` replaces any partly read text, so the result is the same.
- `mimetypes.guess_type`, UTF-8 decoding with `errors='ignore'` and `str.isprintable` are abstract functions. Nothing is stated about their results.
- `Text.Lower`, `str.lower()`: modelled on ASCII letters only. That is exact for the suffix tests, since no other character lowers to a letter of `.pdf`, `.docx`, `.doc` or `.txt`.
- A `content_type` attribute equal to `None` is treated like a missing one. Both give a MIME type that behaves like no type at all.
- `getattr(file_obj, 'name', ...)` returning `None` is not modelled. File objects always have a string name or none.
- `get_object` and `get_queryset` are modelled only in `AskAi`, as "the id exists and the user owns it". `PerformUpdate` and `PerformDestroy` take an id already looked up: they require only that the record exists, and the framework's owner-scoped lookup (api/views.py:79-83) is not modelled for them. The 404 response body, the ordering by upload time and the DRF permission checks are left out.
- `genai.configure` and `genai.GenerativeModel` raising is part of the service call failing (`CallFailed`). There is only one exception handler around them.
- A `prompt_feedback` attribute that is present but `None` is not modelled. Reading `block_reason` on it would raise, and `prompt_feedback` is taken as always a record when present.
- How the storage names uploaded files is not modelled. The stored path of an upload is an input (`Upload.storedAt`). Files deleted by someone else between calls are also out of scope.
- Serializer validation is not modelled, including the refusal of a create without a file (`file` is a required model field). Fields other than the title and the file are not modelled either. Authentication views, serializers and URL routing are not part of this model.
- The truthiness of an uploaded file object is modelled as `Option`: an upload is either given or not.
- Documents.DiagnosticNeverSent: states the corrected test only. With the test as written it fails for the .doc failure text, as `Answering.DocFailureSentAsWritten` shows.
- `ai_response.text` is taken to be a string when present. A non-string value is not modelled.

## Findings

| source | as written | input that shows it | evidently intended | confidence | as-written member | corrected member |
|---|---|---|---|---|---|---|
| api/views.py:195-199 | "Could not reliably extract text from .doc file" is tested only for equality. The extractor's .doc failure text always goes on with ": " and the exception message, so it never equals the list entry and does not open with either listed prefix. | a `.doc` upload whose `read()` raises with message `x` stores "Could not reliably extract text from .doc file: x", which is then sent to the AI service | refuse the .doc failure text like the other diagnostics, by testing its opening words | not executed | Answering.UnsuitableAsWritten, Answering.DocFailureEscapesAsWritten, Answering.DocFailureSentAsWritten | Answering.Unsuitable, Answering.DiagnosticsRefused, Documents.DiagnosticNeverSent |
