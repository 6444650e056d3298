# Resume upload, storage and extraction

This project models the resume-file pipeline of the CVANT-AI resume builder in
Dafny. It covers four parts:

- **The uploader component** (`ResumeUploader`, mixed). It checks the chosen
  file's type and size. Before storing a new blob it deletes the old one, then
  records the new blob on the resume document. A PDF then gets an automatic
  parse, and the "Parse CV" button starts another. As written, the automatic
  parse always stops at a job-description guard, and the button stops there
  while the job-description text area is blank (see "Findings"). A parse merges the
  extracted record into the edit form and persists it. The delete handler
  removes the blob and clears the record.
- **The storage helpers** (`Appwrite`, mixed):
  - the stored-file name `<id>.<extension>`, where the extension is what
    `split('.').pop()` returns;
  - the create-then-update upload and the returned record;
  - the delete.
- **The two database actions** (`UploadActions`, imperative):
  - recording the uploaded-file sub-record on a resume document;
  - clearing that sub-record.

  Each is a method on a `ResumeTable` class. The class holds the document
  map and the list of revalidated paths. Each method is proved against a pure
  outcome function.
- **The extraction server function** (`ParseActions`, pure):
  - one model call with the stored PDF;
  - the cleanup chain: three anchored fence removals with exactly
    ECMAScript's `\s` and `trim` semantics;
  - a JSON parse;
  - every failure becomes "no result".

Every collaborator is a parameter that either succeeds or fails: the blob
store, the database, the HTTP fetch, the model, `JSON.parse`, and the
resume-list persistence calls. The component's parameters are bundled per
handler run in `ResumeUploader.Env`.

The component keeps a `trace` of the calls it issues, in order. The calls
are blob delete, blob upload, save info, remove info, extract, add
skills/experience/education, and update profile. Most ordering properties
are stated over this trace.

The code makes promises it does not keep, and the model follows the code:

- The uploader's text promises that PDF resumes are parsed automatically
  (components/layout/my-resume/ResumeUploader.tsx:337 and :458). But
  `parseResume` returns before the extractor when its job description is
  missing or blank (lines 70-73). The automatic parse passes only the file id
  (line 262), so it never extracts. The "Parse CV" button passes the text
  area (line 362), which starts empty (line 51) and is labelled optional
  (line 410). The handlers `HandleFileChange`, `UploadAccepted`,
  `RecordUpload` and `ParseCv` model this behaviour. The versions named
  `...Intended` model the parse without the guard. See "Findings".
- The job description never reaches the extractor.
  `parseResumeWithGemini` takes only the file id
  (lib/actions/parse.actions.ts:37-39), and the extra argument at line 76 is
  ignored. A comment in the delete handler (lines 286-287) only contemplates
  passing it.
- After a successful parse, the code first sets the seven scalar form
  fields. Then it sets and persists each non-empty list (skills, experience,
  education). The profile update comes last.

## Model

| member | source | states |
|---|---|---|
| ParseActions.TrimStart | lib/actions/parse.actions.ts:99-100 | what `\s*` after an opener consumes: the result is no longer and does not start with whitespace (TrimStartRemovesSpace states that only a whitespace prefix goes) |
| ParseActions.TrimEnd | lib/actions/parse.actions.ts:101-102 | the whitespace run before a closing fence or at the end: the result is no longer and does not end with whitespace |
| ParseActions.Trim | lib/actions/parse.actions.ts:102 | the result has whitespace (ECMAScript `\s`) at neither end and is no longer than the input |
| ParseActions.TrimRemovesOnlySpace | lib/actions/parse.actions.ts:102 | the input is whitespace, then the trimmed text, then whitespace: trimming removes nothing else |
| ParseActions.TrimIdempotent | lib/actions/parse.actions.ts:102 | trimming twice gives the same text as trimming once |
| ParseActions.TrimEmptyIffAllSpace | lib/actions/parse.actions.ts:102 | trimming leaves the empty text exactly when the text is all whitespace |
| ParseActions.StripOpening | lib/actions/parse.actions.ts:99-100 | text that does not start with the opener is kept; otherwise the opener and the whitespace after it go, so the result does not start with whitespace |
| ParseActions.StripClosing | lib/actions/parse.actions.ts:101 | text that does not end with a fence is kept; otherwise the fence and the whitespace before it go, so the result does not end with whitespace |
| ParseActions.CleanResponse | lib/actions/parse.actions.ts:98-102 | the cleaned text is trimmed and never longer than the model's text |
| ParseActions.CleanUnfenced | lib/actions/parse.actions.ts:98-102 | text that neither starts nor ends with a fence is only trimmed |
| ParseActions.CleanJsonFenced | lib/actions/parse.actions.ts:99-102 | a body wrapped in a "```json" fence, with any whitespace around it, cleans to the bare body, and the bare body cleans to itself |
| ParseActions.CleanPlainFenced | lib/actions/parse.actions.ts:100-102 | a non-empty trimmed body that starts with neither a backtick nor 'j' and does not end with a fence, wrapped in a bare "```" fence with whitespace around it, cleans to the body (a body starting with "json" would match the other opener) |
| ParseActions.EmptyJsonFence | lib/actions/parse.actions.ts:99-102 | a fence holding only whitespace cleans to the empty text |
| ParseActions.FenceBeforeTrailingNewlineSurvives | lib/actions/parse.actions.ts:101 | the closing-fence pattern is anchored at the very end, so a fence followed by a newline is kept (only the newline is trimmed) |
| ParseActions.OnlyOneClosingFenceRemoved | lib/actions/parse.actions.ts:101 | a doubled closing fence loses only its last fence |
| ParseActions.ParseResumeWithGemini | lib/actions/parse.actions.ts:37-117 | at most one model request, made exactly when the download succeeds, with model "gemini-2.0-flash", MIME type application/pdf and the downloaded bytes; a result exists only when the model answered and the cleaned reply parsed; when the download and the model call succeed, the result is the parse of the cleaned reply |
| ParseActions.ExtractionNullOnFailure | lib/actions/parse.actions.ts:104-116 | a failed download, a failed model call or a reply that does not parse each yield `null` |
| ParseActions.ExtractionIgnoresFence | lib/actions/parse.actions.ts:97-106 | a reply wrapped in a "```json" fence yields the same extraction as the same reply without it |
| Appwrite.Split | lib/appwrite.ts:24 | `split` on one character yields at least one piece (JoinSplit and FileExtensionIsLastSegment state what the pieces are) |
| Appwrite.JoinSplit | lib/appwrite.ts:24 | joining the pieces of `split` with the separator gives back the name |
| Appwrite.FileExtensionIsLastSegment | lib/appwrite.ts:24 | the extension holds no dot; it is the text after the last dot, or the whole name when there is no dot |
| Appwrite.FileExtension | lib/appwrite.ts:24 | has no contract of its own: it is the last piece of `Split` on '.'; FileExtensionIsLastSegment states its meaning |
| Appwrite.StoredFileName | lib/appwrite.ts:23-25 | has no contract of its own: the fresh id, a dot and the extension; StoredNameKeepsExtension states its meaning |
| Appwrite.ExtensionAfterLastDot | lib/appwrite.ts:24 | a name that ends with a dot followed by a dot-free text has that text as its extension |
| Appwrite.DotlessNameIsItsExtension | lib/appwrite.ts:24 | a name without a dot is its own extension |
| Appwrite.TrailingDotGivesEmptyExtension | lib/appwrite.ts:24 | a name ending in a dot has the empty extension |
| Appwrite.StoredNameKeepsExtension | lib/appwrite.ts:23-25 | `base.ext` is stored as `id.ext`, whatever dots the base holds |
| Appwrite.FileExtensionExamples | lib/appwrite.ts:24-25 | "resume" has extension "resume", "resume." has "", "a.b.pdf" has "pdf" |
| Appwrite.Bucket.CreateFile | lib/appwrite.ts:28-32 | the call is logged; on success the file is stored with no update argument, under the requested id, and that id is answered; a rejected call or an id in use leaves the files unchanged |
| Appwrite.Bucket.UpdateFile | lib/appwrite.ts:35-40 | the call is logged; on success only the stored update argument of that file changes; a missing file is not found |
| Appwrite.Bucket.DeleteFile | lib/appwrite.ts:74 | the call is logged; on success exactly that file is gone; a missing file is not found |
| Appwrite.UploadFile | lib/appwrite.ts:21-53 | create first; update the file with the argument "user:<id>" only after a successful create; on failure the error is rethrown and no record is returned (a created file stays stored when setting access fails); the record holds the answered id, `<id>.<extension>`, the original name, the size and the type |
| Appwrite.DeleteFile | lib/appwrite.ts:72-80 | one delete call; `true` exactly when it succeeded, and then only that file is removed; otherwise the error is rethrown and nothing changes |
| UploadActions.UploadInfoOutcome | lib/actions/upload.actions.ts:7-43 | has no contract of its own: the answer and the collection after `updateResumeUploadInfo`; SuccessOnlyAfterSave, UnknownResumeChangesNothing and UploadInfoReplacesOnlyTheSubRecord state its meaning |
| UploadActions.RemoveOutcome | lib/actions/upload.actions.ts:45-66 | has no contract of its own: the answer and the collection after `removeUploadedResume`; SuccessOnlyAfterSave, RemoveClearsOnlyTheSubRecord and RemoveIsIdempotent state its meaning |
| UploadActions.ResumeTable.UpdateResumeUploadInfo | lib/actions/upload.actions.ts:7-43 | the answer and the new collection are those of the outcome function; no path is revalidated |
| UploadActions.ResumeTable.RemoveUploadedResume | lib/actions/upload.actions.ts:45-66 | the answer and the new collection are those of the outcome function; the path is revalidated exactly when the action succeeds |
| UploadActions.UnknownResumeChangesNothing | lib/actions/upload.actions.ts:20-24 | both actions answer "Resume not found" for an unknown resume and change nothing, unless the connection or the lookup already threw |
| UploadActions.SuccessOnlyAfterSave | lib/actions/upload.actions.ts:17-65 | for both actions: success exactly when nothing threw and the resume exists; a failure leaves the collection unchanged and carries the exception's message, or the not-found text when the lookup found nothing |
| UploadActions.UploadInfoReplacesOnlyTheSubRecord | lib/actions/upload.actions.ts:27-38 | on success the sub-record becomes the five fields plus the save time; the other fields and documents are untouched; the saved document is returned |
| UploadActions.RemoveClearsOnlyTheSubRecord | lib/actions/upload.actions.ts:56-57 | removal clears only the sub-record of that document |
| UploadActions.RemoveIsIdempotent | lib/actions/upload.actions.ts:45-66 | removing twice gives the same answer and collection as removing once |
| UploadActions.RemoveUndoesUploadInfo | lib/actions/upload.actions.ts:27-57 | recording then removing leaves what removing alone leaves |
| ResumeUploader.Validate | components/layout/my-resume/ResumeUploader.tsx:201-223 | a file is refused for its type exactly when it is neither PDF nor DOCX; it is refused for size exactly when it is allowed but over 5 MiB (5 MiB itself is accepted) |
| ResumeUploader.DisplayUnit | components/layout/my-resume/ResumeUploader.tsx:61-65 | bytes exactly below 1024; megabytes exactly from 1048576 |
| ResumeUploader.DisplayUnitMonotone | components/layout/my-resume/ResumeUploader.tsx:61-65 | a larger size never shows in a smaller unit; a size shown in kilobytes has a whole-kilobyte quotient between 1 and 1023 |
| ResumeUploader.PersistPlan | components/layout/my-resume/ResumeUploader.tsx:128-169 | has no contract of its own: the persistence calls a parsed record asks for; PersistPlanShape states its meaning |
| ResumeUploader.Issued | components/layout/my-resume/ResumeUploader.tsx:128-189 | has no contract of its own: the calls made from a plan when the first throw ends the run; IssuedIsPrefix and IssuedPlan state its meaning |
| ResumeUploader.MergeParsed | components/layout/my-resume/ResumeUploader.tsx:79-169 | has no contract of its own: the form after a merge. MergedListsAreIssued and MergeWhenNothingThrows state its meaning for the three lists; the seven text fields, each set to the parsed value or "" (lines 79-125), are stated only by its definition |
| ResumeUploader.PersistPlanShape | components/layout/my-resume/ResumeUploader.tsx:128-169 | exactly the lists with items are appended, in the order skills, experience, education; the raw profile update comes last, once |
| ResumeUploader.IssuedIsPrefix | components/layout/my-resume/ResumeUploader.tsx:128-189 | the calls made are a prefix of the plan; none before the last threw; a run that stopped early ended at a call that threw |
| ResumeUploader.IssuedPlan | components/layout/my-resume/ResumeUploader.tsx:128-189 | the calls made are the plan cut just after the first list append that throws; the run completes exactly when no call throws |
| ResumeUploader.IssuedAllWhenNothingThrows | components/layout/my-resume/ResumeUploader.tsx:128-169 | when no call throws, every planned call is made |
| ResumeUploader.MergedListsAreIssued | components/layout/my-resume/ResumeUploader.tsx:128-156 | a parsed list reaches the form exactly when its append call is made |
| ResumeUploader.MergeWhenNothingThrows | components/layout/my-resume/ResumeUploader.tsx:79-169 | with no failures, every list with items replaces the form's list and the others stay |
| ResumeUploader.OnlyExperienceScenario | components/layout/my-resume/ResumeUploader.tsx:128-169 | empty skills and one experience entry give one experience append, then the profile update |
| ResumeUploader.StorageCalls | components/layout/my-resume/ResumeUploader.tsx:228-234 | has no contract of its own: the storage calls an accepted upload makes (delete, then create, then access update, each only after the previous succeeded); the upload handlers state the bucket log with it |
| ResumeUploader.UploadTraceOrder | components/layout/my-resume/ResumeUploader.tsx:228-247 | the old blob is deleted before the upload, the upload comes before the database save, and a failed delete issues nothing more |
| ResumeUploader.StaleRecordBlocksReplacement | components/layout/my-resume/ResumeUploader.tsx:228-231 | a record whose blob is gone makes every later replacement fail at its delete |
| ResumeUploader.IsBlank | components/layout/my-resume/ResumeUploader.tsx:70 | a job description is blank exactly when it is missing or all whitespace |
| ResumeUploader.Uploader.constructor | components/layout/my-resume/ResumeUploader.tsx:41-58 | the component starts with the given file, no busy flag, an empty job description and an empty trace; parsing is enabled unless the caller turns it off |
| ResumeUploader.Uploader.SetJobDescription | components/layout/my-resume/ResumeUploader.tsx:416 | the text area sets the job description |
| ResumeUploader.Uploader.MergeParsedResume | components/layout/my-resume/ResumeUploader.tsx:79-169 | the calls issued are those the plan allows before the first throw; the form is the merged form; failure is reported exactly when some planned call throws |
| ResumeUploader.Uploader.ExtractionIsAttempted | components/layout/my-resume/ResumeUploader.tsx:75-76 | an extraction run first calls the extractor on the file, and it never reports "skipped" |
| ResumeUploader.Uploader.AutomaticParseNeverExtracts | components/layout/my-resume/ResumeUploader.tsx:70-73 | with no job description, the parse as written returns before any call and changes nothing |
| ResumeUploader.Uploader.ParseResumeAsWritten | components/layout/my-resume/ResumeUploader.tsx:67-193 | a blank job description means nothing happens; otherwise the effect is an extraction run; the parsing flag is cleared in every case |
| ResumeUploader.Uploader.ParseResume | components/layout/my-resume/ResumeUploader.tsx:75-192 | an extraction run: one extraction call; for no record, nothing else; for a record, the persistence calls up to the first that throws and the merged form, reported as parsed or failed; the flag is cleared |
| ResumeUploader.Uploader.StoreBlob | components/layout/my-resume/ResumeUploader.tsx:228-234 | the recorded blob is deleted first (only a non-empty id); the upload happens only if the delete succeeded; the bucket and the record returned are as the storage helpers state |
| ResumeUploader.Uploader.HandleFileChange | components/layout/my-resume/ResumeUploader.tsx:195-281 | no file, a wrong type or an oversize file changes nothing; an accepted file has the full upload effect with the automatic parse as written (no extraction), and the bucket log gains exactly the storage calls made |
| ResumeUploader.Uploader.UploadAccepted | components/layout/my-resume/ResumeUploader.tsx:225-281 | the effect of an accepted upload stage by stage, with the automatic parse as written: bucket and its log, collection, recorded file, trace, form and outcome |
| ResumeUploader.Uploader.UploadAcceptedIntended | components/layout/my-resume/ResumeUploader.tsx:225-281 | the same effect with the corrected automatic parse: a saved PDF with parsing enabled runs an extraction of the new file |
| ResumeUploader.Uploader.RecordUpload | components/layout/my-resume/ResumeUploader.tsx:236-263 | the save is requested with the stored record; the file is shown only after a successful save; a saved PDF with parsing enabled calls `parseResume(id)` with no job description, which returns at its guard |
| ResumeUploader.Uploader.RecordUploadIntended | components/layout/my-resume/ResumeUploader.tsx:236-263 | the same, except that a saved PDF with parsing enabled runs an extraction of the new file |
| ResumeUploader.Uploader.FailedSaveStrandsRecord | components/layout/my-resume/ResumeUploader.tsx:228-270 | when the save fails after a replacement, the old blob is gone but still recorded, and the next replacement fails at its delete |
| ResumeUploader.Uploader.NoExtractionUnlessSavedPdf | components/layout/my-resume/ResumeUploader.tsx:249-263 | a non-PDF, an unsaved upload or disabled parsing issues no extraction and leaves the form alone |
| ResumeUploader.Uploader.UploadAsWrittenNeverExtracts | components/layout/my-resume/ResumeUploader.tsx:249-263 | as written, an upload issues only its storage and database calls, never an extraction, and leaves the form alone; a saved PDF with parsing enabled reports the automatic parse as skipped |
| ResumeUploader.Uploader.SavedPdfIsExtracted | components/layout/my-resume/ResumeUploader.tsx:261-263 | with the corrected parse, a saved PDF with parsing enabled calls the extractor on the new file right after its own calls |
| ResumeUploader.Uploader.HandleDeleteFile | components/layout/my-resume/ResumeUploader.tsx:283-328 | nothing without a file; otherwise the storage delete, and the database removal only after a successful delete; the record is cleared and the path revalidated exactly when both succeed |
| ResumeUploader.Uploader.ParseCv | components/layout/my-resume/ResumeUploader.tsx:357-363 | the button runs `parseResume` as written with the text area's content: nothing happens while it is blank, otherwise an extraction run of the recorded PDF |
| ResumeUploader.Uploader.ParseCvIntended | components/layout/my-resume/ResumeUploader.tsx:357-363 | with the corrected parse, the button runs an extraction of the recorded PDF whatever the text area holds |

## Left out

- The prompt text, the base64 encoding, the model client and its API key are
  not modelled. The model is a function from a request (model name, MIME type,
  bytes) to an optional reply.
- `JSON.parse` and the unchecked cast to the record shape are a parsing
  oracle. Every field of the parsed record is optional.
- `getFileViewUrl`, `getFileDownloadUrl` and `fetch` are not modelled. A
  download function stands in for them: it maps a file id to optional bytes.
- Dates are plain numbers, given per run: one for the browser, one for the
  server.
- `ID.unique()` is modelled as a given id. The model requires that the id is
  not in use.
- Toasts, console output, the markup, `onUploadComplete`, the file-input
  reset and the configuration and environment values are not modelled.
- `revalidatePath` is modelled as a log of paths. `connectToDB`, the lookup
  and the save are modelled as a fault parameter that names where the database
  throws.
- The functions in `resume.actions` (the list appends and `updateResume`) are
  not part of this model. Their calls are trace events, and an oracle says
  which of them throw.
- `handleInputChange` is not part of this model. The form state is a record.
  Only the form at the end of a parse run is modelled. The renders between
  the awaited append calls (ResumeUploader.tsx:135, 145 and 155) are not
  modelled, and each `handleInputChange` call is assumed to build on the
  latest form.
- Concurrency is not modelled. The busy flags only disable the buttons, so
  each handler is taken as one sequential run from an idle state.
- The storage service's behaviour is fixed by a few choices the code does not
  show:
  - deleting a missing file fails with "not found";
  - the argument of `storage.updateFile` (`user:<id>`, lib/appwrite.ts:35-40)
    is stored as given and kept opaque. Whether the service reads that
    positional argument as a permission or as the file's new name is not
    verified, and the model takes no side.
- A replacement through the rendered markup is not modelled. The file input
  exists only while no file is recorded (ResumeUploader.tsx:341 and 427-435).
  So the Replace button (lines 381-383) finds no input to click, and
  `handleFileChange` only ever sees no recorded file. The model lets an upload
  start with a recorded file. It therefore reaches the delete-before-upload
  branch (lines 229-231), and with it the scenarios of FailedSaveStrandsRecord
  and StaleRecordBlocksReplacement, which the rendered component cannot reach
  as written.
- ResumeUploader.DisplayUnit: only the unit is modelled. The number with one
  decimal and the unit text are not modelled, because they involve floating
  point.

## Findings

| source | as written | input that shows it | evidently intended | confidence | as-written member | corrected member |
|---|---|---|---|---|---|---|
| components/layout/my-resume/ResumeUploader.tsx:70-73 | `parseResume` returns before the extractor when the job description is missing or blank. The automatic parse after an upload (line 262) passes no job description, so it never extracts. The "Parse CV" button does nothing while the optional text area is empty. | Any accepted PDF upload with parsing enabled. The upload is saved; the parse then returns at the guard, and the form and trace are unchanged. | The extraction runs whether or not a job description is given. The text area is labelled optional (line 410), the uploader promises automatic parsing of PDFs (lines 337 and 458), and the extractor does not take the text. | high, not executed | ResumeUploader.Uploader.ParseResumeAsWritten, ResumeUploader.Uploader.AutomaticParseNeverExtracts, ResumeUploader.Uploader.RecordUpload, ResumeUploader.Uploader.UploadAsWrittenNeverExtracts, ResumeUploader.Uploader.ParseCv | ResumeUploader.Uploader.ParseResume, ResumeUploader.Uploader.RecordUploadIntended, ResumeUploader.Uploader.UploadAcceptedIntended, ResumeUploader.Uploader.SavedPdfIsExtracted, ResumeUploader.Uploader.ParseCvIntended |
