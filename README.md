# CnuAiDocReviewer submission review workflow, in Dafny

This project models the core of the CnuAiDocReviewer backend: a student uploads a PDF for a
document type, the submission goes through an automated (OCR + rules + LLM) review, and an
administrator approves or rejects it. It also models the rule-based decision part of the OCR
service that produces the automated verdict.

Modules, one file each:

- `Common` (common.dfy): `Option`, `Result` and the error kinds (`BadRequest`, `NotFound`,
  `Conflict`, `Forbidden`, `IllegalArgument`, `Security`, `FileRead`, ...).
- `Text`, `Utf8`, `UrlCodec`, `JavaUri`, `Paths`: the Java library behaviour the services rely
  on — `String.trim`/`split`/`lastIndexOf`/`toUpperCase`, UTF-8, `URLEncoder`/`URLDecoder`,
  `URI.getPath`, and `Path.resolve(..).normalize()`/`startsWith`.
- `Domain`: the seven submission statuses, the four history actions, and the records of the
  database (submission, history entry, submission file, field value, document type, required
  field, original file, deadline).
- `Storage` (FileStorageService): stored-name sanitising, the path guard, URL building,
  `deleteByUrl`, `readBytes`, `getFilename`, over a `FileStore` class holding the disk.
- `Database`: the `Db` class whose fields are the tables; every service method computes in
  locals and commits only on success, which is how a rolled-back transaction is modelled.
- `Lifecycle`: the status state machine and the guards of each transition.
- `Deadlines` (DeadlineService), `DocTypes` (DocTypeService), `Submissions` (SubmissionService),
  `AdminReview` (AdminSubmissionService), `ReviewTransaction` (ReviewTransactionService),
  `Orchestrator` (SubmissionReviewOrchestrator), `SubmissionController`.
- `OcrDecision`: `count_sections`, the normalisation of the LLM output and the verdict/findings
  derivation of `review_document` in ocr_pipeline.py.

The after-commit hand-off of `SubmissionCreatedEvent` is an outbox: `create` appends the event
to the database's pending list as part of its commit, and `Orchestrator.DeliverNext` takes one
event off the list and runs the bot review for it. Today's date and the current time are
parameters; the disk is a `FileStore` object that a database rollback does not undo.

## Model

| member | source | states |
|---|---|---|
| Storage.StoredName | CnuAiDocReviewer-Backend/src/main/java/com/cnu/docserver/docmanger/service/FileStorageService.java:32-36 | the stored name is never empty, is at most 255 characters and holds no '/' or '\'; it is "unknown" for a blank last segment, otherwise the suffix of that segment of length min(length, 255), so the whole segment when it fits and its last 255 characters when it does not |
| Storage.Shorten | CnuAiDocReviewer-Backend/src/main/java/com/cnu/docserver/docmanger/service/FileStorageService.java:35-36 | a blank name becomes "unknown"; otherwise the result is the suffix of length min(length, 255), so a long name keeps exactly its last 255 characters and a short one is unchanged; no separator is introduced |
| Storage.LastSegment | CnuAiDocReviewer-Backend/src/main/java/com/cnu/docserver/docmanger/service/FileStorageService.java:32-34 | the part of the client name after its last '/' or '\' contains neither separator |
| Storage.GetFilename | CnuAiDocReviewer-Backend/src/main/java/com/cnu/docserver/docmanger/service/FileStorageService.java:86-95 | null gives "upload.bin"; otherwise the text after the last '/' is URL-decoded, and kept raw when decoding throws |
| Storage.FileStore.SaveInto | CnuAiDocReviewer-Backend/src/main/java/com/cnu/docserver/docmanger/service/FileStorageService.java:28-48 | a target outside the directory throws and writes nothing; a write failure becomes "파일 저장 실패: …" and writes nothing; otherwise exactly the target file gets the upload and the URL is the prefix plus the encoded stored name |
| Storage.FileStore.SaveFor | CnuAiDocReviewer-Backend/src/main/java/com/cnu/docserver/docmanger/service/FileStorageService.java:18-25 | `save`/`saveSubmission` are `saveInto` on the owner's `uploads/<area>/<id>` directory with URL prefix `/uploads/<area>/<id>/`, with the same three outcomes |
| Storage.FileStore.DeleteByUrl | CnuAiDocReviewer-Backend/src/main/java/com/cnu/docserver/docmanger/service/FileStorageService.java:50-62 | null or a URL outside "/uploads/" changes nothing; a URL that does not decode throws and changes nothing; otherwise the designated file is removed only when it lies under the upload directory, and nothing else changes |
| Storage.DeleteTarget | CnuAiDocReviewer-Backend/src/main/java/com/cnu/docserver/docmanger/service/FileStorageService.java:51-59 | a file is deleted only for a "/uploads/" URL that decodes to a path under the upload directory |
| Storage.DeleteOutcome | CnuAiDocReviewer-Backend/src/main/java/com/cnu/docserver/docmanger/service/FileStorageService.java:50-62 | `deleteByUrl` throws only when the rest of a "/uploads/" URL fails to decode or to parse as a path, and never when it deletes |
| Storage.AfterDelete | CnuAiDocReviewer-Backend/src/main/java/com/cnu/docserver/docmanger/service/FileStorageService.java:50-62 | deleting only removes files, keeps the bytes of the files left, removes the target and leaves the disk unchanged when there is no target |
| Storage.ReadBytes | CnuAiDocReviewer-Backend/src/main/java/com/cnu/docserver/docmanger/service/FileStorageService.java:65-83 | the bytes are returned exactly when the URL starts with "/uploads/", resolves to a path inside the upload directory and that file exists, and they are that file's bytes; a null URL or one outside "/uploads/" is a FileReadException |
| Storage.OwnerDirPlain | CnuAiDocReviewer-Backend/src/main/java/com/cnu/docserver/docmanger/service/FileStorageService.java:18-25 | an owner directory is three plain names under `uploads` |
| Storage.SaveTargetConfined | CnuAiDocReviewer-Backend/src/main/java/com/cnu/docserver/docmanger/service/FileStorageService.java:38-39 | the path guard rejects exactly ".." (SecurityException "Invalid path") and names holding NUL; an accepted target lies inside the owner directory, directly under it for a plain name |
| Storage.LocateSavedUrl | CnuAiDocReviewer-Backend/src/main/java/com/cnu/docserver/docmanger/service/FileStorageService.java:42-44 | decoding the URL `saveInto` returns designates the file it wrote (URL encoding round trip) |
| Storage.ReadAfterSave | CnuAiDocReviewer-Backend/src/main/java/com/cnu/docserver/docmanger/service/FileStorageService.java:65-83 | reading through the returned URL after a save gives back the bytes written |
| Storage.FilenameOfSavedUrl | CnuAiDocReviewer-Backend/src/main/java/com/cnu/docserver/docmanger/service/FileStorageService.java:86-95 | `getFilename` of a saved URL gives back the stored name |
| Storage.FilenameOfEncoded | CnuAiDocReviewer-Backend/src/main/java/com/cnu/docserver/docmanger/service/FileStorageService.java:88-91 | after any '/'-terminated prefix, `getFilename` inverts the name encoding |
| Storage.DeleteTargetOfSaved | CnuAiDocReviewer-Backend/src/main/java/com/cnu/docserver/docmanger/service/FileStorageService.java:50-62 | `deleteByUrl` of a saved URL removes exactly the file that save wrote |
| Storage.ReuploadLosesFile | CnuAiDocReviewer-Backend/src/main/java/com/cnu/docserver/submission/service/SubmissionService.java:263-282 | as written, saving a new upload under an unchanged stored name and then deleting the old URL leaves the URL unreadable |
| Storage.ReplacedHolds | CnuAiDocReviewer-Backend/src/main/java/com/cnu/docserver/submission/service/SubmissionService.java:263-282 | the corrected replacement holds the new bytes at the target and keeps every other file except the previous one |
| Storage.ReplacedFresh | CnuAiDocReviewer-Backend/src/main/java/com/cnu/docserver/submission/service/SubmissionService.java:263-282 | with no previous URL, a replacement only writes the new file |
| Storage.ReplacedAgrees | CnuAiDocReviewer-Backend/src/main/java/com/cnu/docserver/submission/service/SubmissionService.java:263-282 | the corrected replacement has the same disk effect as the one as written exactly when the previous URL does not designate the file just written |
| Storage.ReplacedReadsBack | CnuAiDocReviewer-Backend/src/main/java/com/cnu/docserver/submission/service/SubmissionService.java:263-282 | after the corrected replacement, the returned URL reads back the uploaded bytes whatever the previous URL was |
| Domain.StatusValueOf | CnuAiDocReviewer-Backend/src/main/java/com/cnu/docserver/submission/controller/SubmissionController.java:202 | `SubmissionStatus.valueOf` yields a status exactly when the key is that status's name |
| Lifecycle.VerdictStatus | CnuAiDocReviewer-Backend/src/main/java/com/cnu/docserver/ocr/ReviewTransactionService.java:53-79 | PASS and only PASS records SUBMITTED, REJECT and only REJECT records REJECTED, NEEDS_FIX and any unrecognised verdict record NEEDS_FIX |
| Lifecycle.Guards | CnuAiDocReviewer-Backend/src/main/java/com/cnu/docserver/submission/service/SubmissionService.java:130-194 | update is allowed exactly in DRAFT and REJECTED, submit (either mode) exactly in DRAFT, REJECTED and NEEDS_FIX, approve and reject exactly in the four reviewable statuses, and a bot failure always leads to NEEDS_FIX |
| Lifecycle.NextKeepsSettled | CnuAiDocReviewer-Backend/src/main/java/com/cnu/docserver/submission/service/SubmissionService.java:154-194 | no committed operation leaves a submission in DRAFT or UNDER_REVIEW |
| Lifecycle.RunStaysSettled | CnuAiDocReviewer-Backend/src/main/java/com/cnu/docserver/submission/service/AdminSubmissionService.java:142-168 | by induction, any sequence of operations keeps a settled status settled |
| Lifecycle.DecidedIsClosed | CnuAiDocReviewer-Backend/src/main/java/com/cnu/docserver/submission/service/AdminSubmissionService.java:43-49 | an APPROVED submission can be moved only by the automated review, never by a student or an admin |
| Lifecycle.LateVerdictOverridesApproval | CnuAiDocReviewer-Backend/src/main/java/com/cnu/docserver/ocr/ReviewTransactionService.java:42-66 | an admin may approve while the bot review is pending, and a verdict arriving afterwards replaces APPROVED with a non-approved status |
| Lifecycle.FinalSubmitWaits | CnuAiDocReviewer-Backend/src/main/java/com/cnu/docserver/submission/service/SubmissionService.java:154-194 | a FINAL submit parks the submission in BOT_REVIEW, where the student can neither update nor submit it again |
| Deadlines.ByDocType | CnuAiDocReviewer-Backend/src/main/java/com/cnu/docserver/deadline/service/DeadlineService.java:50-64 | a missing document type is an error; otherwise the row carries the id and title, and the deadline exactly when one is stored |
| Deadlines.DocTypesIn | CnuAiDocReviewer-Backend/src/main/java/com/cnu/docserver/deadline/service/DeadlineService.java:35 | the department's document types, each exactly once, in id order |
| Deadlines.ByDepartment | CnuAiDocReviewer-Backend/src/main/java/com/cnu/docserver/deadline/service/DeadlineService.java:31-47 | a missing department is an error; otherwise one row per document type of the department, in id order, each equal to the single lookup |
| Deadlines.RegisterOrUpdateDeadline | CnuAiDocReviewer-Backend/src/main/java/com/cnu/docserver/deadline/service/DeadlineService.java:69-84 | succeeds exactly for an existing document type and a null or future deadline; on success only that type's deadline changes, on failure nothing does |
| Deadlines.DeleteDeadlineByDocTypeId | CnuAiDocReviewer-Backend/src/main/java/com/cnu/docserver/deadline/service/DeadlineService.java:88-93 | fails exactly for a missing document type; otherwise removes that type's deadline, if any, and nothing else |
| Deadlines.LookupAfterRegister | CnuAiDocReviewer-Backend/src/main/java/com/cnu/docserver/deadline/service/DeadlineService.java:69-84 | after registering, the single lookup returns the registered deadline and other types' lookups are unchanged |
| Deadlines.LookupAfterDelete | CnuAiDocReviewer-Backend/src/main/java/com/cnu/docserver/deadline/service/DeadlineService.java:88-93 | after deleting, the lookup shows no deadline, and deleting twice is the same as once |
| ReviewTransaction.VerdictOf | CnuAiDocReviewer-Backend/src/main/java/com/cnu/docserver/ocr/ReviewTransactionService.java:53-79 | a recognised branch is taken exactly for the words PASS, NEEDS_FIX and REJECT; every other text takes the default branch |
| ReviewTransaction.VerdictRecognition | CnuAiDocReviewer-Backend/src/main/java/com/cnu/docserver/ocr/ReviewTransactionService.java:49 | each verdict word is recognised, the verdict is read case-insensitively (ASCII lower case gives the same branch), and a null verdict is unrecognised |
| ReviewTransaction.Listed | CnuAiDocReviewer-Backend/src/main/java/com/cnu/docserver/ocr/ReviewTransactionService.java:63-65 | the memo lists the first min(n, 10) findings, in order |
| ReviewTransaction.ActionFor | CnuAiDocReviewer-Backend/src/main/java/com/cnu/docserver/ocr/ReviewTransactionService.java:53-79 | the history action is REJECTED exactly for a REJECT verdict, MODIFIED otherwise |
| ReviewTransaction.VerdictEntries | CnuAiDocReviewer-Backend/src/main/java/com/cnu/docserver/ocr/ReviewTransactionService.java:82-118 | every entry added belongs to the reviewed submission |
| ReviewTransaction.VerdictEntriesShape | CnuAiDocReviewer-Backend/src/main/java/com/cnu/docserver/ocr/ReviewTransactionService.java:82-118 | one verdict entry, plus an OCR_DETAIL entry exactly when detail recording is on and serialisation succeeds; no admin; the pass memo exactly for PASS, the failure prefix otherwise |
| ReviewTransaction.UpdateSubmissionStatus | CnuAiDocReviewer-Backend/src/main/java/com/cnu/docserver/ocr/ReviewTransactionService.java:42-122 | a missing submission is NOT_FOUND with no change; otherwise the verdict's status and entries are committed together and the tables stay valid |
| ReviewTransaction.SaveAsNeedsFix | CnuAiDocReviewer-Backend/src/main/java/com/cnu/docserver/ocr/ReviewTransactionService.java:127-141 | a missing submission is NOT_FOUND with no change; otherwise the status becomes NEEDS_FIX and one MODIFIED entry with the memo is added |
| ReviewTransaction.RecordedValid | CnuAiDocReviewer-Backend/src/main/java/com/cnu/docserver/ocr/ReviewTransactionService.java:42-122 | recording a verdict keeps the tables' invariants |
| ReviewTransaction.MarkedNeedsFixValid | CnuAiDocReviewer-Backend/src/main/java/com/cnu/docserver/ocr/ReviewTransactionService.java:127-141 | recording a failure keeps the tables' invariants |
| ReviewTransaction.RecordedEffect | CnuAiDocReviewer-Backend/src/main/java/com/cnu/docserver/ocr/ReviewTransactionService.java:42-122 | the reviewed submission gets the verdict's status and its history grows by exactly the verdict entries; other submissions and their histories are untouched |
| ReviewTransaction.MarkedNeedsFixEffect | CnuAiDocReviewer-Backend/src/main/java/com/cnu/docserver/ocr/ReviewTransactionService.java:127-141 | the submission becomes NEEDS_FIX with exactly one new entry; other submissions are untouched |
| ReviewTransaction.NeedsFixMemoFindings | CnuAiDocReviewer-Backend/src/main/java/com/cnu/docserver/ocr/ReviewTransactionService.java:61-66 | each of the first ten findings appears in the NEEDS_FIX memo, and findings past the tenth do not change it |
| ReviewTransaction.NeedsFixMemoReason | CnuAiDocReviewer-Backend/src/main/java/com/cnu/docserver/ocr/ReviewTransactionService.java:61-71 | without findings, the NEEDS_FIX memo is the failure prefix plus the reason (or "사유 미기재"), the same as the REJECT memo |
| Orchestrator.FirstLine | CnuAiDocReviewer-Backend/src/main/java/com/cnu/docserver/ocr/SubmissionReviewOrchestrator.java:80-84 | null gives ""; otherwise a prefix with no line break that is either the whole message or stops exactly at its first '\n' |
| Orchestrator.RunBotReview | CnuAiDocReviewer-Backend/src/main/java/com/cnu/docserver/ocr/SubmissionReviewOrchestrator.java:41-78 | a missing submission escapes as NOT_FOUND and a missing file row is skipped, neither changing anything; a read failure or a failed reviewer call commits NEEDS_FIX with the matching memo; a reply commits the verdict transaction |
| Orchestrator.DeliverNext | CnuAiDocReviewer-Backend/src/main/java/com/cnu/docserver/ocr/SubmissionReviewOrchestrator.java:35-39 | the oldest committed creation event is consumed and its submission always exists; the review then commits, on the tables without that event, exactly what `runBotReview` commits: no change without a file, the NEEDS_FIX record for a read or call failure, the verdict record for a reply |
| Orchestrator.FailureMemos | CnuAiDocReviewer-Backend/src/main/java/com/cnu/docserver/ocr/SubmissionReviewOrchestrator.java:66-77 | every failure memo starts with "자동 검토 실패: "; a read failure names its message, a call failure is an "OCR 호출 오류", and a system error keeps only one line |
| Orchestrator.ReviewLeavesNoDeadEnd | CnuAiDocReviewer-Backend/src/main/java/com/cnu/docserver/ocr/SubmissionReviewOrchestrator.java:64-76 | after a review the submission has left BOT_REVIEW and either an admin can decide it or the student can submit it again |
| Submissions.EnsureNotPastDeadline | CnuAiDocReviewer-Backend/src/main/java/com/cnu/docserver/submission/service/SubmissionService.java:218-226 | the only error the deadline check raises is "마감일이 지났습니다." |
| Submissions.DeadlineGate | CnuAiDocReviewer-Backend/src/main/java/com/cnu/docserver/submission/service/SubmissionService.java:218-226 | with a deadline set, the check passes exactly when today is not after it; without one (no row or a null date) it always passes |
| Submissions.ParseFields | CnuAiDocReviewer-Backend/src/main/java/com/cnu/docserver/submission/service/SubmissionService.java:331-352 | null or blank input is the empty list, and every failure is "fieldsJson 파싱 실패" |
| Submissions.QuotedLikeBare | CnuAiDocReviewer-Backend/src/main/java/com/cnu/docserver/submission/service/SubmissionService.java:336-339 | wrapping the JSON in one pair of double or single quotes does not change what is parsed |
| Submissions.LoneQuoteRejected | CnuAiDocReviewer-Backend/src/main/java/com/cnu/docserver/submission/service/SubmissionService.java:337-338 | a lone quote character is a parse failure |
| Submissions.ByName | CnuAiDocReviewer-Backend/src/main/java/com/cnu/docserver/submission/service/SubmissionService.java:298-304 | the index holds exactly the defined fields with a non-blank name, each under its own name |
| Submissions.ByNameLastWins | CnuAiDocReviewer-Backend/src/main/java/com/cnu/docserver/submission/service/SubmissionService.java:299-303 | among fields sharing a name, the last one defined is the one indexed |
| Submissions.IndexByName | CnuAiDocReviewer-Backend/src/main/java/com/cnu/docserver/submission/service/SubmissionService.java:298-304 | the loop builds exactly that index |
| Submissions.InputRow | CnuAiDocReviewer-Backend/src/main/java/com/cnu/docserver/submission/service/SubmissionService.java:307-326 | an accepted input has a non-blank trimmed label and a value; the row keeps both and links the defined field of that name exactly when there is one; otherwise the error is "label required" or "value required" |
| Submissions.RowsMeaning | CnuAiDocReviewer-Backend/src/main/java/com/cnu/docserver/submission/service/SubmissionService.java:306-328 | the rows are built exactly when every input is accepted, one per input in order; otherwise the error is that of the first rejected input |
| Submissions.BuildRows | CnuAiDocReviewer-Backend/src/main/java/com/cnu/docserver/submission/service/SubmissionService.java:306-328 | the loop computes those rows or that first error |
| Submissions.RowsFrom | CnuAiDocReviewer-Backend/src/main/java/com/cnu/docserver/submission/service/SubmissionService.java:306-328 | one step of that loop: an accepted input extends the rows, a rejected one ends with its error |
| Submissions.OtherRows | CnuAiDocReviewer-Backend/src/main/java/com/cnu/docserver/submission/service/SubmissionService.java:291 | deleting a submission's field values keeps exactly the rows of other submissions |
| Submissions.RowsOwned | CnuAiDocReviewer-Backend/src/main/java/com/cnu/docserver/submission/service/SubmissionService.java:288-329 | every row built belongs to the submission being saved |
| Submissions.ReadFieldRows | CnuAiDocReviewer-Backend/src/main/java/com/cnu/docserver/submission/service/SubmissionService.java:288-329 | parsing and building the rows against the document type's fields, as the specification function says |
| Submissions.UpsertFileAsWritten | CnuAiDocReviewer-Backend/src/main/java/com/cnu/docserver/submission/service/SubmissionService.java:263-287 | as written: save the upload, then delete the previous URL whatever it designates |
| Submissions.UpsertFile | CnuAiDocReviewer-Backend/src/main/java/com/cnu/docserver/submission/service/SubmissionService.java:263-287 | corrected: save the upload, then delete the previous file only when it is not the one just written; failures of the save are reported and change nothing |
| Submissions.CommitCreate | CnuAiDocReviewer-Backend/src/main/java/com/cnu/docserver/submission/service/SubmissionService.java:92-120 | commits the created submission and keeps the tables valid |
| Submissions.CreatedValid | CnuAiDocReviewer-Backend/src/main/java/com/cnu/docserver/submission/service/SubmissionService.java:92-120 | creation keeps the tables' invariants |
| Submissions.CreatedEffect | CnuAiDocReviewer-Backend/src/main/java/com/cnu/docserver/submission/service/SubmissionService.java:92-120 | a fresh id is added in BOT_REVIEW with its submission time and file, and its creation event is queued |
| Submissions.CreatedHistory | CnuAiDocReviewer-Backend/src/main/java/com/cnu/docserver/submission/service/SubmissionService.java:111 | the new submission's history is exactly one SUBMITTED entry "학생 제출" |
| Submissions.NoHistoryYet | CnuAiDocReviewer-Backend/src/main/java/com/cnu/docserver/submission/service/SubmissionService.java:98 | the next id has no history yet |
| Submissions.FirstEntry | CnuAiDocReviewer-Backend/src/main/java/com/cnu/docserver/submission/service/SubmissionService.java:229-238 | the first entry written for a new id is its whole history |
| Submissions.Create | CnuAiDocReviewer-Backend/src/main/java/com/cnu/docserver/submission/service/SubmissionService.java:74-123 | a missing document type, a passed deadline or a missing file (BAD_REQUEST) fail in that order with no change; any failure leaves the tables unchanged; a refused stored name or a failed write is the error and leaves the disk unchanged; once the file is written, refused field rows are the error and the written file stays on disk, and accepted rows make the request succeed; success commits the new submission in BOT_REVIEW and writes exactly its file to disk |
| Submissions.CommitUpdate | CnuAiDocReviewer-Backend/src/main/java/com/cnu/docserver/submission/service/SubmissionService.java:136-147 | commits the update and keeps the tables valid |
| Submissions.UpdatedEffect | CnuAiDocReviewer-Backend/src/main/java/com/cnu/docserver/submission/service/SubmissionService.java:136-147 | statuses are untouched; the submission's field values are exactly the new rows when given, other submissions' rows and files are untouched, and one "학생 수정(임시 저장)" entry is added exactly when something changed |
| Submissions.UpdatedValid | CnuAiDocReviewer-Backend/src/main/java/com/cnu/docserver/submission/service/SubmissionService.java:136-147 | updating keeps the tables' invariants |
| Submissions.ReplaceIfPresent | CnuAiDocReviewer-Backend/src/main/java/com/cnu/docserver/submission/service/SubmissionService.java:136-139 | it succeeds exactly for a missing or empty file or an accepted name with no write error; a missing or empty file touches nothing and gives no URL; otherwise a refused name or a failed write leaves the disk as it was and is the error, and a written file replaces the previous one on disk and gives the submission's file URL; the replacement is the corrected one, which differs from the source only on a same-name re-upload (see Left out) |
| Submissions.ReadGivenRows | CnuAiDocReviewer-Backend/src/main/java/com/cnu/docserver/submission/service/SubmissionService.java:140-143 | missing or blank field JSON gives no rows; otherwise the result is the parse of the fields or its error, and every row read belongs to the submission |
| Submissions.Update | CnuAiDocReviewer-Backend/src/main/java/com/cnu/docserver/submission/service/SubmissionService.java:130-149 | a missing submission is NOT_FOUND and a status other than DRAFT or REJECTED is a CONFLICT, both with no change; failures leave the tables unchanged; a given file replaces the previous one on disk, by the corrected replacement (see Left out); once the file step succeeds, a given but refused field list is that error and anything else succeeds; success commits the new URL and rows and returns the summary |
| Submissions.CommitSubmit | CnuAiDocReviewer-Backend/src/main/java/com/cnu/docserver/submission/service/SubmissionService.java:166-190 | commits the submission and keeps the tables valid |
| Submissions.SubmitMemoDistinct | CnuAiDocReviewer-Backend/src/main/java/com/cnu/docserver/submission/service/SubmissionService.java:174-179 | two memos are equal exactly when the modes agree and both or neither are resubmissions after REJECTED or NEEDS_FIX |
| Submissions.SubmittedEffect | CnuAiDocReviewer-Backend/src/main/java/com/cnu/docserver/submission/service/SubmissionService.java:166-190 | the new status is the lifecycle's for the mode, the time is recorded, one SUBMITTED entry with the memo is added, and nothing else changes |
| Submissions.SubmittedValid | CnuAiDocReviewer-Backend/src/main/java/com/cnu/docserver/submission/service/SubmissionService.java:166-190 | submitting keeps the tables' invariants |
| Submissions.Submit | CnuAiDocReviewer-Backend/src/main/java/com/cnu/docserver/submission/service/SubmissionService.java:154-194 | the checks in the source's order: NOT_FOUND, CONFLICT, mode required, deadline passed, each with no change; otherwise the submission is committed and summarised |
| AdminReview.RequireReviewable | CnuAiDocReviewer-Backend/src/main/java/com/cnu/docserver/submission/service/AdminSubmissionService.java:172-190 | NOT_FOUND for a missing submission, CONFLICT outside the four reviewable statuses, and otherwise the submission marked UNDER_REVIEW |
| AdminReview.RejectMemo | CnuAiDocReviewer-Backend/src/main/java/com/cnu/docserver/submission/service/AdminSubmissionService.java:165 | the memo is "반려 사유: " followed by the reason, or "사유 미기재" when there is none |
| AdminReview.DecidedEffect | CnuAiDocReviewer-Backend/src/main/java/com/cnu/docserver/submission/service/AdminSubmissionService.java:142-168 | the decided status is the lifecycle's for approve or reject, the submission time and every other table are untouched, and exactly one entry naming the admin is added to that submission's history |
| AdminReview.DecidedValid | CnuAiDocReviewer-Backend/src/main/java/com/cnu/docserver/submission/service/AdminSubmissionService.java:142-168 | a decision keeps the tables' invariants |
| AdminReview.CommitDecision | CnuAiDocReviewer-Backend/src/main/java/com/cnu/docserver/submission/service/AdminSubmissionService.java:149-152 | commits the decision and keeps the tables valid |
| AdminReview.Decide | CnuAiDocReviewer-Backend/src/main/java/com/cnu/docserver/submission/service/AdminSubmissionService.java:142-168 | `approve`/`reject`: NOT_FOUND, CONFLICT and FORBIDDEN (no admin row) in that order, each with no change; otherwise APPROVED with "승인 처리되었습니다." or REJECTED with the reject memo is committed and summarised |
| AdminReview.ResolveAdminName | CnuAiDocReviewer-Backend/src/main/java/com/cnu/docserver/submission/service/AdminSubmissionService.java:99-106 | "학생/시스템" for no admin; the member's name when known; otherwise the admin id, or "관리자" exactly when that is missing too |
| AdminReview.ExtractFileName | CnuAiDocReviewer-Backend/src/main/java/com/cnu/docserver/submission/service/AdminSubmissionService.java:108-124 | null or a blank URL gives null |
| AdminReview.ExtractFileNameAgrees | CnuAiDocReviewer-Backend/src/main/java/com/cnu/docserver/submission/service/AdminSubmissionService.java:108-124 | for a URL with no query, no backslash and no trailing '/', the detail view's file name is the one `getFilename` gives |
| AdminReview.ExtractFileNameOfSaved | CnuAiDocReviewer-Backend/src/main/java/com/cnu/docserver/submission/service/AdminSubmissionService.java:108-124 | the detail view shows the stored name of a saved file |
| AdminReview.ExtractFileNameOfEncoded | CnuAiDocReviewer-Backend/src/main/java/com/cnu/docserver/submission/service/AdminSubmissionService.java:112-120 | after a plain '/'-terminated prefix, the file name extraction inverts the name encoding |
| AdminReview.DownloadFile | CnuAiDocReviewer-Backend/src/main/java/com/cnu/docserver/submission/service/AdminSubmissionService.java:216-234 | NOT_FOUND for a missing submission or a missing file row; on success the data are the bytes `readBytes` returns and the file name is never blank |
| AdminReview.DownloadOfSaved | CnuAiDocReviewer-Backend/src/main/java/com/cnu/docserver/submission/service/AdminSubmissionService.java:225-233 | downloading a saved file returns its bytes under its stored name ("submission-<id>" if that were blank) |
| AdminReview.DecodeSavedUrl | CnuAiDocReviewer-Backend/src/main/java/com/cnu/docserver/submission/service/AdminSubmissionService.java:228 | decoding a whole saved URL gives "/uploads/" followed by the owner's relative directory and the stored name |
| AdminReview.ParseSavedPath | CnuAiDocReviewer-Backend/src/main/java/com/cnu/docserver/submission/service/AdminSubmissionService.java:229 | that decoded URL is the absolute path whose last name is the stored name |
| DocTypes.PairsMeaning | CnuAiDocReviewer-Backend/src/main/java/com/cnu/docserver/docmanger/service/DocTypeService.java:256-272 | one pair per non-blank name, in order, the i-th named entry paired with the example at the same index (null when examples run out) |
| DocTypes.BuildFieldPairs | CnuAiDocReviewer-Backend/src/main/java/com/cnu/docserver/docmanger/service/DocTypeService.java:256-272 | the loop builds exactly those pairs, a null list read as empty |
| DocTypes.NewFields | CnuAiDocReviewer-Backend/src/main/java/com/cnu/docserver/docmanger/service/DocTypeService.java:173-178 | one new required field per pair, with consecutive fresh ids, the document type, the name and the example |
| DocTypes.NameMap | CnuAiDocReviewer-Backend/src/main/java/com/cnu/docserver/docmanger/service/DocTypeService.java:189-194 | the name-to-example map holds only non-blank names and every non-blank name given |
| DocTypes.NameMapKeys | CnuAiDocReviewer-Backend/src/main/java/com/cnu/docserver/docmanger/service/DocTypeService.java:189-194 | every key of the map is one of the names given |
| DocTypes.NameMapLastWins | CnuAiDocReviewer-Backend/src/main/java/com/cnu/docserver/docmanger/service/DocTypeService.java:189-194 | for a repeated name, the example of its last occurrence wins |
| DocTypes.BuildNameMap | CnuAiDocReviewer-Backend/src/main/java/com/cnu/docserver/docmanger/service/DocTypeService.java:189-194 | the loop builds exactly that map |
| DocTypes.Keep | CnuAiDocReviewer-Backend/src/main/java/com/cnu/docserver/docmanger/service/DocTypeService.java:196-221 | a field that survives the sync keeps its id, document type and name |
| DocTypes.KeptMembers | CnuAiDocReviewer-Backend/src/main/java/com/cnu/docserver/docmanger/service/DocTypeService.java:196-221 | the surviving fields are exactly the kept images of the current fields |
| DocTypes.KeptIdsDistinct | CnuAiDocReviewer-Backend/src/main/java/com/cnu/docserver/docmanger/service/DocTypeService.java:196-221 | field ids stay distinct through the sync |
| DocTypes.AddedNames | CnuAiDocReviewer-Backend/src/main/java/com/cnu/docserver/docmanger/service/DocTypeService.java:207-218 | the names added are exactly the given non-blank names not already defined, each once |
| DocTypes.AddedFields | CnuAiDocReviewer-Backend/src/main/java/com/cnu/docserver/docmanger/service/DocTypeService.java:207-223 | one new field per added name, with fresh consecutive ids and its example from the map |
| DocTypes.SyncWith | CnuAiDocReviewer-Backend/src/main/java/com/cnu/docserver/docmanger/service/DocTypeService.java:181-224 | the sync fails (Duplicate key) exactly when the document type's current fields repeat a name |
| DocTypes.SyncedOwn | CnuAiDocReviewer-Backend/src/main/java/com/cnu/docserver/docmanger/service/DocTypeService.java:181-224 | after the sync, the document type's fields are the kept fields followed by the added ones |
| DocTypes.SyncedExamples | CnuAiDocReviewer-Backend/src/main/java/com/cnu/docserver/docmanger/service/DocTypeService.java:181-224 | after the sync, every field of the document type carries the example given for its name |
| DocTypes.SyncedNames | CnuAiDocReviewer-Backend/src/main/java/com/cnu/docserver/docmanger/service/DocTypeService.java:181-224 | after the sync, the document type's field names are exactly the non-blank names given |
| DocTypes.SyncedOthers | CnuAiDocReviewer-Backend/src/main/java/com/cnu/docserver/docmanger/service/DocTypeService.java:181-224 | the sync leaves other document types' fields untouched |
| DocTypes.KeptOthers | CnuAiDocReviewer-Backend/src/main/java/com/cnu/docserver/docmanger/service/DocTypeService.java:196-201 | deleting the dropped fields leaves other document types' fields untouched |
| DocTypes.SyncedValid | CnuAiDocReviewer-Backend/src/main/java/com/cnu/docserver/docmanger/service/DocTypeService.java:181-224 | the sync keeps the tables' invariants |
| DocTypes.UpsertFileAsWritten | CnuAiDocReviewer-Backend/src/main/java/com/cnu/docserver/docmanger/service/DocTypeService.java:228-253 | as written: save the upload, delete the previous URL, and on a throwing deletion delete the new file and rethrow |
| DocTypes.UpsertFile | CnuAiDocReviewer-Backend/src/main/java/com/cnu/docserver/docmanger/service/DocTypeService.java:228-253 | corrected: the same, except that the previous file is not deleted when it is the file just saved |
| DocTypes.ReadOriginal | CnuAiDocReviewer-Backend/src/main/java/com/cnu/docserver/docmanger/service/DocTypeService.java:161-166 | a null or blank URL is 404 "파일 URL이 없습니다."; any other URL is read from the store |
| DocTypes.UpsertedReadsBack | CnuAiDocReviewer-Backend/src/main/java/com/cnu/docserver/docmanger/service/DocTypeService.java:228-253 | after a successful corrected upsert, the returned URL is the saved one and reads back the uploaded bytes |
| DocTypes.UpsertedFailureClean | CnuAiDocReviewer-Backend/src/main/java/com/cnu/docserver/docmanger/service/DocTypeService.java:248-251 | a failed upsert only removes files and leaves the other files' bytes unchanged |
| DocTypes.UpsertedAgrees | CnuAiDocReviewer-Backend/src/main/java/com/cnu/docserver/docmanger/service/DocTypeService.java:228-253 | once the file is written, the corrected upsert has the same URL, exception and disk effect as the one as written exactly when the previous URL does not designate the file just saved |
| DocTypes.ReuploadLosesOriginal | CnuAiDocReviewer-Backend/src/main/java/com/cnu/docserver/docmanger/service/DocTypeService.java:228-253 | as written, re-uploading under the same stored name reports success but the recorded URL no longer reads |
| DocTypes.UpsertedDropsPrevious | CnuAiDocReviewer-Backend/src/main/java/com/cnu/docserver/docmanger/service/DocTypeService.java:233-238 | a successful replacement deletes the previous file, so its URL no longer reads |
| DocTypes.ReadGone | CnuAiDocReviewer-Backend/src/main/java/com/cnu/docserver/docmanger/service/DocTypeService.java:161-166 | a URL whose file was deleted cannot be read |
| DocTypes.RegisteredValid | CnuAiDocReviewer-Backend/src/main/java/com/cnu/docserver/docmanger/service/DocTypeService.java:35-59 | registration keeps the tables' invariants |
| DocTypes.RegisteredFields | CnuAiDocReviewer-Backend/src/main/java/com/cnu/docserver/docmanger/service/DocTypeService.java:35-59 | the new document type's fields are exactly the new fields built from the pairs, and other types' fields are untouched |
| DocTypes.DocTypeUpdatedValid | CnuAiDocReviewer-Backend/src/main/java/com/cnu/docserver/docmanger/service/DocTypeService.java:62-83 | an update keeps the tables' invariants |
| DocTypes.CommitRegister | CnuAiDocReviewer-Backend/src/main/java/com/cnu/docserver/docmanger/service/DocTypeService.java:43-57 | commits the registration and keeps the tables valid |
| DocTypes.CommitDocTypeUpdate | CnuAiDocReviewer-Backend/src/main/java/com/cnu/docserver/docmanger/service/DocTypeService.java:73-82 | commits the new title, the file row and the synced fields, and keeps the tables valid |
| DocTypes.UploadedUrl | CnuAiDocReviewer-Backend/src/main/java/com/cnu/docserver/docmanger/service/DocTypeService.java:54-57 | no file, or an empty one, records no URL |
| DocTypes.DiskAfterUpload | CnuAiDocReviewer-Backend/src/main/java/com/cnu/docserver/docmanger/service/DocTypeService.java:54-57 | no file, or an empty one, leaves the disk unchanged |
| DocTypes.UploadIfPresent | CnuAiDocReviewer-Backend/src/main/java/com/cnu/docserver/docmanger/service/DocTypeService.java:54-56 | a missing or empty upload touches nothing and records no URL; any other is upserted, its URL or exception and its disk effect being those of the corrected upsert, which differs from the source only on a same-name re-upload (see Left out) |
| DocTypes.RegisterDocType | CnuAiDocReviewer-Backend/src/main/java/com/cnu/docserver/docmanger/service/DocTypeService.java:35-59 | an unknown department fails with no change; otherwise the disk is the upload's outcome, a failed upload rolls every row back, and success commits the new type with its fields and file row |
| DocTypes.UpdateDocType | CnuAiDocReviewer-Backend/src/main/java/com/cnu/docserver/docmanger/service/DocTypeService.java:62-83 | a missing document type fails with no change; otherwise the upload happens first and stays on disk, and an upload or sync failure rolls every row back; success commits the new title, file row and synced fields; the upload is the corrected upsert (see Left out) |
| SubmissionController.Normalized | CnuAiDocReviewer-Backend/src/main/java/com/cnu/docserver/submission/controller/SubmissionController.java:155-161 | "findings" is always a list afterwards; every other key is untouched; a map whose findings already is a list is returned unchanged |
| SubmissionController.ExtractLatestOcrDetail | CnuAiDocReviewer-Backend/src/main/java/com/cnu/docserver/submission/controller/SubmissionController.java:147-167 | the backwards scan returns the specification's latest parsable OCR_DETAIL map |
| SubmissionController.LatestDetailEmpty | CnuAiDocReviewer-Backend/src/main/java/com/cnu/docserver/submission/controller/SubmissionController.java:147-167 | the result is empty exactly when no entry is a parsable OCR_DETAIL memo; otherwise its findings are a list |
| SubmissionController.LatestDetailIsNewest | CnuAiDocReviewer-Backend/src/main/java/com/cnu/docserver/submission/controller/SubmissionController.java:148-161 | the result is the normalised map of the last parsable OCR_DETAIL entry; unparsable later ones are skipped |
| SubmissionController.GetBotReviewResult | CnuAiDocReviewer-Backend/src/main/java/com/cnu/docserver/submission/controller/SubmissionController.java:112-144 | NOT_FOUND for a missing submission; otherwise the id, status and time, one debug text per history entry in order (null memo read as ""), findings from the latest detail (always a list), and its verdict and reason |
| SubmissionController.ClampLimit | CnuAiDocReviewer-Backend/src/main/java/com/cnu/docserver/submission/controller/SubmissionController.java:177 | the page size lies in 1..20: a limit inside is kept, below is 1, above is 20 |
| SubmissionController.ParseStatuses | CnuAiDocReviewer-Backend/src/main/java/com/cnu/docserver/submission/controller/SubmissionController.java:196-207 | the loop over the split parts computes the specification's status list |
| SubmissionController.KnownStatusesMembers | CnuAiDocReviewer-Backend/src/main/java/com/cnu/docserver/submission/controller/SubmissionController.java:198-205 | a status is in the filter exactly when some comma-separated part, trimmed, is its name |
| SubmissionController.StatusesOfCsv | CnuAiDocReviewer-Backend/src/main/java/com/cnu/docserver/submission/controller/SubmissionController.java:196-207 | parsing the comma-joined names of a non-empty status list gives back that list, order and repeats included |
| SubmissionController.KnownStatusesNames | CnuAiDocReviewer-Backend/src/main/java/com/cnu/docserver/submission/controller/SubmissionController.java:200-205 | the known statuses of a list of names are the statuses named, in order |
| SubmissionController.StatusNameShape | CnuAiDocReviewer-Backend/src/main/java/com/cnu/docserver/submission/controller/SubmissionController.java:203 | a status name is non-empty, comma-free, trimmed, and valueOf maps it back to its status |
| SubmissionController.BasenameAsWritten | CnuAiDocReviewer-Backend/src/main/java/com/cnu/docserver/submission/controller/SubmissionController.java:210-221 | as written: null gives null and any URL a name |
| SubmissionController.BasenameFromUrl | CnuAiDocReviewer-Backend/src/main/java/com/cnu/docserver/submission/controller/SubmissionController.java:210-221 | corrected: null gives null and any URL a name, decoded once |
| SubmissionController.BasenameAsWrittenOfSaved | CnuAiDocReviewer-Backend/src/main/java/com/cnu/docserver/submission/controller/SubmissionController.java:210-221 | as written, a saved URL's name is decoded twice: the stored name decoded again, or its re-encoding when that fails |
| SubmissionController.BasenameOfSaved | CnuAiDocReviewer-Backend/src/main/java/com/cnu/docserver/submission/controller/SubmissionController.java:210-221 | corrected, a saved URL shows exactly its stored name |
| SubmissionController.DoubleDecodeTurnsPlusIntoSpace | CnuAiDocReviewer-Backend/src/main/java/com/cnu/docserver/submission/controller/SubmissionController.java:213-216 | for the upload "a+b.pdf", the list shows "a b.pdf" as written and "a+b.pdf" corrected |
| SubmissionController.PathOfSavedUrl | CnuAiDocReviewer-Backend/src/main/java/com/cnu/docserver/submission/controller/SubmissionController.java:213 | `URI.create(url).getPath()` of a saved URL is its prefix and the stored name, decoded once |
| SubmissionController.SavedLabelsAgree | CnuAiDocReviewer-Backend/src/main/java/com/cnu/docserver/submission/controller/SubmissionController.java:210-221 | for a stored name without '%' or '+', the label as written and the corrected label are both the stored name |
| SubmissionController.FileLabel | CnuAiDocReviewer-Backend/src/main/java/com/cnu/docserver/submission/controller/SubmissionController.java:188-191 | no file row or a blank URL shows "(파일 미존재)"; otherwise the label is the corrected basename (see Left out) |
| SubmissionController.Matching | CnuAiDocReviewer-Backend/src/main/java/com/cnu/docserver/submission/controller/SubmissionController.java:181-184 | the student's submissions with an accepted status, each exactly once, newest id first |
| SubmissionController.MatchingComplete | CnuAiDocReviewer-Backend/src/main/java/com/cnu/docserver/submission/controller/SubmissionController.java:181-184 | every submission of the student with an accepted status is listed before the page is cut |
| SubmissionController.RowOf | CnuAiDocReviewer-Backend/src/main/java/com/cnu/docserver/submission/controller/SubmissionController.java:186-192 | a row carries the submission's id, status name and time |
| SubmissionController.ListMySubmissions | CnuAiDocReviewer-Backend/src/main/java/com/cnu/docserver/submission/controller/SubmissionController.java:173-194 | the first min(page size, matches) matching submissions, newest id first, one row each; file names are the corrected basenames (see Left out) |
| Utf8.EncodeChar | CnuAiDocReviewer-Backend/src/main/java/com/cnu/docserver/docmanger/service/FileStorageService.java:42 | a character encodes to 1 to 4 bytes, one byte exactly for ASCII (the character itself), continuation bytes after the first |
| Utf8.DecodeFirst | CnuAiDocReviewer-Backend/src/main/java/com/cnu/docserver/docmanger/service/FileStorageService.java:53-56 | decoding consumes at least one byte and reads an ASCII byte as itself |
| Utf8.DecodeFirstOfEncoding | CnuAiDocReviewer-Backend/src/main/java/com/cnu/docserver/docmanger/service/FileStorageService.java:53-56 | decoding the first character of an encoding gives that character and consumes exactly its bytes |
| Utf8.DecodeEncode | CnuAiDocReviewer-Backend/src/main/java/com/cnu/docserver/docmanger/service/FileStorageService.java:53-56 | decoding the UTF-8 encoding of a string gives the string back |
| UrlCodec.Escape | CnuAiDocReviewer-Backend/src/main/java/com/cnu/docserver/docmanger/service/FileStorageService.java:42 | a byte becomes '%' followed by two hex digits |
| UrlCodec.Escapes | CnuAiDocReviewer-Backend/src/main/java/com/cnu/docserver/docmanger/service/FileStorageService.java:42 | escaping n bytes gives 3n characters, all hex digits and '%', starting with '%' |
| UrlCodec.PlusAsEscape | CnuAiDocReviewer-Backend/src/main/java/com/cnu/docserver/docmanger/service/FileStorageService.java:43 | the replacement of '+' changes nothing in text without '+' |
| UrlCodec.ParseEscape | CnuAiDocReviewer-Backend/src/main/java/com/cnu/docserver/docmanger/service/FileStorageService.java:53-56 | two hex digits give their byte value; a non-hex second digit is an error |
| UrlCodec.EscapeRun | CnuAiDocReviewer-Backend/src/main/java/com/cnu/docserver/docmanger/service/FileStorageService.java:53-56 | a run of consecutive escapes yields one byte per escape and stops at the first character that is not '%'; fewer than three characters is "incomplete trailing escape" |
| UrlCodec.Decode | CnuAiDocReviewer-Backend/src/main/java/com/cnu/docserver/docmanger/service/FileStorageService.java:53-56 | text without '%' or '+' decodes to itself |
| UrlCodec.EncodeNameAlphabet | CnuAiDocReviewer-Backend/src/main/java/com/cnu/docserver/docmanger/service/FileStorageService.java:42-43 | an encoded name holds only unreserved characters and '%' |
| UrlCodec.EncodeNameAppend | CnuAiDocReviewer-Backend/src/main/java/com/cnu/docserver/docmanger/service/FileStorageService.java:42-43 | the encoding of a name is the encoding of its characters, concatenated |
| UrlCodec.EncodeNameOfChar | CnuAiDocReviewer-Backend/src/main/java/com/cnu/docserver/docmanger/service/FileStorageService.java:42-43 | an unreserved character is kept, any other becomes the escapes of its UTF-8 bytes (space and '+' included) |
| UrlCodec.EncodeNameLength | CnuAiDocReviewer-Backend/src/main/java/com/cnu/docserver/docmanger/service/FileStorageService.java:42-43 | encoding never shortens a name |
| UrlCodec.DecodeEncodeName | CnuAiDocReviewer-Backend/src/main/java/com/cnu/docserver/docmanger/service/FileStorageService.java:42-56 | `URLDecoder.decode` inverts the name encoding of `saveInto` for every name |
| UrlCodec.DecodePlainPrefix | CnuAiDocReviewer-Backend/src/main/java/com/cnu/docserver/docmanger/service/FileStorageService.java:53-56 | a prefix without '%' or '+' passes through decoding unchanged |
| UrlCodec.EncodeNameWellEscaped | CnuAiDocReviewer-Backend/src/main/java/com/cnu/docserver/docmanger/service/FileStorageService.java:42-43 | every '%' in an encoded name starts a complete escape |
| Paths.Parse | CnuAiDocReviewer-Backend/src/main/java/com/cnu/docserver/docmanger/service/FileStorageService.java:57 | a string parses unless it holds NUL; the path is absolute exactly when the string starts with '/' |
| Paths.NamesOfParse | CnuAiDocReviewer-Backend/src/main/java/com/cnu/docserver/docmanger/service/FileStorageService.java:57 | the names of a parsed path are its '/'-separated non-empty parts |
| Paths.ParseJoined | CnuAiDocReviewer-Backend/src/main/java/com/cnu/docserver/docmanger/service/FileStorageService.java:57 | names joined with '/' parse back to those names |
| Paths.Resolve | CnuAiDocReviewer-Backend/src/main/java/com/cnu/docserver/docmanger/service/FileStorageService.java:38 | resolving a relative path appends its names; an absolute path replaces the base |
| Paths.FileName | CnuAiDocReviewer-Backend/src/main/java/com/cnu/docserver/submission/service/AdminSubmissionService.java:229 | a path has a file name exactly when it has names |
| Paths.NormalizeIsNormal | CnuAiDocReviewer-Backend/src/main/java/com/cnu/docserver/docmanger/service/FileStorageService.java:38 | a normalised path holds no "." and no ".." except leading ones of a relative path |
| Paths.NormalizeIdempotent | CnuAiDocReviewer-Backend/src/main/java/com/cnu/docserver/docmanger/service/FileStorageService.java:38 | normalising twice is normalising once |
| Paths.StartsWithTrans | CnuAiDocReviewer-Backend/src/main/java/com/cnu/docserver/docmanger/service/FileStorageService.java:39 | the name-prefix relation is transitive |
| Paths.ResolveNameConfined | CnuAiDocReviewer-Backend/src/main/java/com/cnu/docserver/docmanger/service/FileStorageService.java:38-39 | a single name resolved in a plain directory stays inside it exactly when it is not ".."; "." gives the directory, a plain name the entry directly under it |
| Text.Trim | CnuAiDocReviewer-Backend/src/main/java/com/cnu/docserver/submission/service/SubmissionService.java:309 | `String.trim`: strips exactly the leading and trailing characters up to U+0020, and is empty exactly for such characters only |
| Text.TrimIdle | CnuAiDocReviewer-Backend/src/main/java/com/cnu/docserver/submission/service/SubmissionService.java:309 | a string with no trimmable ends is unchanged |
| Text.LastIndexOf | CnuAiDocReviewer-Backend/src/main/java/com/cnu/docserver/docmanger/service/FileStorageService.java:34 | the last position of the character, or -1 |
| Text.IndexOf | CnuAiDocReviewer-Backend/src/main/java/com/cnu/docserver/ocr/SubmissionReviewOrchestrator.java:82 | the first position of the character, or -1 |
| Text.AfterLast | CnuAiDocReviewer-Backend/src/main/java/com/cnu/docserver/submission/controller/SubmissionController.java:215 | the text after the last occurrence of the character holds none of it and ends the string |
| Text.ReplaceChar | CnuAiDocReviewer-Backend/src/main/java/com/cnu/docserver/docmanger/service/FileStorageService.java:33 | every occurrence of one character is replaced, nothing else changes |
| Text.SplitAll | CnuAiDocReviewer-Backend/src/main/java/com/cnu/docserver/submission/controller/SubmissionController.java:198 | the parts hold no separator and joined with it give the string back |
| Text.JavaSplit | CnuAiDocReviewer-Backend/src/main/java/com/cnu/docserver/submission/controller/SubmissionController.java:198 | `String.split` with trailing empty parts removed: a string without the separator is one part, and no part holds it |
| Text.JavaSplitJoin | CnuAiDocReviewer-Backend/src/main/java/com/cnu/docserver/submission/controller/SubmissionController.java:198 | splitting a join whose last part is non-empty gives the parts back |
| Text.DropTrailingEmpty | CnuAiDocReviewer-Backend/src/main/java/com/cnu/docserver/submission/controller/SubmissionController.java:198 | exactly the trailing empty parts are removed |
| Text.NatToString | CnuAiDocReviewer-Backend/src/main/java/com/cnu/docserver/docmanger/service/FileStorageService.java:19-24 | a number prints as a non-empty string of digits |
| Text.ToUpper | CnuAiDocReviewer-Backend/src/main/java/com/cnu/docserver/ocr/ReviewTransactionService.java:49 | upper-casing never shortens and keeps emptiness |
| Text.ToUpperIgnoresAsciiCase | CnuAiDocReviewer-Backend/src/main/java/com/cnu/docserver/ocr/ReviewTransactionService.java:49 | upper-casing ignores ASCII case |
| Text.ToUpperKeepsUpper | CnuAiDocReviewer-Backend/src/main/java/com/cnu/docserver/ocr/ReviewTransactionService.java:49 | ASCII text without lower-case letters is unchanged by upper-casing |
| Text.JoinSepContains | CnuAiDocReviewer-Backend/src/main/java/com/cnu/docserver/ocr/ReviewTransactionService.java:63-65 | every part shows in the "; "-joined text |
| JavaUri.SchemeColon | CnuAiDocReviewer-Backend/src/main/java/com/cnu/docserver/submission/controller/SubmissionController.java:213 | the scheme's ':' precedes any '/' or '?', and there is none without ':' |
| JavaUri.Path | CnuAiDocReviewer-Backend/src/main/java/com/cnu/docserver/submission/controller/SubmissionController.java:213 | `getPath` returns null only for an opaque URI, which has a scheme |
| JavaUri.DecodeAgrees | CnuAiDocReviewer-Backend/src/main/java/com/cnu/docserver/submission/controller/SubmissionController.java:213-216 | without '+', `URI` decoding and `URLDecoder` agree |
| JavaUri.PathOfPlainReference | CnuAiDocReviewer-Backend/src/main/java/com/cnu/docserver/submission/controller/SubmissionController.java:213 | a slash-rooted reference of unreserved characters and complete escapes parses and its path is its decoding |
| JavaUri.PathOfRelative | CnuAiDocReviewer-Backend/src/main/java/com/cnu/docserver/submission/controller/SubmissionController.java:213 | a reference with no scheme, query, fragment or authority is all path |
| OcrDecision.NextMarker | CnuAiDocReviewer-OCR/ocr_pipeline.py:146 | the next position where `\d+\.\s*` matches, or -1, with no match skipped in between |
| OcrDecision.SplitFrom | CnuAiDocReviewer-OCR/ocr_pipeline.py:146 | `re.split` yields at least one chunk and the last one has no separator after it |
| OcrDecision.SplitFromJoined | CnuAiDocReviewer-OCR/ocr_pipeline.py:146 | the chunks and the separators between them, concatenated, give the text back |
| OcrDecision.SplitFromMarkers | CnuAiDocReviewer-OCR/ocr_pipeline.py:146 | every separator between chunks is a match of `\d+\.\s*` |
| OcrDecision.CountSections | CnuAiDocReviewer-OCR/ocr_pipeline.py:144-146 | one length per chunk after the first, each the length of that chunk |
| OcrDecision.CountSectionsEmpty | CnuAiDocReviewer-OCR/ocr_pipeline.py:144-146 | no section is counted exactly when no numbered marker occurs in the text |
| OcrDecision.SectionLengths | CnuAiDocReviewer-OCR/ocr_pipeline.py:427-442 | no lengths for a document of fewer than two pages or when the PDF text cannot be read; and the PDF text's sections whenever it has any |
| OcrDecision.KeptFindings | CnuAiDocReviewer-OCR/ocr_pipeline.py:104-108 | only findings with a truthy label and message are kept, never more than given |
| OcrDecision.KeptFindingsMembers | CnuAiDocReviewer-OCR/ocr_pipeline.py:104-108 | a finding is kept exactly when some item of the list yields it |
| OcrDecision.NormalizeFindings | CnuAiDocReviewer-OCR/ocr_pipeline.py:104-108 | the loop keeps exactly those findings, in order |
| OcrDecision.DecisionOf | CnuAiDocReviewer-OCR/ocr_pipeline.py:100-111 | the decision is PASS exactly for "PASS", REJECT exactly for "REJECT", NEEDS_FIX otherwise (missing or unknown included) |
| OcrDecision.LlmJudged | CnuAiDocReviewer-OCR/ocr_pipeline.py:56-113 | disabled, no API key, an empty key or a failed call give the conservative NEEDS_FIX with no findings |
| OcrDecision.LlmJudge | CnuAiDocReviewer-OCR/ocr_pipeline.py:56-113 | the judge returns the specification's result |
| OcrDecision.Requirements | CnuAiDocReviewer-OCR/ocr_pipeline.py:445-452 | six requirements, in the order of the findings catalogue |
| OcrDecision.FailedStep | CnuAiDocReviewer-OCR/ocr_pipeline.py:483-495 | each step of the chain appends the catalogue entry exactly when its requirement failed |
| OcrDecision.SeedUnfolded | CnuAiDocReviewer-OCR/ocr_pipeline.py:483-495 | the seed is the six conditional entries in order |
| OcrDecision.BuildSeed | CnuAiDocReviewer-OCR/ocr_pipeline.py:483-495 | the chain of appends builds exactly the seed |
| OcrDecision.FailedMembers | CnuAiDocReviewer-OCR/ocr_pipeline.py:483-495 | with distinct entries, an entry is in the seed exactly when its requirement failed |
| OcrDecision.FailedWithin | CnuAiDocReviewer-OCR/ocr_pipeline.py:483-495 | the seed holds only catalogue entries |
| OcrDecision.FailedEmpty | CnuAiDocReviewer-OCR/ocr_pipeline.py:453 | the seed is empty exactly when every requirement holds |
| OcrDecision.SeedMeaning | CnuAiDocReviewer-OCR/ocr_pipeline.py:444-495 | the seed is empty exactly when the rules pass, and lists the name, photo, section length ("각 섹션 300자 이상 필요"), consent and two signature findings exactly for the failed requirements |
| OcrDecision.ReviewDecision | CnuAiDocReviewer-OCR/ocr_pipeline.py:478-504 | the verdict computed is the specification's, the model consulted only when the rules fail |
| OcrDecision.DecidedPass | CnuAiDocReviewer-OCR/ocr_pipeline.py:478-481 | the verdict is PASS exactly when the rules pass, the status is "PASS" exactly for a PASS verdict, and a pass has no findings and no reason |
| OcrDecision.DecidedFail | CnuAiDocReviewer-OCR/ocr_pipeline.py:497-504 | when the rules fail the verdict is REJECT exactly when the model says REJECT, never PASS, always with findings, and with a reason only for REJECT |
| OcrDecision.DecidedWithoutModel | CnuAiDocReviewer-OCR/ocr_pipeline.py:63-66 | with the model disabled, failing rules give NEEDS_FIX with the seed findings, no reason and status "FAIL" |

## Left out

- Authentication: the logged-in student and the admin record are parameters (`currentStudentId`, `AdminContext` and the principal lookup are not part of this model).
- Wall-clock time: `LocalDate.now(KST)`, `LocalDate.now()` and `LocalDateTime.now()` become `today`/`now` parameters; dates are day numbers and times are integers, so ISO formatting of times in responses is not modelled.
- Jackson: JSON parsing and serialisation are function parameters (`readObject`, `readArray`, `readMap`, `serialize`); only their success or failure and their result are used.
- The OCR HTTP client (`OcrClient`) is a `ReviewerOutcome` parameter: a reply, an unreachable server or another call failure. Retries, timeouts and multipart encoding are not modelled.
- Spring's `@Async` and `@TransactionalEventListener`: no threads; the commit-then-deliver order is the outbox described above, and interleavings of concurrent requests are not modelled.
- Logging calls are left out; where the source only logs, the model changes nothing.
- The filesystem is a map from normalised paths to bytes. An IOException while saving (`Files.createDirectories` or `Files.copy`) is one `writeError` parameter carrying the message, consulted once the path guard has passed; read failures are a missing file.
- Id generation: a rolled-back transaction also rolls back the model's id counters, whereas a database sequence would skip the ids it handed out; no property depends on the difference.
- Repository `save` failures other than the ones the services raise themselves are not modelled.
- `DocTypes.SyncWith`: the order in which added required fields are inserted follows the name list rather than `HashMap` iteration order, which is unspecified.
- `DocTypes.SyncWith`: the message of the `IllegalStateException` that `Collectors.toMap` raises on duplicate existing names is approximated.
- `SubmissionController.GetBotReviewResult`: the 404 for an unknown submission carries an empty message.
- `JavaUri.Path`: the authority component is checked only against its character set, not parsed into host and port as `java.net.URI` does.
- `Utf8.DecodeFirst`: a malformed sequence becomes one U+FFFD per offending byte, a simplification of the JDK decoder's replacement rule.
- `Text.ToUpper`: assumes a non-Turkish default locale and covers the characters whose upper case matters for verdict matching.
- OCR pipeline: PaddleOCR, image processing, the photo and signature detectors and the PDF text extraction become the boolean and text inputs of `Checks`; the OpenAI call is the `reply` parameter (None when it raises); the environment defaults (`LLM_ENABLED`, `OCR_DETAIL_ENABLED`) are resolved by the caller; the `details`, `debug_text` and `processing_time` outputs are not modelled.
- `OcrDecision.CountSections`: Python's `\d` also matches non-ASCII decimal digits; the model matches ASCII digits only.
- `OcrDecision.LlmJudge`: JSON numbers are reals and floating-point behaviour is not modelled.
- `Submissions.ReplaceIfPresent`: the replacement on disk is the corrected `Replaced`, not `ReplacedAsWritten`; a same-name re-upload therefore keeps the new file, whereas the source deletes it (first Findings row; `Storage.ReplacedAgrees` shows the two agree in every other case).
- `Submissions.Update`: its disk contract inherits the corrected replacement through `ReplaceIfPresent`, so the same-name re-upload that leaves the source's committed URL unreadable is not what this member promises.
- `DocTypes.UploadIfPresent`: the upsert is the corrected `Upserted`, not `UpsertedAsWritten`; they differ only when the previous URL designates the file just saved (second Findings row; `DocTypes.UpsertedAgrees`).
- `DocTypes.UpdateDocType`: its disk contract inherits the corrected upsert through `UploadIfPresent`, with the same single difference from the source.
- `SubmissionController.FileLabel`: shows the corrected single-decode basename, whereas `basenameFromUrl` decodes twice (third Findings row); the two agree for stored names without '%' or '+' (`SubmissionController.SavedLabelsAgree`).
- `SubmissionController.ListMySubmissions`: its file column comes from `FileLabel`, so it inherits the same difference from the source.
- `Storage.FileStore.SaveInto`: a failing `Files.createDirectories` is modelled only when the path guard passes; the source creates the directory first, so for a name that is ".." or holds NUL it throws "파일 저장 실패: …" where the model reports the path error.
- `Storage.FileStore.SaveFor`: inherits that order from `SaveInto`.
- `Storage.Shorten`: lengths count Unicode scalar values, whereas Java's `length()` and `substring` count UTF-16 code units; a name with characters outside the Basic Multilingual Plane is cut at a different place, and Java may split a surrogate pair.
- `Storage.StoredName`: its 255-character cut is `Shorten`'s and counts scalar values in the same way.
- `UrlCodec.ParseEscape`: accepts ASCII hexadecimal digits only, whereas `Integer.parseInt(…, 16)` also accepts the other Unicode digits and fullwidth letters that `Character.digit` recognises.
- OCR pipeline: the early FAIL return of `review_document` when neither renderer produces a page image (`PDF 렌더링 실패(PyMuPDF)`) is not modelled, since rendering is outside the model.
- Read-only queries outside the review workflow (`getDetail` beyond `extractFileName` and `resolveAdminName`, `listAdminQueue`, `getDocTypesByDepartment`, `getDocTypeForEdit`, `getRequiredFields`, `getSummary`, `toSummary`) are not part of this model.

## Observations

These follow from the code as written and are proved in the model; they are not treated as defects:

- `submit(FINAL)` publishes no review event, so the submission stays in BOT_REVIEW until an administrator acts (`Lifecycle.FinalSubmitWaits`).
- A bot verdict delivered after an administrator's decision still overwrites the status, because `updateSubmissionStatus` does not check the current status (`Lifecycle.LateVerdictOverridesApproval`).
- When the required-field sync fails after a document-type file was replaced, the old file is already deleted from disk while the rolled-back row still points at it (`DocTypes.UpsertedDropsPrevious`).
- `extractFileName` on a URL made only of '?' characters throws, because `split` drops every empty piece.

## Findings

| source | as written | input that shows it | evidently intended | confidence | as-written member | corrected member |
|---|---|---|---|---|---|---|
| CnuAiDocReviewer-Backend/src/main/java/com/cnu/docserver/submission/service/SubmissionService.java:263-287 | `upsertFile` saves the new upload, then deletes the old file by its URL; when the stored name is unchanged both URLs name the same path, so the upload just written is deleted | a REJECTED submission whose file is "a.pdf" is updated with a new file also named "a.pdf" | the new upload stays readable at the URL the row holds | not executed | Submissions.UpsertFileAsWritten, Storage.ReuploadLosesFile | Submissions.UpsertFile, Storage.ReplacedReadsBack |
| CnuAiDocReviewer-Backend/src/main/java/com/cnu/docserver/docmanger/service/DocTypeService.java:228-253 | the same order of operations for a document type's original file | a document type whose file is "form.pdf" is updated with a new "form.pdf" | the new original file stays readable | not executed | DocTypes.UpsertFileAsWritten, DocTypes.ReuploadLosesOriginal | DocTypes.UpsertFile, DocTypes.UpsertedReadsBack |
| CnuAiDocReviewer-Backend/src/main/java/com/cnu/docserver/submission/controller/SubmissionController.java:210-221 | `basenameFromUrl` decodes twice: `URI.getPath` turns "%2B" into '+', then `URLDecoder` turns that '+' into a space | the upload "a+b.pdf" on submission 1 is listed as "a b.pdf" | the listing shows the name that was uploaded | not executed | SubmissionController.BasenameAsWritten, SubmissionController.DoubleDecodeTurnsPlusIntoSpace | SubmissionController.BasenameFromUrl, SubmissionController.BasenameOfSaved |
