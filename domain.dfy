/** The records of the review workflow, as values: enumerations, table rows, request
    bodies and the automated reviewer's reply. */
module Domain {
  import opened Common
  import Utf8

  /** `SubmissionStatus`. */
  datatype SubmissionStatus = DRAFT | BOT_REVIEW | SUBMITTED | UNDER_REVIEW | NEEDS_FIX | APPROVED | REJECTED

  /** `HistoryAction`. */
  datatype HistoryAction = SUBMITTED | REJECTED | APPROVED | MODIFIED

  /** `SubmitRequestDTO.SubmitMode`. */
  datatype SubmitMode = DIRECT | FINAL

  const AllStatuses: seq<SubmissionStatus> :=
    [DRAFT, BOT_REVIEW, SubmissionStatus.SUBMITTED, UNDER_REVIEW, NEEDS_FIX, SubmissionStatus.APPROVED, SubmissionStatus.REJECTED]

  /** `status.name()`. */
  function StatusName(s: SubmissionStatus): string {
    match s
    case DRAFT => "DRAFT"
    case BOT_REVIEW => "BOT_REVIEW"
    case SUBMITTED => "SUBMITTED"
    case UNDER_REVIEW => "UNDER_REVIEW"
    case NEEDS_FIX => "NEEDS_FIX"
    case APPROVED => "APPROVED"
    case REJECTED => "REJECTED"
  }

  /** `SubmissionStatus.valueOf(k)`: the constant with exactly that name, or None where Java
      throws IllegalArgumentException. */
  function StatusValueOf(k: string): (r: Option<SubmissionStatus>)
    ensures forall s :: r == Some(s) <==> k == StatusName(s)
  {
    if k == "DRAFT" then Some(DRAFT)
    else if k == "BOT_REVIEW" then Some(BOT_REVIEW)
    else if k == "SUBMITTED" then Some(SubmissionStatus.SUBMITTED)
    else if k == "UNDER_REVIEW" then Some(UNDER_REVIEW)
    else if k == "NEEDS_FIX" then Some(NEEDS_FIX)
    else if k == "APPROVED" then Some(SubmissionStatus.APPROVED)
    else if k == "REJECTED" then Some(SubmissionStatus.REJECTED)
    else None
  }

  type SubmissionId = nat
  type DocTypeId = nat
  type DepartmentId = nat
  type AdminId = nat
  type MemberId = string
  type StudentId = string

  /** Calendar day (days since an epoch) and instant, both supplied by the caller. */
  type Date = int
  type Time = int

  /** A `submissions` row. */
  datatype Submission = Submission(
    student: StudentId,
    docType: DocTypeId,
    status: SubmissionStatus,
    submittedAt: Option<Time>)

  /** A `submission_histories` row; the list order is the history-id order. */
  datatype HistoryEntry = HistoryEntry(
    submission: SubmissionId,
    admin: Option<AdminId>,
    action: HistoryAction,
    memo: Option<string>)

  /** A `submission_field_values` row. */
  datatype FieldValueRow = FieldValueRow(
    submission: SubmissionId,
    requiredField: Option<nat>,
    fieldName: string,
    fieldValue: string)

  /** A `required_fields` row. */
  datatype RequiredField = RequiredField(
    id: nat,
    docType: DocTypeId,
    fieldName: Option<string>,
    exampleValue: Option<string>)

  /** A `doc_types` row. */
  datatype DocType = DocType(department: DepartmentId, title: Option<string>)

  /** A multipart upload: its client-side file name and its bytes. */
  datatype Upload = Upload(originalFilename: Option<string>, content: seq<Utf8.Byte>) {
    /** `MultipartFile.isEmpty()`. */
    predicate IsEmpty() { |content| == 0 }
  }

  /** `FieldValueInputDTO`. */
  datatype FieldValueInput = FieldValueInput(requiredFieldId: Option<int>, labelText: Option<string>, value: Option<string>)

  /** `SubmissionSummaryDTO`. */
  datatype Summary = Summary(
    submissionId: SubmissionId,
    status: SubmissionStatus,
    fileUrl: Option<string>,
    submittedAt: Option<Time>)

  /** `OcrClient.Finding`. */
  datatype Finding = Finding(labelText: Option<string>, message: Option<string>)

  /** The fields of `OcrClient.OcrResult` the backend reads. */
  datatype OcrResult = OcrResult(
    verdict: Option<string>,
    findings: Option<seq<Finding>>,
    reason: Option<string>,
    debugText: Option<string>)

  /** What one call of the automated reviewer gives: a reply, or one of the two
      `OcrException`s the client raises. */
  datatype ReviewerOutcome =
    | Replied(result: OcrResult)
    | Unreachable          // a ResourceAccessException: connection refused or timed out
    | CallFailed           // any other failure, an empty body included
}
