/** The status machine of a submission, as the services drive it: which operation is
    refused in which status, and the status a committed operation leaves behind. */
module Lifecycle {
  import opened Common
  import opened Domain

  /** The automated reviewer's verdict, after upper-casing. */
  datatype Verdict = Pass | NeedsFix | Reject | Unrecognised

  /** The operations that change an existing submission's status. */
  datatype Op =
    | StudentUpdate                // SubmissionService.update
    | StudentSubmit(mode: SubmitMode) // SubmissionService.submit
    | AdminApprove                 // AdminSubmissionService.approve
    | AdminReject                  // AdminSubmissionService.reject
    | BotVerdict(v: Verdict) // ReviewTransactionService.updateSubmissionStatus
    | BotFailure             // ReviewTransactionService.saveAsNeedsFix

  /** The status a successful `create` commits: DRAFT and SUBMITTED are passed through
      inside the same transaction. */
  const Created: SubmissionStatus := BOT_REVIEW

  /** `mustBeOneOf(DRAFT, REJECTED)`. */
  predicate Editable(s: SubmissionStatus) { s == DRAFT || s == SubmissionStatus.REJECTED }

  /** `mustBeOneOf(DRAFT, REJECTED, NEEDS_FIX)`. */
  predicate Submittable(s: SubmissionStatus) { Editable(s) || s == NEEDS_FIX }

  /** `REVIEWABLE_STATUSES`. */
  predicate Reviewable(s: SubmissionStatus) {
    s == SubmissionStatus.SUBMITTED || s == UNDER_REVIEW || s == BOT_REVIEW || s == NEEDS_FIX
  }

  /** The status the automated review records for a verdict. */
  function VerdictStatus(v: Verdict): (r: SubmissionStatus)
    ensures r == SubmissionStatus.SUBMITTED <==> v == Pass
    ensures r == SubmissionStatus.REJECTED <==> v == Verdict.Reject
    ensures r == NEEDS_FIX <==> v == NeedsFix || v == Unrecognised
  {
    match v
    case Pass => SubmissionStatus.SUBMITTED
    case NeedsFix => NEEDS_FIX
    case Reject => SubmissionStatus.REJECTED
    case Unrecognised => NEEDS_FIX
  }

  /** The committed status after `op` on a submission in status `s`, or None when the
      operation is refused with a Conflict. The automated review checks no status. */
  function Next(s: SubmissionStatus, op: Op): Option<SubmissionStatus> {
    match op
    case StudentUpdate => if Editable(s) then Some(s) else None
    case StudentSubmit(mode) =>
      if !Submittable(s) then None
      else if mode == DIRECT then Some(SubmissionStatus.SUBMITTED) else Some(BOT_REVIEW)
    case AdminApprove => if Reviewable(s) then Some(SubmissionStatus.APPROVED) else None
    case AdminReject => if Reviewable(s) then Some(SubmissionStatus.REJECTED) else None
    case BotVerdict(v) => Some(VerdictStatus(v))
    case BotFailure => Some(NEEDS_FIX)
  }

  /** A status some committed state can hold: every status but DRAFT and UNDER_REVIEW. */
  predicate Settled(s: SubmissionStatus) { s != DRAFT && s != UNDER_REVIEW }

  /** The statuses of the operations that are not refused, applied in turn. */
  function Run(s: SubmissionStatus, ops: seq<Op>): SubmissionStatus
    decreases |ops|
  {
    if ops == [] then s
    else match Next(s, ops[0])
      case None => Run(s, ops[1..])
      case Some(t) => Run(t, ops[1..])
  }

  // ---------------------------------------------------------------- lemmas

  /** Every operation keeps a settled status settled. */
  lemma NextKeepsSettled(s: SubmissionStatus, op: Op)
    requires Settled(s) && Next(s, op).Some?
    ensures Settled(Next(s, op).value)
  {
  }

  /** No sequence of operations after `create` ever commits DRAFT or UNDER_REVIEW. */
  lemma {:induction false} RunStaysSettled(s: SubmissionStatus, ops: seq<Op>)
    requires Settled(s)
    ensures Settled(Run(s, ops))
    decreases |ops|
  {
    if ops != [] {
      if Next(s, ops[0]).Some? {
        NextKeepsSettled(s, ops[0]);
        RunStaysSettled(Next(s, ops[0]).value, ops[1..]);
      } else {
        RunStaysSettled(s, ops[1..]);
      }
    }
  }

  /** The operations a student or an administrator may start, by status. */
  lemma Guards(s: SubmissionStatus)
    ensures Next(s, StudentUpdate).Some? <==> s == DRAFT || s == SubmissionStatus.REJECTED
    ensures Next(s, StudentSubmit(DIRECT)).Some? <==> s == DRAFT || s == SubmissionStatus.REJECTED || s == NEEDS_FIX
    ensures Next(s, StudentSubmit(FINAL)).Some? <==> Next(s, StudentSubmit(DIRECT)).Some?
    ensures Next(s, AdminApprove).Some? <==>
      s == SubmissionStatus.SUBMITTED || s == UNDER_REVIEW || s == BOT_REVIEW || s == NEEDS_FIX
    ensures Next(s, AdminReject).Some? <==> Next(s, AdminApprove).Some?
    ensures Next(s, BotFailure) == Some(NEEDS_FIX)
  {
  }

  /** An approved submission is closed to students and administrators; only the automated
      review, which checks no status, moves it. */
  lemma DecidedIsClosed(s: SubmissionStatus, op: Op)
    requires s == SubmissionStatus.APPROVED
    requires Next(s, op).Some? && Next(s, op).value != s
    ensures op.BotVerdict? || op.BotFailure?
  {
  }

  /** A verdict that arrives after an administrator approved the submission during its
      automated review overwrites the approval. */
  lemma LateVerdictOverridesApproval(v: Verdict)
    ensures Next(BOT_REVIEW, AdminApprove) == Some(SubmissionStatus.APPROVED)
    ensures Next(SubmissionStatus.APPROVED, BotVerdict(v)) == Some(VerdictStatus(v))
    ensures VerdictStatus(v) != SubmissionStatus.APPROVED
  {
  }

  /** A FINAL submission waits in BOT_REVIEW for a review that nothing schedules, and
      the student cannot edit or submit it again while it waits. */
  lemma FinalSubmitWaits(s: SubmissionStatus)
    requires Submittable(s)
    ensures Next(s, StudentSubmit(FINAL)) == Some(BOT_REVIEW)
    ensures Next(BOT_REVIEW, StudentUpdate).None? && Next(BOT_REVIEW, StudentSubmit(FINAL)).None?
  {
  }
}
