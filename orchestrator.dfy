/** `SubmissionReviewOrchestrator`: after a submission is committed, its stored file is read
    and sent to the automated reviewer, and whatever happens is recorded through
    `ReviewTransactionService`. The reviewer's reply (or failure) is a parameter. */
module Orchestrator {
  import opened Common
  import opened Text
  import opened Domain
  import opened Database
  import opened Lifecycle
  import opened Storage
  import opened ReviewTransaction

  /** How one run of the automated review ended. */
  datatype ReviewRun =
    | VerdictRecorded                // the reply was committed
    | FailureRecorded(memo: string)  // a failure was committed as NEEDS_FIX with this memo
    | SkippedNoFile                  // no file row: logged and left alone
    | MissingSubmission              // the submission does not exist: NOT_FOUND escapes

  /** The text up to the first line break; empty for a null message. */
  function FirstLine(s: Option<string>): (r: string)
    ensures s.None? ==> r == ""
    ensures s.Some? ==> StartsWith(s.value, r) && '\n' !in r
    ensures s.Some? ==> r == s.value || s.value[|r|] == '\n'
  {
    if s.None? then ""
    else
      var p := IndexOf(s.value, '\n');
      if p >= 0 then s.value[..p] else s.value
  }

  /** `OcrException.getMessage()` for the two ways a call fails. */
  function CallFailureMessage(outcome: ReviewerOutcome): string
    requires !outcome.Replied?
  {
    if outcome.Unreachable? then "OCR 서버 연결/응답 타임아웃 오류" else "OCR 호출 중 예상치 못한 오류 발생"
  }

  /** The memo for a file that could not be read: a read failure is named as such; a decoding
      or path error escapes `readBytes` and is reported as a system error. */
  function ReadFailureMemo(e: Error): string {
    if e.FileRead? then FailurePrefix + "파일 읽기 오류 - " + e.msg
    else FailurePrefix + "시스템 오류 - " + FirstLine(Some(e.msg))
  }

  function CallFailureMemo(outcome: ReviewerOutcome): string
    requires !outcome.Replied?
  {
    FailurePrefix + "OCR 호출 오류 - " + CallFailureMessage(outcome)
  }

  /** `runBotReview`. */
  method RunBotReview(db: Db, store: FileStore, id: SubmissionId, outcome: ReviewerOutcome, latency: int,
                      detailEnabled: bool, serialize: OcrDetail -> Option<string>) returns (r: ReviewRun)
    requires db.Valid()
    modifies db
    ensures db.Valid()
    ensures id !in old(db.submissions) ==> r == MissingSubmission && db.T() == old(db.T())
    ensures id in old(db.submissions) && id !in old(db.submissionFiles) ==> r == SkippedNoFile && db.T() == old(db.T())
    ensures id in old(db.submissions) && id in old(db.submissionFiles) ==>
      var bytes := ReadBytes(store.disk, Some(old(db.submissionFiles)[id]));
      if bytes.Err? then
        r == FailureRecorded(ReadFailureMemo(bytes.error)) && db.T() == MarkedNeedsFix(old(db.T()), id, r.memo)
      else if !outcome.Replied? then
        r == FailureRecorded(CallFailureMemo(outcome)) && db.T() == MarkedNeedsFix(old(db.T()), id, r.memo)
      else
        r == VerdictRecorded && db.T() == Recorded(old(db.T()), id, outcome.result, latency, detailEnabled, serialize)
  {
    if id !in db.submissions {
      return MissingSubmission;
    }
    if id !in db.submissionFiles {
      return SkippedNoFile;
    }
    var fileUrl := db.submissionFiles[id];
    var bytes := ReadBytes(store.disk, Some(fileUrl));
    if bytes.Err? {
      var memo := ReadFailureMemo(bytes.error);
      var _ := SaveAsNeedsFix(db, id, memo);
      return FailureRecorded(memo);
    }
    match outcome
    case Replied(res) =>
      var _ := UpdateSubmissionStatus(db, id, res, latency, detailEnabled, serialize);
      return VerdictRecorded;
    case _ =>
      var memo := CallFailureMemo(outcome);
      var _ := SaveAsNeedsFix(db, id, memo);
      return FailureRecorded(memo);
  }

  /** `onSubmissionCreated`: the oldest published event is taken from the outbox and its
      submission reviewed. */
  method DeliverNext(db: Db, store: FileStore, outcome: ReviewerOutcome, latency: int,
                     detailEnabled: bool, serialize: OcrDetail -> Option<string>)
    returns (id: SubmissionId, r: ReviewRun)
    requires db.Valid() && db.outbox != []
    modifies db
    ensures db.Valid()
    ensures id == old(db.outbox[0]) && db.outbox == old(db.outbox[1..])
    ensures id in old(db.submissions) && r != MissingSubmission
    ensures var t := old(db.T()).(outbox := old(db.outbox[1..]));
      id !in old(db.submissionFiles) ==> r == SkippedNoFile && db.T() == t
    ensures var t := old(db.T()).(outbox := old(db.outbox[1..]));
      id in old(db.submissionFiles) ==>
      var bytes := ReadBytes(store.disk, Some(old(db.submissionFiles)[id]));
      if bytes.Err? then
        r == FailureRecorded(ReadFailureMemo(bytes.error)) && db.T() == MarkedNeedsFix(t, id, r.memo)
      else if !outcome.Replied? then
        r == FailureRecorded(CallFailureMemo(outcome)) && db.T() == MarkedNeedsFix(t, id, r.memo)
      else
        r == VerdictRecorded && db.T() == Recorded(t, id, outcome.result, latency, detailEnabled, serialize)
  {
    id := db.outbox[0];
    OutboxPopValid(db.T());
    db.outbox := db.outbox[1..];
    r := RunBotReview(db, store, id, outcome, latency, detailEnabled, serialize);
  }

  /** Taking the oldest event keeps the tables consistent; its submission exists. */
  lemma OutboxPopValid(t: Tables)
    requires t.Valid() && t.outbox != []
    ensures t.outbox[0] in t.submissions && t.(outbox := t.outbox[1..]).Valid()
  {
    assert forall i :: 1 <= i < |t.outbox| ==> t.outbox[1..][i - 1] == t.outbox[i];
  }

  // ---------------------------------------------------------------- lemmas

  /** Every failure memo is a failure memo of the automated review, and its reason fits
      the failure: file, call or system. */
  lemma FailureMemos(e: Error, outcome: ReviewerOutcome)
    requires !outcome.Replied?
    ensures StartsWith(ReadFailureMemo(e), FailurePrefix)
    ensures StartsWith(CallFailureMemo(outcome), FailurePrefix + "OCR 호출 오류 - ")
    ensures e.FileRead? ==> ReadFailureMemo(e) == FailurePrefix + "파일 읽기 오류 - " + e.msg
    ensures !e.FileRead? ==> '\n' !in ReadFailureMemo(e)[|FailurePrefix + "시스템 오류 - "|..]
  {
    assert (FailurePrefix + "OCR 호출 오류 - " + CallFailureMessage(outcome))[..|FailurePrefix + "OCR 호출 오류 - "|]
      == FailurePrefix + "OCR 호출 오류 - ";
    if !e.FileRead? {
      var line := FirstLine(Some(e.msg));
      assert ReadFailureMemo(e) == (FailurePrefix + "시스템 오류 - ") + line;
    }
  }

  /** The automated review never leaves a submission stuck: whatever it records, either an
      administrator can decide the submission or the student can submit it again. */
  lemma ReviewLeavesNoDeadEnd(t: Tables, id: SubmissionId, res: OcrResult, latency: int, detailEnabled: bool,
                              serialize: OcrDetail -> Option<string>, memo: string)
    requires id in t.submissions
    ensures var s := Recorded(t, id, res, latency, detailEnabled, serialize).submissions[id].status;
      s != BOT_REVIEW && (Next(s, AdminApprove).Some? || Next(s, StudentSubmit(DIRECT)).Some?)
    ensures var s := MarkedNeedsFix(t, id, memo).submissions[id].status;
      Next(s, StudentSubmit(DIRECT)).Some? && Next(s, AdminApprove).Some?
  {
    RecordedApplies(t, id, res, latency, detailEnabled, serialize);
  }
}
