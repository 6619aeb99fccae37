/** `ReviewTransactionService`: how the automated reviewer's reply, or a failure to get one,
    is committed — the submission's new status and the history entries that explain it. */
module ReviewTransaction {
  import opened Common
  import opened Text
  import opened Domain
  import opened Database
  import opened Lifecycle

  const NoReason := "사유 미기재"
  const FailurePrefix := "자동 검토 실패: "
  const PassMemo := "자동 검토 통과, 관리자 검토 대기"
  const OddReplyReason := "OCR 응답 이상"
  const DetailPrefix := "OCR_DETAIL "
  /** At most this many findings are listed in a NEEDS_FIX memo. */
  const MaxListedFindings := 10

  /** The verdict text as the switch sees it: upper-cased, null read as empty. */
  function VerdictName(verdict: Option<string>): string {
    ToUpper(if verdict.Some? then verdict.value else "")
  }

  /** The word of each recognised verdict. */
  function VerdictWord(v: Verdict): string
    requires v != Unrecognised
  {
    match v
    case Pass => "PASS"
    case NeedsFix => "NEEDS_FIX"
    case Reject => "REJECT"
  }

  /** The branch of the switch a verdict name takes. */
  function VerdictOf(name: string): (v: Verdict)
    ensures v != Unrecognised ==> name == VerdictWord(v)
    ensures v == Unrecognised ==> name != "PASS" && name != "NEEDS_FIX" && name != "REJECT"
  {
    if name == "PASS" then Pass
    else if name == "NEEDS_FIX" then NeedsFix
    else if name == "REJECT" then Verdict.Reject
    else Unrecognised
  }

  /** A finding as the memo shows it, a missing part reading "null". */
  function FindingText(f: Finding): string {
    JavaStr(f.labelText) + ": " + JavaStr(f.message)
  }

  function Listed(findings: seq<Finding>): (r: seq<Finding>)
    ensures |r| == if |findings| < MaxListedFindings then |findings| else MaxListedFindings
    ensures r == findings[..|r|]
  {
    if |findings| <= MaxListedFindings then findings else findings[..MaxListedFindings]
  }

  /** The first findings joined by "; ". */
  function FindingsReason(findings: seq<Finding>): string
    requires findings != []
  {
    var shown := Listed(findings);
    JoinSep(seq(|shown|, i requires 0 <= i < |shown| => FindingText(shown[i])), "; ")
  }

  function ReasonOrDefault(reason: Option<string>): string {
    if reason.Some? then reason.value else NoReason
  }

  /** Why a NEEDS_FIX verdict failed: the findings if there are any, else the reason. */
  function NeedsFixReason(res: OcrResult): string {
    if res.findings.None? || res.findings.value == [] then ReasonOrDefault(res.reason)
    else FindingsReason(res.findings.value)
  }

  /** The memo of the history entry that records a verdict. */
  function Memo(v: Verdict, res: OcrResult): string {
    match v
    case Pass => PassMemo
    case NeedsFix => FailurePrefix + NeedsFixReason(res)
    case Reject => FailurePrefix + ReasonOrDefault(res.reason)
    case Unrecognised => FailurePrefix + OddReplyReason
  }

  /** The action of that history entry. */
  function ActionFor(v: Verdict): (a: HistoryAction)
    ensures a == HistoryAction.REJECTED <==> v == Verdict.Reject
    ensures a != HistoryAction.REJECTED ==> a == MODIFIED
  {
    if v == Verdict.Reject then HistoryAction.REJECTED else MODIFIED
  }

  /** The content of the OCR_DETAIL record: type "OCR", the verdict name, the latency, the
      findings (empty when null), the reason and the debug text. */
  datatype OcrDetail = OcrDetail(
    verdict: string,
    latency: int,
    findings: seq<Finding>,
    reason: Option<string>,
    debugText: Option<string>)

  function DetailOf(res: OcrResult, latency: int): OcrDetail {
    OcrDetail(VerdictName(res.verdict), latency,
      if res.findings.Some? then res.findings.value else [],
      res.reason, res.debugText)
  }

  /** The entries `updateSubmissionStatus` adds: the verdict's entry, then the detail entry
      when detail recording is on and the serializer (`None` = it threw) produced text. */
  function VerdictEntries(id: SubmissionId, res: OcrResult, latency: int, detailEnabled: bool,
                          serialize: OcrDetail -> Option<string>): (r: seq<HistoryEntry>)
    ensures forall i :: 0 <= i < |r| ==> r[i].submission == id
  {
    var v := VerdictOf(VerdictName(res.verdict));
    var json := serialize(DetailOf(res, latency));
    [HistoryEntry(id, None, ActionFor(v), Some(Memo(v, res)))]
    + (if detailEnabled && json.Some? then [HistoryEntry(id, None, MODIFIED, Some(DetailPrefix + json.value))] else [])
  }

  /** The committed tables after an outcome of the automated review: the submission's new
      status and the entries appended to the history. */
  function Applied(t: Tables, id: SubmissionId, status: SubmissionStatus, es: seq<HistoryEntry>): Tables
    requires id in t.submissions
  {
    t.(submissions := t.submissions[id := t.submissions[id].(status := status)], history := t.history + es)
  }

  /** The committed tables after a verdict for an existing submission. */
  function Recorded(t: Tables, id: SubmissionId, res: OcrResult, latency: int, detailEnabled: bool,
                    serialize: OcrDetail -> Option<string>): Tables
    requires id in t.submissions
  {
    var v := VerdictOf(VerdictName(res.verdict));
    Applied(t, id, Next(t.submissions[id].status, BotVerdict(v)).value, VerdictEntries(id, res, latency, detailEnabled, serialize))
  }

  /** The committed tables after a failed review of an existing submission. */
  function MarkedNeedsFix(t: Tables, id: SubmissionId, memo: string): Tables
    requires id in t.submissions
  {
    Applied(t, id, Next(t.submissions[id].status, BotFailure).value, [HistoryEntry(id, None, MODIFIED, Some(memo))])
  }

  /** `updateSubmissionStatus`, one transaction. */
  method UpdateSubmissionStatus(db: Db, id: SubmissionId, res: OcrResult, latency: int, detailEnabled: bool,
                                serialize: OcrDetail -> Option<string>) returns (r: Result<()>)
    requires db.Valid()
    modifies db
    ensures db.Valid()
    ensures id !in old(db.submissions) ==> r == Err(NotFound("")) && db.T() == old(db.T())
    ensures id in old(db.submissions) ==>
      r == Ok(()) && db.T() == Recorded(old(db.T()), id, res, latency, detailEnabled, serialize)
  {
    if id !in db.submissions {
      return Err(NotFound(""));
    }
    ghost var before := db.T();
    var s := db.submissions[id];
    var verdict := VerdictName(res.verdict);
    var v := VerdictOf(verdict);
    var added := [HistoryEntry(id, None, ActionFor(v), Some(Memo(v, res)))];
    if detailEnabled {
      var json := serialize(DetailOf(res, latency));
      if json.Some? {
        added := added + [HistoryEntry(id, None, MODIFIED, Some(DetailPrefix + json.value))];
      }
    }
    assert added == VerdictEntries(id, res, latency, detailEnabled, serialize);
    db.history := db.history + added;
    db.submissions := db.submissions[id := s.(status := VerdictStatus(v))];
    assert db.T() == Applied(before, id, VerdictStatus(v), added);
    RecordedApplies(before, id, res, latency, detailEnabled, serialize);
    RecordedValid(before, id, res, latency, detailEnabled, serialize);
    return Ok(());
  }

  /** `saveAsNeedsFix`, one transaction. */
  method SaveAsNeedsFix(db: Db, id: SubmissionId, memo: string) returns (r: Result<()>)
    requires db.Valid()
    modifies db
    ensures db.Valid()
    ensures id !in old(db.submissions) ==> r == Err(NotFound("")) && db.T() == old(db.T())
    ensures id in old(db.submissions) ==> r == Ok(()) && db.T() == MarkedNeedsFix(old(db.T()), id, memo)
  {
    if id !in db.submissions {
      return Err(NotFound(""));
    }
    ghost var before := db.T();
    var s := db.submissions[id];
    db.submissions := db.submissions[id := s.(status := NEEDS_FIX)];
    db.history := db.history + [HistoryEntry(id, None, MODIFIED, Some(memo))];
    assert db.T() == Applied(before, id, NEEDS_FIX, [HistoryEntry(id, None, MODIFIED, Some(memo))]);
    MarkedNeedsFixValid(before, id, memo);
    return Ok(());
  }

  // ---------------------------------------------------------------- lemmas

  /** The switch recognises exactly the three words, in any ASCII case, and reads a null
      verdict as not recognised. */
  lemma VerdictRecognition(v: Verdict, text: string)
    requires v != Unrecognised
    ensures VerdictOf(VerdictName(Some(VerdictWord(v)))) == v
    ensures VerdictOf(VerdictName(Some(LowerAscii(text)))) == VerdictOf(VerdictName(Some(text)))
    ensures VerdictOf(VerdictName(None)) == Unrecognised
  {
    ToUpperKeepsUpper(VerdictWord(v));
    ToUpperIgnoresAsciiCase(text);
  }

  /** A verdict sets the status the verdict maps to. */
  lemma RecordedApplies(t: Tables, id: SubmissionId, res: OcrResult, latency: int, detailEnabled: bool,
                        serialize: OcrDetail -> Option<string>)
    requires id in t.submissions
    ensures Recorded(t, id, res, latency, detailEnabled, serialize)
      == Applied(t, id, VerdictStatus(VerdictOf(VerdictName(res.verdict))), VerdictEntries(id, res, latency, detailEnabled, serialize))
  {
  }

  /** Recording a verdict keeps the tables consistent. */
  lemma RecordedValid(t: Tables, id: SubmissionId, res: OcrResult, latency: int, detailEnabled: bool,
                      serialize: OcrDetail -> Option<string>)
    requires t.Valid() && id in t.submissions
    ensures Recorded(t, id, res, latency, detailEnabled, serialize).Valid()
  {
    var v := VerdictOf(VerdictName(res.verdict));
    AppliedValid(t, id, Next(t.submissions[id].status, BotVerdict(v)).value, VerdictEntries(id, res, latency, detailEnabled, serialize));
  }

  lemma MarkedNeedsFixValid(t: Tables, id: SubmissionId, memo: string)
    requires t.Valid() && id in t.submissions
    ensures MarkedNeedsFix(t, id, memo).Valid()
  {
    AppliedValid(t, id, Next(t.submissions[id].status, BotFailure).value, [HistoryEntry(id, None, MODIFIED, Some(memo))]);
  }

  /** Entries of an existing submission keep the tables consistent. */
  lemma AppliedValid(t: Tables, id: SubmissionId, status: SubmissionStatus, es: seq<HistoryEntry>)
    requires t.Valid() && id in t.submissions
    requires forall i :: 0 <= i < |es| ==> es[i].submission == id
    ensures Applied(t, id, status, es).Valid()
  {
    var u := Applied(t, id, status, es);
    assert forall i :: 0 <= i < |u.history| ==> u.history[i].submission in u.submissions by {
      forall i | 0 <= i < |u.history| ensures u.history[i].submission in u.submissions {
        if i >= |t.history| { assert u.history[i] == es[i - |t.history|]; }
      }
    }
  }

  /** The outcome's status is set, its entries extend this submission's history only, and no
      other submission changes. */
  lemma AppliedEffect(t: Tables, id: SubmissionId, status: SubmissionStatus, es: seq<HistoryEntry>, other: SubmissionId)
    requires id in t.submissions
    requires forall i :: 0 <= i < |es| ==> es[i].submission == id
    ensures var u := Applied(t, id, status, es);
      && u.submissions[id].status == status
      && u.submissions.Keys == t.submissions.Keys
      && HistoryOf(u.history, id) == HistoryOf(t.history, id) + es
      && (other != id ==> HistoryOf(u.history, other) == HistoryOf(t.history, other)
                          && (other in t.submissions ==> u.submissions[other] == t.submissions[other]))
  {
    HistoryOfAppendOwn(t.history, es, id);
  }

  /** The entries a verdict adds: one, or two with the detail. PASS is logged as MODIFIED
      with the waiting memo, REJECT as REJECTED, everything else as MODIFIED with a failure
      memo; the detail entry is marked by its prefix. */
  lemma VerdictEntriesShape(id: SubmissionId, res: OcrResult, latency: int, detailEnabled: bool,
                            serialize: OcrDetail -> Option<string>)
    ensures var es := VerdictEntries(id, res, latency, detailEnabled, serialize);
      var v := VerdictOf(VerdictName(res.verdict));
      && 1 <= |es| <= 2
      && (forall i :: 0 <= i < |es| ==> es[i].submission == id && es[i].admin.None? && es[i].memo.Some?)
      && (|es| == 2 <==> detailEnabled && serialize(DetailOf(res, latency)).Some?)
      && es[0].action == ActionFor(v)
      && (v == Pass <==> es[0].memo == Some(PassMemo))
      && (v != Pass ==> StartsWith(es[0].memo.value, FailurePrefix))
      && (|es| == 2 ==> es[1].action == MODIFIED && StartsWith(es[1].memo.value, DetailPrefix))
  {
    assert PassMemo[6] != FailurePrefix[6];
  }

  /** A verdict moves the submission to the verdict's status and appends its entries to its
      history; no other submission and no other submission's history changes. */
  lemma RecordedEffect(t: Tables, id: SubmissionId, res: OcrResult, latency: int, detailEnabled: bool,
                       serialize: OcrDetail -> Option<string>, other: SubmissionId)
    requires id in t.submissions
    ensures var u := Recorded(t, id, res, latency, detailEnabled, serialize);
      && u.submissions[id].status == VerdictStatus(VerdictOf(VerdictName(res.verdict)))
      && u.submissions.Keys == t.submissions.Keys
      && HistoryOf(u.history, id) == HistoryOf(t.history, id) + VerdictEntries(id, res, latency, detailEnabled, serialize)
      && (other != id ==> HistoryOf(u.history, other) == HistoryOf(t.history, other)
                          && (other in t.submissions ==> u.submissions[other] == t.submissions[other]))
  {
    var v := VerdictOf(VerdictName(res.verdict));
    AppliedEffect(t, id, Next(t.submissions[id].status, BotVerdict(v)).value,
                  VerdictEntries(id, res, latency, detailEnabled, serialize), other);
  }

  /** Appending entries all of one submission extends its history by them and no other. */
  lemma HistoryOfAppendOwn(history: seq<HistoryEntry>, es: seq<HistoryEntry>, id: SubmissionId)
    requires forall i :: 0 <= i < |es| ==> es[i].submission == id
    ensures HistoryOf(history + es, id) == HistoryOf(history, id) + es
    ensures forall other :: other != id ==> HistoryOf(history + es, other) == HistoryOf(history, other)
  {
    HistoryOfConcat(history, es, id);
    HistoryOfOwn(es, id, id);
    forall other | other != id ensures HistoryOf(history + es, other) == HistoryOf(history, other) {
      HistoryOfConcat(history, es, other);
      HistoryOfOwn(es, id, other);
      assert HistoryOf(history, other) + [] == HistoryOf(history, other);
    }
  }

  /** A failed review moves the submission to NEEDS_FIX and appends exactly the given memo. */
  lemma MarkedNeedsFixEffect(t: Tables, id: SubmissionId, memo: string, other: SubmissionId)
    requires id in t.submissions
    ensures var u := MarkedNeedsFix(t, id, memo);
      && u.submissions[id].status == NEEDS_FIX
      && u.submissions.Keys == t.submissions.Keys
      && HistoryOf(u.history, id) == HistoryOf(t.history, id) + [HistoryEntry(id, None, MODIFIED, Some(memo))]
      && (other != id ==> HistoryOf(u.history, other) == HistoryOf(t.history, other)
                          && (other in t.submissions ==> u.submissions[other] == t.submissions[other]))
  {
    AppliedEffect(t, id, Next(t.submissions[id].status, BotFailure).value, [HistoryEntry(id, None, MODIFIED, Some(memo))], other);
  }

  /** Entries all of one submission are all of its history, and none of another's. */
  lemma {:induction false} HistoryOfOwn(es: seq<HistoryEntry>, id: SubmissionId, other: SubmissionId)
    requires forall i :: 0 <= i < |es| ==> es[i].submission == id
    ensures HistoryOf(es, id) == es
    ensures other != id ==> HistoryOf(es, other) == []
    decreases |es|
  {
    if es != [] {
      HistoryOfOwn(es[..|es| - 1], id, other);
      assert es[..|es| - 1] + [es[|es| - 1]] == es;
    }
  }

  /** A NEEDS_FIX memo names each of the first ten findings, and only those: findings
      beyond the tenth never change it. */
  lemma NeedsFixMemoFindings(res: OcrResult, i: nat, more: seq<Finding>)
    requires res.findings.Some? && i < |res.findings.value| && i < MaxListedFindings
    ensures Contains(Memo(NeedsFix, res), FindingText(res.findings.value[i]))
    ensures |res.findings.value| >= MaxListedFindings ==>
      Memo(NeedsFix, res.(findings := Some(res.findings.value + more))) == Memo(NeedsFix, res)
  {
    var fs := res.findings.value;
    var shown := Listed(fs);
    var texts := seq(|shown|, k requires 0 <= k < |shown| => FindingText(shown[k]));
    JoinSepContains(texts, "; ", i);
    ContainsRight(FailurePrefix, JoinSep(texts, "; "), texts[i]);
    if |fs| >= MaxListedFindings {
      assert Listed(fs + more) == shown;
    }
  }

  /** Without findings the memo carries the reason, or the fixed text when there is none. */
  lemma NeedsFixMemoReason(res: OcrResult)
    requires res.findings.None? || res.findings.value == []
    ensures Memo(NeedsFix, res) == FailurePrefix + (if res.reason.Some? then res.reason.value else NoReason)
    ensures Memo(Verdict.Reject, res) == Memo(NeedsFix, res)
  {
  }
}
