/** `SubmissionService`: a student's first submission, its overwriting while it is a draft or
    rejected, and its (re)submission; plus the request parsing and field matching they share.
    The student is supplied by the caller, as are today's date and the current time. */
module Submissions {
  import opened Common
  import opened Text
  import opened Domain
  import opened Database
  import opened Lifecycle
  import opened Storage

  const DocTypeMissing: Error := NotFound("문서 유형을 찾을 수 없습니다.")
  const SubmissionMissing: Error := NotFound("제출을 찾을 수 없습니다.")
  const FileRequired: Error := BadRequest("파일은 필수입니다.")
  const NotAllowed: Error := Conflict("현재 상태에서 허용되지 않는 작업입니다.")
  const ModeRequired: Error := BadRequest("제출 모드가 필요합니다.")
  const DeadlinePassed: Error := BadRequest("마감일이 지났습니다.")
  const LabelRequired: Error := BadRequest("field_name(label)은 필수입니다.")
  const ValueRequired: Error := BadRequest("value는 필수입니다.")
  const FieldsUnparsable: Error := BadRequest("fieldsJson 파싱 실패")

  const StudentSubmitted := "학생 제출"
  const StudentSaved := "학생 수정(임시 저장)"

  // ---------------------------------------------------------------- deadline

  /** `ensureNotPastDeadline`: refused only when the document type has a deadline, it is set,
      and today is after it. */
  function EnsureNotPastDeadline(deadlines: map<DocTypeId, Option<Date>>, docType: DocTypeId, today: Date): (r: Result<()>)
    ensures r.Err? ==> r.error == DeadlinePassed
  {
    if docType in deadlines && deadlines[docType].Some? && today > deadlines[docType].value then Err(DeadlinePassed)
    else Ok(())
  }

  // ---------------------------------------------------------------- request fields

  predicate Quoted(s: string) {
    (StartsWith(s, "\"") && EndsWith(s, "\"")) || (StartsWith(s, "'") && EndsWith(s, "'"))
  }

  /** `parseFields`. The JSON readers are parameters (`None` = Jackson threw): `readObject`
      reads one object, `readArray` a list, a JSON null read as the empty list (both are
      treated alike afterwards). A lone quote character makes `substring` throw, which is
      reported as a parse failure too. */
  function ParseFields(fieldsJson: Option<string>, readObject: string -> Option<FieldValueInput>,
                       readArray: string -> Option<seq<FieldValueInput>>): (r: Result<seq<FieldValueInput>>)
    ensures r.Err? ==> r.error == FieldsUnparsable
    ensures fieldsJson.None? || IsBlank(fieldsJson.value) ==> r == Ok([])
  {
    if fieldsJson.None? || IsBlank(fieldsJson.value) then Ok([])
    else
      var s := Trim(fieldsJson.value);
      if Quoted(s) && |s| < 2 then Err(FieldsUnparsable)
      else
        ReadBody(if Quoted(s) then Trim(s[1..|s| - 1]) else s, readObject, readArray)
  }

  /** The unquoted text handed to Jackson: one object when it is braced, a list otherwise. */
  function ReadBody(body: string, readObject: string -> Option<FieldValueInput>,
                    readArray: string -> Option<seq<FieldValueInput>>): Result<seq<FieldValueInput>>
  {
    if StartsWith(body, "{") && EndsWith(body, "}") then
      match readObject(body)
      case None => Err(FieldsUnparsable)
      case Some(one) => Ok([one])
    else
      match readArray(body)
      case None => Err(FieldsUnparsable)
      case Some(list) => Ok(list)
  }

  /** The named required fields by name; of two fields with the same name the later one wins. */
  function ByName(fields: seq<RequiredField>): (m: map<string, RequiredField>)
    ensures forall k :: k in m ==> !IsBlank(k) && m[k].fieldName == Some(k) && m[k] in fields
    ensures forall i :: 0 <= i < |fields| && fields[i].fieldName.Some? && !IsBlank(fields[i].fieldName.value) ==>
      fields[i].fieldName.value in m
  {
    if fields == [] then map[]
    else
      var init := fields[..|fields| - 1];
      var m := ByName(init);
      var f := fields[|fields| - 1];
      assert forall g :: g in init ==> g in fields;
      if f.fieldName.Some? && !IsBlank(f.fieldName.value) then m[f.fieldName.value := f] else m
  }

  /** One input checked and matched: the label is trimmed and must not be blank, the value
      must be present, and the row points to the required field of that exact name, if any. */
  function InputRow(submission: SubmissionId, input: FieldValueInput, byName: map<string, RequiredField>)
    : (r: Result<FieldValueRow>)
    ensures r.Ok? ==> && r.value.submission == submission
                      && input.labelText.Some? && r.value.fieldName == Trim(input.labelText.value)
                      && !IsBlank(r.value.fieldName) && input.value == Some(r.value.fieldValue)
                      && (r.value.requiredField.Some? <==> r.value.fieldName in byName)
                      && (r.value.requiredField.Some? ==> r.value.requiredField.value == byName[r.value.fieldName].id)
    ensures r.Err? ==> r.error == LabelRequired || r.error == ValueRequired
  {
    var trimmed := if input.labelText.None? then None else Some(Trim(input.labelText.value));
    if trimmed.None? || IsBlank(trimmed.value) then Err(LabelRequired)
    else if input.value.None? then Err(ValueRequired)
    else Ok(FieldValueRow(submission, if trimmed.value in byName then Some(byName[trimmed.value].id) else None,
                          trimmed.value, input.value.value))
  }

  /** The rows of all inputs, or the error of the first input that fails (see `RowsMeaning`). */
  function Rows(submission: SubmissionId, inputs: seq<FieldValueInput>, byName: map<string, RequiredField>)
    : Result<seq<FieldValueRow>>
  {
    Traverse(inputs, input => InputRow(submission, input, byName))
  }

  /** `f` applied to every element in order, stopping at the first error. */
  function Traverse<T, U>(xs: seq<T>, f: T -> Result<U>): Result<seq<U>>
    decreases |xs|
  {
    if xs == [] then Ok([])
    else
      var first :- f(xs[0]);
      var rest :- Traverse(xs[1..], f);
      Ok([first] + rest)
  }

  /** The inputs are accepted exactly when each one is, giving one row per input in order;
      otherwise the error is that of the first input refused. */
  lemma RowsMeaning(submission: SubmissionId, inputs: seq<FieldValueInput>, byName: map<string, RequiredField>)
    ensures var r := Rows(submission, inputs, byName);
      && (r.Ok? <==> forall i :: 0 <= i < |inputs| ==> InputRow(submission, inputs[i], byName).Ok?)
      && (r.Ok? ==> (|r.value| == |inputs|
            && forall i :: 0 <= i < |inputs| ==> InputRow(submission, inputs[i], byName) == Ok(r.value[i])))
      && (r.Err? ==> exists i :: (0 <= i < |inputs| && InputRow(submission, inputs[i], byName) == Err(r.error)
            && forall j :: 0 <= j < i ==> InputRow(submission, inputs[j], byName).Ok?))
  {
    var f := input => InputRow(submission, input, byName);
    TraverseMeaning(inputs, f);
    assert forall i :: 0 <= i < |inputs| ==> f(inputs[i]) == InputRow(submission, inputs[i], byName);
  }

  /** `Traverse` succeeds exactly when `f` does on every element, with `f`'s results in order;
      otherwise it fails with the error of the first element `f` refuses. */
  lemma {:induction false} TraverseMeaning<T, U>(xs: seq<T>, f: T -> Result<U>)
    ensures var r := Traverse(xs, f);
      && (r.Ok? <==> forall i :: 0 <= i < |xs| ==> f(xs[i]).Ok?)
      && (r.Ok? ==> (|r.value| == |xs| && forall i :: 0 <= i < |xs| ==> f(xs[i]) == Ok(r.value[i])))
      && (r.Err? ==> exists i :: (0 <= i < |xs| && f(xs[i]) == Err(r.error)
            && forall j :: 0 <= j < i ==> f(xs[j]).Ok?))
    decreases |xs|
  {
    if xs != [] {
      var tail := xs[1..];
      TraverseMeaning(tail, f);
      var r := Traverse(xs, f);
      var rest := Traverse(tail, f);
      var first := f(xs[0]);
      assert forall i :: 1 <= i < |xs| ==> xs[i] == tail[i - 1];
      if first.Err? {
        assert f(xs[0]) == Err(r.error);
      } else if rest.Err? {
        var i :| 0 <= i < |tail| && f(tail[i]) == Err(rest.error) && forall j :: 0 <= j < i ==> f(tail[j]).Ok?;
        assert f(xs[i + 1]) == Err(r.error);
        assert forall j :: 0 <= j < i + 1 ==> f(xs[j]).Ok? by {
          forall j | 0 <= j < i + 1 ensures f(xs[j]).Ok? {
            if j > 0 { assert xs[j] == tail[j - 1]; }
          }
        }
      } else {
        assert r.value == [first.value] + rest.value;
      }
    }
  }

  function Prepend(rows: seq<FieldValueRow>, r: Result<seq<FieldValueRow>>): Result<seq<FieldValueRow>> {
    if r.Err? then r else Ok(rows + r.value)
  }

  /** The name index `upsertFieldValues` builds over the document type's required fields. */
  method IndexByName(defined: seq<RequiredField>) returns (byName: map<string, RequiredField>)
    ensures byName == ByName(defined)
  {
    byName := map[];
    var i := 0;
    while i < |defined|
      invariant 0 <= i <= |defined|
      invariant byName == ByName(defined[..i])
    {
      var name := defined[i].fieldName;
      assert defined[..i + 1][..i] == defined[..i];
      if name.Some? && !IsBlank(name.value) {
        byName := byName[name.value := defined[i]];
      }
      i := i + 1;
    }
    assert defined[..|defined|] == defined;
  }

  /** `upsertFieldValues` up to the write: the required fields of the document type are
      indexed by name, then every input is checked and matched in turn. */
  method BuildRows(submission: SubmissionId, inputs: seq<FieldValueInput>, defined: seq<RequiredField>)
    returns (r: Result<seq<FieldValueRow>>)
    ensures r == Rows(submission, inputs, ByName(defined))
  {
    if inputs == [] {
      return Ok([]);
    }
    var byName := IndexByName(defined);
    var rows: seq<FieldValueRow> := [];
    var j := 0;
    RowsFrom(submission, inputs, byName, [], 0);
    while j < |inputs|
      invariant 0 <= j <= |inputs|
      invariant Rows(submission, inputs, byName) == Prepend(rows, Rows(submission, inputs[j..], byName))
    {
      var row := InputRow(submission, inputs[j], byName);
      RowsFrom(submission, inputs, byName, rows, j);
      if row.Err? {
        return Err(row.error);
      }
      rows := rows + [row.value];
      j := j + 1;
    }
    RowsFrom(submission, inputs, byName, rows, j);
    return Ok(rows);
  }

  /** How `Rows` unfolds from position `j`, given the rows before it. */
  lemma RowsFrom(submission: SubmissionId, inputs: seq<FieldValueInput>, byName: map<string, RequiredField>,
                 rows: seq<FieldValueRow>, j: nat)
    requires j <= |inputs|
    ensures j == 0 ==> Prepend([], Rows(submission, inputs[j..], byName)) == Rows(submission, inputs, byName)
    ensures j == |inputs| ==> Prepend(rows, Rows(submission, inputs[j..], byName)) == Ok(rows)
    ensures j < |inputs| ==> var first := InputRow(submission, inputs[j], byName);
      Prepend(rows, Rows(submission, inputs[j..], byName)) ==
        if first.Err? then Err(first.error) else Prepend(rows + [first.value], Rows(submission, inputs[j + 1..], byName))
  {
    if j == 0 {
      assert inputs[j..] == inputs;
      var all := Rows(submission, inputs, byName);
      if all.Ok? { assert [] + all.value == all.value; }
    }
    if j == |inputs| {
      assert rows + [] == rows;
    } else {
      assert inputs[j..][0] == inputs[j] && inputs[j..][1..] == inputs[j + 1..];
      var rest := Rows(submission, inputs[j + 1..], byName);
      var first := InputRow(submission, inputs[j], byName);
      if rest.Ok? && first.Ok? {
        assert rows + ([first.value] + rest.value) == rows + [first.value] + rest.value;
      }
    }
  }

  /** The field rows of every submission but one. */
  function OtherRows(rows: seq<FieldValueRow>, submission: SubmissionId): (r: seq<FieldValueRow>)
    ensures |r| <= |rows|
    ensures forall x :: x in r <==> x in rows && x.submission != submission
  {
    if rows == [] then []
    else
      var rest := OtherRows(rows[1..], submission);
      assert forall x :: x in rows <==> x == rows[0] || x in rows[1..];
      if rows[0].submission == submission then rest else [rows[0]] + rest
  }

  /** The field rows a request carries for a submission of a document type. */
  function FieldRows(t: Tables, submission: SubmissionId, docType: DocTypeId, fieldsJson: Option<string>,
                     readObject: string -> Option<FieldValueInput>, readArray: string -> Option<seq<FieldValueInput>>)
    : Result<seq<FieldValueRow>>
  {
    var inputs :- ParseFields(fieldsJson, readObject, readArray);
    Rows(submission, inputs, ByName(FieldsOf(t.requiredFields, docType)))
  }

  /** A deadline day itself is still open; the day after it is not; without a deadline row,
      or with a row whose date is unset, every day is open. */
  lemma DeadlineGate(deadlines: map<DocTypeId, Option<Date>>, docType: DocTypeId, d: Date, today: Date)
    ensures EnsureNotPastDeadline(deadlines[docType := Some(d)], docType, today).Ok? <==> today <= d
    ensures EnsureNotPastDeadline(deadlines[docType := None], docType, today) == Ok(())
    ensures docType !in deadlines ==> EnsureNotPastDeadline(deadlines, docType, today) == Ok(())
  {
  }

  /** Wrapping a field list in double or single quotes does not change how it is read. */
  lemma QuotedLikeBare(b: string, quote: string, readObject: string -> Option<FieldValueInput>,
                       readArray: string -> Option<seq<FieldValueInput>>)
    requires quote == "\"" || quote == "'"
    requires b != [] && !IsTrimmable(b[0]) && !IsTrimmable(b[|b| - 1]) && !IsBlank(b) && !Quoted(b)
    ensures ParseFields(Some(quote + b + quote), readObject, readArray) == ParseFields(Some(b), readObject, readArray)
  {
    var w := quote + b + quote;
    QuotedWrap(b, quote);
    TrimIdle(b);
  }

  /** A quoted, untrimmable text is its own trim, quoted, and wraps its body. */
  lemma QuotedWrap(b: string, quote: string)
    requires quote == "\"" || quote == "'"
    requires b != []
    ensures var w := quote + b + quote;
      |w| >= 2 && !IsBlank(w) && Trim(w) == w && Quoted(w) && w[1..|w| - 1] == b
  {
    var w := quote + b + quote;
    assert w[0] == quote[0] && w[|w| - 1] == quote[0];
    assert !IsBlank(w) by { assert !IsJavaWhitespace(w[0]); }
    TrimIdle(w);
    assert StartsWith(w, quote) && EndsWith(w, quote);
    assert w[1..|w| - 1] == b;
  }

  /** A lone quote character is refused as unparsable, never handed to the JSON reader. */
  lemma LoneQuoteRejected(quote: string, readObject: string -> Option<FieldValueInput>,
                          readArray: string -> Option<seq<FieldValueInput>>)
    requires quote == "\"" || quote == "'"
    ensures ParseFields(Some(quote), readObject, readArray) == Err(FieldsUnparsable)
  {
    TrimIdle(quote);
    assert !IsBlank(quote) by { assert !IsJavaWhitespace(quote[0]); }
    assert StartsWith(quote, quote) && EndsWith(quote, quote);
  }

  /** Of the required fields sharing a name, the index keeps the last one. */
  lemma {:induction false} ByNameLastWins(fields: seq<RequiredField>, i: nat)
    requires i < |fields| && fields[i].fieldName.Some? && !IsBlank(fields[i].fieldName.value)
    requires forall j :: i < j < |fields| ==> fields[j].fieldName != fields[i].fieldName
    ensures ByName(fields)[fields[i].fieldName.value] == fields[i]
    decreases |fields|
  {
    var init := fields[..|fields| - 1];
    if i < |fields| - 1 {
      assert init[i] == fields[i];
      ByNameLastWins(init, i);
    }
  }

  // ---------------------------------------------------------------- committed state

  /** The URL of a submission's file, null when it has none. */
  function FileOf(t: Tables, id: SubmissionId): Option<string> {
    if id in t.submissionFiles then Some(t.submissionFiles[id]) else None
  }

  /** `toSummary`. */
  function ToSummary(t: Tables, id: SubmissionId): Summary
    requires id in t.submissions
  {
    Summary(id, t.submissions[id].status, FileOf(t, id), t.submissions[id].submittedAt)
  }

  /** What `create` commits: the new submission in its created status with its file, its
      field rows, one "student submitted" entry, and the event for the automated review. */
  function CreatedTables(t: Tables, student: StudentId, docType: DocTypeId, url: string,
                         rows: seq<FieldValueRow>, now: Time): Tables
  {
    var id := t.nextSubmissionId;
    t.(submissions := t.submissions[id := Submission(student, docType, Lifecycle.Created, Some(now))],
       nextSubmissionId := id + 1,
       submissionFiles := t.submissionFiles[id := url],
       fieldValues := OtherRows(t.fieldValues, id) + rows,
       history := t.history + [HistoryEntry(id, None, HistoryAction.SUBMITTED, Some(StudentSubmitted))],
       outbox := t.outbox + [id])
  }

  /** What `update` commits: the new file URL and the new field rows where given, and one
      "student saved" entry when either was given. */
  function UpdatedTables(t: Tables, id: SubmissionId, url: Option<string>, rows: Option<seq<FieldValueRow>>): Tables {
    t.(submissionFiles := if url.Some? then t.submissionFiles[id := url.value] else t.submissionFiles,
       fieldValues := if rows.Some? then OtherRows(t.fieldValues, id) + rows.value else t.fieldValues,
       history := t.history + if url.Some? || rows.Some? then [HistoryEntry(id, None, MODIFIED, Some(StudentSaved))] else [])
  }

  /** The memo of a submission: a resubmission after REJECTED or NEEDS_FIX is told apart
      from a first one, and the mode is named. */
  function SubmitMemo(prev: SubmissionStatus, mode: SubmitMode): string {
    var again := prev == SubmissionStatus.REJECTED || prev == NEEDS_FIX;
    match mode
    case FINAL => if again then "학생 재제출(FINAL)" else "학생 최종제출(FINAL)"
    case DIRECT => if again then "학생 재제출(DIRECT)" else "학생 바로제출(DIRECT)"
  }

  /** Accepted rows all belong to the submission they were built for. */
  lemma RowsOwned(t: Tables, submission: SubmissionId, docType: DocTypeId, fieldsJson: Option<string>,
                  readObject: string -> Option<FieldValueInput>, readArray: string -> Option<seq<FieldValueInput>>)
    requires FieldRows(t, submission, docType, fieldsJson, readObject, readArray).Ok?
    ensures var rows := FieldRows(t, submission, docType, fieldsJson, readObject, readArray).value;
      forall i :: 0 <= i < |rows| ==> rows[i].submission == submission
  {
    var inputs := ParseFields(fieldsJson, readObject, readArray).value;
    RowsMeaning(submission, inputs, ByName(FieldsOf(t.requiredFields, docType)));
  }

  /** `create` keeps the tables consistent. */
  lemma CreatedValid(t: Tables, student: StudentId, docType: DocTypeId, url: string, rows: seq<FieldValueRow>, now: Time)
    requires t.Valid() && docType in t.docTypes
    requires forall i :: 0 <= i < |rows| ==> rows[i].submission == t.nextSubmissionId
    ensures CreatedTables(t, student, docType, url, rows, now).Valid()
  {
    var u := CreatedTables(t, student, docType, url, rows, now);
    var id := t.nextSubmissionId;
    assert forall i :: 0 <= i < |u.fieldValues| ==> u.fieldValues[i].submission in u.submissions by {
      forall i | 0 <= i < |u.fieldValues| ensures u.fieldValues[i].submission in u.submissions {
        var others := OtherRows(t.fieldValues, id);
        if i < |others| {
          assert others[i] in others;
        } else {
          assert u.fieldValues[i] == rows[i - |others|];
        }
      }
    }
    assert forall i :: 0 <= i < |u.history| ==> u.history[i].submission in u.submissions by {
      forall i | 0 <= i < |u.history| ensures u.history[i].submission in u.submissions {
        if i < |t.history| { assert u.history[i] == t.history[i]; }
      }
    }
    assert forall i :: 0 <= i < |u.outbox| ==> u.outbox[i] in u.submissions by {
      forall i | 0 <= i < |u.outbox| ensures u.outbox[i] in u.submissions {
        if i < |t.outbox| { assert u.outbox[i] == t.outbox[i]; }
      }
    }
  }

  /** The next submission id has no history yet. */
  lemma NoHistoryYet(t: Tables)
    requires t.Valid()
    ensures HistoryOf(t.history, t.nextSubmissionId) == []
  {
    assert forall i :: 0 <= i < |t.history| ==> t.history[i].submission != t.nextSubmissionId;
  }

  /** A created submission is new, starts in the created status with its file, and is
      queued last for the automated review. */
  lemma CreatedEffect(t: Tables, student: StudentId, docType: DocTypeId, url: string, rows: seq<FieldValueRow>, now: Time)
    requires t.Valid()
    ensures var u := CreatedTables(t, student, docType, url, rows, now);
      var id := t.nextSubmissionId;
      && id !in t.submissions && u.submissions.Keys == t.submissions.Keys + {id}
      && u.submissions[id].status == BOT_REVIEW && u.submissions[id].submittedAt == Some(now)
      && u.outbox == t.outbox + [id]
      && FileOf(u, id) == Some(url)
  {
    assert t.nextSubmissionId !in t.submissions;
  }

  /** The history of a created submission is exactly one "student submitted" entry. */
  lemma CreatedHistory(t: Tables, student: StudentId, docType: DocTypeId, url: string, rows: seq<FieldValueRow>, now: Time)
    requires t.Valid()
    ensures var id := t.nextSubmissionId;
      HistoryOf(CreatedTables(t, student, docType, url, rows, now).history, id)
        == [HistoryEntry(id, None, HistoryAction.SUBMITTED, Some(StudentSubmitted))]
  {
    FirstEntry(t, HistoryEntry(t.nextSubmissionId, None, HistoryAction.SUBMITTED, Some(StudentSubmitted)));
  }

  /** An entry for the next submission id is the first of its history. */
  lemma FirstEntry(t: Tables, e: HistoryEntry)
    requires t.Valid() && e.submission == t.nextSubmissionId
    ensures HistoryOf(t.history + [e], e.submission) == [e]
  {
    NoHistoryYet(t);
    HistoryOfAppend(t.history, e, e.submission);
    assert [] + [e] == [e];
  }

  /** What `submit` commits: the new status for the mode (DIRECT goes straight to the
      administrators, FINAL back to the automated review), the submission time, and one
      "student submitted" entry whose memo names the mode and tells a resubmission apart.
      No event is published, so nothing starts the automated review of a FINAL submission. */
  function SubmittedTables(t: Tables, id: SubmissionId, mode: SubmitMode, now: Time): Tables
    requires id in t.submissions
  {
    var s := t.submissions[id];
    var status := if mode == DIRECT then SubmissionStatus.SUBMITTED else BOT_REVIEW;
    t.(submissions := t.submissions[id := s.(status := status, submittedAt := Some(now))],
       history := t.history + [HistoryEntry(id, None, HistoryAction.SUBMITTED, Some(SubmitMemo(s.status, mode)))])
  }

  /** The memo tells the mode and whether the submission had been sent back before. */
  lemma SubmitMemoDistinct(p: SubmissionStatus, m: SubmitMode, q: SubmissionStatus, n: SubmitMode)
    ensures SubmitMemo(p, m) == SubmitMemo(q, n) <==>
      m == n && ((p == SubmissionStatus.REJECTED || p == NEEDS_FIX) <==> (q == SubmissionStatus.REJECTED || q == NEEDS_FIX))
  {
    var a, b := SubmitMemo(p, m), SubmitMemo(q, n);
    if m != n || ((p == SubmissionStatus.REJECTED || p == NEEDS_FIX) != (q == SubmissionStatus.REJECTED || q == NEEDS_FIX)) {
      assert a[3] != b[3] || a[|a| - 3] != b[|b| - 3];
    }
  }

  /** `submit` commits the status the lifecycle prescribes, touches no other submission, keeps
      the file and field rows, appends one entry to this submission's history only, and
      publishes no event. */
  lemma SubmittedEffect(t: Tables, id: SubmissionId, mode: SubmitMode, now: Time)
    requires id in t.submissions && Submittable(t.submissions[id].status)
    ensures var u := SubmittedTables(t, id, mode, now);
      && Next(t.submissions[id].status, StudentSubmit(mode)) == Some(u.submissions[id].status)
      && u.submissions[id].submittedAt == Some(now)
      && (forall j :: j in t.submissions && j != id ==> j in u.submissions && u.submissions[j] == t.submissions[j])
      && u.submissions.Keys == t.submissions.Keys
      && u.submissionFiles == t.submissionFiles && u.fieldValues == t.fieldValues && u.outbox == t.outbox
      && HistoryOf(u.history, id) == HistoryOf(t.history, id)
           + [HistoryEntry(id, None, HistoryAction.SUBMITTED, Some(SubmitMemo(t.submissions[id].status, mode)))]
      && (forall j :: j != id ==> HistoryOf(u.history, j) == HistoryOf(t.history, j))
  {
    var e := HistoryEntry(id, None, HistoryAction.SUBMITTED, Some(SubmitMemo(t.submissions[id].status, mode)));
    HistoryOfAppendOne(t.history, e);
  }

  /** `submit` keeps the tables consistent. */
  lemma SubmittedValid(t: Tables, id: SubmissionId, mode: SubmitMode, now: Time)
    requires t.Valid() && id in t.submissions
    ensures SubmittedTables(t, id, mode, now).Valid()
  {
    var u := SubmittedTables(t, id, mode, now);
    assert forall i :: 0 <= i < |u.history| ==> u.history[i].submission in u.submissions by {
      forall i | 0 <= i < |u.history| ensures u.history[i].submission in u.submissions {
        if i < |t.history| { assert u.history[i] == t.history[i]; }
      }
    }
  }

  /** `update` changes no submission record nor any other submission's rows or history; it
      appends the "student saved" entry exactly when a file or a field list was given. */
  lemma UpdatedEffect(t: Tables, id: SubmissionId, url: Option<string>, rows: Option<seq<FieldValueRow>>)
    requires forall i :: rows.Some? && 0 <= i < |rows.value| ==> rows.value[i].submission == id
    ensures var u := UpdatedTables(t, id, url, rows);
      && u.submissions == t.submissions && u.outbox == t.outbox
      && (forall x: FieldValueRow :: x.submission != id ==> (x in u.fieldValues <==> x in t.fieldValues))
      && (rows.Some? ==> forall x: FieldValueRow :: x.submission == id ==> (x in u.fieldValues <==> x in rows.value))
      && (forall j :: j != id && j in t.submissionFiles ==> j in u.submissionFiles && u.submissionFiles[j] == t.submissionFiles[j])
      && HistoryOf(u.history, id) == HistoryOf(t.history, id)
           + (if url.Some? || rows.Some? then [HistoryEntry(id, None, MODIFIED, Some(StudentSaved))] else [])
      && (forall j :: j != id ==> HistoryOf(u.history, j) == HistoryOf(t.history, j))
  {
    var e := HistoryEntry(id, None, MODIFIED, Some(StudentSaved));
    var u := UpdatedTables(t, id, url, rows);
    if url.Some? || rows.Some? {
      HistoryOfAppendOne(t.history, e);
    } else {
      assert u.history == t.history;
      assert HistoryOf(t.history, id) + [] == HistoryOf(t.history, id);
    }
  }

  /** `update` keeps the tables consistent. */
  lemma UpdatedValid(t: Tables, id: SubmissionId, url: Option<string>, rows: Option<seq<FieldValueRow>>)
    requires t.Valid() && id in t.submissions
    requires forall i :: rows.Some? && 0 <= i < |rows.value| ==> rows.value[i].submission == id
    ensures UpdatedTables(t, id, url, rows).Valid()
  {
    var u := UpdatedTables(t, id, url, rows);
    assert forall i :: 0 <= i < |u.fieldValues| ==> u.fieldValues[i].submission in u.submissions by {
      forall i | 0 <= i < |u.fieldValues| ensures u.fieldValues[i].submission in u.submissions {
        if rows.Some? {
          var others := OtherRows(t.fieldValues, id);
          if i < |others| {
            assert others[i] in others;
          } else {
            assert u.fieldValues[i] == rows.value[i - |others|];
          }
        }
      }
    }
    assert forall i :: 0 <= i < |u.history| ==> u.history[i].submission in u.submissions by {
      forall i | 0 <= i < |u.history| ensures u.history[i].submission in u.submissions {
        if i < |t.history| { assert u.history[i] == t.history[i]; }
      }
    }
  }

  // ---------------------------------------------------------------- file replacement

  /** `upsertFile` as written: the upload is saved, then the previous file is deleted
      (errors swallowed) — also when the previous URL designates the file just saved. */
  method UpsertFileAsWritten(store: FileStore, id: SubmissionId, file: Upload, previous: Option<string>,
                             writeError: Option<string>) returns (r: Result<string>)
    modifies store
    ensures var name := StoredName(file.originalFilename);
      match SaveTarget(SubmissionOwner(id).Dir(), name)
      case Err(e) => r == Err(e) && store.disk == old(store.disk)
      case Ok(target) =>
        if writeError.Some? then r == Err(WriteFailed(writeError.value)) && store.disk == old(store.disk)
        else (r == Ok(SavedUrl(SubmissionOwner(id), file.originalFilename))
          && store.disk == ReplacedAsWritten(old(store.disk), target, file.content, previous))
  {
    r := store.SaveFor(SubmissionOwner(id), file, writeError);
    if r.Ok? {
      var _ := store.DeleteByUrl(previous);
    }
  }

  /** `upsertFile`, corrected: the previous file is deleted only when it is not the file
      just saved. */
  method UpsertFile(store: FileStore, id: SubmissionId, file: Upload, previous: Option<string>,
                    writeError: Option<string>) returns (r: Result<string>)
    modifies store
    ensures var name := StoredName(file.originalFilename);
      match SaveTarget(SubmissionOwner(id).Dir(), name)
      case Err(e) => r == Err(e) && store.disk == old(store.disk)
      case Ok(target) =>
        if writeError.Some? then r == Err(WriteFailed(writeError.value)) && store.disk == old(store.disk)
        else (r == Ok(SavedUrl(SubmissionOwner(id), file.originalFilename))
          && store.disk == Replaced(old(store.disk), target, file.content, previous))
  {
    r := store.SaveFor(SubmissionOwner(id), file, writeError);
    if r.Ok? {
      var target := SaveTarget(SubmissionOwner(id).Dir(), StoredName(file.originalFilename)).value;
      if DeleteTarget(previous) != Some(target) {
        var _ := store.DeleteByUrl(previous);
      }
    }
  }

  // ---------------------------------------------------------------- service operations

  /** `parseFields` then `upsertFieldValues` up to the write. */
  method ReadFieldRows(db: Db, submission: SubmissionId, docType: DocTypeId, fieldsJson: Option<string>,
                       readObject: string -> Option<FieldValueInput>, readArray: string -> Option<seq<FieldValueInput>>)
    returns (r: Result<seq<FieldValueRow>>)
    ensures r == FieldRows(db.T(), submission, docType, fieldsJson, readObject, readArray)
  {
    var inputs := ParseFields(fieldsJson, readObject, readArray);
    if inputs.Err? {
      return Err(inputs.error);
    }
    r := BuildRows(submission, inputs.value, FieldsOf(db.requiredFields, docType));
  }

  /** The writes of `create`, committed together. */
  method CommitCreate(db: Db, student: StudentId, docType: DocTypeId, url: string, rows: seq<FieldValueRow>, now: Time)
    requires db.Valid() && docType in db.docTypes
    requires forall i :: 0 <= i < |rows| ==> rows[i].submission == db.nextSubmissionId
    modifies db
    ensures db.Valid()
    ensures db.T() == CreatedTables(old(db.T()), student, docType, url, rows, now)
  {
    var id := db.nextSubmissionId;
    ghost var after := CreatedTables(db.T(), student, docType, url, rows, now);
    CreatedValid(db.T(), student, docType, url, rows, now);
    db.submissions, db.nextSubmissionId, db.submissionFiles :=
      db.submissions[id := Submission(student, docType, Lifecycle.Created, Some(now))], id + 1, db.submissionFiles[id := url];
    db.fieldValues, db.history, db.outbox :=
      OtherRows(db.fieldValues, id) + rows, db.history + [HistoryEntry(id, None, HistoryAction.SUBMITTED, Some(StudentSubmitted))],
      db.outbox + [id];
    assert db.T() == after;
  }

  /** `create`, one transaction; the file is written to disk before the field rows are
      checked, so a refused field list leaves the file behind while nothing is committed. */
  method Create(db: Db, store: FileStore, student: StudentId, docTypeId: DocTypeId, fieldsJson: Option<string>,
                file: Option<Upload>, today: Date, now: Time,
                readObject: string -> Option<FieldValueInput>, readArray: string -> Option<seq<FieldValueInput>>,
                writeError: Option<string>) returns (r: Result<Summary>)
    requires db.Valid()
    modifies db, store
    ensures db.Valid()
    ensures r.Err? ==> db.T() == old(db.T())
    ensures docTypeId !in old(db.docTypes) ==> r == Err(DocTypeMissing) && store.disk == old(store.disk)
    ensures docTypeId in old(db.docTypes) && EnsureNotPastDeadline(old(db.deadlines), docTypeId, today).Err? ==>
      r == Err(DeadlinePassed) && store.disk == old(store.disk)
    ensures file.None? || file.value.IsEmpty() ==> r.Err? && store.disk == old(store.disk)
    ensures (&& docTypeId in old(db.docTypes) && EnsureNotPastDeadline(old(db.deadlines), docTypeId, today).Ok?
             && (file.None? || file.value.IsEmpty())) ==> r == Err(FileRequired)
    ensures docTypeId in old(db.docTypes) && EnsureNotPastDeadline(old(db.deadlines), docTypeId, today).Ok?
            && file.Some? && !file.value.IsEmpty() ==>
      var id := old(db.nextSubmissionId);
      match SaveTarget(SubmissionOwner(id).Dir(), StoredName(file.value.originalFilename))
      case Err(e) => r == Err(e) && store.disk == old(store.disk)
      case Ok(target) =>
        if writeError.Some? then r == Err(WriteFailed(writeError.value)) && store.disk == old(store.disk)
        else
          var rows := FieldRows(old(db.T()), id, docTypeId, fieldsJson, readObject, readArray);
          // a refused field list leaves the written file behind
          && store.disk == old(store.disk)[target := file.value.content]
          && (if rows.Err? then r == Err(rows.error) else r.Ok?)
    ensures r.Ok? ==> && docTypeId in old(db.docTypes)
                      && EnsureNotPastDeadline(old(db.deadlines), docTypeId, today).Ok?
                      && file.Some? && !file.value.IsEmpty() && writeError.None?
    ensures r.Ok? ==> var id := old(db.nextSubmissionId);
      var target := SaveTarget(SubmissionOwner(id).Dir(), StoredName(file.value.originalFilename));
      var url := SavedUrl(SubmissionOwner(id), file.value.originalFilename);
      var rows := FieldRows(old(db.T()), id, docTypeId, fieldsJson, readObject, readArray);
      && target.Ok? && rows.Ok?
      && r.value == Summary(id, Lifecycle.Created, Some(url), Some(now))
      && db.T() == CreatedTables(old(db.T()), student, docTypeId, url, rows.value, now)
      && store.disk == old(store.disk)[target.value := file.value.content]
  {
    if docTypeId !in db.docTypes {
      return Err(DocTypeMissing);
    }
    var gate := EnsureNotPastDeadline(db.deadlines, docTypeId, today);
    if gate.Err? {
      return Err(gate.error);
    }
    if file.None? || file.value.IsEmpty() {
      return Err(FileRequired);
    }
    var id := db.nextSubmissionId;
    // a new submission has no file row yet
    var url := UpsertFile(store, id, file.value, None, writeError);
    if url.Err? {
      return Err(url.error);
    }
    ghost var target := SaveTarget(SubmissionOwner(id).Dir(), StoredName(file.value.originalFilename)).value;
    assert store.disk == old(store.disk)[target := file.value.content] by {
      ReplacedFresh(old(store.disk), target, file.value.content);
    }
    var rows := ReadFieldRows(db, id, docTypeId, fieldsJson, readObject, readArray);
    if rows.Err? {
      return Err(rows.error);
    }
    RowsOwned(db.T(), id, docTypeId, fieldsJson, readObject, readArray);
    CommitCreate(db, student, docTypeId, url.value, rows.value, now);
    return Ok(Summary(id, Lifecycle.Created, Some(url.value), Some(now)));
  }

  /** The writes of `update`, committed together. */
  method CommitUpdate(db: Db, id: SubmissionId, url: Option<string>, rows: Option<seq<FieldValueRow>>)
    requires db.Valid() && id in db.submissions
    requires forall i :: rows.Some? && 0 <= i < |rows.value| ==> rows.value[i].submission == id
    modifies db
    ensures db.Valid()
    ensures db.T() == UpdatedTables(old(db.T()), id, url, rows)
  {
    ghost var after := UpdatedTables(db.T(), id, url, rows);
    UpdatedValid(db.T(), id, url, rows);
    if url.Some? {
      db.submissionFiles := db.submissionFiles[id := url.value];
    }
    if rows.Some? {
      db.fieldValues := OtherRows(db.fieldValues, id) + rows.value;
    }
    if url.Some? || rows.Some? {
      db.history := db.history + [HistoryEntry(id, None, MODIFIED, Some(StudentSaved))];
    }
    assert db.T() == after;
  }

  /** `update`, one transaction: a draft or rejected submission gets the new file and the new
      field list where given. The file is replaced on disk before the field list is checked,
      so a refused field list leaves the new file on disk while the old URL stays committed. */
  method Update(db: Db, store: FileStore, id: SubmissionId, fieldsJson: Option<string>, file: Option<Upload>,
                readObject: string -> Option<FieldValueInput>, readArray: string -> Option<seq<FieldValueInput>>,
                writeError: Option<string>) returns (r: Result<Summary>)
    requires db.Valid()
    modifies db, store
    ensures db.Valid()
    ensures r.Err? ==> db.T() == old(db.T())
    ensures id !in old(db.submissions) ==> r == Err(SubmissionMissing) && store.disk == old(store.disk)
    ensures id in old(db.submissions) && !Editable(old(db.submissions[id].status)) ==>
      r == Err(NotAllowed) && store.disk == old(store.disk)
    ensures (file.None? || file.value.IsEmpty()) ==> store.disk == old(store.disk)
    ensures id in old(db.submissions) && Editable(old(db.submissions[id].status)) && file.Some? && !file.value.IsEmpty() ==>
      match SaveTarget(SubmissionOwner(id).Dir(), StoredName(file.value.originalFilename))
      case Err(e) => r == Err(e) && store.disk == old(store.disk)
      case Ok(target) =>
        if writeError.Some? then r == Err(WriteFailed(writeError.value)) && store.disk == old(store.disk)
        else store.disk == Replaced(old(store.disk), target, file.value.content, FileOf(old(db.T()), id))
    ensures id in old(db.submissions) && Editable(old(db.submissions[id].status))
            && (file.None? || file.value.IsEmpty()
                || (SaveTarget(SubmissionOwner(id).Dir(), StoredName(file.value.originalFilename)).Ok? && writeError.None?)) ==>
      var given := fieldsJson.Some? && !IsBlank(fieldsJson.value);
      var rows := FieldRows(old(db.T()), id, old(db.submissions[id].docType), fieldsJson, readObject, readArray);
      if given && rows.Err? then r == Err(rows.error) else r.Ok?
    ensures r.Ok? ==> (&& id in old(db.submissions) && Editable(old(db.submissions[id].status))
      && var url := if file.Some? && !file.value.IsEmpty() then Some(SavedUrl(SubmissionOwner(id), file.value.originalFilename)) else None;
         var given := fieldsJson.Some? && !IsBlank(fieldsJson.value);
         var rows := FieldRows(old(db.T()), id, old(db.submissions[id].docType), fieldsJson, readObject, readArray);
         && (given ==> rows.Ok?)
         && db.T() == UpdatedTables(old(db.T()), id, url, if given then Some(rows.value) else None)
         && r.value == ToSummary(db.T(), id))
  {
    if id !in db.submissions {
      return Err(SubmissionMissing);
    }
    var s := db.submissions[id];
    if !Editable(s.status) {
      return Err(NotAllowed);
    }
    var previous := if id in db.submissionFiles then Some(db.submissionFiles[id]) else None;
    var url := ReplaceIfPresent(store, id, file, previous, writeError);
    if url.Err? {
      return Err(url.error);
    }
    var rows := ReadGivenRows(db, id, s.docType, fieldsJson, readObject, readArray);
    if rows.Err? {
      return Err(rows.error);
    }
    CommitUpdate(db, id, url.value, rows.value);
    var fileUrl := if id in db.submissionFiles then Some(db.submissionFiles[id]) else None;
    return Ok(Summary(id, db.submissions[id].status, fileUrl, db.submissions[id].submittedAt));
  }

  /** The file step of `update`: a present, non-empty upload replaces the submission's file. */
  method ReplaceIfPresent(store: FileStore, id: SubmissionId, file: Option<Upload>, previous: Option<string>,
                          writeError: Option<string>) returns (r: Result<Option<string>>)
    modifies store
    ensures (file.None? || file.value.IsEmpty()) ==> r == Ok(None) && store.disk == old(store.disk)
    ensures r.Ok? <==> (|| file.None? || file.value.IsEmpty()
                        || (SaveTarget(SubmissionOwner(id).Dir(), StoredName(file.value.originalFilename)).Ok? && writeError.None?))
    ensures file.Some? && !file.value.IsEmpty() ==>
      match SaveTarget(SubmissionOwner(id).Dir(), StoredName(file.value.originalFilename))
      case Err(e) => r == Err(e) && store.disk == old(store.disk)
      case Ok(target) =>
        if writeError.Some? then r == Err(WriteFailed(writeError.value)) && store.disk == old(store.disk)
        else (r == Ok(Some(SavedUrl(SubmissionOwner(id), file.value.originalFilename)))
          && store.disk == Replaced(old(store.disk), target, file.value.content, previous))
  {
    if file.None? || file.value.IsEmpty() {
      return Ok(None);
    }
    var saved := UpsertFile(store, id, file.value, previous, writeError);
    if saved.Err? {
      return Err(saved.error);
    }
    return Ok(Some(saved.value));
  }

  /** The field step of `update`: a missing or blank field list leaves the rows alone;
      otherwise the rows it carries, all of them for the submission, or the error. */
  method ReadGivenRows(db: Db, id: SubmissionId, docType: DocTypeId, fieldsJson: Option<string>,
                       readObject: string -> Option<FieldValueInput>, readArray: string -> Option<seq<FieldValueInput>>)
    returns (r: Result<Option<seq<FieldValueRow>>>)
    ensures fieldsJson.None? || IsBlank(fieldsJson.value) ==> r == Ok(None)
    ensures fieldsJson.Some? && !IsBlank(fieldsJson.value) ==>
      var rows := FieldRows(db.T(), id, docType, fieldsJson, readObject, readArray);
      && (rows.Err? ==> r == Err(rows.error))
      && (rows.Ok? ==> r == Ok(Some(rows.value)))
    ensures r.Ok? && r.value.Some? ==> forall i :: 0 <= i < |r.value.value| ==> r.value.value[i].submission == id
  {
    if fieldsJson.None? || IsBlank(fieldsJson.value) {
      return Ok(None);
    }
    var read := ReadFieldRows(db, id, docType, fieldsJson, readObject, readArray);
    if read.Err? {
      return Err(read.error);
    }
    RowsOwned(db.T(), id, docType, fieldsJson, readObject, readArray);
    return Ok(Some(read.value));
  }

  /** The writes of `submit`, committed together. */
  method CommitSubmit(db: Db, id: SubmissionId, mode: SubmitMode, now: Time)
    requires db.Valid() && id in db.submissions
    modifies db
    ensures db.Valid()
    ensures db.T() == SubmittedTables(old(db.T()), id, mode, now)
  {
    ghost var after := SubmittedTables(db.T(), id, mode, now);
    SubmittedValid(db.T(), id, mode, now);
    var s := db.submissions[id];
    var status := if mode == DIRECT then SubmissionStatus.SUBMITTED else BOT_REVIEW;
    db.submissions, db.history :=
      db.submissions[id := s.(status := status, submittedAt := Some(now))],
      db.history + [HistoryEntry(id, None, HistoryAction.SUBMITTED, Some(SubmitMemo(s.status, mode)))];
    assert db.T() == after;
  }

  /** `submit`, one transaction: the status is checked first, then the mode (`None` when the
      body or its mode is missing), then the deadline. */
  method Submit(db: Db, id: SubmissionId, mode: Option<SubmitMode>, today: Date, now: Time) returns (r: Result<Summary>)
    requires db.Valid()
    modifies db
    ensures db.Valid()
    ensures r.Err? ==> db.T() == old(db.T())
    ensures id !in old(db.submissions) ==> r == Err(SubmissionMissing)
    ensures id in old(db.submissions) ==>
      var s := old(db.submissions[id]);
      if !Submittable(s.status) then r == Err(NotAllowed)
      else if mode.None? then r == Err(ModeRequired)
      else if EnsureNotPastDeadline(old(db.deadlines), s.docType, today).Err? then r == Err(DeadlinePassed)
      else && db.T() == SubmittedTables(old(db.T()), id, mode.value, now)
           && r == Ok(ToSummary(db.T(), id))
  {
    if id !in db.submissions {
      return Err(SubmissionMissing);
    }
    var s := db.submissions[id];
    if !Submittable(s.status) {
      return Err(NotAllowed);
    }
    if mode.None? {
      return Err(ModeRequired);
    }
    var gate := EnsureNotPastDeadline(db.deadlines, s.docType, today);
    if gate.Err? {
      return Err(gate.error);
    }
    CommitSubmit(db, id, mode.value, now);
    var fileUrl := if id in db.submissionFiles then Some(db.submissionFiles[id]) else None;
    return Ok(Summary(id, db.submissions[id].status, fileUrl, db.submissions[id].submittedAt));
  }
}
