/** `AdminSubmissionService`: an administrator's approval or rejection of a submission under
    review, the file download, and the two display helpers of the detail view. The calling
    member is supplied; whether it is an administrator is looked up in the admins table. */
module AdminReview {
  import opened Common
  import opened Text
  import opened Paths
  import opened Domain
  import opened Database
  import opened Lifecycle
  import opened Storage
  import UrlCodec
  import Submissions
  import ReviewTransaction

  const NotReviewable: Error := Conflict("검토 가능한 상태가 아닙니다.")
  const NoAdmin: Error := Forbidden("관리자 권한이 없습니다.")
  const FileMissing: Error := NotFound("제출 파일이 없습니다.")
  const ApprovedMemo := "승인 처리되었습니다."
  const RejectPrefix := "반려 사유: "
  const SystemActor := "학생/시스템"
  const UnnamedAdmin := "관리자"

  // ---------------------------------------------------------------- decisions

  /** `requireReviewable`: the submission as the transaction holds it after the check. A
      reviewable submission is marked UNDER_REVIEW in memory; the mark is only committed if
      the rest of the transaction is, and both decisions overwrite it before the commit. */
  method RequireReviewable(db: Db, id: SubmissionId) returns (r: Result<Submission>)
    ensures id !in db.submissions ==> r == Err(Submissions.SubmissionMissing)
    ensures id in db.submissions && !Reviewable(db.submissions[id].status) ==> r == Err(NotReviewable)
    ensures r.Ok? <==> id in db.submissions && Reviewable(db.submissions[id].status)
    ensures r.Ok? ==> r.value == db.submissions[id].(status := UNDER_REVIEW)
  {
    if id !in db.submissions {
      return Err(Submissions.SubmissionMissing);
    }
    var s := db.submissions[id];
    if !(s.status in {SubmissionStatus.SUBMITTED, UNDER_REVIEW, BOT_REVIEW, NEEDS_FIX}) {
      return Err(NotReviewable);
    }
    if s.status == SubmissionStatus.SUBMITTED || s.status == BOT_REVIEW || s.status == NEEDS_FIX {
      s := s.(status := UNDER_REVIEW);
    }
    return Ok(s);
  }

  /** The memo of a rejection: the administrator's reason, or the placeholder when none was given. */
  function RejectMemo(reason: Option<string>): (m: string)
    ensures StartsWith(m, RejectPrefix)
    ensures m[|RejectPrefix|..] == ReviewTransaction.ReasonOrDefault(reason)
  {
    RejectPrefix + ReviewTransaction.ReasonOrDefault(reason)
  }

  /** What a decision commits: the decided status and one entry carrying the administrator. */
  function DecidedTables(t: Tables, id: SubmissionId, admin: AdminId, status: SubmissionStatus,
                         action: HistoryAction, memo: string): Tables
    requires id in t.submissions
  {
    t.(submissions := t.submissions[id := t.submissions[id].(status := status)],
       history := t.history + [HistoryEntry(id, Some(admin), action, Some(memo))])
  }

  /** A decision commits the status the lifecycle prescribes for it, changes no other
      submission, and adds exactly one entry, to this submission's history only. */
  lemma DecidedEffect(t: Tables, id: SubmissionId, admin: AdminId, approve: bool, reason: Option<string>)
    requires id in t.submissions && Reviewable(t.submissions[id].status)
    ensures var status := if approve then SubmissionStatus.APPROVED else SubmissionStatus.REJECTED;
      var action := if approve then HistoryAction.APPROVED else HistoryAction.REJECTED;
      var memo := if approve then ApprovedMemo else RejectMemo(reason);
      var u := DecidedTables(t, id, admin, status, action, memo);
      && Next(t.submissions[id].status, if approve then AdminApprove else AdminReject) == Some(u.submissions[id].status)
      && u.submissions.Keys == t.submissions.Keys
      && (forall j :: j in t.submissions && j != id ==> u.submissions[j] == t.submissions[j])
      && u.submissions[id].submittedAt == t.submissions[id].submittedAt
      && u.submissionFiles == t.submissionFiles && u.fieldValues == t.fieldValues && u.outbox == t.outbox
      && HistoryOf(u.history, id) == HistoryOf(t.history, id) + [HistoryEntry(id, Some(admin), action, Some(memo))]
      && (forall j :: j != id ==> HistoryOf(u.history, j) == HistoryOf(t.history, j))
  {
    var status := if approve then SubmissionStatus.APPROVED else SubmissionStatus.REJECTED;
    var action := if approve then HistoryAction.APPROVED else HistoryAction.REJECTED;
    var memo := if approve then ApprovedMemo else RejectMemo(reason);
    DecidedFrame(t, id, admin, status, action, memo);
    assert Next(t.submissions[id].status, if approve then AdminApprove else AdminReject) == Some(status);
  }

  /** The tables after a decision: the one status set, the one entry appended. */
  lemma DecidedFrame(t: Tables, id: SubmissionId, admin: AdminId, status: SubmissionStatus,
                     action: HistoryAction, memo: string)
    requires id in t.submissions
    ensures var u := DecidedTables(t, id, admin, status, action, memo);
      && u.submissions[id].status == status
      && u.submissions.Keys == t.submissions.Keys
      && (forall j :: j in t.submissions && j != id ==> u.submissions[j] == t.submissions[j])
      && u.submissions[id].submittedAt == t.submissions[id].submittedAt
      && u.submissionFiles == t.submissionFiles && u.fieldValues == t.fieldValues && u.outbox == t.outbox
      && HistoryOf(u.history, id) == HistoryOf(t.history, id) + [HistoryEntry(id, Some(admin), action, Some(memo))]
      && (forall j :: j != id ==> HistoryOf(u.history, j) == HistoryOf(t.history, j))
  {
    HistoryOfAppendOne(t.history, HistoryEntry(id, Some(admin), action, Some(memo)));
  }

  /** A decision keeps the tables consistent. */
  lemma DecidedValid(t: Tables, id: SubmissionId, admin: AdminId, status: SubmissionStatus, action: HistoryAction, memo: string)
    requires t.Valid() && id in t.submissions
    ensures DecidedTables(t, id, admin, status, action, memo).Valid()
  {
    var u := DecidedTables(t, id, admin, status, action, memo);
    assert forall i :: 0 <= i < |u.history| ==> u.history[i].submission in u.submissions by {
      forall i | 0 <= i < |u.history| ensures u.history[i].submission in u.submissions {
        if i < |t.history| { assert u.history[i] == t.history[i]; }
      }
    }
  }

  /** The writes of a decision, committed together. */
  method CommitDecision(db: Db, id: SubmissionId, admin: AdminId, status: SubmissionStatus, action: HistoryAction, memo: string)
    requires db.Valid() && id in db.submissions
    modifies db
    ensures db.Valid()
    ensures db.T() == DecidedTables(old(db.T()), id, admin, status, action, memo)
  {
    ghost var after := DecidedTables(db.T(), id, admin, status, action, memo);
    DecidedValid(db.T(), id, admin, status, action, memo);
    db.submissions, db.history :=
      db.submissions[id := db.submissions[id].(status := status)],
      db.history + [HistoryEntry(id, Some(admin), action, Some(memo))];
    assert db.T() == after;
  }

  /** `approve` (`approve = true`) and `reject`, one transaction each: the submission must be
      under review, then the caller must be an administrator. */
  method Decide(db: Db, id: SubmissionId, member: MemberId, approve: bool, reason: Option<string>)
    returns (r: Result<Summary>)
    requires db.Valid()
    modifies db
    ensures db.Valid()
    ensures r.Err? ==> db.T() == old(db.T())
    ensures id !in old(db.submissions) ==> r == Err(Submissions.SubmissionMissing)
    ensures id in old(db.submissions) ==>
      if !Reviewable(old(db.submissions[id].status)) then r == Err(NotReviewable)
      else if member !in old(db.admins) then r == Err(NoAdmin)
      else && db.T() == DecidedTables(old(db.T()), id, old(db.admins[member]),
                           if approve then SubmissionStatus.APPROVED else SubmissionStatus.REJECTED,
                           if approve then HistoryAction.APPROVED else HistoryAction.REJECTED,
                           if approve then ApprovedMemo else RejectMemo(reason))
           && r == Ok(Submissions.ToSummary(db.T(), id))
  {
    var s := RequireReviewable(db, id);
    if s.Err? {
      return Err(s.error);
    }
    if member !in db.admins {
      return Err(NoAdmin);
    }
    if approve {
      CommitDecision(db, id, db.admins[member], SubmissionStatus.APPROVED, HistoryAction.APPROVED, ApprovedMemo);
    } else {
      CommitDecision(db, id, db.admins[member], SubmissionStatus.REJECTED, HistoryAction.REJECTED, RejectMemo(reason));
    }
    var fileUrl := if id in db.submissionFiles then Some(db.submissionFiles[id]) else None;
    return Ok(Summary(id, db.submissions[id].status, fileUrl, db.submissions[id].submittedAt));
  }

  // ---------------------------------------------------------------- display helpers

  /** The administrator a history entry carries, as far as the detail view reads it. */
  datatype AdminInfo = AdminInfo(memberName: Option<string>, adminId: Option<AdminId>)

  /** `resolveAdminName`: the member's name, else the admin id, else a generic label; an
      entry without an administrator is attributed to the student or the system. */
  function ResolveAdminName(admin: Option<AdminInfo>): (r: string)
    ensures r == SystemActor <==> admin.None? || admin.value.memberName == Some(SystemActor)
    ensures admin.Some? && admin.value.memberName.Some? ==> r == admin.value.memberName.value
    ensures admin.Some? && admin.value.memberName.None? ==>
      (r == UnnamedAdmin <==> admin.value.adminId.None?) && r != SystemActor
  {
    match admin
    case None => SystemActor
    case Some(a) =>
      if a.memberName.Some? then a.memberName.value
      else if a.adminId.Some? then
        var digits := NatToString(a.adminId.value);
        assert IsDigit(digits[0]);
        digits
      else UnnamedAdmin
  }

  /** `extractFileName`: null for a null or blank URL; otherwise the part before the first '?',
      cut after its last '/' or '\' unless that is its last character, then percent-decoded,
      or kept as it is when decoding fails. A URL made only of '?' leaves no part at all and
      Java's array access fails. */
  function ExtractFileName(url: Option<string>): (r: Result<Option<string>>)
    ensures url.None? || IsBlank(url.value) ==> r == Ok(None)
  {
    if url.None? || IsBlank(url.value) then Ok(None)
    else
      var parts := JavaSplit(url.value, '?');
      if parts == [] then Err(IndexOutOfBounds("Index 0 out of bounds for length 0"))
      else
        var base := parts[0];
        var idx := if LastIndexOf(base, '/') >= LastIndexOf(base, '\\') then LastIndexOf(base, '/') else LastIndexOf(base, '\\');
        var raw := if idx >= 0 && idx < |base| - 1 then base[idx + 1..] else base;
        match UrlCodec.Decode(raw)
        case Ok(d) => Ok(Some(d))
        case Err(_) => Ok(Some(raw))
  }

  /** On a URL with no query, no backslash and no trailing '/', `extractFileName` and the file
      store's `getFilename` agree. */
  lemma ExtractFileNameAgrees(url: string)
    requires !IsBlank(url) && '?' !in url && '\\' !in url && !EndsWith(url, "/")
    ensures ExtractFileName(Some(url)) == Ok(Some(GetFilename(Some(url))))
  {
    assert JavaSplit(url, '?') == [url];
    assert LastIndexOf(url, '\\') == -1;
    var i := LastIndexOf(url, '/');
    if i >= 0 {
      assert i != |url| - 1 by { assert url[|url| - 1..] != "/"; }
    }
  }

  /** An owner's URL prefix starts with '/' and holds no '?', '\', '%' or '+'. */
  lemma PrefixAlphabet(owner: Owner)
    ensures var p := owner.UrlPrefix();
      p[0] == '/' && '?' !in p && '\\' !in p && '%' !in p && '+' !in p
  {
    OwnerDirPlain(owner);
    assert owner.Dir().names[1] == owner.Area() && owner.Dir().names[2] == NatToString(owner.Id());
  }

  /** An encoded name holds no '?' and no '\', and a non-empty one does not end with '/'. */
  lemma EncodedAlphabet(name: string)
    ensures var enc := UrlCodec.EncodeName(name);
      '?' !in enc && '\\' !in enc && (name != [] ==> enc != [] && enc[|enc| - 1] != '/')
  {
    var enc := UrlCodec.EncodeName(name);
    UrlCodec.EncodeNameAlphabet(name);
    UrlCodec.EncodeNameLength(name);
    forall i | 0 <= i < |enc| ensures enc[i] != '?' && enc[i] != '\\' && enc[i] != '/' {
      assert UrlCodec.IsUnreserved(enc[i]) || enc[i] == '%';
    }
  }

  /** `extractFileName` on a URL made of a '/'-terminated prefix without '?' or '\' and an
      encoded non-empty name gives the name. */
  lemma ExtractFileNameOfEncoded(p: string, name: string)
    requires p != [] && p[0] == '/' && p[|p| - 1] == '/' && '?' !in p && '\\' !in p && name != []
    ensures ExtractFileName(Some(p + UrlCodec.EncodeName(name))) == Ok(Some(name))
  {
    var enc := UrlCodec.EncodeName(name);
    var url := p + enc;
    EncodedAlphabet(name);
    assert '?' !in url && '\\' !in url by {
      assert forall c :: c in url ==> c in p || c in enc;
    }
    assert !IsBlank(url) by { assert url[0] == '/'; }
    assert !EndsWith(url, "/") by {
      assert url[|url| - 1] == enc[|enc| - 1];
    }
    ExtractFileNameAgrees(url);
    FilenameOfEncoded(p, name);
  }

  /** The file name the detail view shows for a file the store saved is the stored name. */
  lemma ExtractFileNameOfSaved(owner: Owner, original: Option<string>)
    ensures ExtractFileName(Some(SavedUrl(owner, original))) == Ok(Some(StoredName(original)))
  {
    PrefixAlphabet(owner);
    ExtractFileNameOfEncoded(owner.UrlPrefix(), StoredName(original));
  }

  // ---------------------------------------------------------------- download

  /** The NullPointerException of `getFileName().toString()` on a path without names. */
  const NoFileName: Error :=
    Runtime("Cannot invoke \"java.nio.file.Path.toString()\" because the return value of \"java.nio.file.Path.getFileName()\" is null")

  /** A downloaded file: the name offered to the browser and the bytes. */
  datatype FileDownload = FileDownload(filename: string, data: seq<Utf8.Byte>)

  /** `downloadFile`: the submission's file row, its bytes, and the last name of the decoded
      URL, or "submission-<id>" when that name is blank. A decoding or path error propagates,
      and a URL whose path has no name makes `getFileName().toString()` fail. */
  function DownloadFile(t: Tables, disk: Disk, id: SubmissionId): (r: Result<FileDownload>)
    ensures id !in t.submissions ==> r == Err(Submissions.SubmissionMissing)
    ensures id in t.submissions && id !in t.submissionFiles ==> r == Err(FileMissing)
    ensures r.Ok? ==> && id in t.submissionFiles
                      && ReadBytes(disk, Some(t.submissionFiles[id])) == Ok(r.value.data)
                      && !IsBlank(r.value.filename)
  {
    if id !in t.submissions then Err(Submissions.SubmissionMissing)
    else if id !in t.submissionFiles then Err(FileMissing)
    else
      var url := t.submissionFiles[id];
      var bytes :- ReadBytes(disk, Some(url));
      var decoded :- UrlCodec.Decode(url);
      var p :- Parse(decoded);
      match FileName(p)
      case None => Err(NoFileName)
      case Some(name) =>
        var fallback := "submission-" + NatToString(id);
        assert fallback[0] == 's';
        Ok(FileDownload(if IsBlank(name) then fallback else name, bytes))
  }

  /** The decoded URL of a saved file is the owner's URL prefix followed by the stored name. */
  lemma DecodeSavedUrl(owner: Owner, name: string)
    ensures UrlCodec.Decode(owner.UrlPrefix() + UrlCodec.EncodeName(name))
      == Ok(UploadsPrefix + (OwnerRelative(owner) + name))
  {
    DecodeSavedRest(owner, name);
    UploadsPrefixPlain();
    DecodeAfterPlain(UploadsPrefix, owner.UrlPrefix() + UrlCodec.EncodeName(name));
  }

  lemma UploadsPrefixPlain()
    ensures '%' !in UploadsPrefix && '+' !in UploadsPrefix
  {
    assert UploadsPrefix == ['/', 'u', 'p', 'l', 'o', 'a', 'd', 's', '/'];
  }

  /** Decoding a text that starts with characters other than '%' and '+' keeps them. */
  lemma DecodeAfterPlain(p: string, url: string)
    requires StartsWith(url, p) && '%' !in p && '+' !in p
    requires UrlCodec.Decode(url[|p|..]).Ok?
    ensures UrlCodec.Decode(url) == Ok(p + UrlCodec.Decode(url[|p|..]).value)
  {
    PrefixAndRest(url, p);
    UrlCodec.DecodePlainPrefix(p, url[|p|..]);
  }

  lemma PrefixAndRest(url: string, p: string)
    requires StartsWith(url, p)
    ensures url == p + url[|p|..]
  {
    assert url == url[..|p|] + url[|p|..];
  }

  /** That decoded URL parses as the absolute path of the owner directory and the name. */
  lemma ParseSavedPath(owner: Owner, name: string)
    requires name != [] && '/' !in name && '\0' !in name
    ensures Parse(UploadsPrefix + (OwnerRelative(owner) + name)) == Ok(Path(true, owner.Dir().names + [name]))
  {
    var rest := OwnerRelative(owner) + name;
    ParseSavedRest(owner, name);
    ParseUnder("uploads", rest);
    ParseRooted("uploads" + "/" + rest);
    UploadsPrefixSplit(rest);
    var dir := owner.Dir().names;
    assert dir[0] == "uploads";
    assert ["uploads"] + (dir[1..] + [name]) == dir + [name];
  }

  lemma UploadsPrefixSplit(x: string)
    ensures UploadsPrefix + x == "/" + ("uploads" + "/" + x)
  {
    assert UploadsPrefix == "/" + "uploads" + "/";
  }

  /** Downloading a file the store saved for a submission gives its bytes under the stored
      name, unless that name is blank. */
  lemma DownloadOfSaved(t: Tables, disk: Disk, id: SubmissionId, original: Option<string>, content: seq<Utf8.Byte>)
    requires SaveTarget(SubmissionOwner(id).Dir(), StoredName(original)).Ok?
    requires id in t.submissions
    requires id in t.submissionFiles && t.submissionFiles[id] == SavedUrl(SubmissionOwner(id), original)
    ensures var name := StoredName(original);
      var target := SaveTarget(SubmissionOwner(id).Dir(), name).value;
      DownloadFile(t, disk[target := content], id)
        == Ok(FileDownload(if IsBlank(name) then "submission-" + NatToString(id) else name, content))
  {
    var owner := SubmissionOwner(id);
    var name := StoredName(original);
    var target := SaveTarget(owner.Dir(), name).value;
    ReadAfterSave(owner, original, content, disk);
    assert '\0' !in name by {
      assert Parse(name).Ok?;
    }
    DecodeSavedUrl(owner, name);
    ParseSavedPath(owner, name);
    DownloadFileOk(t, disk[target := content], id, content, UploadsPrefix + (OwnerRelative(owner) + name),
      Path(true, owner.Dir().names + [name]));
  }

  /** `downloadFile` when reading, decoding and parsing all succeed. */
  lemma DownloadFileOk(t: Tables, disk: Disk, id: SubmissionId, bytes: seq<Utf8.Byte>, decoded: string, p: Path)
    requires id in t.submissions && id in t.submissionFiles
    requires ReadBytes(disk, Some(t.submissionFiles[id])) == Ok(bytes)
    requires UrlCodec.Decode(t.submissionFiles[id]) == Ok(decoded)
    requires Parse(decoded) == Ok(p) && p.names != []
    ensures var name := p.names[|p.names| - 1];
      DownloadFile(t, disk, id) == Ok(FileDownload(if IsBlank(name) then "submission-" + NatToString(id) else name, bytes))
  {
  }
}
