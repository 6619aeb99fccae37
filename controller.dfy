/** `SubmissionController`: the review-result view a student polls, the "my submissions"
    list, and the small parsers they rely on. */
module SubmissionController {
  import opened Common
  import opened Text
  import opened Domain
  import opened Database
  import opened Storage
  import UrlCodec
  import JavaUri
  import ReviewTransaction

  /** A parsed JSON value, as Jackson hands it to the controller. */
  datatype Json =
    | JNull
    | JBool(b: bool)
    | JNumber(text: string)
    | JString(s: string)
    | JArray(items: seq<Json>)
    | JObject(fields: map<string, Json>)

  /** A JSON object read into a `Map<String, Object>`. */
  type JsonMap = map<string, Json>

  const NoFileLabel: string := "(파일 미존재)"
  /** The bare NOT_FOUND of the review-result view. */
  const BotResultMissing: Error := NotFound("")

  // ---------------------------------------------------------------- extractLatestOcrDetail

  /** A memo with null read as "". */
  function MemoText(e: HistoryEntry): string {
    if e.memo.None? then "" else e.memo.value
  }

  /** The JSON text of a detail memo: what follows the prefix, trimmed. */
  function DetailJson(memo: string): string
    requires StartsWith(memo, ReviewTransaction.DetailPrefix)
  {
    Trim(memo[|ReviewTransaction.DetailPrefix|..])
  }

  /** The parsed detail of an entry: its memo starts with the prefix and the rest parses
      (`readMap` returns None where `ObjectMapper.readValue` throws). */
  function DetailOf(e: HistoryEntry, readMap: string -> Option<JsonMap>): Option<JsonMap> {
    if StartsWith(MemoText(e), ReviewTransaction.DetailPrefix) then readMap(DetailJson(MemoText(e))) else None
  }

  /** The entry is a detail memo whose JSON parses. */
  predicate IsDetail(e: HistoryEntry, readMap: string -> Option<JsonMap>) {
    DetailOf(e, readMap).Some?
  }

  /** A parsed detail with a `findings` that is not a list replaced by the empty list. */
  function Normalized(m: JsonMap): (r: JsonMap)
    ensures "findings" in r && r["findings"].JArray?
    ensures forall k :: k != "findings" ==> (k in r <==> k in m) && (k in m ==> r[k] == m[k])
    ensures "findings" in m && m["findings"].JArray? ==> r == m
  {
    if "findings" in m && m["findings"].JArray? then m else m["findings" := JArray([])]
  }

  /** The value `f` gives the last element for which it gives one. */
  function LastSome<T, U>(xs: seq<T>, f: T -> Option<U>): Option<U>
    decreases |xs|
  {
    if xs == [] then None
    else if f(xs[|xs| - 1]).Some? then f(xs[|xs| - 1])
    else LastSome(xs[..|xs| - 1], f)
  }

  lemma {:induction false} LastSomeNone<T, U>(xs: seq<T>, f: T -> Option<U>)
    ensures LastSome(xs, f).None? <==> forall i :: 0 <= i < |xs| ==> f(xs[i]).None?
    decreases |xs|
  {
    if xs != [] {
      var n := |xs| - 1;
      LastSomeNone(xs[..n], f);
      assert forall i :: 0 <= i < n ==> xs[..n][i] == xs[i];
    }
  }

  lemma {:induction false} LastSomeIsLast<T, U>(xs: seq<T>, f: T -> Option<U>, i: nat)
    requires i < |xs| && f(xs[i]).Some?
    requires forall j :: i < j < |xs| ==> f(xs[j]).None?
    ensures LastSome(xs, f) == f(xs[i])
    decreases |xs|
  {
    var n := |xs| - 1;
    if i < n {
      assert xs[..n][i] == xs[i];
      forall j | i < j < n ensures f(xs[..n][j]).None? {
        assert xs[..n][j] == xs[j];
      }
      LastSomeIsLast(xs[..n], f, i);
    }
  }

  /** The detail the controller shows: the last parsable detail memo, normalised; the empty
      map when there is none. */
  function LatestDetail(history: seq<HistoryEntry>, readMap: string -> Option<JsonMap>): JsonMap {
    match LastSome(history, e => DetailOf(e, readMap))
    case Some(m) => Normalized(m)
    case None => map[]
  }

  /** `extractLatestOcrDetail`: walks the history from the newest entry back and returns the
      first detail memo that parses, skipping those that do not. */
  method ExtractLatestOcrDetail(history: seq<HistoryEntry>, readMap: string -> Option<JsonMap>) returns (r: JsonMap)
    ensures r == LatestDetail(history, readMap)
  {
    ghost var f := e => DetailOf(e, readMap);
    var i := |history|;
    assert history[..i] == history;
    while i > 0
      invariant 0 <= i <= |history|
      invariant LastSome(history, f) == LastSome(history[..i], f)
    {
      assert history[..i][..i - 1] == history[..i - 1];
      var memo := MemoText(history[i - 1]);
      if StartsWith(memo, ReviewTransaction.DetailPrefix) {
        var parsed := readMap(Trim(memo[|ReviewTransaction.DetailPrefix|..]));
        if parsed.Some? {
          assert f(history[i - 1]) == parsed;
          return Normalized(parsed.value);
        }
      }
      assert f(history[i - 1]).None?;
      i := i - 1;
    }
    return map[];
  }

  /** The view is empty exactly when no memo is a parsable detail. */
  lemma LatestDetailEmpty(history: seq<HistoryEntry>, readMap: string -> Option<JsonMap>)
    ensures LatestDetail(history, readMap) == map[] <==> forall i :: 0 <= i < |history| ==> !IsDetail(history[i], readMap)
    ensures LatestDetail(history, readMap) != map[] ==>
      ("findings" in LatestDetail(history, readMap) && LatestDetail(history, readMap)["findings"].JArray?)
  {
    var f := e => DetailOf(e, readMap);
    LastSomeNone(history, f);
    assert forall i :: 0 <= i < |history| ==> (f(history[i]).None? <==> !IsDetail(history[i], readMap));
  }

  /** The view is the normalised parse of the newest parsable detail memo. */
  lemma LatestDetailIsNewest(history: seq<HistoryEntry>, readMap: string -> Option<JsonMap>, i: nat)
    requires i < |history| && IsDetail(history[i], readMap)
    requires forall j :: i < j < |history| ==> !IsDetail(history[j], readMap)
    ensures LatestDetail(history, readMap) == Normalized(DetailOf(history[i], readMap).value)
  {
    var f := e => DetailOf(e, readMap);
    assert forall j :: i < j < |history| ==> f(history[j]).None?;
    LastSomeIsLast(history, f, i);
  }

  // ---------------------------------------------------------------- getBotReviewResult

  /** The review-result response: id, status, submission time, every memo, the findings (a
      list), the verdict and the reason of the latest detail. */
  datatype BotReview = BotReview(
    submissionId: SubmissionId,
    status: SubmissionStatus,
    submittedAt: Option<Time>,
    debugTexts: seq<string>,
    findings: seq<Json>,
    verdict: Option<Json>,
    reason: Option<Json>)

  /** `Map.get`: the value, or null. */
  function Get(m: JsonMap, k: string): Option<Json> {
    if k in m then Some(m[k]) else None
  }

  /** `getBotReviewResult`: 404 for an unknown submission; reads the database only. */
  method GetBotReviewResult(db: Db, id: SubmissionId, readMap: string -> Option<JsonMap>) returns (r: Result<BotReview>)
    ensures id !in db.submissions ==> r == Err(BotResultMissing)
    ensures id in db.submissions ==> r.Ok?
    ensures r.Ok? ==> (id in db.submissions &&
      var s := db.submissions[id];
      var history := HistoryOf(db.history, id);
      var payload := LatestDetail(history, readMap);
      && r.value.submissionId == id && r.value.status == s.status && r.value.submittedAt == s.submittedAt
      && |r.value.debugTexts| == |history|
      && (forall i :: 0 <= i < |history| ==> r.value.debugTexts[i] == MemoText(history[i]))
      && (Get(payload, "findings") == Some(JArray(r.value.findings)) || (payload == map[] && r.value.findings == []))
      && r.value.verdict == Get(payload, "verdict") && r.value.reason == Get(payload, "reason"))
  {
    if id !in db.submissions {
      return Err(BotResultMissing);
    }
    var s := db.submissions[id];
    var history := HistoryOf(db.history, id);
    var debugTexts := [];
    var i := 0;
    while i < |history|
      invariant 0 <= i <= |history|
      invariant |debugTexts| == i
      invariant forall k :: 0 <= k < i ==> debugTexts[k] == MemoText(history[k])
    {
      debugTexts := debugTexts + [MemoText(history[i])];
      i := i + 1;
    }
    var payload := ExtractLatestOcrDetail(history, readMap);
    LatestDetailEmpty(history, readMap);
    var findings := if "findings" in payload && payload["findings"].JArray? then payload["findings"].items else [];
    return Ok(BotReview(id, s.status, s.submittedAt, debugTexts, findings, Get(payload, "verdict"), Get(payload, "reason")));
  }

  // ---------------------------------------------------------------- listMySubmissions

  /** The page size: `max(1, min(limit, 20))`. */
  function ClampLimit(limit: int): (r: nat)
    ensures 1 <= r <= 20
    ensures 1 <= limit <= 20 ==> r == limit
    ensures limit < 1 ==> r == 1
    ensures limit > 20 ==> r == 20
  {
    if limit < 1 then 1 else if limit > 20 then 20 else limit
  }

  /** The statuses named in the parts, in order; empty and unknown names are dropped. */
  function KnownStatuses(parts: seq<string>): seq<SubmissionStatus>
    decreases |parts|
  {
    if parts == [] then []
    else
      var n := |parts| - 1;
      var k := Trim(parts[n]);
      KnownStatuses(parts[..n]) + if k != [] && StatusValueOf(k).Some? then [StatusValueOf(k).value] else []
  }

  /** What `parseStatuses` returns for a comma-separated list: nothing for null or blank. */
  function Statuses(csv: Option<string>): seq<SubmissionStatus> {
    if csv.None? || IsBlank(csv.value) then [] else KnownStatuses(JavaSplit(csv.value, ','))
  }

  /** `parseStatuses`, its loop over the parts. */
  method ParseStatuses(csv: Option<string>) returns (out: seq<SubmissionStatus>)
    ensures out == Statuses(csv)
  {
    out := [];
    if csv.None? || IsBlank(csv.value) {
      return;
    }
    var parts := JavaSplit(csv.value, ',');
    var i := 0;
    while i < |parts|
      invariant 0 <= i <= |parts|
      invariant out == KnownStatuses(parts[..i])
    {
      assert parts[..i + 1][..i] == parts[..i];
      var k := Trim(parts[i]);
      if k != [] {
        var s := StatusValueOf(k);
        if s.Some? {
          out := out + [s.value];
        }
      }
      i := i + 1;
    }
    assert parts[..|parts|] == parts;
  }

  /** A status is kept exactly when some part, trimmed, is its name. */
  lemma {:induction false} KnownStatusesMembers(parts: seq<string>, s: SubmissionStatus)
    ensures s in KnownStatuses(parts) <==> exists i :: 0 <= i < |parts| && Trim(parts[i]) == StatusName(s)
    decreases |parts|
  {
    if parts != [] {
      var n := |parts| - 1;
      var init := parts[..n];
      KnownStatusesMembers(init, s);
      KnownStatusesLast(parts, s);
      if s in KnownStatuses(parts) {
        if s in KnownStatuses(init) {
          var i :| 0 <= i < n && Trim(init[i]) == StatusName(s);
          assert init[i] == parts[i];
          assert 0 <= i < |parts| && Trim(parts[i]) == StatusName(s);
        } else {
          assert 0 <= n < |parts| && Trim(parts[n]) == StatusName(s);
        }
      }
      if exists i :: 0 <= i < |parts| && Trim(parts[i]) == StatusName(s) {
        var i :| 0 <= i < |parts| && Trim(parts[i]) == StatusName(s);
        if i < n {
          assert init[i] == parts[i];
          assert s in KnownStatuses(init);
        } else {
          assert i == n;
          assert Trim(parts[n]) == StatusName(s);
        }
        assert s in KnownStatuses(parts);
      }
    }
  }

  /** The last part adds its status, if any, after those of the parts before it. */
  lemma KnownStatusesLast(parts: seq<string>, s: SubmissionStatus)
    requires parts != []
    ensures s in KnownStatuses(parts) <==>
      (s in KnownStatuses(parts[..|parts| - 1]) || Trim(parts[|parts| - 1]) == StatusName(s))
  {
    var n := |parts| - 1;
    var k := Trim(parts[n]);
    var tail := if k != [] && StatusValueOf(k).Some? then [StatusValueOf(k).value] else [];
    assert KnownStatuses(parts) == KnownStatuses(parts[..n]) + tail;
    if k == StatusName(s) {
      assert StatusValueOf(k) == Some(s);
      assert tail == [s];
    }
  }

  /** The statuses' names, in order. */
  function Names(statuses: seq<SubmissionStatus>): (r: seq<string>)
    ensures |r| == |statuses|
    ensures forall i :: 0 <= i < |statuses| ==> r[i] == StatusName(statuses[i])
  {
    seq(|statuses|, i requires 0 <= i < |statuses| => StatusName(statuses[i]))
  }

  /** The query parameter a client sends for a list of statuses: the names joined by commas. */
  function Csv(statuses: seq<SubmissionStatus>): string
    requires statuses != []
  {
    JoinWith(Names(statuses), ',')
  }

  /** A status name is a non-empty, comma-free, upper-case identifier, and its own trim. */
  lemma StatusNameShape(s: SubmissionStatus)
    ensures StatusName(s) != [] && ',' !in StatusName(s)
    ensures !IsJavaWhitespace(StatusName(s)[0])
    ensures Trim(StatusName(s)) == StatusName(s)
    ensures StatusValueOf(StatusName(s)) == Some(s)
  {
    var name := StatusName(s);
    StatusNameIdent(s);
    IdentShape(name);
    TrimIdle(name);
  }

  /** Capital letters and underscores. */
  predicate UpperIdent(n: string) {
    n != [] && forall i :: 0 <= i < |n| ==> ('A' <= n[i] <= 'Z') || n[i] == '_'
  }

  lemma StatusNameIdent(s: SubmissionStatus)
    ensures UpperIdent(StatusName(s))
  {
  }

  lemma IdentShape(n: string)
    requires UpperIdent(n)
    ensures ',' !in n && !IsJavaWhitespace(n[0]) && !IsTrimmable(n[0]) && !IsTrimmable(n[|n| - 1])
  {
    assert n[|n| - 1] == n[|n| - 1];
  }

  /** The names of known statuses are parsed back to the statuses. */
  lemma {:induction false} KnownStatusesNames(statuses: seq<SubmissionStatus>)
    ensures KnownStatuses(Names(statuses)) == statuses
    decreases |statuses|
  {
    if statuses != [] {
      var n := |statuses| - 1;
      NamesPrefix(statuses);
      KnownStatusesNames(statuses[..n]);
      StatusNameShape(statuses[n]);
    }
  }

  lemma NamesPrefix(statuses: seq<SubmissionStatus>)
    requires statuses != []
    ensures var n := |statuses| - 1;
      Names(statuses)[..n] == Names(statuses[..n]) && statuses == statuses[..n] + [statuses[n]]
  {
    var n := |statuses| - 1;
    assert Names(statuses)[..n] == Names(statuses[..n]);
  }

  /** `parseStatuses` reads back the comma-joined names of any non-empty list of statuses,
      repetitions and order included. */
  lemma StatusesOfCsv(statuses: seq<SubmissionStatus>)
    requires statuses != []
    ensures Statuses(Some(Csv(statuses))) == statuses
  {
    var names := Names(statuses);
    forall i | 0 <= i < |names| ensures ',' !in names[i] {
      StatusNameShape(statuses[i]);
    }
    StatusNameShape(statuses[0]);
    StatusNameShape(statuses[|statuses| - 1]);
    JoinWithHead(names, ',');
    JavaSplitJoin(names, ',');
    KnownStatusesNames(statuses);
  }
  // ---------------------------------------------------------------- basenameFromUrl

  /** `basenameFromUrl` as written: the path of `URI.create(url)` (the URL itself for an
      opaque URI), cut after its last '/', then decoded again with `URLDecoder`; when either
      step throws, the raw text after the URL's last '/'. */
  function BasenameAsWritten(url: Option<string>): (r: Option<string>)
    ensures url.None? <==> r.None?
  {
    match url
    case None => None
    case Some(u) =>
      var fallback := AfterLast(u, '/');
      match JavaUri.Path(u)
      case Err(_) => Some(fallback)
      case Ok(p) =>
        var path := if p.None? then u else p.value;
        match UrlCodec.Decode(AfterLast(path, '/'))
        case Ok(name) => Some(name)
        case Err(_) => Some(fallback)
  }

  /** The label the controller means to show: the stored file name, the text after the last
      '/' decoded once, as the file store's `getFilename` does. */
  function BasenameFromUrl(url: Option<string>): (r: Option<string>)
    ensures url.None? <==> r.None?
  {
    match url
    case None => None
    case Some(_) => Some(GetFilename(url))
  }

  /** Letters, digits and slashes only. */
  predicate Slashed(s: string) {
    forall i :: 0 <= i < |s| ==> JavaUri.IsAlnum(s[i]) || s[i] == '/'
  }

  lemma SlashedAppend(a: string, b: string)
    requires Slashed(a) && Slashed(b)
    ensures Slashed(a + b)
  {
    forall i | 0 <= i < |a + b| ensures JavaUri.IsAlnum((a + b)[i]) || (a + b)[i] == '/' {
      if i < |a| {
        assert (a + b)[i] == a[i];
      } else {
        assert (a + b)[i] == b[i - |a|];
      }
    }
  }

  /** An owner's URL prefix `/uploads/<area>/<id>/` holds only letters, digits and slashes. */
  lemma UrlPrefixSlashed(owner: Owner)
    ensures var p := owner.UrlPrefix();
      |p| >= 2 && p[0] == '/' && p[1] == 'u' && p[|p| - 1] == '/' && Slashed(p)
  {
    var d := NatToString(owner.Id());
    assert Slashed(d) by {
      forall i | 0 <= i < |d| ensures JavaUri.IsAlnum(d[i]) {
        assert IsDigit(d[i]);
      }
    }
    assert Slashed(UploadsPrefix) by {
      forall i | 0 <= i < |UploadsPrefix| ensures JavaUri.IsAlnum(UploadsPrefix[i]) || UploadsPrefix[i] == '/' {
        assert UploadsPrefix[i] in "/uploads";
      }
    }
    var a := owner.Area();
    assert Slashed(a) by {
      if owner.DocTypeOwner? {
        assert a == "doctype";
        forall i | 0 <= i < |a| ensures JavaUri.IsAlnum(a[i]) {
          assert a[i] in "doctype";
        }
      } else {
        assert a == "submissions";
        forall i | 0 <= i < |a| ensures JavaUri.IsAlnum(a[i]) {
          assert a[i] in "submissions";
        }
      }
    }
    assert Slashed("/");
    SlashedAppend(UploadsPrefix, a);
    SlashedAppend(UploadsPrefix + a, "/");
    SlashedAppend(UploadsPrefix + a + "/", d);
    SlashedAppend(UploadsPrefix + a + "/" + d, "/");
  }

  /** `URI.create` accepts a URL the file store hands out, and its path is the owner's prefix
      followed by the stored name, already decoded once. */
  lemma PathOfSavedUrl(owner: Owner, name: string)
    ensures JavaUri.Path(owner.UrlPrefix() + UrlCodec.EncodeName(name)) == Ok(Some(owner.UrlPrefix() + name))
  {
    var p := owner.UrlPrefix();
    var enc := UrlCodec.EncodeName(name);
    var u := p + enc;
    UrlPrefixSlashed(owner);
    UrlCodec.EncodeNameAlphabet(name);
    UrlCodec.EncodeNameWellEscaped(name);
    assert '%' !in p && '+' !in p by {
      forall i | 0 <= i < |p| ensures p[i] != '%' && p[i] != '+' {
        assert JavaUri.IsAlnum(p[i]) || p[i] == '/';
      }
    }
    UrlCodec.WellEscapedAppend(p, enc);
    forall i | 0 <= i < |u| ensures JavaUri.IsAlnum(u[i]) || u[i] in "-_.*/%" {
      if i < |p| {
        assert u[i] == p[i];
      } else {
        assert u[i] == enc[i - |p|];
        assert UrlCodec.IsUnreserved(enc[i - |p|]) || enc[i - |p|] == '%';
      }
    }
    UrlCodec.DecodeEncodeName(name);
    UrlCodec.DecodePlainPrefix(p, enc);
    JavaUri.PathOfPlainReference(u);
  }

  /** The corrected label of a URL the file store handed out is the name the file was stored
      under. */
  lemma BasenameOfSaved(owner: Owner, original: Option<string>)
    ensures BasenameFromUrl(Some(SavedUrl(owner, original))) == Some(StoredName(original))
  {
    FilenameOfSavedUrl(owner, StoredName(original));
  }

  /** As written, the label of a stored file is its stored name decoded a second time, or the
      still-encoded name when that second decoding throws. */
  lemma BasenameAsWrittenOfSaved(owner: Owner, original: Option<string>)
    ensures var n := StoredName(original);
      BasenameAsWritten(Some(SavedUrl(owner, original)))
        == Some(if UrlCodec.Decode(n).Ok? then UrlCodec.Decode(n).value else UrlCodec.EncodeName(n))
  {
    var n := StoredName(original);
    PathOfSavedUrl(owner, n);
    LastSegmentOfSaved(owner, n);
  }

  /** After the owner's prefix, the last segment is the name, encoded or not. */
  lemma LastSegmentOfSaved(owner: Owner, n: string)
    requires '/' !in n
    ensures AfterLast(owner.UrlPrefix() + n, '/') == n
    ensures AfterLast(owner.UrlPrefix() + UrlCodec.EncodeName(n), '/') == UrlCodec.EncodeName(n)
  {
    var p := owner.UrlPrefix();
    var enc := UrlCodec.EncodeName(n);
    UrlPrefixSlashed(owner);
    AfterLastAppend(p, n, '/');
    UrlCodec.EncodeNameAlphabet(n);
    assert '/' !in enc by {
      forall i | 0 <= i < |enc| ensures enc[i] != '/' {
        assert UrlCodec.IsUnreserved(enc[i]) || enc[i] == '%';
      }
    }
    AfterLastAppend(p, enc, '/');
  }

  /** A client name with none of '/', '\', blank-only text or more than 255 characters is
      stored unchanged. */
  lemma StoredNameUnchanged(s: string)
    requires '/' !in s && '\\' !in s && !IsBlank(s) && |s| <= MaxNameLength
    ensures StoredName(Some(s)) == s
  {
    assert ReplaceChar(s, '\\', '/') == s;
    AfterLastAbsent(s, '/');
  }

  /** For a stored name without '%' or '+', the label as written and the corrected one are
      both the stored name. */
  lemma SavedLabelsAgree(owner: Owner, original: Option<string>)
    requires '%' !in StoredName(original) && '+' !in StoredName(original)
    ensures BasenameAsWritten(Some(SavedUrl(owner, original))) == Some(StoredName(original))
    ensures BasenameFromUrl(Some(SavedUrl(owner, original))) == Some(StoredName(original))
  {
    BasenameAsWrittenOfSaved(owner, original);
    BasenameOfSaved(owner, original);
  }

  /** A file uploaded as "a+b.pdf" is listed as "a b.pdf": the '+' that the store escaped is
      restored by the URI's own decoding and then read as a space by `URLDecoder`. */
  lemma DoubleDecodeTurnsPlusIntoSpace()
    ensures var url := SavedUrl(SubmissionOwner(1), Some("a+b.pdf"));
      && BasenameAsWritten(Some(url)) == Some("a b.pdf")
      && BasenameFromUrl(Some(url)) == Some("a+b.pdf")
  {
    var name := "a+b.pdf";
    assert !IsJavaWhitespace(name[0]);
    StoredNameUnchanged(name);
    BasenameOfSaved(SubmissionOwner(1), Some(name));
    BasenameAsWrittenOfSaved(SubmissionOwner(1), Some(name));
    DecodePlusName();
  }

  /** `URLDecoder` reads the '+' of "a+b.pdf" as a space. */
  lemma DecodePlusName()
    ensures UrlCodec.Decode("a+b.pdf") == Ok("a b.pdf")
  {
    var t := "+b.pdf";
    assert t[0] == '+' && t[1..] == "b.pdf";
    assert '%' !in "b.pdf" && '+' !in "b.pdf";
    assert UrlCodec.Decode("b.pdf") == Ok("b.pdf");
    assert [' '] + "b.pdf" == " b.pdf";
    assert UrlCodec.Decode(t) == Ok(" b.pdf");
    UrlCodec.DecodePlainPrefix("a", t);
    assert "a" + t == "a+b.pdf";
    assert "a" + " b.pdf" == "a b.pdf";
  }

  // ---------------------------------------------------------------- listMySubmissions

  /** One row of the "my submissions" list. */
  datatype MyRow = MyRow(id: SubmissionId, status: string, submittedAt: Option<Time>, filename: string)

  /** The file column: the name of the latest file, or a placeholder when there is no file
      URL or it is blank. */
  function FileLabel(latest: Option<string>): (r: string)
    ensures latest.None? || IsBlank(latest.value) ==> r == NoFileLabel
  {
    if latest.Some? && !IsBlank(latest.value) then BasenameFromUrl(latest).value else NoFileLabel
  }

  /** A submission the query selects: the student's, and with one of the statuses unless
      none was asked for. */
  predicate Wanted(subs: map<SubmissionId, Submission>, student: StudentId, statuses: seq<SubmissionStatus>, id: SubmissionId) {
    id in subs && subs[id].student == student && (statuses == [] || subs[id].status in statuses)
  }

  /** The ids below `n` the query selects, newest first. */
  function Matching(subs: map<SubmissionId, Submission>, student: StudentId, statuses: seq<SubmissionStatus>, n: nat): (r: seq<SubmissionId>)
    ensures forall i :: 0 <= i < |r| ==> r[i] < n && Wanted(subs, student, statuses, r[i])
    ensures forall i, j :: 0 <= i < j < |r| ==> r[i] > r[j]
    ensures forall id: SubmissionId :: id < n && Wanted(subs, student, statuses, id) ==> id in r
  {
    if n == 0 then []
    else
      var rest := Matching(subs, student, statuses, n - 1);
      if Wanted(subs, student, statuses, n - 1) then [n - 1] + rest else rest
  }

  /** The row shown for a submission. */
  function RowOf(subs: map<SubmissionId, Submission>, files: map<SubmissionId, string>, id: SubmissionId): (r: MyRow)
    requires id in subs
    ensures r.id == id && r.status == StatusName(subs[id].status) && r.submittedAt == subs[id].submittedAt
  {
    MyRow(id, StatusName(subs[id].status), subs[id].submittedAt, FileLabel(if id in files then Some(files[id]) else None))
  }

  /** `listMySubmissions`: the first `max(1, min(limit, 20))` of the student's submissions,
      newest first, filtered by the parsed statuses when there are any; reads only. */
  method ListMySubmissions(db: Db, student: StudentId, limit: int, statusCsv: Option<string>) returns (rows: seq<MyRow>)
    requires db.Valid()
    ensures var ids := Matching(db.submissions, student, Statuses(statusCsv), db.nextSubmissionId);
      && |rows| == (if |ids| < ClampLimit(limit) then |ids| else ClampLimit(limit))
      && forall i :: 0 <= i < |rows| ==> ids[i] in db.submissions && rows[i] == RowOf(db.submissions, db.submissionFiles, ids[i])
  {
    var size := ClampLimit(limit);
    var statuses := ParseStatuses(statusCsv);
    var ids := Matching(db.submissions, student, statuses, db.nextSubmissionId);
    var page := if |ids| < size then ids else ids[..size];
    var subs, files := db.submissions, db.submissionFiles;
    rows := seq(|page|, i requires 0 <= i < |page| => RowOf(subs, files, page[i]));
  }

  /** In a consistent database the query misses no submission: every submission of the
      student with a requested status is among the ids, and the page holds the newest. */
  lemma MatchingComplete(t: Tables, student: StudentId, statuses: seq<SubmissionStatus>, id: SubmissionId)
    requires t.Valid() && Wanted(t.submissions, student, statuses, id)
    ensures id in Matching(t.submissions, student, statuses, t.nextSubmissionId)
  {
  }
}
