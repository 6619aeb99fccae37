/** The rule-based decision of the OCR reviewer: how the self-introduction is cut into
    numbered sections, how the optional language-model verdict is normalised, and how the
    final verdict, findings and reason are derived from the document checks. */
module OcrDecision {
  import opened Common
  import opened Text

  /** Minimum length of every self-introduction section. */
  const MinCount: nat := 300

  // ---------------------------------------------------------------- count_sections

  /** Python's `str.isspace`, which is what `\s` matches in a str pattern. */
  predicate IsPySpace(c: char) {
    || ('\t' <= c <= '\r') || c == ' ' || ('\U{1C}' <= c <= '\U{1F}') || c == '\U{85}' || c == '\U{A0}'
    || c == '\U{1680}' || ('\U{2000}' <= c <= '\U{200A}') || c == '\U{2028}' || c == '\U{2029}'
    || c == '\U{202F}' || c == '\U{205F}' || c == '\U{3000}'
  }

  /** The end of the run of digits starting at `i`. */
  function DigitRunEnd(s: string, i: nat): (j: nat)
    requires i <= |s|
    ensures i <= j <= |s|
    ensures forall k :: i <= k < j ==> IsDigit(s[k])
    ensures j == |s| || !IsDigit(s[j])
    decreases |s| - i
  {
    if i < |s| && IsDigit(s[i]) then DigitRunEnd(s, i + 1) else i
  }

  /** The end of the run of white space starting at `i`. */
  function SpaceRunEnd(s: string, i: nat): (j: nat)
    requires i <= |s|
    ensures i <= j <= |s|
    ensures forall k :: i <= k < j ==> IsPySpace(s[k])
    ensures j == |s| || !IsPySpace(s[j])
    decreases |s| - i
  {
    if i < |s| && IsPySpace(s[i]) then SpaceRunEnd(s, i + 1) else i
  }

  /** The pattern `\d+\.\s*` matches at `i`: the maximal run of digits there is followed by a
      full stop (a shorter run would be followed by a digit, so backtracking cannot help). */
  predicate MarkerAt(s: string, i: nat) {
    i < |s| && IsDigit(s[i]) && DigitRunEnd(s, i) < |s| && s[DigitRunEnd(s, i)] == '.'
  }

  /** Where the match at `i` ends: after the full stop and all white space that follows. */
  function MarkerEnd(s: string, i: nat): (j: nat)
    requires MarkerAt(s, i)
    ensures i + 2 <= j <= |s|
  {
    SpaceRunEnd(s, DigitRunEnd(s, i) + 1)
  }

  /** The leftmost match at or after `from`, or -1. */
  function NextMarker(s: string, from: nat): (r: int)
    requires from <= |s|
    ensures r == -1 || (from <= r < |s| && MarkerAt(s, r))
    ensures forall k :: from <= k < (if r < 0 then |s| else r) ==> !MarkerAt(s, k)
    decreases |s| - from
  {
    if from == |s| then -1
    else if MarkerAt(s, from) then from
    else NextMarker(s, from + 1)
  }

  /** A piece of `re.split` output with the separator matched after it ("" for the last). */
  datatype Chunk = Chunk(text: string, marker: string)

  /** `re.split(r"\d+\.\s*", s[from..])`, each piece with the separator that ended it. */
  function SplitFrom(s: string, from: nat): (r: seq<Chunk>)
    requires from <= |s|
    ensures |r| >= 1 && r[|r| - 1].marker == []
    decreases |s| - from
  {
    var a := NextMarker(s, from);
    if a < 0 then [Chunk(s[from..], [])]
    else
      var b := MarkerEnd(s, a);
      [Chunk(s[from..a], s[a..b])] + SplitFrom(s, b)
  }

  /** `count_sections`: the lengths of the pieces after the first numbered marker. */
  function CountSections(text: string): (r: seq<nat>)
    ensures |r| == |SplitFrom(text, 0)| - 1
    ensures forall i :: 0 <= i < |r| ==> r[i] == |SplitFrom(text, 0)[i + 1].text|
  {
    var chunks := SplitFrom(text, 0);
    seq(|chunks| - 1, i requires 0 <= i < |chunks| - 1 => |chunks[i + 1].text|)
  }

  /** The pieces and separators, put back together. */
  function Joined(chunks: seq<Chunk>): string {
    if chunks == [] then [] else chunks[0].text + chunks[0].marker + Joined(chunks[1..])
  }

  /** A separator the pattern matches: digits, a full stop, then white space only. */
  predicate IsMarkerText(m: string) {
    exists d :: 1 <= d < |m| && m[d] == '.' && (forall k :: 0 <= k < d ==> IsDigit(m[k]))
      && (forall k :: d < k < |m| ==> IsPySpace(m[k]))
  }

  /** Splitting loses nothing: pieces and separators concatenate to the input. */
  lemma {:induction false} SplitFromJoined(s: string, from: nat)
    requires from <= |s|
    ensures Joined(SplitFrom(s, from)) == s[from..]
    decreases |s| - from
  {
    var a := NextMarker(s, from);
    if a < 0 {
      JoinedCons(Chunk(s[from..], []), []);
      AppendEmpty(s[from..]);
    } else {
      var b := MarkerEnd(s, a);
      SplitFromJoined(s, b);
      JoinedCons(Chunk(s[from..a], s[a..b]), SplitFrom(s, b));
      ThreeParts(s, from, a, b);
    }
  }

  lemma JoinedCons(c: Chunk, rest: seq<Chunk>)
    ensures Joined([c] + rest) == c.text + c.marker + Joined(rest)
  {
    assert ([c] + rest)[1..] == rest;
  }

  lemma AppendEmpty(t: string)
    ensures t + [] + [] == t
  {
  }

  lemma ThreeParts(s: string, from: nat, a: nat, b: nat)
    requires from <= a <= b <= |s|
    ensures s[from..] == s[from..a] + s[a..b] + s[b..]
  {
  }

  /** Every separator but the last (empty) one is a match of the pattern. */
  lemma {:induction false} SplitFromMarkers(s: string, from: nat)
    requires from <= |s|
    ensures var r := SplitFrom(s, from);
      forall i :: 0 <= i < |r| - 1 ==> IsMarkerText(r[i].marker)
    decreases |s| - from
  {
    var a := NextMarker(s, from);
    if a >= 0 {
      var b := MarkerEnd(s, a);
      SplitFromMarkers(s, b);
      var m := s[a..b];
      var d := DigitRunEnd(s, a) - a;
      assert m[d] == '.';
      assert forall k :: 0 <= k < d ==> m[k] == s[a + k];
      assert forall k :: d < k < |m| ==> m[k] == s[a + k];
      assert IsMarkerText(m);
      var r := SplitFrom(s, from);
      assert r[1..] == SplitFrom(s, b);
      forall i | 0 <= i < |r| - 1 ensures IsMarkerText(r[i].marker) {
        if i > 0 {
          assert r[i] == SplitFrom(s, b)[i - 1];
        }
      }
    }
  }

  /** A text without any numbered marker has no sections; one with a marker has some. */
  lemma CountSectionsEmpty(text: string)
    ensures CountSections(text) == [] <==> forall i: nat :: !MarkerAt(text, i)
  {
    var a := NextMarker(text, 0);
    if a >= 0 {
      assert |SplitFrom(text, 0)| >= 2;
    } else {
      forall i: nat ensures !MarkerAt(text, i) {
        if i < |text| {
          assert 0 <= i < |text|;
        }
      }
    }
  }

  /** The section lengths of page two: from the PDF's text layer, or, when that yields no
      section, from the OCR words joined by spaces; nothing for a document of fewer than two
      pages or when reading the PDF throws (`pdfText` None). */
  function SectionLengths(pageCount: nat, pdfText: Option<string>, ocrWords: seq<string>): (r: seq<nat>)
    ensures pageCount < 2 || pdfText.None? ==> r == []
    ensures pageCount >= 2 && pdfText.Some? && CountSections(pdfText.value) != [] ==> r == CountSections(pdfText.value)
  {
    if pageCount < 2 || pdfText.None? then []
    else
      var fromPdf := CountSections(pdfText.value);
      if fromPdf != [] then fromPdf
      else CountSections(if ocrWords == [] then "" else JoinSep(ocrWords, " "))
  }

  // ---------------------------------------------------------------- llm_judge

  /** A JSON value as Python's `json.loads` returns it. */
  datatype PyVal =
    | PNone
    | PBool(b: bool)
    | PNum(x: real)
    | PStr(s: string)
    | PList(items: seq<PyVal>)
    | PDict(entries: map<string, PyVal>)

  /** Python truthiness. */
  predicate Truthy(v: PyVal) {
    match v
    case PNone => false
    case PBool(b) => b
    case PNum(x) => x != 0.0
    case PStr(s) => s != []
    case PList(xs) => xs != []
    case PDict(m) => m != map[]
  }

  /** `d.get(k, default)`. */
  function GetOr(d: map<string, PyVal>, k: string, default: PyVal): PyVal {
    if k in d then d[k] else default
  }

  datatype Decision = PASS | NEEDS_FIX | REJECT

  /** The keys of the model's JSON reply. */
  const LabelKey: string := "label"
  const MessageKey: string := "message"
  const FindingsKey: string := "findings"
  const DecisionKey: string := "decision"
  const ReasonKey: string := "reason"

  /** A `{label, message}` finding. */
  datatype Finding = Finding(labelValue: PyVal, message: PyVal)

  /** What `llm_judge` returns: a decision, findings, and a reason (None when absent). */
  datatype LlmResult = LlmResult(decision: Decision, findings: seq<Finding>, reason: PyVal)

  /** The conservative answer given whenever the model is not consulted or fails. */
  const Conservative: LlmResult := LlmResult(NEEDS_FIX, [], PNone)

  /** The finding kept for one entry of the model's list, if any: a dict whose label and
      message are both truthy. */
  function KeptFinding(f: PyVal): seq<Finding> {
    if f.PDict? && Truthy(GetOr(f.entries, LabelKey, PNone)) && Truthy(GetOr(f.entries, MessageKey, PNone))
    then [Finding(f.entries[LabelKey], f.entries[MessageKey])]
    else []
  }

  /** The normalised findings of a list, in order. */
  function KeptFindings(items: seq<PyVal>): (r: seq<Finding>)
    ensures |r| <= |items|
    ensures forall i :: 0 <= i < |r| ==> Truthy(r[i].labelValue) && Truthy(r[i].message)
    decreases |items|
  {
    if items == [] then []
    else KeptFindings(items[..|items| - 1]) + KeptFinding(items[|items| - 1])
  }

  /** The loop of `llm_judge` that builds `norm_findings`. */
  method NormalizeFindings(items: seq<PyVal>) returns (out: seq<Finding>)
    ensures out == KeptFindings(items)
  {
    out := [];
    var i := 0;
    while i < |items|
      invariant 0 <= i <= |items|
      invariant out == KeptFindings(items[..i])
    {
      assert items[..i + 1][..i] == items[..i];
      var f := items[i];
      if f.PDict? && Truthy(GetOr(f.entries, LabelKey, PNone)) && Truthy(GetOr(f.entries, MessageKey, PNone)) {
        out := out + [Finding(f.entries[LabelKey], f.entries[MessageKey])];
      }
      i := i + 1;
    }
    assert items[..|items|] == items;
  }

  /** The model's decision, kept only when it is one of the three known ones. */
  function DecisionOf(v: PyVal): (d: Decision)
    ensures d == PASS <==> v == PStr("PASS")
    ensures d == REJECT <==> v == PStr("REJECT")
  {
    if v == PStr("PASS") then PASS else if v == PStr("REJECT") then REJECT else NEEDS_FIX
  }

  /** `llm_judge`: the conservative answer when disabled, without an API key, or when the
      call or the JSON parsing throws (`reply` None); otherwise the normalised reply. */
  function LlmJudged(enabled: bool, apiKey: Option<string>, reply: Option<map<string, PyVal>>): (r: LlmResult)
    ensures !enabled || apiKey.None? || apiKey == Some([]) || reply.None? ==> r == Conservative
  {
    if !enabled || apiKey.None? || apiKey.value == [] || reply.None? then Conservative
    else
      var parsed := reply.value;
      var findings := GetOr(parsed, FindingsKey, PList([]));
      LlmResult(
        DecisionOf(GetOr(parsed, DecisionKey, PStr("NEEDS_FIX"))),
        if findings.PList? then KeptFindings(findings.items) else [],
        GetOr(parsed, ReasonKey, PNone))
  }

  /** `llm_judge`, with its normalisation loop. */
  method LlmJudge(enabled: bool, apiKey: Option<string>, reply: Option<map<string, PyVal>>) returns (r: LlmResult)
    ensures r == LlmJudged(enabled, apiKey, reply)
  {
    if !enabled || apiKey.None? || apiKey.value == [] || reply.None? {
      return Conservative;
    }
    var parsed := reply.value;
    var decision := GetOr(parsed, DecisionKey, PStr("NEEDS_FIX"));
    var findings := GetOr(parsed, FindingsKey, PList([]));
    var reason := GetOr(parsed, ReasonKey, PNone);
    var norm := [];
    if findings.PList? {
      norm := NormalizeFindings(findings.items);
    }
    return LlmResult(DecisionOf(decision), norm, reason);
  }

  /** A finding is kept exactly when some entry of the list is a dict carrying it as truthy
      label and message. */
  lemma {:induction false} KeptFindingsMembers(items: seq<PyVal>, f: Finding)
    ensures f in KeptFindings(items) <==>
      exists i :: 0 <= i < |items| && f in KeptFinding(items[i])
    decreases |items|
  {
    if items != [] {
      var n := |items| - 1;
      var init := items[..n];
      KeptFindingsMembers(init, f);
      assert KeptFindings(items) == KeptFindings(init) + KeptFinding(items[n]);
      if f in KeptFindings(items) {
        if f in KeptFindings(init) {
          var i :| 0 <= i < n && f in KeptFinding(init[i]);
          assert init[i] == items[i];
        } else {
          assert f in KeptFinding(items[n]);
        }
      }
      if exists i :: 0 <= i < |items| && f in KeptFinding(items[i]) {
        var i :| 0 <= i < |items| && f in KeptFinding(items[i]);
        if i < n {
          assert init[i] == items[i];
          assert f in KeptFindings(init);
        }
      }
    }
  }

  // ---------------------------------------------------------------- review_document, steps 7 and 9

  /** What the image and text checks established about the document. */
  datatype Checks = Checks(
    applicantName: Option<string>,
    photoOk: bool,
    sectionLengths: seq<nat>,
    consentOk: bool,
    sig1Ok: bool,
    sig3Ok: bool)

  /** There is at least one section, and every section is long enough. */
  predicate SectionsOk(c: Checks) {
    c.sectionLengths != [] && forall i :: 0 <= i < |c.sectionLengths| ==> c.sectionLengths[i] >= MinCount
  }

  /** The six requirements, in the order the seed findings follow. */
  function Requirements(c: Checks): (r: seq<bool>)
    ensures |r| == 6
  {
    [c.applicantName.Some?, c.photoOk, SectionsOk(c), c.consentOk, c.sig1Ok, c.sig3Ok]
  }

  /** `rule_pass`: every requirement holds. */
  predicate RulePass(c: Checks) {
    forall i :: 0 <= i < 6 ==> Requirements(c)[i]
  }

  /** The seed finding of each requirement, in the same order. */
  const Catalog: seq<Finding> := [NameFinding, PhotoFinding, LengthFinding, ConsentFinding, Sign1Finding, Sign3Finding]
  const NameFinding: Finding := Finding(PStr("성명"), PStr("1페이지 성명 인식 실패"))
  const PhotoFinding: Finding := Finding(PStr("사진"), PStr("규정 위치에서 사진이 감지되지 않음"))
  const LengthFinding: Finding := Finding(PStr("자소서 분량"), PStr("각 섹션 300자 이상 필요"))
  const ConsentFinding: Finding := Finding(PStr("동의서"), PStr("3페이지 동의(예) 체크 미확인"))
  const Sign1Finding: Finding := Finding(PStr("서명(1p)"), PStr(SignatureMissing))
  const Sign3Finding: Finding := Finding(PStr("서명(3p)"), PStr(SignatureMissing))
  const SignatureMissing: string := "서명 영역에서 서명 미검출"

  /** The catalogue entries whose requirement failed, in order. */
  function Failed(reqs: seq<bool>, catalog: seq<Finding>): (r: seq<Finding>)
    requires |reqs| == |catalog|
    ensures |r| <= |reqs|
    decreases |reqs|
  {
    if reqs == [] then []
    else
      var n := |reqs| - 1;
      Failed(reqs[..n], catalog[..n]) + (if reqs[n] then [] else [catalog[n]])
  }

  /** `findings_seed`. */
  function Seed(c: Checks): seq<Finding> {
    Failed(Requirements(c), Catalog)
  }

  /** One more requirement considered: its entry is appended if it failed. */
  lemma FailedStep(reqs: seq<bool>, catalog: seq<Finding>, k: nat)
    requires |reqs| == |catalog| && k < |reqs|
    ensures Failed(reqs[..k + 1], catalog[..k + 1]) == Failed(reqs[..k], catalog[..k]) + Pick(reqs, catalog, k)
  {
    assert reqs[..k + 1][..k] == reqs[..k];
    assert catalog[..k + 1][..k] == catalog[..k];
  }

  /** The entry of requirement `k` if it failed. */
  function Entry(c: Checks, k: nat): seq<Finding>
    requires k < 6
  {
    if Requirements(c)[k] then [] else [Catalog[k]]
  }

  /** The seed written out requirement by requirement. */
  lemma SeedUnfolded(c: Checks)
    ensures Seed(c) == Entry(c, 0) + Entry(c, 1) + Entry(c, 2) + Entry(c, 3) + Entry(c, 4) + Entry(c, 5)
  {
    FailedSix(Requirements(c), Catalog);
  }

  /** The selected entry of position `k`. */
  function Pick(reqs: seq<bool>, catalog: seq<Finding>, k: nat): seq<Finding>
    requires k < |reqs| == |catalog|
  {
    if reqs[k] then [] else [catalog[k]]
  }

  /** Six requirements written out one by one. */
  lemma FailedSix(reqs: seq<bool>, catalog: seq<Finding>)
    requires |reqs| == |catalog| == 6
    ensures Failed(reqs, catalog)
      == Pick(reqs, catalog, 0) + Pick(reqs, catalog, 1) + Pick(reqs, catalog, 2)
       + Pick(reqs, catalog, 3) + Pick(reqs, catalog, 4) + Pick(reqs, catalog, 5)
  {
    var p0, p1, p2 := Pick(reqs, catalog, 0), Pick(reqs, catalog, 1), Pick(reqs, catalog, 2);
    var p3, p4, p5 := Pick(reqs, catalog, 3), Pick(reqs, catalog, 4), Pick(reqs, catalog, 5);
    assert Failed(reqs[..1], catalog[..1]) == p0 by {
      assert reqs[..0] == [] && catalog[..0] == [];
      FailedStep(reqs, catalog, 0);
    }
    assert Failed(reqs[..2], catalog[..2]) == p0 + p1 by {
      FailedStep(reqs, catalog, 1);
    }
    assert Failed(reqs[..3], catalog[..3]) == p0 + p1 + p2 by {
      FailedStep(reqs, catalog, 2);
    }
    assert Failed(reqs[..4], catalog[..4]) == p0 + p1 + p2 + p3 by {
      FailedStep(reqs, catalog, 3);
    }
    assert Failed(reqs[..5], catalog[..5]) == p0 + p1 + p2 + p3 + p4 by {
      FailedStep(reqs, catalog, 4);
    }
    assert Failed(reqs[..6], catalog[..6]) == p0 + p1 + p2 + p3 + p4 + p5 by {
      FailedStep(reqs, catalog, 5);
    }
    assert reqs[..6] == reqs && catalog[..6] == catalog;
  }

  /** The chain of conditional appends that builds `findings_seed`. */
  method BuildSeed(c: Checks) returns (seed: seq<Finding>)
    ensures seed == Seed(c)
  {
    seed := [];
    if c.applicantName.None? {
      seed := seed + [Catalog[0]];
    }
    assert seed == Entry(c, 0);
    if !c.photoOk {
      seed := seed + [Catalog[1]];
    }
    assert seed == Entry(c, 0) + Entry(c, 1);
    if !SectionsOk(c) {
      seed := seed + [Catalog[2]];
    }
    assert seed == Entry(c, 0) + Entry(c, 1) + Entry(c, 2);
    if !c.consentOk {
      seed := seed + [Catalog[3]];
    }
    assert seed == Entry(c, 0) + Entry(c, 1) + Entry(c, 2) + Entry(c, 3);
    if !c.sig1Ok {
      seed := seed + [Catalog[4]];
    }
    assert seed == Entry(c, 0) + Entry(c, 1) + Entry(c, 2) + Entry(c, 3) + Entry(c, 4);
    if !c.sig3Ok {
      seed := seed + [Catalog[5]];
    }
    SeedUnfolded(c);
  }

  /** Catalogue entries are selected exactly for the failed requirements. */
  lemma {:induction false} FailedMembers(reqs: seq<bool>, catalog: seq<Finding>, i: nat)
    requires |reqs| == |catalog| && i < |reqs|
    requires forall j :: 0 <= j < |catalog| && j != i ==> catalog[j] != catalog[i]
    ensures catalog[i] in Failed(reqs, catalog) <==> !reqs[i]
    decreases |reqs|
  {
    var n := |reqs| - 1;
    var rest := Failed(reqs[..n], catalog[..n]);
    if i == n {
      assert catalog[n] !in rest by {
        FailedWithin(reqs[..n], catalog[..n]);
      }
    } else {
      assert reqs[..n][i] == reqs[i] && catalog[..n][i] == catalog[i];
      FailedMembers(reqs[..n], catalog[..n], i);
    }
  }

  /** Only catalogue entries are ever selected. */
  lemma {:induction false} FailedWithin(reqs: seq<bool>, catalog: seq<Finding>)
    requires |reqs| == |catalog|
    ensures forall f :: f in Failed(reqs, catalog) ==> f in catalog
    decreases |reqs|
  {
    if reqs != [] {
      var n := |reqs| - 1;
      FailedWithin(reqs[..n], catalog[..n]);
      assert forall f :: f in catalog[..n] ==> f in catalog;
    }
  }

  /** No entry is selected exactly when every requirement holds. */
  lemma {:induction false} FailedEmpty(reqs: seq<bool>, catalog: seq<Finding>)
    requires |reqs| == |catalog|
    ensures Failed(reqs, catalog) == [] <==> forall i :: 0 <= i < |reqs| ==> reqs[i]
    decreases |reqs|
  {
    if reqs != [] {
      var n := |reqs| - 1;
      FailedEmpty(reqs[..n], catalog[..n]);
      assert forall i :: 0 <= i < n ==> reqs[..n][i] == reqs[i];
    }
  }

  /** The seed names each failed requirement once, in the fixed order, and is empty exactly
      when the rules pass. */
  lemma SeedMeaning(c: Checks)
    ensures Seed(c) == [] <==> RulePass(c)
    ensures forall i :: 0 <= i < 6 ==> (Catalog[i] in Seed(c) <==> !Requirements(c)[i])
  {
    FailedEmpty(Requirements(c), Catalog);
    forall i | 0 <= i < 6 ensures Catalog[i] in Seed(c) <==> !Requirements(c)[i] {
      FailedMembers(Requirements(c), Catalog, i);
    }
  }

  /** The result of the review. */
  datatype Review = Review(verdict: Decision, findings: seq<Finding>, reason: PyVal, status: string)

  /** The `status` field: "PASS" for a passing verdict, "FAIL" otherwise. */
  function StatusOf(v: Decision): string {
    if v == PASS then "PASS" else "FAIL"
  }

  /** Step 9: PASS when the rules pass; otherwise the model's REJECT or NEEDS_FIX, its findings
      or else the seed, and its reason only for REJECT. */
  function Decided(c: Checks, llm: LlmResult): Review {
    if RulePass(c) then Review(PASS, [], PNone, StatusOf(PASS))
    else
      var verdict := if llm.decision == REJECT then REJECT else NEEDS_FIX;
      Review(verdict, if llm.findings != [] then llm.findings else Seed(c),
        if verdict == REJECT then llm.reason else PNone, StatusOf(verdict))
  }

  /** Steps 7 and 9 of `review_document`; the model is consulted only when the rules fail. */
  method ReviewDecision(c: Checks, enabled: bool, apiKey: Option<string>, reply: Option<map<string, PyVal>>)
    returns (r: Review)
    ensures r == Decided(c, LlmJudged(enabled, apiKey, reply))
  {
    var rulePass := c.applicantName.Some? && c.photoOk && SectionsOk(c) && c.consentOk && c.sig1Ok && c.sig3Ok;
    assert rulePass == RulePass(c) by {
      var reqs := Requirements(c);
      assert reqs[0] == c.applicantName.Some? && reqs[1] == c.photoOk && reqs[2] == SectionsOk(c);
      assert reqs[3] == c.consentOk && reqs[4] == c.sig1Ok && reqs[5] == c.sig3Ok;
    }
    if rulePass {
      return Review(PASS, [], PNone, "PASS");
    }
    var seed := BuildSeed(c);
    var llm := LlmJudge(enabled, apiKey, reply);
    var verdict := if llm.decision == NEEDS_FIX || llm.decision == REJECT then llm.decision else NEEDS_FIX;
    var findings := if llm.findings != [] then llm.findings else seed;
    var reason := if verdict == REJECT then llm.reason else PNone;
    return Review(verdict, findings, reason, if verdict == PASS then "PASS" else "FAIL");
  }

  /** The verdict is PASS exactly when the rules pass, and then carries no finding and no
      reason; `status` is "PASS" exactly for a PASS verdict. */
  lemma DecidedPass(c: Checks, llm: LlmResult)
    ensures var r := Decided(c, llm);
      && (r.verdict == PASS <==> RulePass(c))
      && (r.status == "PASS" <==> r.verdict == PASS)
      && (RulePass(c) ==> r.findings == [] && r.reason == PNone)
  {
  }

  /** A failing document is rejected only on the model's word, always carries at least one
      finding, and has a reason only when rejected. */
  lemma DecidedFail(c: Checks, llm: LlmResult)
    requires !RulePass(c)
    ensures var r := Decided(c, llm);
      && (r.verdict == REJECT <==> llm.decision == REJECT)
      && r.verdict != PASS
      && r.findings != []
      && (r.verdict != REJECT ==> r.reason == PNone)
  {
    SeedMeaning(c);
  }

  /** Without the model, a failing document gets NEEDS_FIX and exactly the seed findings. */
  lemma DecidedWithoutModel(c: Checks, apiKey: Option<string>, reply: Option<map<string, PyVal>>)
    requires !RulePass(c)
    ensures Decided(c, LlmJudged(false, apiKey, reply)) == Review(NEEDS_FIX, Seed(c), PNone, "FAIL")
  {
  }
}
