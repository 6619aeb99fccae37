/** The tables the services read and write, as one object whose fields are the tables.
    Entities are keyed by their identity id; a one-to-one child table (a submission's file, a
    document type's original file or deadline) is a map from the owner's id. */
module Database {
  import opened Common
  import opened Domain

  /** A snapshot of every table, so a contract can say which tables an operation changes. */
  datatype Tables = Tables(
    submissions: map<SubmissionId, Submission>,
    nextSubmissionId: SubmissionId,
    history: seq<HistoryEntry>,
    submissionFiles: map<SubmissionId, string>,
    fieldValues: seq<FieldValueRow>,
    departments: set<DepartmentId>,
    docTypes: map<DocTypeId, DocType>,
    nextDocTypeId: DocTypeId,
    requiredFields: seq<RequiredField>,
    nextRequiredFieldId: nat,
    originalFiles: map<DocTypeId, string>,
    deadlines: map<DocTypeId, Option<Date>>,
    admins: map<MemberId, AdminId>,
    outbox: seq<SubmissionId>)
  {
    /** Referential integrity and fresh identity counters. */
    predicate Valid() {
      && (forall k :: k in submissions ==> k < nextSubmissionId && submissions[k].docType in docTypes)
      && (forall i :: 0 <= i < |history| ==> history[i].submission in submissions)
      && (forall k :: k in submissionFiles ==> k in submissions)
      && (forall i :: 0 <= i < |fieldValues| ==> fieldValues[i].submission in submissions)
      && (forall k :: k in docTypes ==> k < nextDocTypeId && docTypes[k].department in departments)
      && (forall i :: 0 <= i < |requiredFields| ==>
            requiredFields[i].docType in docTypes && requiredFields[i].id < nextRequiredFieldId)
      && (forall i, j :: 0 <= i < j < |requiredFields| ==> requiredFields[i].id != requiredFields[j].id)
      && (forall k :: k in originalFiles ==> k in docTypes)
      && (forall k :: k in deadlines ==> k in docTypes)
      && (forall i :: 0 <= i < |outbox| ==> outbox[i] in submissions)
    }
  }

  class Db {
    var submissions: map<SubmissionId, Submission>
    var nextSubmissionId: SubmissionId
    var history: seq<HistoryEntry>
    var submissionFiles: map<SubmissionId, string>
    var fieldValues: seq<FieldValueRow>
    var departments: set<DepartmentId>
    var docTypes: map<DocTypeId, DocType>
    var nextDocTypeId: DocTypeId
    var requiredFields: seq<RequiredField>
    var nextRequiredFieldId: nat
    var originalFiles: map<DocTypeId, string>
    var deadlines: map<DocTypeId, Option<Date>>
    var admins: map<MemberId, AdminId>
    /** Events published by committed transactions and not yet delivered. */
    var outbox: seq<SubmissionId>

    ghost function T(): Tables
      reads this
    {
      Tables(submissions, nextSubmissionId, history, submissionFiles, fieldValues, departments,
        docTypes, nextDocTypeId, requiredFields, nextRequiredFieldId, originalFiles, deadlines,
        admins, outbox)
    }

    ghost predicate Valid()
      reads this
    {
      T().Valid()
    }

    /** A database holding only departments and administrators. */
    constructor (departments: set<DepartmentId>, admins: map<MemberId, AdminId>)
      ensures Valid()
      ensures T() == Tables(map[], 0, [], map[], [], departments, map[], 0, [], 0, map[], map[], admins, [])
    {
      this.submissions := map[];
      this.nextSubmissionId := 0;
      this.history := [];
      this.submissionFiles := map[];
      this.fieldValues := [];
      this.departments := departments;
      this.docTypes := map[];
      this.nextDocTypeId := 0;
      this.requiredFields := [];
      this.nextRequiredFieldId := 0;
      this.originalFiles := map[];
      this.deadlines := map[];
      this.admins := admins;
      this.outbox := [];
    }
  }

  /** The history entries of one submission, in id order (`findBySubmissionOrderBy...IdAsc`). */
  function HistoryOf(history: seq<HistoryEntry>, id: SubmissionId): (r: seq<HistoryEntry>)
    ensures |r| <= |history|
    ensures forall i :: 0 <= i < |r| ==> r[i].submission == id
    ensures forall e :: e in history && e.submission == id <==> e in r
    ensures (forall i :: 0 <= i < |history| ==> history[i].submission != id) ==> r == []
  {
    if history == [] then []
    else
      var rest := HistoryOf(history[..|history| - 1], id);
      var last := history[|history| - 1];
      assert forall e :: e in history <==> e in history[..|history| - 1] || e == last;
      if last.submission == id then rest + [last] else rest
  }

  /** Appending an entry of another submission leaves a submission's history unchanged;
      appending one of its own adds it at the end. */
  lemma HistoryOfAppend(history: seq<HistoryEntry>, e: HistoryEntry, id: SubmissionId)
    ensures HistoryOf(history + [e], id) == HistoryOf(history, id) + (if e.submission == id then [e] else [])
  {
    assert (history + [e])[..|history|] == history;
  }

  /** Appending an entry extends its own submission's history by it and no other. */
  lemma HistoryOfAppendOne(history: seq<HistoryEntry>, e: HistoryEntry)
    ensures HistoryOf(history + [e], e.submission) == HistoryOf(history, e.submission) + [e]
    ensures forall j :: j != e.submission ==> HistoryOf(history + [e], j) == HistoryOf(history, j)
  {
    HistoryOfAppend(history, e, e.submission);
    forall j | j != e.submission ensures HistoryOf(history + [e], j) == HistoryOf(history, j) {
      HistoryOfAppend(history, e, j);
      assert HistoryOf(history, j) + [] == HistoryOf(history, j);
    }
  }

  /** The history of a submission in a concatenation is the concatenation of its histories. */
  lemma {:induction false} HistoryOfConcat(a: seq<HistoryEntry>, b: seq<HistoryEntry>, id: SubmissionId)
    ensures HistoryOf(a + b, id) == HistoryOf(a, id) + HistoryOf(b, id)
    decreases |b|
  {
    if b == [] {
      assert a + b == a;
    } else {
      var init := b[..|b| - 1];
      var x := b[|b| - 1];
      SnocSplit(a, b);
      HistoryOfConcat(a, init, id);
      HistoryOfAppend(a + init, x, id);
      HistoryOfAppend(init, x, id);
    }
  }

  lemma SnocSplit<T>(a: seq<T>, b: seq<T>)
    requires b != []
    ensures b == b[..|b| - 1] + [b[|b| - 1]]
    ensures a + b == (a + b[..|b| - 1]) + [b[|b| - 1]]
  {
  }

  /** The required fields of one document type, in table order (`findByDocType`). */
  function FieldsOf(fields: seq<RequiredField>, docType: DocTypeId): (r: seq<RequiredField>)
    ensures |r| <= |fields|
    ensures forall i :: 0 <= i < |r| ==> r[i].docType == docType
    ensures forall f :: f in fields && f.docType == docType <==> f in r
  {
    if fields == [] then []
    else
      var rest := FieldsOf(fields[1..], docType);
      assert forall f :: f in fields <==> f == fields[0] || f in fields[1..];
      if fields[0].docType == docType then [fields[0]] + rest else rest
  }

  /** The fields of a document type in a concatenation are the concatenation of its fields. */
  lemma {:induction false} FieldsOfConcat(a: seq<RequiredField>, b: seq<RequiredField>, docType: DocTypeId)
    ensures FieldsOf(a + b, docType) == FieldsOf(a, docType) + FieldsOf(b, docType)
  {
    if a != [] {
      assert (a + b)[0] == a[0];
      assert (a + b)[1..] == a[1..] + b;
      FieldsOfConcat(a[1..], b, docType);
      if a[0].docType == docType {
        var x, y := FieldsOf(a[1..], docType), FieldsOf(b, docType);
        assert [a[0]] + (x + y) == ([a[0]] + x) + y;
      }
    } else {
      assert a + b == b;
    }
  }

  /** No field of a document type absent from the table is selected. */
  lemma {:induction false} FieldsOfAbsent(fields: seq<RequiredField>, docType: DocTypeId)
    requires forall i :: 0 <= i < |fields| ==> fields[i].docType != docType
    ensures FieldsOf(fields, docType) == []
  {
    if fields != [] {
      FieldsOfAbsent(fields[1..], docType);
    }
  }

  /** Fields all of one document type are all selected for it and none for any other. */
  lemma {:induction false} FieldsOfUniform(fields: seq<RequiredField>, docType: DocTypeId, other: DocTypeId)
    requires forall i :: 0 <= i < |fields| ==> fields[i].docType == docType
    ensures FieldsOf(fields, docType) == fields
    ensures other != docType ==> FieldsOf(fields, other) == []
  {
    if fields != [] {
      FieldsOfUniform(fields[1..], docType, other);
    }
  }
}
