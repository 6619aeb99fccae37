/** `DeadlineService`: at most one deadline per document type, set only to a future day,
    and the lookups by document type and by department. */
module Deadlines {
  import opened Common
  import opened Domain
  import opened Database

  /** `DeadlineStatusDTO`. */
  datatype DeadlineStatus = DeadlineStatus(docTypeId: DocTypeId, title: Option<string>, deadline: Option<Date>)

  const DocTypeNotFound: Error := Runtime("문서를 찾을 수 없습니다.")
  const DepartmentNotFound: Error := Runtime("부서를 찾을 수 없습니다.")
  const PastDeadline: Error := IllegalArgument("마감일은 오늘 이후 날짜만 설정할 수 있습니다.")

  /** The deadline recorded for a document type, null when it has none. */
  function DeadlineOf(deadlines: map<DocTypeId, Option<Date>>, id: DocTypeId): Option<Date> {
    if id in deadlines then deadlines[id] else None
  }

  /** `getDeadlineByDocTypeId`. */
  function ByDocType(docTypes: map<DocTypeId, DocType>, deadlines: map<DocTypeId, Option<Date>>, id: DocTypeId)
    : (r: Result<DeadlineStatus>)
    ensures id !in docTypes <==> r == Err(DocTypeNotFound)
    ensures r.Ok? ==> r.value.docTypeId == id && r.value.title == docTypes[id].title
    ensures r.Ok? ==> (r.value.deadline.Some? <==> id in deadlines && deadlines[id].Some?)
    ensures r.Ok? && id in deadlines ==> r.value.deadline == deadlines[id]
  {
    if id !in docTypes then Err(DocTypeNotFound)
    else Ok(DeadlineStatus(id, docTypes[id].title, DeadlineOf(deadlines, id)))
  }

  /** The ids below `bound` of the document types of a department, in ascending order. */
  function DocTypesIn(docTypes: map<DocTypeId, DocType>, department: DepartmentId, bound: nat): (r: seq<DocTypeId>)
    ensures forall i :: 0 <= i < |r| ==> r[i] < bound && r[i] in docTypes && docTypes[r[i]].department == department
    ensures forall k :: k < bound && k in docTypes && docTypes[k].department == department ==> k in r
    ensures forall i, j :: 0 <= i < j < |r| ==> r[i] < r[j]
  {
    if bound == 0 then []
    else
      var k := bound - 1;
      var rest := DocTypesIn(docTypes, department, k);
      if k in docTypes && docTypes[k].department == department then rest + [k] else rest
  }

  /** `getDeadlineByDepartment`: one row per document type of the department. */
  function ByDepartment(t: Tables, department: DepartmentId): (r: Result<seq<DeadlineStatus>>)
    requires t.Valid()
    ensures department !in t.departments <==> r == Err(DepartmentNotFound)
    ensures r.Ok? ==> forall i :: 0 <= i < |r.value| ==>
      var row := r.value[i];
      row.docTypeId in t.docTypes && t.docTypes[row.docTypeId].department == department
      && Ok(row) == ByDocType(t.docTypes, t.deadlines, row.docTypeId)
    ensures r.Ok? ==> forall k :: k in t.docTypes && t.docTypes[k].department == department ==>
      exists i :: 0 <= i < |r.value| && r.value[i].docTypeId == k
    ensures r.Ok? ==> forall i, j :: 0 <= i < j < |r.value| ==> r.value[i].docTypeId < r.value[j].docTypeId
  {
    if department !in t.departments then Err(DepartmentNotFound)
    else
      var ids := DocTypesIn(t.docTypes, department, t.nextDocTypeId);
      var rows := seq(|ids|, i requires 0 <= i < |ids| => DeadlineStatus(ids[i], t.docTypes[ids[i]].title, DeadlineOf(t.deadlines, ids[i])));
      assert forall k :: k in t.docTypes && t.docTypes[k].department == department ==>
        exists i :: 0 <= i < |rows| && rows[i].docTypeId == k by {
        forall k | k in t.docTypes && t.docTypes[k].department == department
          ensures exists i :: 0 <= i < |rows| && rows[i].docTypeId == k
        {
          assert k in ids;
          var i :| 0 <= i < |ids| && ids[i] == k;
          assert rows[i].docTypeId == k;
        }
      }
      Ok(rows)
  }

  /** `registerOrUpdateDeadline`: refuses an unknown document type, then a deadline that is
      not after today; otherwise the document type's single deadline is set (null allowed). */
  method RegisterOrUpdateDeadline(db: Db, docTypeId: DocTypeId, deadline: Option<Date>, today: Date) returns (r: Result<()>)
    requires db.Valid()
    modifies db
    ensures db.Valid()
    ensures docTypeId !in old(db.docTypes) ==> r == Err(DocTypeNotFound)
    ensures docTypeId in old(db.docTypes) && deadline.Some? && deadline.value <= today ==> r == Err(PastDeadline)
    ensures r.Err? ==> db.T() == old(db.T())
    ensures r.Ok? <==> docTypeId in old(db.docTypes) && (deadline.None? || deadline.value > today)
    ensures r.Ok? ==> db.T() == old(db.T()).(deadlines := old(db.deadlines)[docTypeId := deadline])
  {
    if docTypeId !in db.docTypes {
      return Err(DocTypeNotFound);
    }
    if deadline.Some? && !(deadline.value > today) {
      return Err(PastDeadline);
    }
    db.deadlines := db.deadlines[docTypeId := deadline];
    return Ok(());
  }

  /** `deleteDeadlineByDocTypeId`: removes the document type's deadline if it has one. */
  method DeleteDeadlineByDocTypeId(db: Db, docTypeId: DocTypeId) returns (r: Result<()>)
    requires db.Valid()
    modifies db
    ensures db.Valid()
    ensures r == (if docTypeId in old(db.docTypes) then Ok(()) else Err(DocTypeNotFound))
    ensures r.Err? || docTypeId !in old(db.deadlines) ==> db.T() == old(db.T())
    ensures r.Ok? ==> db.T() == old(db.T()).(deadlines := old(db.deadlines) - {docTypeId})
  {
    if docTypeId !in db.docTypes {
      return Err(DocTypeNotFound);
    }
    if docTypeId in db.deadlines {
      db.deadlines := db.deadlines - {docTypeId};
    }
    return Ok(());
  }

  // ---------------------------------------------------------------- lemmas

  /** Reading back a registered deadline gives the value stored, null included, and leaves
      every other document type's deadline as it was. */
  lemma LookupAfterRegister(docTypes: map<DocTypeId, DocType>, deadlines: map<DocTypeId, Option<Date>>,
                            id: DocTypeId, d: Option<Date>, other: DocTypeId)
    requires id in docTypes
    ensures ByDocType(docTypes, deadlines[id := d], id) == Ok(DeadlineStatus(id, docTypes[id].title, d))
    ensures other != id ==> ByDocType(docTypes, deadlines[id := d], other) == ByDocType(docTypes, deadlines, other)
  {
  }

  /** After a delete the document type reads as having no deadline, and a second delete
      changes nothing. */
  lemma LookupAfterDelete(docTypes: map<DocTypeId, DocType>, deadlines: map<DocTypeId, Option<Date>>, id: DocTypeId)
    requires id in docTypes
    ensures ByDocType(docTypes, deadlines - {id}, id) == Ok(DeadlineStatus(id, docTypes[id].title, None))
    ensures (deadlines - {id}) - {id} == deadlines - {id}
  {
  }
}
