/** `DocTypeService`: registering and editing a document type — its title, its single
    original form file and its list of required fields with example values. */
module DocTypes {
  import opened Common
  import opened Text
  import opened Domain
  import opened Database
  import opened Storage
  import Utf8
  import Deadlines

  const UnknownDepartment: Error := IllegalArgument("부서를 찾을 수 없습니다.")
  const NoFileUrl: Error := NotFound("파일 URL이 없습니다.")
  /** `Collectors.toMap` on two current fields with the same name. */
  const DuplicateKey: Error := IllegalState("Duplicate key")

  /** A field name the services keep: present and not blank. */
  predicate Named(n: Option<string>) { n.Some? && !IsBlank(n.value) }

  /** The example at a position of the example list, null past its end. */
  function ExampleAt(examples: seq<Option<string>>, i: nat): Option<string> {
    if i < |examples| then examples[i] else None
  }

  /** A null list read as the empty list. */
  function OrEmpty(xs: Option<seq<Option<string>>>): seq<Option<string>> {
    if xs.None? then [] else xs.value
  }

  // ---------------------------------------------------------------- buildFieldPairs

  /** A required field to be created: its name and its example. */
  datatype FieldPair = FieldPair(name: string, example: Option<string>)

  /** The pairs `buildFieldPairs` makes: one per kept name, in order (see `PairsMeaning`). */
  function Pairs(names: seq<Option<string>>, examples: seq<Option<string>>): seq<FieldPair>
    decreases |names|
  {
    if names == [] then []
    else
      var n := |names| - 1;
      Pairs(names[..n], examples) + if Named(names[n]) then [FieldPair(names[n].value, ExampleAt(examples, n))] else []
  }

  /** How many names are kept. */
  function CountNamed(names: seq<Option<string>>): nat
    decreases |names|
  {
    if names == [] then 0
    else CountNamed(names[..|names| - 1]) + if Named(names[|names| - 1]) then 1 else 0
  }

  /** One pair per kept name, in the order of the names, each with the example at the
      name's own position (null past the end of the examples). */
  lemma {:induction false} PairsMeaning(names: seq<Option<string>>, examples: seq<Option<string>>)
    ensures var r := Pairs(names, examples);
      && |r| == CountNamed(names)
      && (forall k :: 0 <= k < |r| ==> !IsBlank(r[k].name))
      && (forall i :: 0 <= i < |names| && Named(names[i]) ==>
            CountNamed(names[..i]) < |r| && r[CountNamed(names[..i])] == FieldPair(names[i].value, ExampleAt(examples, i)))
    decreases |names|
  {
    if names != [] {
      var n := |names| - 1;
      var init := names[..n];
      PairsMeaning(init, examples);
      assert names[..n] == init;
      forall i | 0 <= i < n ensures names[..i] == init[..i] && names[i] == init[i] { }
    }
  }

  /** `buildFieldPairs`: null or empty names give nothing; blank names are skipped. */
  method BuildFieldPairs(names: Option<seq<Option<string>>>, examples: Option<seq<Option<string>>>)
    returns (out: seq<FieldPair>)
    ensures out == Pairs(OrEmpty(names), OrEmpty(examples))
  {
    out := [];
    if names.None? || |names.value| == 0 {
      return;
    }
    var ns := names.value;
    var ex := OrEmpty(examples);
    var m := |ex|;
    var i := 0;
    while i < |ns|
      invariant 0 <= i <= |ns|
      invariant out == Pairs(ns[..i], ex)
    {
      assert ns[..i + 1][..i] == ns[..i];
      var name := ns[i];
      if name.Some? && !IsBlank(name.value) {
        var e := if i < m then ex[i] else None;
        out := out + [FieldPair(name.value, e)];
      }
      i := i + 1;
    }
    assert ns[..|ns|] == ns;
  }

  /** The rows for new pairs, with consecutive fresh ids. */
  function NewFields(docType: DocTypeId, pairs: seq<FieldPair>, firstId: nat): (r: seq<RequiredField>)
    ensures |r| == |pairs|
    ensures forall k :: 0 <= k < |r| ==> r[k] == RequiredField(firstId + k, docType, Some(pairs[k].name), pairs[k].example)
  {
    seq(|pairs|, k requires 0 <= k < |pairs| => RequiredField(firstId + k, docType, Some(pairs[k].name), pairs[k].example))
  }

  // ---------------------------------------------------------------- syncRequiredFields

  /** The name-to-example map `syncRequiredFields` builds; a later name overrides an earlier one. */
  function NameMap(names: seq<Option<string>>, examples: seq<Option<string>>): (m: map<string, Option<string>>)
    ensures forall k :: k in m ==> !IsBlank(k)
    ensures forall i :: 0 <= i < |names| && Named(names[i]) ==> names[i].value in m
    decreases |names|
  {
    if names == [] then map[]
    else
      var n := |names| - 1;
      var m := NameMap(names[..n], examples);
      assert forall i :: 0 <= i < n ==> names[..n][i] == names[i];
      if Named(names[n]) then m[names[n].value := ExampleAt(examples, n)] else m
  }

  /** Every key of the map is a kept name. */
  lemma {:induction false} NameMapKeys(names: seq<Option<string>>, examples: seq<Option<string>>, k: string)
    requires k in NameMap(names, examples)
    ensures exists i :: 0 <= i < |names| && names[i] == Some(k)
    decreases |names|
  {
    var n := |names| - 1;
    if !(Named(names[n]) && names[n].value == k) {
      NameMapKeys(names[..n], examples, k);
      var i :| 0 <= i < n && names[..n][i] == Some(k);
      assert names[i] == Some(k);
    }
  }

  /** Of repeated names, the example at the last occurrence wins. */
  lemma {:induction false} NameMapLastWins(names: seq<Option<string>>, examples: seq<Option<string>>, i: nat)
    requires i < |names| && Named(names[i])
    requires forall j :: i < j < |names| ==> names[j] != names[i]
    ensures NameMap(names, examples)[names[i].value] == ExampleAt(examples, i)
    decreases |names|
  {
    var n := |names| - 1;
    if i < n {
      assert names[..n][i] == names[i];
      NameMapLastWins(names[..n], examples, i);
    }
  }

  /** `newMap` as the loop over the names builds it. */
  method BuildNameMap(names: seq<Option<string>>, examples: seq<Option<string>>) returns (m: map<string, Option<string>>)
    ensures m == NameMap(names, examples)
  {
    m := map[];
    var i := 0;
    while i < |names|
      invariant 0 <= i <= |names|
      invariant m == NameMap(names[..i], examples)
    {
      assert names[..i + 1][..i] == names[..i];
      var name := names[i];
      var ex := if i < |examples| then examples[i] else None;
      if name.Some? && !IsBlank(name.value) {
        m := m[name.value := ex];
      }
      i := i + 1;
    }
    assert names[..|names|] == names;
  }

  /** Two current fields share a name (two unnamed fields included). */
  predicate DuplicateName(current: seq<RequiredField>) {
    exists i, j :: 0 <= i < j < |current| && current[i].fieldName == current[j].fieldName
  }

  /** The names of a document type's current fields. */
  function NamesOf(current: seq<RequiredField>): set<string> {
    set f | f in current && f.fieldName.Some? :: f.fieldName.value
  }

  /** What happens to one field: a field of another document type stays; a field of this
      one stays, with the new example, exactly when its name is a key of the map. */
  function Keep(f: RequiredField, docType: DocTypeId, newMap: map<string, Option<string>>): (r: Option<RequiredField>)
    ensures r.Some? ==> r.value.id == f.id && r.value.docType == f.docType && r.value.fieldName == f.fieldName
  {
    if f.docType != docType then Some(f)
    else if f.fieldName.Some? && f.fieldName.value in newMap then Some(f.(exampleValue := newMap[f.fieldName.value]))
    else None
  }

  /** The table after the deletions and the example updates, in table order. */
  function Kept(fields: seq<RequiredField>, docType: DocTypeId, newMap: map<string, Option<string>>): seq<RequiredField>
    decreases |fields|
  {
    if fields == [] then []
    else
      var head := Keep(fields[0], docType, newMap);
      (if head.Some? then [head.value] else []) + Kept(fields[1..], docType, newMap)
  }

  /** Every kept row comes from a row of the table, and every row that stays is kept. */
  lemma {:induction false} KeptMembers(fields: seq<RequiredField>, docType: DocTypeId, newMap: map<string, Option<string>>)
    ensures forall f :: f in Kept(fields, docType, newMap) ==> exists g :: g in fields && Keep(g, docType, newMap) == Some(f)
    ensures forall g :: g in fields && Keep(g, docType, newMap).Some? ==> Keep(g, docType, newMap).value in Kept(fields, docType, newMap)
    decreases |fields|
  {
    if fields != [] {
      KeptMembers(fields[1..], docType, newMap);
      assert forall g :: g in fields <==> g == fields[0] || g in fields[1..];
    }
  }

  /** No two rows share an id. */
  predicate DistinctIds(fields: seq<RequiredField>) {
    forall i, j :: 0 <= i < j < |fields| ==> fields[i].id != fields[j].id
  }

  /** Distinct row ids in the table stay distinct after the deletions. */
  lemma {:induction false} KeptIdsDistinct(fields: seq<RequiredField>, docType: DocTypeId, newMap: map<string, Option<string>>)
    requires DistinctIds(fields)
    ensures DistinctIds(Kept(fields, docType, newMap))
    decreases |fields|
  {
    if fields != [] {
      var rest := fields[1..];
      assert DistinctIds(rest) by {
        forall i, j | 0 <= i < j < |rest| ensures rest[i].id != rest[j].id {
          assert rest[i] == fields[i + 1] && rest[j] == fields[j + 1];
        }
      }
      KeptIdsDistinct(rest, docType, newMap);
      KeptMembers(rest, docType, newMap);
      var head := Keep(fields[0], docType, newMap);
      var kr := Kept(rest, docType, newMap);
      if head.Some? {
        forall j | 0 <= j < |kr| ensures kr[j].id != fields[0].id {
          assert kr[j] in kr;
          var g :| g in rest && Keep(g, docType, newMap) == Some(kr[j]);
          var k :| 0 <= k < |rest| && rest[k] == g;
          assert fields[k + 1] == g;
        }
        var r := Kept(fields, docType, newMap);
        assert r == [head.value] + kr;
        forall i, j | 0 <= i < j < |r| ensures r[i].id != r[j].id {
          assert r[j] == kr[j - 1];
          if 0 < i {
            assert r[i] == kr[i - 1];
          }
        }
      } else {
        assert Kept(fields, docType, newMap) == kr;
      }
    }
  }

  /** The names to add, once each, in the order they first occur. */
  function AddedNames(names: seq<Option<string>>, present: set<string>): (r: seq<string>)
    ensures forall k :: 0 <= k < |r| ==> r[k] !in present
    ensures forall x :: x in r ==> exists i :: 0 <= i < |names| && Named(names[i]) && names[i].value == x
    ensures forall i :: 0 <= i < |names| && Named(names[i]) && names[i].value !in present ==> names[i].value in r
    ensures forall a, b :: 0 <= a < b < |r| ==> r[a] != r[b]
    decreases |names|
  {
    if names == [] then []
    else
      var n := |names| - 1;
      var r := AddedNames(names[..n], present);
      assert forall i :: 0 <= i < n ==> names[..n][i] == names[i];
      if Named(names[n]) && names[n].value !in present && names[n].value !in r then r + [names[n].value] else r
  }

  /** A map lookup as `HashMap.get` does it: null for a missing key. */
  function Lookup(m: map<string, Option<string>>, k: string): Option<string> {
    if k in m then m[k] else None
  }

  /** A row table with its identity counter. */
  datatype FieldTable = FieldTable(fields: seq<RequiredField>, nextId: nat)

  /** The rows for the names to add, with ids from `nextId` on. */
  function AddedFields(names: seq<Option<string>>, present: set<string>, docType: DocTypeId,
                       newMap: map<string, Option<string>>, nextId: nat): (r: seq<RequiredField>)
    ensures var added := AddedNames(names, present);
      && |r| == |added|
      && forall k :: 0 <= k < |r| ==> r[k] == RequiredField(nextId + k, docType, Some(added[k]), Lookup(newMap, added[k]))
  {
    var added := AddedNames(names, present);
    seq(|added|, k requires 0 <= k < |added| => RequiredField(nextId + k, docType, Some(added[k]), Lookup(newMap, added[k])))
  }

  /** `syncRequiredFields` with the map already built: a duplicate current name makes the
      `toMap` collector throw; otherwise the deletions, example updates and additions. */
  function SyncWith(fields: seq<RequiredField>, nextId: nat, docType: DocTypeId, names: seq<Option<string>>,
                    newMap: map<string, Option<string>>): (r: Result<FieldTable>)
    ensures r.Err? <==> DuplicateName(FieldsOf(fields, docType))
    ensures r.Err? ==> r.error == DuplicateKey
  {
    var current := FieldsOf(fields, docType);
    if DuplicateName(current) then Err(DuplicateKey)
    else
      var created := AddedFields(names, NamesOf(current), docType, newMap, nextId);
      Ok(FieldTable(Kept(fields, docType, newMap) + created, nextId + |created|))
  }

  /** What `syncRequiredFields` commits to the required-field table, or the exception it throws. */
  function Synced(fields: seq<RequiredField>, nextId: nat, docType: DocTypeId, names: seq<Option<string>>,
                  examples: seq<Option<string>>): Result<FieldTable>
  {
    SyncWith(fields, nextId, docType, names, NameMap(names, examples))
  }

  /** The document type's fields after a sync: its kept fields, then the added ones. */
  lemma SyncedOwn(fields: seq<RequiredField>, nextId: nat, docType: DocTypeId, names: seq<Option<string>>,
                  examples: seq<Option<string>>)
    requires Synced(fields, nextId, docType, names, examples).Ok?
    ensures var newMap := NameMap(names, examples);
      FieldsOf(Synced(fields, nextId, docType, names, examples).value.fields, docType)
        == FieldsOf(Kept(fields, docType, newMap), docType)
           + AddedFields(names, NamesOf(FieldsOf(fields, docType)), docType, newMap, nextId)
  {
    var newMap := NameMap(names, examples);
    var created := AddedFields(names, NamesOf(FieldsOf(fields, docType)), docType, newMap, nextId);
    FieldsOfConcat(Kept(fields, docType, newMap), created, docType);
    FieldsOfUniform(created, docType, docType);
  }

  /** After a sync every field of the document type is named by a key of the new map and
      carries the example of the last occurrence of that name. */
  lemma SyncedExamples(fields: seq<RequiredField>, nextId: nat, docType: DocTypeId, names: seq<Option<string>>,
                       examples: seq<Option<string>>)
    requires Synced(fields, nextId, docType, names, examples).Ok?
    ensures var newMap := NameMap(names, examples);
      forall f :: f in FieldsOf(Synced(fields, nextId, docType, names, examples).value.fields, docType) ==>
        f.fieldName.Some? && f.fieldName.value in newMap && f.exampleValue == newMap[f.fieldName.value]
  {
    var newMap := NameMap(names, examples);
    var kept := Kept(fields, docType, newMap);
    var added := AddedNames(names, NamesOf(FieldsOf(fields, docType)));
    var created := AddedFields(names, NamesOf(FieldsOf(fields, docType)), docType, newMap, nextId);
    SyncedOwn(fields, nextId, docType, names, examples);
    KeptMembers(fields, docType, newMap);
    forall f | f in FieldsOf(kept, docType) + created
      ensures f.fieldName.Some? && f.fieldName.value in newMap && f.exampleValue == newMap[f.fieldName.value]
    {
      if f in created {
        var k :| 0 <= k < |created| && created[k] == f;
        assert added[k] in added;
        var i :| 0 <= i < |names| && Named(names[i]) && names[i].value == added[k];
      } else {
        var g :| g in fields && Keep(g, docType, newMap) == Some(f);
      }
    }
  }

  /** After a sync the names of the document type's fields are exactly the non-blank names given. */
  lemma SyncedNames(fields: seq<RequiredField>, nextId: nat, docType: DocTypeId, names: seq<Option<string>>,
                    examples: seq<Option<string>>)
    requires Synced(fields, nextId, docType, names, examples).Ok?
    ensures NamesOf(FieldsOf(Synced(fields, nextId, docType, names, examples).value.fields, docType))
      == NameMap(names, examples).Keys
  {
    var newMap := NameMap(names, examples);
    var current := FieldsOf(fields, docType);
    var added := AddedNames(names, NamesOf(current));
    var created := AddedFields(names, NamesOf(current), docType, newMap, nextId);
    var own := FieldsOf(Synced(fields, nextId, docType, names, examples).value.fields, docType);
    SyncedOwn(fields, nextId, docType, names, examples);
    SyncedExamples(fields, nextId, docType, names, examples);
    KeptMembers(fields, docType, newMap);
    forall k | k in newMap ensures k in NamesOf(own) {
      NameMapKeys(names, examples, k);
      var i :| 0 <= i < |names| && names[i] == Some(k);
      if k in NamesOf(current) {
        var g :| g in current && g.fieldName == Some(k);
        assert Keep(g, docType, newMap).value in FieldsOf(Kept(fields, docType, newMap), docType);
      } else {
        var a :| 0 <= a < |added| && added[a] == k;
        assert created[a] in own;
      }
    }
  }

  /** A sync leaves the fields of every other document type as they were. */
  lemma SyncedOthers(fields: seq<RequiredField>, nextId: nat, docType: DocTypeId, names: seq<Option<string>>,
                     examples: seq<Option<string>>, other: DocTypeId)
    requires Synced(fields, nextId, docType, names, examples).Ok? && other != docType
    ensures FieldsOf(Synced(fields, nextId, docType, names, examples).value.fields, other) == FieldsOf(fields, other)
  {
    var newMap := NameMap(names, examples);
    var created := AddedFields(names, NamesOf(FieldsOf(fields, docType)), docType, newMap, nextId);
    FieldsOfConcat(Kept(fields, docType, newMap), created, other);
    FieldsOfUniform(created, docType, other);
    KeptOthers(fields, docType, newMap, other);
  }

  lemma {:induction false} KeptOthers(fields: seq<RequiredField>, docType: DocTypeId, newMap: map<string, Option<string>>,
                                      other: DocTypeId)
    requires other != docType
    ensures FieldsOf(Kept(fields, docType, newMap), other) == FieldsOf(fields, other)
    decreases |fields|
  {
    if fields != [] {
      KeptOthers(fields[1..], docType, newMap, other);
      var head := Keep(fields[0], docType, newMap);
      FieldsOfConcat(if head.Some? then [head.value] else [], Kept(fields[1..], docType, newMap), other);
    }
  }

  /** A sync keeps the row ids distinct and below the counter, and every row's document type
      known. */
  lemma SyncedValid(t: Tables, docType: DocTypeId, names: seq<Option<string>>, examples: seq<Option<string>>)
    requires t.Valid() && docType in t.docTypes
    requires Synced(t.requiredFields, t.nextRequiredFieldId, docType, names, examples).Ok?
    ensures var s := Synced(t.requiredFields, t.nextRequiredFieldId, docType, names, examples).value;
      t.(requiredFields := s.fields, nextRequiredFieldId := s.nextId).Valid()
  {
    var newMap := NameMap(names, examples);
    var kept := Kept(t.requiredFields, docType, newMap);
    var created := AddedFields(names, NamesOf(FieldsOf(t.requiredFields, docType)), docType, newMap, t.nextRequiredFieldId);
    assert Synced(t.requiredFields, t.nextRequiredFieldId, docType, names, examples).value
      == FieldTable(kept + created, t.nextRequiredFieldId + |created|);
    assert RowsFit(t.requiredFields, t.docTypes, t.nextRequiredFieldId) && DistinctIds(t.requiredFields);
    KeptIdsDistinct(t.requiredFields, docType, newMap);
    KeptFit(t.requiredFields, docType, newMap, t.docTypes, t.nextRequiredFieldId);
    AppendedRowsFit(kept, created, t.docTypes, t.nextRequiredFieldId);
  }

  /** Every row's document type is known and its id is below `next`. */
  predicate RowsFit(fields: seq<RequiredField>, docTypes: map<DocTypeId, DocType>, next: nat) {
    forall i :: 0 <= i < |fields| ==> fields[i].docType in docTypes && fields[i].id < next
  }

  /** Deletions and example updates keep the rows fitting. */
  lemma KeptFit(fields: seq<RequiredField>, docType: DocTypeId, newMap: map<string, Option<string>>,
                docTypes: map<DocTypeId, DocType>, next: nat)
    requires RowsFit(fields, docTypes, next)
    ensures RowsFit(Kept(fields, docType, newMap), docTypes, next)
  {
    var kept := Kept(fields, docType, newMap);
    KeptMembers(fields, docType, newMap);
    forall i | 0 <= i < |kept| ensures kept[i].docType in docTypes && kept[i].id < next {
      assert kept[i] in kept;
      var g :| g in fields && Keep(g, docType, newMap) == Some(kept[i]);
    }
  }

  /** Rows numbered on from the counter may follow fitting rows with distinct ids. */
  lemma AppendedRowsFit(kept: seq<RequiredField>, created: seq<RequiredField>, docTypes: map<DocTypeId, DocType>, next: nat)
    requires RowsFit(kept, docTypes, next) && DistinctIds(kept)
    requires forall k :: 0 <= k < |created| ==> created[k].docType in docTypes && created[k].id == next + k
    ensures RowsFit(kept + created, docTypes, next + |created|) && DistinctIds(kept + created)
  {
    var all := kept + created;
    forall i | 0 <= i < |all| ensures all[i].docType in docTypes && all[i].id < next + |created| {
      if i < |kept| { assert all[i] == kept[i]; } else { assert all[i] == created[i - |kept|]; }
    }
    forall i, j | 0 <= i < j < |all| ensures all[i].id != all[j].id {
      if j < |kept| {
        assert all[i] == kept[i] && all[j] == kept[j];
      } else if i < |kept| {
        assert all[i] == kept[i] && all[j] == created[j - |kept|];
      } else {
        assert all[i] == created[i - |kept|] && all[j] == created[j - |kept|];
      }
    }
  }

  // ---------------------------------------------------------------- the original file

  /** An upload that `registerDocType` / `updateDocType` act on: present and not empty. */
  predicate HasFile(file: Option<Upload>) { file.Some? && !file.value.IsEmpty() }

  /** The outcome of an upsert: the URL or the exception, and the files left on disk. */
  datatype UpsertOutcome = UpsertOutcome(result: Result<string>, disk: Disk)

  /** `upsertFile` as written: save the new file, then delete the file of the previous URL; if
      that deletion throws, the new file is deleted and the exception rethrown. The deletion
      runs even when the previous URL names the file just saved. */
  function UpsertedAsWritten(disk: Disk, id: DocTypeId, file: Upload, previous: Option<string>,
                             writeError: Option<string>): UpsertOutcome
  {
    match SaveTarget(DocTypeOwner(id).Dir(), StoredName(file.originalFilename))
    case Err(e) => UpsertOutcome(Err(e), disk)
    case Ok(target) =>
      if writeError.Some? then UpsertOutcome(Err(WriteFailed(writeError.value)), disk)
      else
        var url := SavedUrl(DocTypeOwner(id), file.originalFilename);
        if DeleteOutcome(previous).Err? then
          UpsertOutcome(Err(DeleteOutcome(previous).error), AfterDelete(disk[target := file.content], Some(url)))
        else UpsertOutcome(Ok(url), ReplacedAsWritten(disk, target, file.content, previous))
  }

  /** `upsertFile`, corrected: the previous file is deleted only when it is not the file just
      saved. */
  function Upserted(disk: Disk, id: DocTypeId, file: Upload, previous: Option<string>,
                    writeError: Option<string>): UpsertOutcome
  {
    match SaveTarget(DocTypeOwner(id).Dir(), StoredName(file.originalFilename))
    case Err(e) => UpsertOutcome(Err(e), disk)
    case Ok(target) =>
      if writeError.Some? then UpsertOutcome(Err(WriteFailed(writeError.value)), disk)
      else
        var url := SavedUrl(DocTypeOwner(id), file.originalFilename);
        if DeleteTarget(previous) != Some(target) && DeleteOutcome(previous).Err? then
          UpsertOutcome(Err(DeleteOutcome(previous).error), AfterDelete(disk[target := file.content], Some(url)))
        else UpsertOutcome(Ok(url), Replaced(disk, target, file.content, previous))
  }

  /** The corrected upsert differs from the one as written only when the previous URL
      designates the file just saved. */
  lemma UpsertedAgrees(disk: Disk, id: DocTypeId, file: Upload, previous: Option<string>, writeError: Option<string>)
    requires SaveTarget(DocTypeOwner(id).Dir(), StoredName(file.originalFilename)).Ok? && writeError.None?
    ensures var target := SaveTarget(DocTypeOwner(id).Dir(), StoredName(file.originalFilename)).value;
      DeleteTarget(previous) != Some(target) <==>
        Upserted(disk, id, file, previous, writeError) == UpsertedAsWritten(disk, id, file, previous, writeError)
  {
    var target := SaveTarget(DocTypeOwner(id).Dir(), StoredName(file.originalFilename)).value;
    ReplacedAgrees(disk, target, file.content, previous);
    if DeleteTarget(previous) == Some(target) {
      assert DeleteOutcome(previous).Ok?;
    }
  }

  /** `upsertFile` as written, on the file store. */
  method UpsertFileAsWritten(store: FileStore, id: DocTypeId, file: Upload, previous: Option<string>,
                             writeError: Option<string>) returns (r: Result<string>)
    modifies store
    ensures UpsertOutcome(r, store.disk) == UpsertedAsWritten(old(store.disk), id, file, previous, writeError)
  {
    r := store.SaveFor(DocTypeOwner(id), file, writeError);
    if r.Err? {
      return;
    }
    var deleted := store.DeleteByUrl(previous);
    if deleted.Err? {
      // the rollback deletion of a URL just saved does not throw (see `DeleteTargetOfSaved`)
      var _ := store.DeleteByUrl(Some(r.value));
      r := Err(deleted.error);
    }
  }

  /** `upsertFile`, corrected, on the file store. */
  method UpsertFile(store: FileStore, id: DocTypeId, file: Upload, previous: Option<string>,
                    writeError: Option<string>) returns (r: Result<string>)
    modifies store
    ensures UpsertOutcome(r, store.disk) == Upserted(old(store.disk), id, file, previous, writeError)
  {
    r := store.SaveFor(DocTypeOwner(id), file, writeError);
    if r.Err? {
      return;
    }
    var target := SaveTarget(DocTypeOwner(id).Dir(), StoredName(file.originalFilename)).value;
    if DeleteTarget(previous) != Some(target) {
      var deleted := store.DeleteByUrl(previous);
      if deleted.Err? {
        var _ := store.DeleteByUrl(Some(r.value));
        r := Err(deleted.error);
      }
    }
  }

  /** `readBytes`: a null or blank URL is refused with 404, any other is read from the store. */
  function ReadOriginal(disk: Disk, url: Option<string>): (r: Result<seq<Utf8.Byte>>)
    ensures url.None? || IsBlank(url.value) ==> r == Err(NoFileUrl)
    ensures url.Some? && !IsBlank(url.value) ==> r == ReadBytes(disk, url)
  {
    if url.None? || IsBlank(url.value) then Err(NoFileUrl) else ReadBytes(disk, url)
  }

  /** A URL under "/uploads/" is not blank. */
  lemma UploadsUrlNotBlank(url: string)
    requires StartsWith(url, UploadsPrefix)
    ensures !IsBlank(url)
  {
    assert url[0] == '/';
  }

  /** A successful upsert leaves the uploaded bytes readable at the URL it returns, and
      keeps every other file except the previous one. */
  lemma UpsertedReadsBack(disk: Disk, id: DocTypeId, file: Upload, previous: Option<string>, writeError: Option<string>)
    requires Upserted(disk, id, file, previous, writeError).result.Ok?
    ensures var u := Upserted(disk, id, file, previous, writeError);
      && u.result.value == SavedUrl(DocTypeOwner(id), file.originalFilename)
      && ReadOriginal(u.disk, Some(u.result.value)) == Ok(file.content)
  {
    var owner := DocTypeOwner(id);
    var target := SaveTarget(owner.Dir(), StoredName(file.originalFilename)).value;
    var url := SavedUrl(owner, file.originalFilename);
    var after := Replaced(disk, target, file.content, previous);
    assert Upserted(disk, id, file, previous, writeError) == UpsertOutcome(Ok(url), after);
    assert ReadBytes(after, Some(url)) == Ok(file.content) by {
      ReplacedReadsBack(owner, file.originalFilename, file.content, disk, previous);
    }
    assert !IsBlank(url) by {
      DeleteTargetOfSaved(owner, file.originalFilename);
      UploadsUrlNotBlank(url);
    }
  }

  /** A failed upsert leaves no new file behind and changes no stored bytes. */
  lemma UpsertedFailureClean(disk: Disk, id: DocTypeId, file: Upload, previous: Option<string>, writeError: Option<string>)
    requires Upserted(disk, id, file, previous, writeError).result.Err?
    ensures var after := Upserted(disk, id, file, previous, writeError).disk;
      after.Keys <= disk.Keys && forall p :: p in after ==> after[p] == disk[p]
  {
    var target := SaveTarget(DocTypeOwner(id).Dir(), StoredName(file.originalFilename));
    if target.Ok? && writeError.None? {
      var url := SavedUrl(DocTypeOwner(id), file.originalFilename);
      var written := disk[target.value := file.content];
      var after := AfterDelete(written, Some(url));
      assert DeleteTarget(previous) != Some(target.value) && DeleteOutcome(previous).Err?;
      assert Upserted(disk, id, file, previous, writeError) == UpsertOutcome(Err(DeleteOutcome(previous).error), after);
      DeleteTargetOfSaved(DocTypeOwner(id), file.originalFilename);
      assert target.value !in after;
      forall p | p in after ensures p in disk && after[p] == disk[p] {
        assert p != target.value && after[p] == written[p];
      }
    } else if target.Err? {
      assert Upserted(disk, id, file, previous, writeError) == UpsertOutcome(Err(target.error), disk);
    } else {
      assert Upserted(disk, id, file, previous, writeError) == UpsertOutcome(Err(WriteFailed(writeError.value)), disk);
    }
  }

  /** As written, uploading again a form whose stored name is unchanged reports success and
      records the URL, but the file under that URL is gone. */
  lemma ReuploadLosesOriginal(disk: Disk, id: DocTypeId, file: Upload)
    requires SaveTarget(DocTypeOwner(id).Dir(), StoredName(file.originalFilename)).Ok?
    ensures var url := SavedUrl(DocTypeOwner(id), file.originalFilename);
      var u := UpsertedAsWritten(disk, id, file, Some(url), None);
      u.result == Ok(url) && ReadOriginal(u.disk, Some(url)).Err?
  {
    var owner := DocTypeOwner(id);
    var target := SaveTarget(owner.Dir(), StoredName(file.originalFilename)).value;
    var url := SavedUrl(owner, file.originalFilename);
    DeleteTargetOfSaved(owner, file.originalFilename);
    ReuploadLosesFile(owner, file.originalFilename, file.content, disk);
    UploadsUrlNotBlank(url);
  }

  /** Replacing a form deletes the previous file at once: a successful upsert leaves the
      previous URL unreadable. Since `updateDocType` syncs the fields after the upsert, a sync
      that then throws rolls the row back to that URL while its file stays deleted. */
  lemma UpsertedDropsPrevious(disk: Disk, id: DocTypeId, file: Upload, previous: string)
    requires SaveTarget(DocTypeOwner(id).Dir(), StoredName(file.originalFilename)).Ok?
    requires DeleteTarget(Some(previous)).Some?
    requires DeleteTarget(Some(previous)) != Some(SaveTarget(DocTypeOwner(id).Dir(), StoredName(file.originalFilename)).value)
    ensures var u := Upserted(disk, id, file, Some(previous), None);
      u.result.Ok? && ReadOriginal(u.disk, Some(previous)).Err?
  {
    var target := SaveTarget(DocTypeOwner(id).Dir(), StoredName(file.originalFilename)).value;
    UpsertedReplaces(disk, id, file, Some(previous));
    var after := Replaced(disk, target, file.content, Some(previous));
    assert after == AfterDelete(disk[target := file.content], Some(previous));
    ReadGone(after, previous);
    UploadsUrlNotBlank(previous);
  }

  /** An upsert whose write succeeds and whose deletion does not throw returns the saved URL
      and leaves the replaced files. */
  lemma UpsertedReplaces(disk: Disk, id: DocTypeId, file: Upload, previous: Option<string>)
    requires SaveTarget(DocTypeOwner(id).Dir(), StoredName(file.originalFilename)).Ok?
    requires DeleteOutcome(previous).Ok?
    ensures var target := SaveTarget(DocTypeOwner(id).Dir(), StoredName(file.originalFilename)).value;
      Upserted(disk, id, file, previous, None)
      == UpsertOutcome(Ok(SavedUrl(DocTypeOwner(id), file.originalFilename)), Replaced(disk, target, file.content, previous))
  {
  }

  /** Reading a URL whose file is gone fails. */
  lemma ReadGone(disk: Disk, url: string)
    requires DeleteTarget(Some(url)).Some? && DeleteTarget(Some(url)).value !in disk
    ensures ReadBytes(disk, Some(url)).Err?
  {
  }

  // ---------------------------------------------------------------- transactions

  /** The tables after `registerDocType` commits: the new document type, its required
      fields with fresh ids and, when a form was uploaded, its original-file row. */
  function Registered(t: Tables, department: DepartmentId, title: Option<string>, pairs: seq<FieldPair>,
                      url: Option<string>): Tables
  {
    var id := t.nextDocTypeId;
    t.(docTypes := t.docTypes[id := DocType(department, title)], nextDocTypeId := id + 1,
       requiredFields := t.requiredFields + NewFields(id, pairs, t.nextRequiredFieldId),
       nextRequiredFieldId := t.nextRequiredFieldId + |pairs|,
       originalFiles := if url.Some? then t.originalFiles[id := url.value] else t.originalFiles)
  }

  /** Registration keeps the tables consistent. */
  lemma RegisteredValid(t: Tables, department: DepartmentId, title: Option<string>, pairs: seq<FieldPair>,
                        url: Option<string>)
    requires t.Valid() && department in t.departments
    ensures Registered(t, department, title, pairs, url).Valid()
  {
    var r := Registered(t, department, title, pairs, url);
    var created := NewFields(t.nextDocTypeId, pairs, t.nextRequiredFieldId);
    var n := |t.requiredFields|;
    assert forall i :: 0 <= i < |r.requiredFields| ==>
      r.requiredFields[i].docType in r.docTypes && r.requiredFields[i].id < r.nextRequiredFieldId by {
      forall i | 0 <= i < |r.requiredFields|
        ensures r.requiredFields[i].docType in r.docTypes && r.requiredFields[i].id < r.nextRequiredFieldId
      {
        if i >= n { assert r.requiredFields[i] == created[i - n]; }
      }
    }
    forall i, j | 0 <= i < j < |r.requiredFields| ensures r.requiredFields[i].id != r.requiredFields[j].id {
      if j >= n {
        assert r.requiredFields[j] == created[j - n];
        if i >= n { assert r.requiredFields[i] == created[i - n]; }
      }
    }
  }

  /** The new document type's fields are the pairs built from the request, in order, with
      consecutive fresh ids; no other document type's fields change. */
  lemma RegisteredFields(t: Tables, department: DepartmentId, title: Option<string>, pairs: seq<FieldPair>,
                         url: Option<string>, other: DocTypeId)
    requires t.Valid()
    ensures var r := Registered(t, department, title, pairs, url);
      && FieldsOf(r.requiredFields, t.nextDocTypeId) == NewFields(t.nextDocTypeId, pairs, t.nextRequiredFieldId)
      && (other != t.nextDocTypeId ==> FieldsOf(r.requiredFields, other) == FieldsOf(t.requiredFields, other))
  {
    var id := t.nextDocTypeId;
    var created := NewFields(id, pairs, t.nextRequiredFieldId);
    FieldsOfConcat(t.requiredFields, created, id);
    FieldsOfConcat(t.requiredFields, created, other);
    FieldsOfUniform(created, id, other);
    assert FieldsOf(t.requiredFields, id) == [] by {
      FieldsOfAbsent(t.requiredFields, id);
    }
  }

  /** The tables after `updateDocType` commits: the new title, the new original-file URL if a
      form was uploaded, and the synced required fields. */
  function DocTypeUpdated(t: Tables, id: DocTypeId, title: Option<string>, url: Option<string>, synced: FieldTable): Tables
    requires id in t.docTypes
  {
    t.(docTypes := t.docTypes[id := t.docTypes[id].(title := title)],
       originalFiles := if url.Some? then t.originalFiles[id := url.value] else t.originalFiles,
       requiredFields := synced.fields, nextRequiredFieldId := synced.nextId)
  }

  /** An update keeps the tables consistent. */
  lemma DocTypeUpdatedValid(t: Tables, id: DocTypeId, title: Option<string>, url: Option<string>,
                            names: seq<Option<string>>, examples: seq<Option<string>>)
    requires t.Valid() && id in t.docTypes
    requires Synced(t.requiredFields, t.nextRequiredFieldId, id, names, examples).Ok?
    ensures DocTypeUpdated(t, id, title, url, Synced(t.requiredFields, t.nextRequiredFieldId, id, names, examples).value).Valid()
  {
    SyncedValid(t, id, names, examples);
  }

  /** The writes of `registerDocType`, committed together. */
  method CommitRegister(db: Db, department: DepartmentId, title: Option<string>, pairs: seq<FieldPair>, url: Option<string>)
    requires db.Valid() && department in db.departments
    modifies db
    ensures db.Valid()
    ensures db.T() == Registered(old(db.T()), department, title, pairs, url)
  {
    ghost var after := Registered(db.T(), department, title, pairs, url);
    RegisteredValid(db.T(), department, title, pairs, url);
    var id := db.nextDocTypeId;
    db.docTypes, db.nextDocTypeId := db.docTypes[id := DocType(department, title)], id + 1;
    db.requiredFields, db.nextRequiredFieldId :=
      db.requiredFields + NewFields(id, pairs, db.nextRequiredFieldId), db.nextRequiredFieldId + |pairs|;
    if url.Some? {
      db.originalFiles := db.originalFiles[id := url.value];
    }
    assert db.T() == after;
  }

  /** The writes of `updateDocType`, committed together. */
  method CommitDocTypeUpdate(db: Db, id: DocTypeId, title: Option<string>, url: Option<string>, synced: FieldTable,
                             ghost names: seq<Option<string>>, ghost examples: seq<Option<string>>)
    requires db.Valid() && id in db.docTypes
    requires Synced(db.requiredFields, db.nextRequiredFieldId, id, names, examples) == Ok(synced)
    modifies db
    ensures db.Valid()
    ensures db.T() == DocTypeUpdated(old(db.T()), id, title, url, synced)
  {
    ghost var after := DocTypeUpdated(db.T(), id, title, url, synced);
    DocTypeUpdatedValid(db.T(), id, title, url, names, examples);
    db.docTypes := db.docTypes[id := db.docTypes[id].(title := title)];
    if url.Some? {
      db.originalFiles := db.originalFiles[id := url.value];
    }
    db.requiredFields, db.nextRequiredFieldId := synced.fields, synced.nextId;
    assert db.T() == after;
  }

  // ---------------------------------------------------------------- service operations

  /** The URL of a document type's original-file row, if it has one. */
  function PreviousOf(files: map<DocTypeId, string>, id: DocTypeId): Option<string> {
    if id in files then Some(files[id]) else None
  }

  /** The URL recorded for an upload (none without a file), or the exception of the upsert. */
  function UploadedUrl(disk: Disk, id: DocTypeId, file: Option<Upload>, previous: Option<string>,
                       writeError: Option<string>): (r: Result<Option<string>>)
    ensures !HasFile(file) ==> r == Ok(None)
  {
    if !HasFile(file) then Ok(None)
    else
      var u := Upserted(disk, id, file.value, previous, writeError);
      if u.result.Err? then Err(u.result.error) else Ok(Some(u.result.value))
  }

  /** The files on disk after the upload step: untouched without a file. */
  function DiskAfterUpload(disk: Disk, id: DocTypeId, file: Option<Upload>, previous: Option<string>,
                           writeError: Option<string>): (r: Disk)
    ensures !HasFile(file) ==> r == disk
  {
    if !HasFile(file) then disk else Upserted(disk, id, file.value, previous, writeError).disk
  }

  /** The upload step of both operations: a present, non-empty upload is upserted. */
  method UploadIfPresent(store: FileStore, id: DocTypeId, file: Option<Upload>, previous: Option<string>,
                         writeError: Option<string>) returns (r: Result<Option<string>>)
    modifies store
    ensures r == UploadedUrl(old(store.disk), id, file, previous, writeError)
    ensures store.disk == DiskAfterUpload(old(store.disk), id, file, previous, writeError)
  {
    if !HasFile(file) {
      return Ok(None);
    }
    var saved := UpsertFile(store, id, file.value, previous, writeError);
    if saved.Err? {
      return Err(saved.error);
    }
    return Ok(Some(saved.value));
  }

  /** `registerDocType`, one transaction: an unknown department is refused; otherwise the
      document type and its required fields are created and a non-empty upload becomes its
      original file. A failed upload rolls every row back. */
  method RegisterDocType(db: Db, store: FileStore, department: DepartmentId, title: Option<string>,
                         names: Option<seq<Option<string>>>, examples: Option<seq<Option<string>>>,
                         file: Option<Upload>, writeError: Option<string>) returns (r: Result<DocTypeId>)
    requires db.Valid()
    modifies db, store
    ensures db.Valid()
    ensures r.Err? ==> db.T() == old(db.T())
    ensures department !in old(db.departments) ==> r == Err(UnknownDepartment) && store.disk == old(store.disk)
    ensures department in old(db.departments) ==>
      store.disk == DiskAfterUpload(old(store.disk), old(db.nextDocTypeId), file, None, writeError)
    ensures department in old(db.departments) ==>
      match UploadedUrl(old(store.disk), old(db.nextDocTypeId), file, None, writeError)
      case Err(e) => r == Err(e)
      case Ok(url) => (r == Ok(old(db.nextDocTypeId))
        && db.T() == Registered(old(db.T()), department, title, Pairs(OrEmpty(names), OrEmpty(examples)), url))
  {
    if department !in db.departments {
      return Err(UnknownDepartment);
    }
    var id := db.nextDocTypeId;
    var pairs := BuildFieldPairs(names, examples);
    // a new document type has no original-file row yet
    var uploaded := UploadIfPresent(store, id, file, None, writeError);
    if uploaded.Err? {
      return Err(uploaded.error);
    }
    CommitRegister(db, department, title, pairs, uploaded.value);
    return Ok(id);
  }

  /** `updateDocType`, one transaction: an unknown document type is refused; otherwise the
      title is set, a non-empty upload replaces the original file, and the required fields
      are synced. A failure rolls every row back, but not the files on disk. */
  method UpdateDocType(db: Db, store: FileStore, id: DocTypeId, title: Option<string>,
                       names: Option<seq<Option<string>>>, examples: Option<seq<Option<string>>>,
                       file: Option<Upload>, writeError: Option<string>) returns (r: Result<()>)
    requires db.Valid()
    modifies db, store
    ensures db.Valid()
    ensures r.Err? ==> db.T() == old(db.T())
    ensures id !in old(db.docTypes) ==> r == Err(Deadlines.DocTypeNotFound) && store.disk == old(store.disk)
    ensures id in old(db.docTypes) ==>
      store.disk == DiskAfterUpload(old(store.disk), id, file, PreviousOf(old(db.originalFiles), id), writeError)
    ensures id in old(db.docTypes) ==>
      match UploadedUrl(old(store.disk), id, file, PreviousOf(old(db.originalFiles), id), writeError)
      case Err(e) => r == Err(e)
      case Ok(url) =>
        match Synced(old(db.requiredFields), old(db.nextRequiredFieldId), id, OrEmpty(names), OrEmpty(examples))
        case Err(e) => r == Err(e)
        case Ok(synced) => r == Ok(()) && db.T() == DocTypeUpdated(old(db.T()), id, title, url, synced)
  {
    if id !in db.docTypes {
      return Err(Deadlines.DocTypeNotFound);
    }
    var previous := if id in db.originalFiles then Some(db.originalFiles[id]) else None;
    var uploaded := UploadIfPresent(store, id, file, previous, writeError);
    if uploaded.Err? {
      return Err(uploaded.error);
    }
    var ns := OrEmpty(names);
    var newMap := BuildNameMap(ns, OrEmpty(examples));
    var synced := SyncWith(db.requiredFields, db.nextRequiredFieldId, id, ns, newMap);
    if synced.Err? {
      return Err(synced.error);
    }
    CommitDocTypeUpdate(db, id, title, uploaded.value, synced.value, ns, OrEmpty(examples));
    return Ok(());
  }
}
