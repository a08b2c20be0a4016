/** `ClassContentService`: the text, video and slide contents of a course
    class, with at most one active content of each type per class. */
module ClassContents {
  import opened Common
  import opened Seqs
  import opened Store

  /** No two active contents share a class and a content type. */
  predicate ActivePairsUnique(contents: seq<ClassContent>) {
    forall i, j ::
      (0 <= i < |contents| && 0 <= j < |contents| && i != j && contents[i].status && contents[j].status)
      ==> (contents[i].classId, contents[i].contentType) != (contents[j].classId, contents[j].contentType)
  }

  /** `courseClassRepository.findOneBy({ id })`: a class row with the id
      exists, whatever its status. */
  predicate ClassExists(classes: seq<CourseClass>, id: Id) {
    exists c :: c in classes && c.id == id
  }

  /** `findOne(id)`: the active content with the id, as an index. */
  function FindActive(contents: seq<ClassContent>, id: Id): (r: Option<nat>)
    ensures r.Some? ==> r.value < |contents| && contents[r.value].id == id && contents[r.value].status
    ensures r.None? <==> forall x :: x in contents ==> !(x.id == id && x.status)
  {
    var r := FindFirst(contents, (x: ClassContent) => x.id == id && x.status);
    assert r.None? ==> forall x :: x in contents ==> !(x.id == id && x.status);
    r
  }

  /** `findOne(id)`: NotFound unless an active content has the id. */
  function FindOne(contents: seq<ClassContent>, id: Id): (r: Result<ClassContent>)
    ensures r.Ok? <==> exists x :: x in contents && x.id == id && x.status
    ensures r.Ok? ==> r.value in contents && r.value.id == id && r.value.status
    ensures r.Err? ==> r.error == NotFound
  {
    match FindActive(contents, id)
    case None => Err(NotFound)
    case Some(k) => Ok(contents[k])
  }

  /** The duplicate lookup of `create` and `update`: Conflict exactly when
      an active content other than `exceptId` holds the pair. */
  function FindDuplicate(contents: seq<ClassContent>, classId: Id, contentType: ContentType, exceptId: Option<Id>)
    : (r: Result<()>)
    ensures r.Err? <==> exists x :: x in contents && x.status && x.classId == classId &&
                                    x.contentType == contentType && (exceptId.Some? ==> x.id != exceptId.value)
    ensures r.Err? ==> r.error == Conflict
  {
    match FindFirst(contents, (x: ClassContent) => x.status && x.classId == classId && x.contentType == contentType &&
                                                   (exceptId.Some? ==> x.id != exceptId.value))
    case Some(_) => Err(Conflict)
    case None => Ok(())
  }

  /** Writing row `u` over active row `k` keeps the invariant when no other
      active row holds the pair of `u` (or `u` is inactive). */
  lemma {:induction false} WriteKeepsPairsUnique(contents: seq<ClassContent>, k: nat, u: ClassContent)
    requires ActivePairsUnique(contents) && ContentIdsUnique(contents) && k < |contents| && u.id == contents[k].id
    requires !u.status || FindDuplicate(contents, u.classId, u.contentType, Some(u.id)).Ok?
    ensures ActivePairsUnique(contents[k := u]) && ContentIdsUnique(contents[k := u])
  {
    var t := contents[k := u];
    forall i, j | 0 <= i < |t| && 0 <= j < |t| && i != j && t[i].status && t[j].status
      ensures (t[i].classId, t[i].contentType) != (t[j].classId, t[j].contentType)
    {
      if i == k {
        assert contents[j] in contents && contents[j].id != u.id;
      } else if j == k {
        assert contents[i] in contents && contents[i].id != u.id;
      }
    }
    forall i, j | 0 <= i < j < |t|
      ensures t[i].id != t[j].id
    {
      if i == k {
        assert contents[k].id != contents[j].id;
      } else if j == k {
        assert contents[i].id != contents[k].id;
      }
    }
  }

  /** Appending a row with a new id, whose pair no active row holds, keeps
      the ids and the active pairs unique. */
  lemma AppendKeepsInvariants(contents: seq<ClassContent>, c: ClassContent)
    requires ContentIdsUnique(contents)
    requires forall x :: x in contents ==> x.id != c.id
    requires FindDuplicate(contents, c.classId, c.contentType, None).Ok?
    ensures ContentIdsUnique(contents + [c])
    ensures ActivePairsUnique(contents) ==> ActivePairsUnique(contents + [c])
  {
    assert forall i :: 0 <= i < |contents| ==> (contents + [c])[i] == contents[i] && contents[i] in contents;
  }

  /** `create(dto)`: Conflict when the class does not exist or already has an
      active content of the type; otherwise an active content is appended.
      The invariant is kept. */
  method Create(db: Database, classId: Id, contentType: ContentType, content: string, newId: Id)
    returns (r: Result<ClassContent>)
    requires db.Valid()
    requires forall x :: x in db.contents ==> x.id != newId
    modifies db`contents
    ensures db.Valid()
    ensures r.Err? <==>
      !ClassExists(db.classes, classId) || FindDuplicate(old(db.contents), classId, contentType, None).Err?
    ensures r.Err? ==> r.error == Conflict && db.contents == old(db.contents)
    ensures r.Ok? ==>
      r.value == ClassContent(newId, true, classId, contentType, content) &&
      db.contents == old(db.contents) + [r.value]
    ensures old(ActivePairsUnique(db.contents)) ==> ActivePairsUnique(db.contents)
  {
    if !ClassExists(db.classes, classId) {
      return Err(Conflict);
    }
    if FindDuplicate(db.contents, classId, contentType, None).Err? {
      return Err(Conflict);
    }
    var c := ClassContent(newId, true, classId, contentType, content);
    AppendKeepsInvariants(db.contents, c);
    db.contents := db.contents + [c];
    r := Ok(c);
  }

  /** `update` moves the content to another class: a non-empty class id
      that differs from the current one. */
  predicate ClassChanging(x: ClassContent, classId: Option<Id>) {
    Given(classId) && classId.value != x.classId
  }

  /** The row `update` saves: a given content and type replace the old
      ones, and a changing class id is followed. */
  function UpdatedContent(x: ClassContent, classId: Option<Id>, contentType: Option<ContentType>,
                          content: Option<string>): ClassContent {
    x.(classId := if ClassChanging(x, classId) then classId.value else x.classId,
       contentType := if contentType.Some? then contentType.value else x.contentType,
       content := if content.Some? then content.value else x.content)
  }

  /** Overwriting a row with one of the same id keeps the ids unique. */
  lemma WriteKeepsIds(contents: seq<ClassContent>, k: nat, u: ClassContent)
    requires ContentIdsUnique(contents) && k < |contents| && u.id == contents[k].id
    ensures ContentIdsUnique(contents[k := u])
  {
    var t := contents[k := u];
    forall i, j | 0 <= i < j < |t|
      ensures t[i].id != t[j].id
    {
      assert contents[i].id != contents[j].id;
    }
  }

  /** The write of `update` keeps the invariant: either the duplicate
      lookup was made for the row's pair, or the pair is unchanged. */
  lemma UpdateKeepsPairsUnique(contents: seq<ClassContent>, k: nat, u: ClassContent, checked: bool)
    requires ActivePairsUnique(contents) && ContentIdsUnique(contents)
    requires k < |contents| && contents[k].status && u.id == contents[k].id
    requires checked ==> FindDuplicate(contents, u.classId, u.contentType, Some(u.id)).Ok?
    requires !checked ==> u.classId == contents[k].classId && u.contentType == contents[k].contentType
    ensures ActivePairsUnique(contents[k := u])
  {
    if !checked {
      forall y | y in contents && y.status && y.classId == u.classId && y.contentType == u.contentType
        ensures y.id == u.id
      {
        var i :| 0 <= i < |contents| && contents[i] == y;
        assert i == k;
      }
    }
    WriteKeepsPairsUnique(contents, k, u);
  }

  /** `update(id, dto)`: NotFound unless the content is active or when the
      new class does not exist; when a type is given or the class changes,
      Conflict if another active content holds the target pair; otherwise
      the merged row is saved. The invariant is kept. */
  method Update(db: Database, id: Id, classId: Option<Id>, contentType: Option<ContentType>, content: Option<string>)
    returns (r: Result<ClassContent>)
    requires db.Valid()
    modifies db`contents
    ensures db.Valid()
    ensures r.Err? ==> db.contents == old(db.contents)
    ensures r == Err(NotFound) <==>
      FindActive(old(db.contents), id).None? ||
      (ClassChanging(old(db.contents)[FindActive(old(db.contents), id).value], classId) &&
       !ClassExists(db.classes, classId.value))
    ensures r == Err(Conflict) <==>
      FindActive(old(db.contents), id).Some? &&
      var x := old(db.contents)[FindActive(old(db.contents), id).value];
      var u := UpdatedContent(x, classId, contentType, content);
      (!ClassChanging(x, classId) || ClassExists(db.classes, classId.value)) &&
      (contentType.Some? || ClassChanging(x, classId)) &&
      FindDuplicate(old(db.contents), u.classId, u.contentType, Some(id)).Err?
    ensures r.Err? ==> r.error != StoreRejected
    ensures r.Ok? ==>
      var k := FindActive(old(db.contents), id).value;
      r.value == UpdatedContent(old(db.contents)[k], classId, contentType, content) &&
      db.contents == old(db.contents)[k := r.value]
    ensures old(ActivePairsUnique(db.contents)) ==> ActivePairsUnique(db.contents)
  {
    var found := FindActive(db.contents, id);
    if found.None? {
      return Err(NotFound);
    }
    var k := found.value;
    var x := db.contents[k];
    var changing := ClassChanging(x, classId);
    if changing && !ClassExists(db.classes, classId.value) {
      return Err(NotFound);
    }
    var u := UpdatedContent(x, classId, contentType, content);
    if (contentType.Some? || changing) && FindDuplicate(db.contents, u.classId, u.contentType, Some(id)).Err? {
      return Err(Conflict);
    }
    if ActivePairsUnique(db.contents) {
      UpdateKeepsPairsUnique(db.contents, k, u, contentType.Some? || changing);
    }
    WriteKeepsIds(db.contents, k, u);
    db.contents := db.contents[k := u];
    r := Ok(u);
  }

  /** The table after `remove` deactivates row `k`. */
  function Deactivated(contents: seq<ClassContent>, k: nat): (r: seq<ClassContent>)
    requires k < |contents|
  {
    contents[k := contents[k].(status := false)]
  }

  /** After removal the content is no longer found, its class may take a
      new content of the same type, and the invariant is kept. */
  lemma RemoveFrees(contents: seq<ClassContent>, k: nat)
    requires ActivePairsUnique(contents) && ContentIdsUnique(contents) && k < |contents| && contents[k].status
    ensures FindOne(Deactivated(contents, k), contents[k].id).Err?
    ensures FindDuplicate(Deactivated(contents, k), contents[k].classId, contents[k].contentType, None).Ok?
    ensures ActivePairsUnique(Deactivated(contents, k))
  {
    var t := Deactivated(contents, k);
    forall y | y in t && y.status
      ensures y.id != contents[k].id && (y.classId, y.contentType) != (contents[k].classId, contents[k].contentType)
    {
      var i :| 0 <= i < |t| && t[i] == y;
      assert i != k;
      if i < k { assert contents[i].id != contents[k].id; } else { assert contents[k].id != contents[i].id; }
    }
  }

  /** `remove(id)`: NotFound unless the content is active; otherwise it is
      deactivated. */
  method Remove(db: Database, id: Id) returns (r: Result<()>)
    requires db.Valid()
    modifies db`contents
    ensures db.Valid()
    ensures r.Err? <==> FindActive(old(db.contents), id).None?
    ensures r.Err? ==> r.error == NotFound && db.contents == old(db.contents)
    ensures r.Ok? ==> db.contents == Deactivated(old(db.contents), FindActive(old(db.contents), id).value)
    ensures old(ActivePairsUnique(db.contents)) ==> ActivePairsUnique(db.contents)
  {
    var found := FindActive(db.contents, id);
    if found.None? {
      return Err(NotFound);
    }
    if ActivePairsUnique(db.contents) {
      RemoveFrees(db.contents, found.value);
    }
    ghost var t0 := db.contents;
    db.contents := Deactivated(db.contents, found.value);
    assert ContentIdsUnique(db.contents) by {
      forall i, j | 0 <= i < j < |db.contents|
        ensures db.contents[i].id != db.contents[j].id
      {
        assert t0[i].id != t0[j].id;
      }
    }
    r := Ok(());
  }
}
