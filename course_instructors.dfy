/** `CourseInstructorsService`: instructor records and the instructor list
    of a course (the `course_instructors` join table, kept as the list of
    instructor ids on each course row, in relation order). */
module CourseInstructors {
  import opened Common
  import opened Seqs
  import opened Store
  import Courses

  /** `findOne(id)`: the active instructor row with the id, as an index. */
  function FindActive(instructors: seq<Instructor>, id: Id): (r: Option<nat>)
    ensures r.Some? ==> r.value < |instructors| && instructors[r.value].id == id && instructors[r.value].isActive
    ensures r.None? <==> forall x :: x in instructors ==> !(x.id == id && x.isActive)
  {
    var r := FindFirst(instructors, (x: Instructor) => x.id == id && x.isActive);
    assert r.None? ==> forall x :: x in instructors ==> !(x.id == id && x.isActive);
    r
  }

  /** `findOne(id)`: NotFound unless an active instructor has the id. */
  function FindOne(instructors: seq<Instructor>, id: Id): (r: Result<Instructor>)
    ensures r.Ok? <==> exists x :: x in instructors && x.id == id && x.isActive
    ensures r.Ok? ==> r.value in instructors && r.value.id == id && r.value.isActive
    ensures r.Err? ==> r.error == NotFound
  {
    match FindActive(instructors, id)
    case None => Err(NotFound)
    case Some(k) => Ok(instructors[k])
  }

  /** `findAll()`: the active instructors, in table order (the
      `creationDate` order is not modelled). */
  function FindAll(instructors: seq<Instructor>): (r: seq<Instructor>)
    ensures forall x :: x in r <==> x in instructors && x.isActive
    ensures IsSubsequence(r, instructors)
  {
    Filter(instructors, (x: Instructor) => x.isActive)
  }

  /** `create(dto)`: appends an active instructor. */
  method Create(db: Database, fullName: string, newId: Id) returns (r: Instructor)
    requires db.Valid()
    requires forall x :: x in db.instructors ==> x.id != newId
    modifies db`instructors
    ensures db.Valid()
    ensures r == Instructor(newId, true, fullName)
    ensures db.instructors == old(db.instructors) + [r]
  {
    r := Instructor(newId, true, fullName);
    db.instructors := db.instructors + [r];
  }

  /** The table after `remove` deactivates row `k`. */
  function Deactivated(instructors: seq<Instructor>, k: nat): (r: seq<Instructor>)
    requires k < |instructors|
  {
    instructors[k := instructors[k].(isActive := false)]
  }

  /** A removed instructor is no longer found, and no course lists it any
      more, although the join rows are kept. */
  lemma DeactivatedHidden(instructors: seq<Instructor>, k: nat, courses: seq<Course>, courseId: Id)
    requires InstructorIdsUnique(instructors) && k < |instructors|
    ensures FindOne(Deactivated(instructors, k), instructors[k].id).Err?
    ensures var r := Courses.GetInstructorsOfCourse(courses, Deactivated(instructors, k), courseId);
            r.Ok? ==> forall x :: x in r.value ==> x.id != instructors[k].id
  {
    var t := Deactivated(instructors, k);
    forall x | x in t && x.id == instructors[k].id
      ensures !x.isActive
    {
      var i :| 0 <= i < |t| && t[i] == x;
      assert i == k;
    }
  }

  /** `remove(id)`: NotFound unless the instructor is active; otherwise it
      is deactivated. */
  method Remove(db: Database, id: Id) returns (r: Result<()>)
    requires db.Valid()
    modifies db`instructors
    ensures db.Valid()
    ensures r.Err? <==> FindActive(old(db.instructors), id).None?
    ensures r.Err? ==> r.error == NotFound && db.instructors == old(db.instructors)
    ensures r.Ok? ==> db.instructors == Deactivated(old(db.instructors), FindActive(old(db.instructors), id).value)
  {
    var found := FindActive(db.instructors, id);
    if found.None? {
      return Err(NotFound);
    }
    db.instructors := Deactivated(db.instructors, found.value);
    r := Ok(());
  }

  /** `findByIds(instructorIds)` reduced to the ids it returns: the
      instructor rows whose id is requested, active or not, in table
      order. */
  function SelectedIds(instructors: seq<Instructor>, ids: seq<Id>): (r: seq<Id>)
    ensures forall id :: id in r <==> id in ids && exists x :: x in instructors && x.id == id
    ensures InstructorIdsUnique(instructors) ==> Distinct(r)
    decreases |instructors|
  {
    if instructors == [] then []
    else
      var rest := SelectedIds(instructors[1..], ids);
      assert forall x :: x in instructors <==> x == instructors[0] || x in instructors[1..];
      assert InstructorIdsUnique(instructors) ==> InstructorIdsUnique(instructors[1..]) && instructors[0].id !in rest by {
        if InstructorIdsUnique(instructors) {
          forall x | x in instructors[1..]
            ensures x.id != instructors[0].id
          {
            var i :| 0 <= i < |instructors[1..]| && instructors[1..][i] == x;
            assert instructors[i + 1] == x;
          }
        }
      }
      (if instructors[0].id in ids then [instructors[0].id] else []) + rest
  }

  /** Writes a new instructor list on active course row `k`. */
  method SaveInstructors(db: Database, k: nat, instructorIds: seq<Id>)
    requires db.Valid() && k < |db.courses| && db.courses[k].status
    modifies db`courses
    ensures db.Valid()
    ensures db.courses == old(db.courses)[k := old(db.courses)[k].(instructorIds := instructorIds)]
    ensures old(Courses.SlugsUnique(db.courses)) ==> Courses.SlugsUnique(db.courses)
  {
    Courses.SaveCourse(db, k, db.courses[k].(instructorIds := instructorIds));
  }

  /** `setInstructorsToCourse`: NotFound unless the course is active;
      otherwise its list becomes the requested ids that name an instructor
      row, each once, whatever the instructor's state; unknown ids are
      dropped silently. */
  method SetInstructorsToCourse(db: Database, courseId: Id, instructorIds: seq<Id>) returns (r: Result<Course>)
    requires db.Valid()
    modifies db`courses
    ensures db.Valid()
    ensures r.Err? <==> !CourseActive(old(db.courses), courseId)
    ensures r.Err? ==> r.error == NotFound && db.courses == old(db.courses)
    ensures r.Ok? ==>
      var k := FindActiveCourse(old(db.courses), courseId).value;
      r.value == old(db.courses)[k].(instructorIds := SelectedIds(db.instructors, instructorIds)) &&
      db.courses == old(db.courses)[k := r.value]
    ensures r.Ok? ==> Distinct(r.value.instructorIds)
    ensures r.Ok? ==> forall id :: id in r.value.instructorIds <==>
      id in instructorIds && exists x :: x in db.instructors && x.id == id
  {
    var found := FindActiveCourse(db.courses, courseId);
    if found.None? {
      return Err(NotFound);
    }
    var k := found.value;
    var ids := SelectedIds(db.instructors, instructorIds);
    SaveInstructors(db, k, ids);
    r := Ok(db.courses[k]);
  }

  /** The list `addInstructorToCourse` saves. */
  function Added(ids: seq<Id>, instructorId: Id): (r: seq<Id>)
    ensures Distinct(ids) && instructorId !in ids ==> Distinct(r)
    ensures forall id :: id in r <==> id in ids || id == instructorId
  {
    ids + [instructorId]
  }

  /** The list `removeInstructorFromCourse` saves. */
  function Removed(ids: seq<Id>, instructorId: Id): (r: seq<Id>)
    ensures forall id :: id in r <==> id in ids && id != instructorId
    ensures IsSubsequence(r, ids)
  {
    Filter(ids, (x: Id) => x != instructorId)
  }

  /** Removing an instructor the list did not hold before it was added
      gives the list back unchanged. */
  lemma {:induction false} AddThenRemove(ids: seq<Id>, instructorId: Id)
    requires instructorId !in ids
    ensures Removed(Added(ids, instructorId), instructorId) == ids
  {
    FilterConcat(ids, [instructorId], (x: Id) => x != instructorId);
    FilterAll(ids, (x: Id) => x != instructorId);
    assert Filter([instructorId], (x: Id) => x != instructorId) == [];
  }

  /** `addInstructorToCourse`: NotFound unless the course and the
      instructor are active; Conflict when the course already lists the
      instructor; otherwise the instructor is appended. */
  method AddInstructorToCourse(db: Database, courseId: Id, instructorId: Id) returns (r: Result<Course>)
    requires db.Valid()
    modifies db`courses
    ensures db.Valid()
    ensures r.Err? ==> db.courses == old(db.courses)
    ensures r == Err(NotFound) <==>
      !CourseActive(old(db.courses), courseId) || FindActive(db.instructors, instructorId).None?
    ensures r == Err(Conflict) <==>
      CourseActive(old(db.courses), courseId) && FindActive(db.instructors, instructorId).Some? &&
      instructorId in old(db.courses)[FindActiveCourse(old(db.courses), courseId).value].instructorIds
    ensures r.Err? ==> r.error != StoreRejected
    ensures r.Ok? ==>
      var k := FindActiveCourse(old(db.courses), courseId).value;
      r.value == old(db.courses)[k].(instructorIds := Added(old(db.courses)[k].instructorIds, instructorId)) &&
      db.courses == old(db.courses)[k := r.value]
  {
    var found := FindActiveCourse(db.courses, courseId);
    if found.None? {
      return Err(NotFound);
    }
    var k := found.value;
    if FindActive(db.instructors, instructorId).None? {
      return Err(NotFound);
    }
    if instructorId in db.courses[k].instructorIds {
      return Err(Conflict);
    }
    SaveInstructors(db, k, Added(db.courses[k].instructorIds, instructorId));
    r := Ok(db.courses[k]);
  }

  /** `removeInstructorFromCourse`: NotFound unless the course is active
      and lists the instructor (active or not); otherwise every occurrence
      of the instructor is dropped from the list. */
  method RemoveInstructorFromCourse(db: Database, courseId: Id, instructorId: Id) returns (r: Result<Course>)
    requires db.Valid()
    modifies db`courses
    ensures db.Valid()
    ensures r.Err? <==>
      !CourseActive(old(db.courses), courseId) ||
      instructorId !in old(db.courses)[FindActiveCourse(old(db.courses), courseId).value].instructorIds
    ensures r.Err? ==> r.error == NotFound && db.courses == old(db.courses)
    ensures r.Ok? ==>
      var k := FindActiveCourse(old(db.courses), courseId).value;
      r.value == old(db.courses)[k].(instructorIds := Removed(old(db.courses)[k].instructorIds, instructorId)) &&
      db.courses == old(db.courses)[k := r.value]
  {
    var found := FindActiveCourse(db.courses, courseId);
    if found.None? {
      return Err(NotFound);
    }
    var k := found.value;
    if instructorId !in db.courses[k].instructorIds {
      return Err(NotFound);
    }
    SaveInstructors(db, k, Removed(db.courses[k].instructorIds, instructorId));
    r := Ok(db.courses[k]);
  }
}
