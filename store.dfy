/** The tables the services read and write, one record type per entity.

    Every table is a sequence of records; a row is never physically deleted
    (removal is a soft delete). Columns that no modelled rule reads
    (timestamps, creator, price, difficulty, picture URLs) are left out. */
module Store {
  import opened Common
  import opened Seqs
  import Ordering

  datatype Course = Course(
    id: Id,
    status: bool,
    title: string,
    slug: string,
    description: string,
    isPublic: bool,
    underConstruction: bool,
    categoryIds: seq<Id>,
    instructorIds: seq<Id>)

  datatype Section = Section(
    id: Id,
    status: bool,
    title: string,
    slug: string,
    description: string,
    courseId: Id,
    positionOrder: int)

  datatype CourseClass = CourseClass(
    id: Id,
    status: bool,
    title: string,
    description: string,
    slug: string,
    sectionId: Id,
    positionOrder: int)

  datatype Category = Category(
    id: Id,
    status: bool,
    visible: bool,
    title: string,
    slug: string)

  datatype Instructor = Instructor(id: Id, isActive: bool, fullName: string)

  datatype ContentType = TextContent | VideoContent | SlidesContent

  datatype ClassContent = ClassContent(
    id: Id,
    status: bool,
    classId: Id,
    contentType: ContentType,
    content: string)

  predicate CourseIdsUnique(t: seq<Course>) {
    forall i, j :: 0 <= i < j < |t| ==> t[i].id != t[j].id
  }
  predicate SectionIdsUnique(t: seq<Section>) {
    forall i, j :: 0 <= i < j < |t| ==> t[i].id != t[j].id
  }
  predicate ClassIdsUnique(t: seq<CourseClass>) {
    forall i, j :: 0 <= i < j < |t| ==> t[i].id != t[j].id
  }
  predicate CategoryIdsUnique(t: seq<Category>) {
    forall i, j :: 0 <= i < j < |t| ==> t[i].id != t[j].id
  }
  predicate InstructorIdsUnique(t: seq<Instructor>) {
    forall i, j :: 0 <= i < j < |t| ==> t[i].id != t[j].id
  }
  predicate ContentIdsUnique(t: seq<ClassContent>) {
    forall i, j :: 0 <= i < j < |t| ==> t[i].id != t[j].id
  }

  /** The `unique: true` columns of the category table: no two rows, active
      or not, share a title or a slug. */
  predicate CategoryColumnsUnique(t: seq<Category>) {
    forall i, j :: 0 <= i < j < |t| ==> t[i].title != t[j].title && t[i].slug != t[j].slug
  }

  /** The database. */
  class Database {
    var courses: seq<Course>
    var sections: seq<Section>
    var classes: seq<CourseClass>
    var categories: seq<Category>
    var instructors: seq<Instructor>
    var contents: seq<ClassContent>

    /** Primary keys are unique in every table, and the category table
        honours its unique columns. */
    ghost predicate Valid()
      reads this
    {
      CourseIdsUnique(courses) && SectionIdsUnique(sections) && ClassIdsUnique(classes) &&
      CategoryIdsUnique(categories) && InstructorIdsUnique(instructors) &&
      ContentIdsUnique(contents) && CategoryColumnsUnique(categories)
    }

    constructor()
      ensures Valid()
      ensures courses == [] && sections == [] && classes == []
      ensures categories == [] && instructors == [] && contents == []
    {
      courses, sections, classes := [], [], [];
      categories, instructors, contents := [], [], [];
    }
  }

  /** `findOne({ where: { id, status: true } })` on the course table succeeds. */
  predicate CourseActive(courses: seq<Course>, id: Id) {
    exists c :: c in courses && c.id == id && c.status
  }

  /** The row `findOne({ where: { id, status: true } })` returns from the
      course table, as an index. */
  function FindActiveCourse(courses: seq<Course>, id: Id): (r: Option<nat>)
    ensures r.Some? ==> r.value < |courses| && courses[r.value].id == id && courses[r.value].status
    ensures r.None? <==> !CourseActive(courses, id)
  {
    var r := FindFirst(courses, (c: Course) => c.id == id && c.status);
    assert r.None? ==> forall c :: c in courses ==> !(c.id == id && c.status);
    r
  }

  /** `findOne({ where: { id, status: true } })` on the section table succeeds. */
  predicate SectionActive(sections: seq<Section>, id: Id) {
    exists s :: s in sections && s.id == id && s.status
  }

  /** The `instructors` relation of a course: the instructor row each id of
      its join-table list points to, in list order. */
  function InstructorsOf(instructors: seq<Instructor>, ids: seq<Id>): (r: seq<Instructor>)
    ensures forall x :: x in r ==> x in instructors && x.id in ids
    ensures InstructorIdsUnique(instructors) ==> forall x :: x in instructors && x.id in ids ==> x in r
  {
    if ids == [] then []
    else
      var rest := InstructorsOf(instructors, ids[1..]);
      match FindFirst(instructors, (x: Instructor) => x.id == ids[0])
      case Some(k) =>
        assert InstructorIdsUnique(instructors) ==> forall x :: x in instructors && x.id == ids[0] ==> x == instructors[k];
        [instructors[k]] + rest
      case None => rest
  }

  // Projections of the section and class tables onto the ordering algebra.

  function SectionPositions(t: seq<Section>): (r: seq<int>)
    ensures |r| == |t| && forall i :: 0 <= i < |t| ==> r[i] == t[i].positionOrder
  {
    seq(|t|, i requires 0 <= i < |t| => t[i].positionOrder)
  }

  /** The active sections of course `courseId`. */
  function SectionMask(t: seq<Section>, courseId: Id): (r: seq<bool>)
    ensures |r| == |t| && forall i :: 0 <= i < |t| ==> r[i] == (t[i].status && t[i].courseId == courseId)
  {
    seq(|t|, i requires 0 <= i < |t| => t[i].status && t[i].courseId == courseId)
  }

  function WithSectionPositions(t: seq<Section>, pos: seq<int>): (r: seq<Section>)
    requires |pos| == |t|
    ensures |r| == |t| && forall i :: 0 <= i < |t| ==> r[i] == t[i].(positionOrder := pos[i])
  {
    seq(|t|, i requires 0 <= i < |t| => t[i].(positionOrder := pos[i]))
  }

  function ClassPositions(t: seq<CourseClass>): (r: seq<int>)
    ensures |r| == |t| && forall i :: 0 <= i < |t| ==> r[i] == t[i].positionOrder
  {
    seq(|t|, i requires 0 <= i < |t| => t[i].positionOrder)
  }

  /** The active classes of section `sectionId`. */
  function ClassMask(t: seq<CourseClass>, sectionId: Id): (r: seq<bool>)
    ensures |r| == |t| && forall i :: 0 <= i < |t| ==> r[i] == (t[i].status && t[i].sectionId == sectionId)
  {
    seq(|t|, i requires 0 <= i < |t| => t[i].status && t[i].sectionId == sectionId)
  }

  function WithClassPositions(t: seq<CourseClass>, pos: seq<int>): (r: seq<CourseClass>)
    requires |pos| == |t|
    ensures |r| == |t| && forall i :: 0 <= i < |t| ==> r[i] == t[i].(positionOrder := pos[i])
  {
    seq(|t|, i requires 0 <= i < |t| => t[i].(positionOrder := pos[i]))
  }

  /** Every section's active classes hold the positions 0 .. n - 1. */
  ghost predicate ClassesDense(t: seq<CourseClass>) {
    forall sid :: Ordering.Dense(ClassPositions(t), ClassMask(t, sid))
  }

  /** Every course's active sections hold the positions 0 .. n - 1. */
  ghost predicate SectionsDense(t: seq<Section>) {
    forall cid :: Ordering.Dense(SectionPositions(t), SectionMask(t, cid))
  }

  lemma ClassProjectionsAppend(t: seq<CourseClass>, x: CourseClass, sid: Id)
    ensures ClassPositions(t + [x]) == ClassPositions(t) + [x.positionOrder]
    ensures ClassMask(t + [x], sid) == ClassMask(t, sid) + [x.status && x.sectionId == sid]
  {
  }

  lemma ClassProjectionsWith(t: seq<CourseClass>, pos: seq<int>, sid: Id)
    requires |pos| == |t|
    ensures ClassPositions(WithClassPositions(t, pos)) == pos
    ensures ClassMask(WithClassPositions(t, pos), sid) == ClassMask(t, sid)
  {
  }

  lemma SectionProjectionsAppend(t: seq<Section>, x: Section, cid: Id)
    ensures SectionPositions(t + [x]) == SectionPositions(t) + [x.positionOrder]
    ensures SectionMask(t + [x], cid) == SectionMask(t, cid) + [x.status && x.courseId == cid]
  {
  }

  /** Writing back a table's own positions changes nothing. */
  lemma SectionOwnPositions(t: seq<Section>)
    ensures WithSectionPositions(t, SectionPositions(t)) == t
  {
  }

  lemma ClassOwnPositions(t: seq<CourseClass>)
    ensures WithClassPositions(t, ClassPositions(t)) == t
  {
  }

  /** Rewriting positions leaves the primary keys as they were. */
  lemma SectionIdsWith(t: seq<Section>, pos: seq<int>)
    requires |pos| == |t| && SectionIdsUnique(t)
    ensures SectionIdsUnique(WithSectionPositions(t, pos))
  {
    var w := WithSectionPositions(t, pos);
    forall i, j | 0 <= i < j < |w|
      ensures w[i].id != w[j].id
    {
      assert w[i].id == t[i].id && w[j].id == t[j].id;
    }
  }

  lemma ClassIdsWith(t: seq<CourseClass>, pos: seq<int>)
    requires |pos| == |t| && ClassIdsUnique(t)
    ensures ClassIdsUnique(WithClassPositions(t, pos))
  {
    var w := WithClassPositions(t, pos);
    forall i, j | 0 <= i < j < |w|
      ensures w[i].id != w[j].id
    {
      assert w[i].id == t[i].id && w[j].id == t[j].id;
    }
  }

  /** One step of the renumbering loop: writing position `a` into row
      `o[a]` of the table renumbered up to `a` renumbers it up to `a + 1`. */
  lemma SectionAssignStep(t: seq<Section>, pos: seq<int>, o: seq<nat>, a: nat)
    requires |pos| == |t| && Ordering.Indices(o, |pos|) && a < |o|
    ensures var w := WithSectionPositions(t, Ordering.Assign(pos, o, a));
            w[o[a] := w[o[a]].(positionOrder := a)] == WithSectionPositions(t, Ordering.Assign(pos, o, a + 1))
  {
  }

  lemma ClassAssignStep(t: seq<CourseClass>, pos: seq<int>, o: seq<nat>, a: nat)
    requires |pos| == |t| && Ordering.Indices(o, |pos|) && a < |o|
    ensures var w := WithClassPositions(t, Ordering.Assign(pos, o, a));
            w[o[a] := w[o[a]].(positionOrder := a)] == WithClassPositions(t, Ordering.Assign(pos, o, a + 1))
  {
  }

  lemma SectionProjectionsWith(t: seq<Section>, pos: seq<int>, cid: Id)
    requires |pos| == |t|
    ensures SectionPositions(WithSectionPositions(t, pos)) == pos
    ensures SectionMask(WithSectionPositions(t, pos), cid) == SectionMask(t, cid)
  {
  }
}
