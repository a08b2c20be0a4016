/** `CoursesService`: course records, their slug rule, visibility by role,
    and the read-only listings built from courses, sections and classes. */
module Courses {
  import opened Common
  import opened Seqs
  import opened Text
  import opened Slugs
  import opened Store
  import Ordering

  /** The filter of `findOne` and `findAll`: active, and public unless the
      caller is an admin. */
  predicate Visible(c: Course, user: Option<User>) {
    c.status && (IsAdmin(user) || c.isPublic)
  }

  /** The row `findOne(id, user)` returns, as an index. */
  function FindVisible(courses: seq<Course>, id: Id, user: Option<User>): (r: Option<nat>)
    ensures r.Some? ==> r.value < |courses| && courses[r.value].id == id && Visible(courses[r.value], user)
    ensures r.None? <==> forall i :: 0 <= i < |courses| ==> !(courses[i].id == id && Visible(courses[i], user))
  {
    FindFirst(courses, (c: Course) => c.id == id && Visible(c, user))
  }

  /** `findOne(id, user)`: NotFound unless a visible course has the id. */
  function FindOne(courses: seq<Course>, id: Id, user: Option<User>): (r: Result<Course>)
    ensures r.Ok? <==> exists c :: c in courses && c.id == id && Visible(c, user)
    ensures r.Ok? ==> r.value in courses && r.value.id == id && Visible(r.value, user)
    ensures r.Err? ==> r.error == NotFound
  {
    match FindVisible(courses, id, user)
    case None => Err(NotFound)
    case Some(k) => Ok(courses[k])
  }

  /** `validateUniqueSlug`: Conflict exactly when an active course other
      than `exceptId` holds the slug. */
  function ValidateUniqueSlug(courses: seq<Course>, slug: string, exceptId: Option<Id>): (r: Result<()>)
    ensures r.Err? <==> exists c :: c in courses && c.slug == slug && c.status &&
                                    (Given(exceptId) ==> c.id != exceptId.value)
    ensures r.Err? ==> r.error == Conflict
  {
    match FindFirst(courses, (c: Course) => c.slug == slug && c.status && (Given(exceptId) ==> c.id != exceptId.value))
    case Some(_) => Err(Conflict)
    case None => Ok(())
  }

  /** No two active courses share a slug. */
  predicate SlugsUnique(courses: seq<Course>) {
    forall i, j ::
      (0 <= i < |courses| && 0 <= j < |courses| && i != j && courses[i].status && courses[j].status)
      ==> courses[i].slug != courses[j].slug
  }

  // Category resolution (`categoryRepository.findByIds`).

  /** `findByIds`: the category rows whose id is requested, in table order,
      whatever their status. */
  function FindCategoriesByIds(categories: seq<Category>, ids: seq<Id>): (r: seq<Category>)
    ensures forall c :: c in r <==> c in categories && c.id in ids
    decreases |categories|
  {
    if categories == [] then []
    else (if categories[0].id in ids then [categories[0]] else []) + FindCategoriesByIds(categories[1..], ids)
  }

  function IdsOf(rows: seq<Category>): (r: seq<Id>)
    ensures |r| == |rows| && forall i :: 0 <= i < |rows| ==> r[i] == rows[i].id
  {
    seq(|rows|, i requires 0 <= i < |rows| => rows[i].id)
  }

  /** The primary keys present in the table. */
  function TableIds(categories: seq<Category>): (r: set<Id>)
    ensures forall id :: id in r <==> exists c :: c in categories && c.id == id
    decreases |categories|
  {
    if categories == [] then {}
    else
      assert forall c :: c in categories <==> c == categories[0] || c in categories[1..];
      {categories[0].id} + TableIds(categories[1..])
  }

  /** Every requested id names some category row. */
  predicate AllResolve(categories: seq<Category>, ids: seq<Id>) {
    forall id :: id in ids ==> exists c :: c in categories && c.id == id
  }

  /** With unique primary keys, `findByIds` returns one row per requested id
      that exists. */
  lemma {:induction false} FindByIdsCount(categories: seq<Category>, ids: seq<Id>)
    requires CategoryIdsUnique(categories)
    ensures |FindCategoriesByIds(categories, ids)| == |TableIds(categories) * Elements(ids)|
    decreases |categories|
  {
    if categories == [] {
      assert TableIds(categories) == {};
    } else {
      TableIdsCons(categories);
      FindByIdsCount(categories[1..], ids);
      IntersectCons(categories, ids);
    }
  }

  /** The first row's id is not repeated further down, and the rest keeps
      its keys unique. */
  lemma TableIdsCons(categories: seq<Category>)
    requires categories != [] && CategoryIdsUnique(categories)
    ensures CategoryIdsUnique(categories[1..])
    ensures categories[0].id !in TableIds(categories[1..])
  {
    var rest := categories[1..];
    forall i, j | 0 <= i < j < |rest|
      ensures rest[i].id != rest[j].id
    {
      assert rest[i] == categories[i + 1] && rest[j] == categories[j + 1];
    }
  }

  /** Adding one new element to a set adds one to its intersection with
      `e` exactly when the element is in `e`. */
  lemma IntersectInsert(x: Id, a: set<Id>, e: set<Id>)
    requires x !in a
    ensures |({x} + a) * e| == |a * e| + (if x in e then 1 else 0)
  {
    if x in e {
      assert ({x} + a) * e == {x} + a * e;
    } else {
      assert ({x} + a) * e == a * e;
    }
  }

  /** One step of the count: the first row adds its id to the intersection
      exactly when it is requested. */
  lemma IntersectCons(categories: seq<Category>, ids: seq<Id>)
    requires categories != [] && categories[0].id !in TableIds(categories[1..])
    ensures |TableIds(categories) * Elements(ids)| ==
      |TableIds(categories[1..]) * Elements(ids)| + (if categories[0].id in ids then 1 else 0)
  {
    var x := categories[0].id;
    assert TableIds(categories) == {x} + TableIds(categories[1..]);
    assert x in Elements(ids) <==> x in ids;
    IntersectInsert(x, TableIds(categories[1..]), Elements(ids));
  }

  /** The source's test `categories.length === categoryIds.length` holds
      exactly when the ids are pairwise different and all of them exist, so
      a repeated id is refused like a missing one. */
  lemma ResolvesExactly(categories: seq<Category>, ids: seq<Id>)
    requires CategoryIdsUnique(categories)
    ensures |FindCategoriesByIds(categories, ids)| == |ids| <==> Distinct(ids) && AllResolve(categories, ids)
  {
    FindByIdsCount(categories, ids);
    var found := TableIds(categories) * Elements(ids);
    SubsetCount(found, Elements(ids));
    DistinctCount(ids);
    if AllResolve(categories, ids) {
      forall id | id in Elements(ids)
        ensures id in TableIds(categories)
      {
        var c :| c in categories && c.id == id;
      }
      assert found == Elements(ids);
    }
    if found == Elements(ids) {
      forall id | id in ids
        ensures exists c :: c in categories && c.id == id
      {
        assert id in Elements(ids);
      }
    }
  }

  /** The category check of `create` and `update`. */
  function ResolveCategories(categories: seq<Category>, ids: seq<Id>): (r: Result<seq<Id>>)
    requires CategoryIdsUnique(categories)
    ensures r.Ok? <==> Distinct(ids) && AllResolve(categories, ids)
    ensures r.Err? ==> r.error == NotFound
    ensures r.Ok? ==> forall id :: id in r.value <==> id in ids
  {
    ResolvesExactly(categories, ids);
    var found := FindCategoriesByIds(categories, ids);
    if |found| != |ids| then Err(NotFound)
    else
      assert forall id :: id in ids ==> id in IdsOf(found) by {
        forall id | id in ids
          ensures id in IdsOf(found)
        {
          var c :| c in categories && c.id == id;
          var j :| 0 <= j < |found| && found[j] == c;
        }
      }
      Ok(IdsOf(found))
  }

  /** The row `create` stores. */
  function NewCourse(title: string, slug: string, description: string, isPublic: bool,
                     underConstruction: Option<bool>, categoryIds: seq<Id>, newId: Id): Course
  {
    Course(newId, true, SanitizeText(title), GenerateSlug(slug), SanitizeText(description), isPublic,
           if underConstruction.Some? then underConstruction.value else true, categoryIds, [])
  }

  /** The `save` of a new course row. */
  method AppendCourse(db: Database, c: Course)
    requires db.Valid()
    requires forall x :: x in db.courses ==> x.id != c.id
    requires ValidateUniqueSlug(db.courses, c.slug, None).Ok?
    modifies db`courses
    ensures db.Valid()
    ensures db.courses == old(db.courses) + [c]
    ensures old(SlugsUnique(db.courses)) ==> SlugsUnique(db.courses)
  {
    assert forall i :: 0 <= i < |db.courses| && db.courses[i].status ==> db.courses[i].slug != c.slug by {
      forall i | 0 <= i < |db.courses| && db.courses[i].status
        ensures db.courses[i].slug != c.slug
      {
        assert db.courses[i] in db.courses;
      }
    }
    db.courses := db.courses + [c];
  }

  /** `create`: Conflict on a taken slug, then NotFound unless every
      category id resolves, then the store refuses an empty description
      (it becomes null in a NOT NULL column). */
  method Create(db: Database, title: string, slug: string, description: string, isPublic: bool,
                underConstruction: Option<bool>, categoryIds: seq<Id>, newId: Id) returns (r: Result<Course>)
    requires db.Valid()
    requires forall c :: c in db.courses ==> c.id != newId
    modifies db`courses
    ensures db.Valid()
    ensures r.Err? ==> db.courses == old(db.courses)
    ensures (r.Err? && r.error == Conflict) <==> ValidateUniqueSlug(old(db.courses), GenerateSlug(slug), None).Err?
    ensures (r.Err? && r.error == NotFound) <==>
      ValidateUniqueSlug(old(db.courses), GenerateSlug(slug), None).Ok? &&
      !(Distinct(categoryIds) && AllResolve(db.categories, categoryIds))
    ensures (r.Err? && r.error == StoreRejected) <==>
      ValidateUniqueSlug(old(db.courses), GenerateSlug(slug), None).Ok? &&
      Distinct(categoryIds) && AllResolve(db.categories, categoryIds) && description == ""
    ensures r.Ok? ==> db.courses == old(db.courses) + [r.value]
    ensures r.Ok? ==> r.value == NewCourse(title, slug, description, isPublic, underConstruction, r.value.categoryIds, newId)
    ensures r.Ok? ==> forall id :: id in r.value.categoryIds <==> id in categoryIds
    ensures old(SlugsUnique(db.courses)) ==> SlugsUnique(db.courses)
  {
    var sanitizedSlug := GenerateSlug(slug);
    if ValidateUniqueSlug(db.courses, sanitizedSlug, None).Err? {
      return Err(Conflict);
    }
    var resolved := ResolveCategories(db.categories, categoryIds);
    if resolved.Err? {
      return Err(NotFound);
    }
    if description == "" {
      return Err(StoreRejected);
    }
    var c := NewCourse(title, slug, description, isPublic, underConstruction, resolved.value, newId);
    AppendCourse(db, c);
    r := Ok(c);
  }

  /** `update` regenerates the slug only when one is given that differs
      from the stored one. */
  predicate SlugChanges(c: Course, slug: Option<string>) {
    Given(slug) && slug.value != c.slug
  }

  /** The row `update` saves: each text field replaced (sanitised) only when
      given, the slug regenerated only when it changes, the flags taken from
      the request when present, the categories when a list is sent. */
  function UpdatedCourse(c: Course, title: Option<string>, slug: Option<string>, description: Option<string>,
                         isPublic: Option<bool>, underConstruction: Option<bool>, categoryIds: Option<seq<Id>>): Course
  {
    c.(title := if Given(title) then SanitizeText(title.value) else c.title,
       slug := if SlugChanges(c, slug) then GenerateSlug(slug.value) else c.slug,
       description := if Given(description) then SanitizeText(description.value) else c.description,
       isPublic := if isPublic.Some? then isPublic.value else c.isPublic,
       underConstruction := if underConstruction.Some? then underConstruction.value else c.underConstruction,
       categoryIds := if categoryIds.Some? then categoryIds.value else c.categoryIds)
  }

  /** An `update` that sends nothing saves the course unchanged. */
  lemma UpdateNothing(c: Course)
    ensures UpdatedCourse(c, None, None, None, None, None, None) == c
  {
  }

  /** An `update` that sends only the current slug back keeps it and every
      other field. */
  lemma UpdateSameSlug(c: Course)
    ensures UpdatedCourse(c, None, Some(c.slug), None, None, None, None) == c
  {
  }

  /** The `save` of course `k` under its own id. */
  method SaveCourse(db: Database, k: nat, u: Course)
    requires db.Valid() && k < |db.courses| && db.courses[k].status && u.id == db.courses[k].id
    requires u.slug == db.courses[k].slug || !u.status || ValidateUniqueSlug(db.courses, u.slug, Some(u.id)).Ok?
    modifies db`courses
    ensures db.Valid()
    ensures db.courses == old(db.courses)[k := u]
    ensures old(SlugsUnique(db.courses)) ==> SlugsUnique(db.courses)
  {
    if SlugsUnique(db.courses) && u.status && u.slug != db.courses[k].slug {
      forall i | 0 <= i < |db.courses| && i != k && db.courses[i].status
        ensures db.courses[i].slug != u.slug
      {
        assert db.courses[i] in db.courses;
        if i < k { assert db.courses[i].id != db.courses[k].id; } else { assert db.courses[k].id != db.courses[i].id; }
      }
    }
    db.courses := db.courses[k := u];
  }

  /** `update`: NotFound unless the caller can see the course; Conflict when
      a changed slug is taken by another active course; NotFound when a sent
      category list does not resolve; otherwise the merged row is saved. */
  method Update(db: Database, id: Id, user: Option<User>, title: Option<string>, slug: Option<string>,
                description: Option<string>, isPublic: Option<bool>, underConstruction: Option<bool>,
                categoryIds: Option<seq<Id>>) returns (r: Result<Course>)
    requires db.Valid()
    modifies db`courses
    ensures db.Valid()
    ensures r.Err? ==> db.courses == old(db.courses)
    ensures FindVisible(old(db.courses), id, user).None? ==> r == Err(NotFound)
    ensures FindVisible(old(db.courses), id, user).Some? ==>
      var k := FindVisible(old(db.courses), id, user).value;
      var c := old(db.courses)[k];
      if SlugChanges(c, slug) && ValidateUniqueSlug(old(db.courses), GenerateSlug(slug.value), Some(id)).Err? then
        r == Err(Conflict)
      else if categoryIds.Some? && !(Distinct(categoryIds.value) && AllResolve(db.categories, categoryIds.value)) then
        r == Err(NotFound)
      else
        r.Ok? && db.courses == old(db.courses)[k := r.value] &&
        (categoryIds.Some? ==> forall x :: x in r.value.categoryIds <==> x in categoryIds.value) &&
        r.value == UpdatedCourse(c, title, slug, description, isPublic, underConstruction,
                                 if categoryIds.Some? then Some(r.value.categoryIds) else None)
    ensures old(SlugsUnique(db.courses)) ==> SlugsUnique(db.courses)
  {
    var found := FindVisible(db.courses, id, user);
    if found.None? {
      return Err(NotFound);
    }
    var k := found.value;
    var c := db.courses[k];
    if SlugChanges(c, slug) && ValidateUniqueSlug(db.courses, GenerateSlug(slug.value), Some(id)).Err? {
      return Err(Conflict);
    }
    r := ApplyUpdate(db, k, title, slug, description, isPublic, underConstruction, categoryIds);
  }

  /** The second half of `update`, once the course is found and a changing
      slug is known to be free: resolve the categories, then save. */
  method ApplyUpdate(db: Database, k: nat, title: Option<string>, slug: Option<string>,
                     description: Option<string>, isPublic: Option<bool>, underConstruction: Option<bool>,
                     categoryIds: Option<seq<Id>>) returns (r: Result<Course>)
    requires db.Valid() && k < |db.courses| && db.courses[k].status
    requires SlugChanges(db.courses[k], slug) ==>
      ValidateUniqueSlug(db.courses, GenerateSlug(slug.value), Some(db.courses[k].id)).Ok?
    modifies db`courses
    ensures db.Valid()
    ensures r.Err? ==> db.courses == old(db.courses)
    ensures
      var c := old(db.courses)[k];
      if categoryIds.Some? && !(Distinct(categoryIds.value) && AllResolve(db.categories, categoryIds.value)) then
        r == Err(NotFound)
      else
        r.Ok? && db.courses == old(db.courses)[k := r.value] &&
        (categoryIds.Some? ==> forall x :: x in r.value.categoryIds <==> x in categoryIds.value) &&
        r.value == UpdatedCourse(c, title, slug, description, isPublic, underConstruction,
                                 if categoryIds.Some? then Some(r.value.categoryIds) else None)
    ensures old(SlugsUnique(db.courses)) ==> SlugsUnique(db.courses)
  {
    var newCategories: Option<seq<Id>> := None;
    if categoryIds.Some? {
      var resolved := ResolveCategories(db.categories, categoryIds.value);
      if resolved.Err? {
        return Err(NotFound);
      }
      newCategories := Some(resolved.value);
    }
    var u := UpdatedCourse(db.courses[k], title, slug, description, isPublic, underConstruction, newCategories);
    SaveCourse(db, k, u);
    r := Ok(u);
  }

  /** The soft delete: inactive, slug replaced by a fresh token. */
  function SoftDeleted(courses: seq<Course>, k: nat, token: string): (r: seq<Course>)
    requires k < |courses|
    ensures |r| == |courses|
  {
    courses[k := courses[k].(status := false, slug := token)]
  }

  /** After the soft delete no caller can find the course, and its slug is
      free for a new course. */
  lemma RemoveHides(courses: seq<Course>, k: nat, token: string)
    requires CourseIdsUnique(courses) && SlugsUnique(courses) && k < |courses| && courses[k].status
    requires forall c :: c in courses ==> c.slug != token
    ensures forall user :: FindVisible(SoftDeleted(courses, k, token), courses[k].id, user).None?
    ensures ValidateUniqueSlug(SoftDeleted(courses, k, token), courses[k].slug, None).Ok?
    ensures SlugsUnique(SoftDeleted(courses, k, token))
  {
    var t := SoftDeleted(courses, k, token);
    forall user, i | 0 <= i < |t| && t[i].id == courses[k].id
      ensures !Visible(t[i], user)
    {
    }
    forall c | c in t && c.status
      ensures c.slug != courses[k].slug
    {
      var i :| 0 <= i < |t| && t[i] == c;
    }
  }

  /** `remove`: NotFound unless the caller can see the course; otherwise the
      course is soft-deleted. */
  method Remove(db: Database, id: Id, user: Option<User>, token: string) returns (r: Result<()>)
    requires db.Valid()
    requires forall c :: c in db.courses ==> c.slug != token
    modifies db`courses
    ensures db.Valid()
    ensures r.Err? <==> FindVisible(old(db.courses), id, user).None?
    ensures r.Err? ==> r.error == NotFound && db.courses == old(db.courses)
    ensures r.Ok? ==> db.courses == SoftDeleted(old(db.courses), FindVisible(old(db.courses), id, user).value, token)
    ensures old(SlugsUnique(db.courses)) ==> SlugsUnique(db.courses)
  {
    var found := FindVisible(db.courses, id, user);
    if found.None? {
      return Err(NotFound);
    }
    var k := found.value;
    ghost var t0 := db.courses;
    if SlugsUnique(db.courses) {
      RemoveHides(db.courses, k, token);
    }
    SaveCourse(db, k, db.courses[k].(status := false, slug := token));
    r := Ok(());
  }

  /** The table after `togglePublicStatus` of course `k`. */
  function FlipPublic(courses: seq<Course>, k: nat): (r: seq<Course>)
    requires k < |courses|
    ensures |r| == |courses|
  {
    courses[k := courses[k].(isPublic := !courses[k].isPublic)]
  }

  /** Toggling twice restores the course for an admin, who can still find
      it; a non-admin can toggle only a public course, which then becomes
      invisible to them, so their second toggle is NotFound. */
  lemma ToggleTwice(courses: seq<Course>, id: Id, user: Option<User>)
    requires CourseIdsUnique(courses) && FindVisible(courses, id, user).Some?
    ensures
      var k := FindVisible(courses, id, user).value;
      (IsAdmin(user) ==>
        FindVisible(FlipPublic(courses, k), id, user) == Some(k) &&
        FlipPublic(FlipPublic(courses, k), k) == courses) &&
      (!IsAdmin(user) ==> FindVisible(FlipPublic(courses, k), id, user).None?)
  {
    var k := FindVisible(courses, id, user).value;
    var t := FlipPublic(courses, k);
    if !IsAdmin(user) {
      forall i | 0 <= i < |t| && t[i].id == id
        ensures !Visible(t[i], user)
      {
      }
    } else {
      assert t[k].id == id && Visible(t[k], user);
      var j := FindVisible(t, id, user).value;
      assert courses[j] == t[j] || j == k;
    }
  }

  /** `togglePublicStatus` */
  method TogglePublicStatus(db: Database, id: Id, user: Option<User>) returns (r: Result<Course>)
    requires db.Valid()
    modifies db`courses
    ensures db.Valid()
    ensures r.Err? <==> FindVisible(old(db.courses), id, user).None?
    ensures r.Err? ==> r.error == NotFound && db.courses == old(db.courses)
    ensures r.Ok? ==>
      var k := FindVisible(old(db.courses), id, user).value;
      db.courses == FlipPublic(old(db.courses), k) && r.value == db.courses[k]
    ensures old(SlugsUnique(db.courses)) ==> SlugsUnique(db.courses)
  {
    var found := FindVisible(db.courses, id, user);
    if found.None? {
      return Err(NotFound);
    }
    var k := found.value;
    var u := db.courses[k].(isPublic := !db.courses[k].isPublic);
    SaveCourse(db, k, u);
    r := Ok(u);
  }

  /** The table after `toggleCourseUnderConstructionStatus` of course `k`. */
  function FlipUnderConstruction(courses: seq<Course>, k: nat): (r: seq<Course>)
    requires k < |courses|
    ensures |r| == |courses|
  {
    courses[k := courses[k].(underConstruction := !courses[k].underConstruction)]
  }

  /** The construction flag does not affect visibility, so any caller who
      can toggle it once can toggle it back. */
  lemma ToggleUnderConstructionTwice(courses: seq<Course>, id: Id, user: Option<User>)
    requires FindVisible(courses, id, user).Some?
    ensures
      var k := FindVisible(courses, id, user).value;
      FindVisible(FlipUnderConstruction(courses, k), id, user) == Some(k) &&
      FlipUnderConstruction(FlipUnderConstruction(courses, k), k) == courses
  {
    var k := FindVisible(courses, id, user).value;
    var t := FlipUnderConstruction(courses, k);
    assert t[k].id == id && Visible(t[k], user);
    var j := FindVisible(t, id, user).value;
    assert courses[j] == t[j] || j == k;
  }

  /** `toggleCourseUnderConstructionStatus` */
  method ToggleUnderConstruction(db: Database, id: Id, user: Option<User>) returns (r: Result<Course>)
    requires db.Valid()
    modifies db`courses
    ensures db.Valid()
    ensures r.Err? <==> FindVisible(old(db.courses), id, user).None?
    ensures r.Err? ==> r.error == NotFound && db.courses == old(db.courses)
    ensures r.Ok? ==>
      var k := FindVisible(old(db.courses), id, user).value;
      db.courses == FlipUnderConstruction(old(db.courses), k) && r.value == db.courses[k]
    ensures old(SlugsUnique(db.courses)) ==> SlugsUnique(db.courses)
  {
    var found := FindVisible(db.courses, id, user);
    if found.None? {
      return Err(NotFound);
    }
    var k := found.value;
    var u := db.courses[k].(underConstruction := !db.courses[k].underConstruction);
    SaveCourse(db, k, u);
    r := Ok(u);
  }

  // Read-only listings.

  /** The category `findCoursesByCategory` looks up: active, with the slug,
      and visible unless the caller is an admin. */
  predicate CategoryListed(cat: Category, categorySlug: string, user: Option<User>) {
    cat.slug == categorySlug && cat.status && (IsAdmin(user) || cat.visible)
  }

  function ListedCategory(categories: seq<Category>, categorySlug: string, user: Option<User>): (r: Option<nat>)
    ensures r.Some? ==> r.value < |categories| && CategoryListed(categories[r.value], categorySlug, user)
    ensures r.None? <==> forall c :: c in categories ==> !CategoryListed(c, categorySlug, user)
  {
    var r := FindFirst(categories, (c: Category) => CategoryListed(c, categorySlug, user));
    assert r.None? ==> forall c :: c in categories ==> !CategoryListed(c, categorySlug, user);
    r
  }

  /** `findCoursesByCategory`: NotFound unless the category is listed for
      the caller; otherwise exactly the courses the caller can see that are
      linked to that category, in table order. */
  function FindCoursesByCategory(categories: seq<Category>, courses: seq<Course>, categorySlug: string,
                                 user: Option<User>): (r: Result<seq<Course>>)
    ensures r.Err? <==> ListedCategory(categories, categorySlug, user).None?
    ensures r.Err? ==> r.error == NotFound
    ensures r.Ok? ==>
      var cat := categories[ListedCategory(categories, categorySlug, user).value];
      (forall c :: c in r.value <==> c in courses && Visible(c, user) && cat.id in c.categoryIds) &&
      IsSubsequence(r.value, courses)
  {
    match ListedCategory(categories, categorySlug, user)
    case None => Err(NotFound)
    case Some(k) => Ok(Filter(courses, (c: Course) => Visible(c, user) && categories[k].id in c.categoryIds))
  }

  /** A section of a search result with its classes. */
  datatype SectionView = SectionView(section: Section, classes: seq<CourseClass>)

  /** A course of a search result with its sections. */
  datatype CourseView = CourseView(course: Course, sections: seq<SectionView>)

  /** The active classes of a section, ascending by position; equal
      positions keep table order, as the stable `Array.prototype.sort` does. */
  function ClassesOf(classes: seq<CourseClass>, sectionId: Id): (r: seq<CourseClass>)
    ensures |r| == Ordering.Count(ClassMask(classes, sectionId))
    ensures forall i :: 0 <= i < |r| ==> r[i] in classes && r[i].status && r[i].sectionId == sectionId
    ensures forall x :: x in classes && x.status && x.sectionId == sectionId ==> x in r
    ensures forall i, j :: 0 <= i < j < |r| ==> r[i].positionOrder <= r[j].positionOrder
  {
    var pos := ClassPositions(classes);
    var mask := ClassMask(classes, sectionId);
    var o := Ordering.SortedMembers(pos, mask);
    var r := seq(|o|, i requires 0 <= i < |o| => classes[o[i]]);
    forall x | x in classes && x.status && x.sectionId == sectionId
      ensures x in r
    {
      var y :| 0 <= y < |classes| && classes[y] == x;
      assert mask[y];
      assert y in o;
      var a :| 0 <= a < |o| && o[a] == y;
      assert r[a] == x;
    }
    forall i, j | 0 <= i < j < |r|
      ensures r[i].positionOrder <= r[j].positionOrder
    {
      assert Ordering.Before(pos, o[i], o[j]);
    }
    r
  }

  /** The active sections of a course, ascending by position (equal
      positions in table order). */
  function SortedSections(sections: seq<Section>, courseId: Id): (r: seq<Section>)
    ensures |r| == Ordering.Count(SectionMask(sections, courseId))
    ensures forall i :: 0 <= i < |r| ==> r[i] in sections && r[i].status && r[i].courseId == courseId
    ensures forall s :: s in sections && s.status && s.courseId == courseId ==> s in r
    ensures forall i, j :: 0 <= i < j < |r| ==> r[i].positionOrder <= r[j].positionOrder
  {
    var pos := SectionPositions(sections);
    var mask := SectionMask(sections, courseId);
    var o := Ordering.SortedMembers(pos, mask);
    var r := seq(|o|, i requires 0 <= i < |o| => sections[o[i]]);
    forall s | s in sections && s.status && s.courseId == courseId
      ensures s in r
    {
      var y :| 0 <= y < |sections| && sections[y] == s;
      assert mask[y];
      assert y in o;
      var a :| 0 <= a < |o| && o[a] == y;
      assert r[a] == s;
    }
    forall i, j | 0 <= i < j < |r|
      ensures r[i].positionOrder <= r[j].positionOrder
    {
      assert Ordering.Before(pos, o[i], o[j]);
    }
    r
  }

  /** The sorted active sections of a course, each with its sorted
      classes. */
  function SectionsOf(sections: seq<Section>, classes: seq<CourseClass>, courseId: Id): (r: seq<SectionView>)
    ensures |r| == Ordering.Count(SectionMask(sections, courseId))
    ensures forall i :: 0 <= i < |r| ==>
      r[i].section == SortedSections(sections, courseId)[i] && r[i].classes == ClassesOf(classes, r[i].section.id)
  {
    var ss := SortedSections(sections, courseId);
    seq(|ss|, i requires 0 <= i < |ss| => SectionView(ss[i], ClassesOf(classes, ss[i].id)))
  }

  /** The search query after `trim().toLowerCase()`. */
  function Query(query: string): string {
    LowerAscii(Trim(query))
  }

  /** The query occurs in the lower-cased title, description or slug. */
  predicate TextMatches(title: string, description: string, slug: string, q: string) {
    Contains(LowerAscii(title), q) || Contains(LowerAscii(description), q) || Contains(LowerAscii(slug), q)
  }

  /** The label the search matches the construction flag against. */
  function StatusLabel(c: Course): string {
    if c.underConstruction then "en construccion" else "publicado"
  }

  /** A course matches when the query occurs in its own texts, its status
      label, one of its categories' title or slug, or the texts of one of
      its active sections or of an active class of those sections. */
  predicate Matches(c: Course, sections: seq<Section>, classes: seq<CourseClass>, categories: seq<Category>, q: string) {
    TextMatches(c.title, c.description, c.slug, q) ||
    Contains(StatusLabel(c), q) ||
    (exists cat :: cat in categories && cat.id in c.categoryIds &&
       (Contains(LowerAscii(cat.title), q) || Contains(LowerAscii(cat.slug), q))) ||
    (exists s :: s in sections && s.status && s.courseId == c.id && TextMatches(s.title, s.description, s.slug, q)) ||
    (exists cl :: cl in classes && cl.status && TextMatches(cl.title, cl.description, cl.slug, q) &&
       exists s :: s in sections && s.status && s.courseId == c.id && s.id == cl.sectionId)
  }

  function CoursesListed(r: seq<CourseView>): (cs: seq<Course>)
    ensures |cs| == |r| && forall i :: 0 <= i < |r| ==> cs[i] == r[i].course
  {
    seq(|r|, i requires 0 <= i < |r| => r[i].course)
  }

  /** `searchPublicCourses` (the price clause left out): exactly the active
      public courses that match the trimmed, lower-cased query, in table
      order, each with its sorted active sections and classes. */
  function SearchPublicCourses(courses: seq<Course>, sections: seq<Section>, classes: seq<CourseClass>,
                               categories: seq<Category>, query: string): (r: seq<CourseView>)
    ensures forall c :: c in CoursesListed(r) <==>
      c in courses && c.status && c.isPublic && Matches(c, sections, classes, categories, Query(query))
    ensures IsSubsequence(CoursesListed(r), courses)
    ensures forall i :: 0 <= i < |r| ==> r[i].sections == SectionsOf(sections, classes, r[i].course.id)
  {
    var q := Query(query);
    var found := Filter(courses, (c: Course) => c.status && c.isPublic && Matches(c, sections, classes, categories, q));
    var r := seq(|found|, i requires 0 <= i < |found| => CourseView(found[i], SectionsOf(sections, classes, found[i].id)));
    assert CoursesListed(r) == found;
    r
  }

  /** A query of blanks only matches every active public course. */
  lemma BlankQueryListsAll(courses: seq<Course>, sections: seq<Section>, classes: seq<CourseClass>,
                           categories: seq<Category>, query: string)
    requires forall c :: c in query ==> IsSpace(c)
    ensures forall c :: c in courses && c.status && c.isPublic ==>
      c in CoursesListed(SearchPublicCourses(courses, sections, classes, categories, query))
  {
    assert Trim(query) == [];
    forall c | c in courses && c.status && c.isPublic
      ensures Matches(c, sections, classes, categories, Query(query))
    {
      ContainsEmpty(LowerAscii(c.title));
    }
  }

  /** `getInstructorsOfCourse`: NotFound unless the course is active;
      otherwise its linked instructors that are active, in list order. */
  function GetInstructorsOfCourse(courses: seq<Course>, instructors: seq<Instructor>, courseId: Id): (r: Result<seq<Instructor>>)
    ensures r.Err? <==> !CourseActive(courses, courseId)
    ensures r.Err? ==> r.error == NotFound
    ensures r.Ok? ==>
      var c := courses[FindActiveCourse(courses, courseId).value];
      (forall x :: x in r.value ==> x in instructors && x.isActive && x.id in c.instructorIds) &&
      (InstructorIdsUnique(instructors) ==>
         forall x :: x in instructors && x.isActive && x.id in c.instructorIds ==> x in r.value)
  {
    match FindActiveCourse(courses, courseId)
    case None => Err(NotFound)
    case Some(k) => Ok(Filter(InstructorsOf(instructors, courses[k].instructorIds), (x: Instructor) => x.isActive))
  }
}
