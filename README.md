# Course structure of the LMS backend, modelled in Dafny

This project models the course-structure bookkeeping of an LMS backend: six
NestJS services over a TypeORM database. Every table is a sequence of
records held by one `Store.Database` object. A service operation is either
a method that reassigns the tables it `modifies`, or a function over
table snapshots.

## Modelled concepts

- **Ordered sibling lists.** Sections belong to a course and classes to a
  section. Both carry a `positionOrder` that should be dense (`0..n-1`)
  over the active siblings.
  - Module `Ordering` works on a position vector and a membership mask and defines:
    - `Renumbered`, the renumbering loop;
    - `ShiftFrom`, the insert-with-shift;
    - `Move`, the move-by-shifting rule.
  - It proves that each of these keeps the list dense and keeps the relative order of the other siblings.
  - `Store` projects the section and class tables onto that algebra.
- **Slugs.** Module `Slugs` holds the slugifiers:
  - the character-filter slugifier of courses, sections and categories;
  - the word-character slugifier of classes.
  - Module `CourseClasses` adds the `base`, `base-1`, `base-2`, … probe of `ensureUniqueSlug`.
  - The other services check uniqueness with a lookup that answers Conflict.
- **Soft delete.** `status := false`, and the slug is replaced by a fresh token. Sections and classes then renumber the survivors.
- **Membership rules.**
  - Each course has a list of instructor ids.
  - At most one class content may be active per (class, content type).

Each service is a module:
- `CourseClasses`, `CourseSections`, `Courses` and `Categories`;
- `CourseInstructors`;
- `ClassContents`.

The service modules build on `Common`, `Seqs`, `Text`, `Slugs`,
`Ordering` and `Store`. `CourseInstructors` also imports `Courses`, for
the course lookup and save it shares with that service.

Inputs that the services obtain from the environment are parameters of the model:
- `newId` is the primary key the store generates. It must be fresh.
- `token` is the `uuidv4()` tombstone. It must differ from every slug of the table.
- `user` is the authenticated caller, reduced to its roles, or `None`.

### Observed behaviours worth knowing

- The section `create` does not range-check `positionOrder`.
  - An insert at `p > n` leaves a gap in the course's positions (`CourseSections.InsertBeyondEndLeavesGap`).
  - An insert at `p` in `0..n` keeps the list dense.
- The section `updateOrder` accepts any value. It writes the value and renumbers, so the result is always dense. When the written value ties with another section's position, the model lists the two in table order. The database leaves that order open (see "## Left out").
- Validate errors come before lookup errors in both cases:
  - The section `create` checks slug uniqueness before it checks that the course exists.
  - The course `create` checks the slug before the categories.
- The course `create` and `update` answer NotFound when a category id repeats, because `findByIds` returns one row per distinct id and the length comparison fails (`Courses.ResolvesExactly`).
- The category `unique` columns cover inactive rows too. `remove` frees the slug but not the title, so recreating a removed category passes the duplicate lookup and is then refused by the store (`Categories.RemoveHides`).
- The class-content `create` accepts a soft-deleted class, since the lookup is by id only. When the class is missing, the answer is Conflict, not NotFound.
- `setInstructorsToCourse` drops unknown ids silently and also links inactive instructors. They are then filtered out when the instructors are listed.

## Model

| member | source | states |
|---|---|---|
| Slugs.SanitizeText | src/course-sections/course-sections.service.ts:40-47 | the result is ASCII only and has no whitespace at either end (the same chain is at courses.service.ts:75-81 and categories.service.ts:62-68) |
| Slugs.SanitizeTextIdempotent | src/courses/courses.service.ts:75-81 | sanitising sanitised text changes nothing |
| Slugs.SanitizeTextEnye | src/course-sections/course-sections.service.ts:40-47 | an `ñ` becomes `n` in place, and the rest is cleaned around it |
| Slugs.GenerateSlug | src/course-sections/course-sections.service.ts:63-70 | every character of a slug is in `[a-z0-9-]` (also courses.service.ts:66-73, categories.service.ts:53-60) |
| Slugs.GenerateSlugIdempotent | src/courses/courses.service.ts:66-73 | slugifying a slug gives the same slug |
| Slugs.CleanChar | src/categories/categories.service.ts:53-57 | per character: a combining mark is dropped, `ñ` becomes `n`, other non-ASCII characters are dropped, ASCII is kept |
| Slugs.CleanConcat | src/categories/categories.service.ts:62-66 | the pre-trim filters act character by character: clean(a+b) is clean(a)+clean(b) |
| Slugs.SanitizeWord | src/course-classes/course-classes.service.ts:42-48 | the class sanitiser keeps only word characters, whitespace and `-`, trimmed |
| Slugs.SanitizeWordIdempotent | src/course-classes/course-classes.service.ts:42-48 | the class sanitiser is idempotent |
| Slugs.ClassSlugBase | src/course-classes/course-classes.service.ts:50-53 | a class slug base uses only `[a-z0-9_-]` |
| Slugs.ClassSlugBaseIdempotent | src/course-classes/course-classes.service.ts:50-53 | the class slug base of a slug base is itself |
| Text.ContainsOccurrence | src/courses/courses.service.ts:429-462 | `includes` holds exactly when the query occurs at some offset |
| Text.DecimalLength | src/course-classes/course-classes.service.ts:64 | a counter of at least 10^m renders with more than m digits, so probed suffixes grow without bound |
| Ordering.SortedMembers | src/course-classes/course-classes.service.ts:92-95 | the `order: positionOrder ASC` listing: exactly the masked rows, each once, ascending by position (ties by table index) |
| Ordering.RenumberedValues | src/course-classes/course-classes.service.ts:96-99 | the loop gives the i-th row of the sorted listing position i and leaves unmasked rows alone |
| Ordering.RenumberDense | src/course-classes/course-classes.service.ts:91-100 | after renumbering, the active siblings hold exactly the positions 0..n-1, and nothing else changes |
| Ordering.RenumberKeepsOrder | src/course-sections/course-sections.service.ts:82-91 | renumbering keeps the previous ascending order of the siblings |
| Ordering.RenumberIdempotent | src/course-sections/course-sections.service.ts:82-91 | renumbering a dense list changes nothing |
| Ordering.RenumberTwice | src/course-sections/course-sections.service.ts:82-91 | renumbering twice is renumbering once |
| Ordering.RenumberAfterRemoval | src/course-classes/course-classes.service.ts:222-227 | after removing position p of a dense list, the siblings below p keep their position and those above move down by one |
| Ordering.InsertDense | src/course-sections/course-sections.service.ts:106-123 | shifting positions >= p up by one and adding a row at p, with p in 0..n, keeps the list dense |
| Ordering.InsertKeepsOrder | src/course-sections/course-sections.service.ts:110-119 | the shift keeps the siblings' relative order and which side of p each is on |
| Ordering.InsertBeyondEnd | src/course-sections/course-sections.service.ts:106-123 | inserting at p > n leaves the list not dense |
| Ordering.MoveDense | src/course-classes/course-classes.service.ts:249-273 | moving a sibling to t in 0..n-1 by the two shift rules keeps the list dense |
| Ordering.MoveKeepsOrder | src/course-classes/course-classes.service.ts:249-273 | the move keeps the relative order of all other siblings |
| Ordering.MoveRoundTrip | src/course-classes/course-classes.service.ts:249-273 | moving i to j and then back to i restores every position |
| Ordering.CountUpdate | src/course-classes/course-classes.service.ts:241-247 | how the active-sibling count changes when one row changes membership |
| Store.FindActiveCourse | src/course-instructors/course-instructors.service.ts:76-82 | the `findOne({ id, status: true })` lookup: an index of an active course with the id, or None exactly when there is none |
| Store.InstructorsOf | src/course-instructors/course-instructors.service.ts:76-79 | the loaded `instructors` relation contains only listed instructor rows, and with unique keys every listed row |
| CourseClasses.EnsureUniqueSlug | src/course-classes/course-classes.service.ts:58-68 | returns `base` or `base-k` for the smallest k whose candidate no other active class of the section holds |
| CourseClasses.FirstFreeUnique | src/course-classes/course-classes.service.ts:58-68 | the first free suffix is unique, so the probe's result is determined |
| CourseClasses.SecondGetsSuffix | src/course-classes/course-classes.service.ts:58-68 | when `base` is taken and `base-1` is free, the probe yields `base-1` (the two-"Intro" example) |
| CourseClasses.CandidateTooLong | src/course-classes/course-classes.service.ts:61-66 | a large enough counter gives a candidate longer than any slug, so the probe terminates |
| CourseClasses.FindOne | src/course-classes/course-classes.service.ts:154-165 | NotFound unless an active class has the id; the row returned is active and has the id |
| CourseClasses.ReorderClasses | src/course-classes/course-classes.service.ts:91-100 | the classes table becomes the renumbering of the section's active classes, and no other row changes |
| CourseClasses.AppendKeepsInvariants | src/course-classes/course-classes.service.ts:104-129 | appending an active class at the sibling count with a free slug keeps positions dense and slugs unique per section |
| CourseClasses.ReplaceKeepsInvariants | src/course-classes/course-classes.service.ts:188-213 | rewriting a class's texts with a slug free in its section keeps both invariants |
| CourseClasses.RemoveKeepsInvariants | src/course-classes/course-classes.service.ts:222-227 | soft delete plus renumbering keeps both invariants, frees the old slug, and moves down exactly the siblings after it |
| CourseClasses.MoveKeepsInvariants | src/course-classes/course-classes.service.ts:249-273 | an in-range move keeps both invariants |
| CourseClasses.Create | src/course-classes/course-classes.service.ts:103-142 | NotFound exactly when the section is not active; otherwise the sanitised class is appended at the active-sibling count with the first free slug |
| CourseClasses.Update | src/course-classes/course-classes.service.ts:185-219 | NotFound unless active; title and description change only when given; the slug is always re-probed from the given slug or the new title, the class itself excluded |
| CourseClasses.Remove | src/course-classes/course-classes.service.ts:222-235 | soft delete with the token, then renumbering of the section; the slug becomes free, and later siblings move down by one |
| CourseClasses.UpdateOrder | src/course-classes/course-classes.service.ts:238-284 | NotFound; Conflict and no change when out of range; otherwise exactly the shift move to newOrder |
| CourseSections.ValidateUniqueSlug | src/course-sections/course-sections.service.ts:72-80 | Conflict exactly when an active section of any course, other than the excluded id, holds the slug |
| CourseSections.FindOne | src/course-sections/course-sections.service.ts:158-169 | NotFound unless an active section has the id |
| CourseSections.ReorderSections | src/course-sections/course-sections.service.ts:82-91 | the sections table becomes the renumbering of the course's active sections |
| CourseSections.ShiftForInsert | src/course-sections/course-sections.service.ts:110-119 | the loop raises by one every active sibling at or after p, and nothing else |
| CourseSections.ShiftForMove | src/course-sections/course-sections.service.ts:196-222 | the loop shifts the other siblings by the move rule and leaves the moved section's position for the later write |
| CourseSections.InsertKeepsInvariants | src/course-sections/course-sections.service.ts:106-132 | an insert at p in 0..n, or an append, keeps the course dense; slugs stay unique; the siblings keep their relative order |
| CourseSections.InsertBeyondEndLeavesGap | src/course-sections/course-sections.service.ts:106-123 | with no range check, an insert beyond the end leaves the course's positions not dense |
| CourseSections.Create | src/course-sections/course-sections.service.ts:94-146 | Conflict on a taken slug; otherwise NotFound unless the course is active; otherwise a shift (when a position is given) and an append; both invariants are kept in range |
| CourseSections.MoveKeepsInvariants | src/course-sections/course-sections.service.ts:196-224 | a move within 0..n-1 keeps the course dense; slugs stay unique; the others keep their relative order |
| CourseSections.MoveInPlace | src/course-sections/course-sections.service.ts:196 | an update without a position change writes only that row |
| CourseSections.Update | src/course-sections/course-sections.service.ts:180-243 | NotFound; Conflict when a changed slug is taken; otherwise sanitised title and description, the new slug, and the move; invariants kept |
| CourseSections.RemoveKeepsInvariants | src/course-sections/course-sections.service.ts:246-249 | soft delete plus renumbering keeps both invariants, frees the slug, and moves the later siblings down by one |
| CourseSections.Remove | src/course-sections/course-sections.service.ts:246-257 | NotFound unless active; otherwise a soft delete and renumbering of the course |
| CourseSections.WriteThenReorder | src/course-sections/course-sections.service.ts:260-263 | writing any value and then renumbering always leaves the course dense; the others keep their order; rows below the value end up before the section, rows above it after |
| CourseSections.FindActiveAt | src/course-sections/course-sections.service.ts:158-169 | with unique keys, the lookup of an active row's id finds that row |
| CourseSections.UpdateOrder | src/course-sections/course-sections.service.ts:260-273 | NotFound, or the write followed by the renumbering, returning the renumbered row; invariants kept |
| Courses.FindVisible | src/courses/courses.service.ts:157-174 | an index of an active course with the id that the caller may see (any, for an admin; public, otherwise), or None when there is none |
| Courses.FindOne | src/courses/courses.service.ts:157-174 | NotFound unless such a course exists |
| Courses.ValidateUniqueSlug | src/courses/courses.service.ts:83-91 | Conflict exactly when an active course other than the excluded id holds the slug |
| Courses.FindCategoriesByIds | src/courses/courses.service.ts:108 | `findByIds`: exactly the category rows whose id is requested, of any status |
| Courses.FindByIdsCount | src/courses/courses.service.ts:108-112 | with unique keys, `findByIds` returns as many rows as there are distinct requested ids that exist |
| Courses.ResolvesExactly | src/courses/courses.service.ts:110-112 | the length check passes exactly when the ids are distinct and all exist |
| Courses.ResolveCategories | src/courses/courses.service.ts:108-112 | NotFound exactly when an id repeats or is missing; otherwise the same set of ids |
| Courses.Create | src/courses/courses.service.ts:98-139 | Conflict on a taken slug; otherwise NotFound unless the categories resolve; the store refuses an empty description; otherwise the course is appended active, with under-construction defaulting to true, texts sanitised and no instructors |
| Courses.UpdateNothing | src/courses/courses.service.ts:224-255 | an empty update keeps every field |
| Courses.UpdateSameSlug | src/courses/courses.service.ts:227-230 | sending the current slug changes nothing |
| Courses.Update | src/courses/courses.service.ts:221-269 | NotFound unless visible; Conflict only when a given slug differs and is taken; NotFound when the given categories do not resolve; otherwise only the given fields change, and under-construction keeps its value when absent |
| Courses.SaveCourse | src/courses/courses.service.ts:248-255 | writing one course row with a free slug keeps the keys and active slugs unique |
| Courses.RemoveHides | src/courses/courses.service.ts:272-283 | after the soft delete, no caller finds the course, its slug is free, and active slugs stay unique |
| Courses.Remove | src/courses/courses.service.ts:272-283 | NotFound unless visible; otherwise a soft delete with the token |
| Courses.ToggleTwice | src/courses/courses.service.ts:286-303 | for an admin, toggling twice restores the table; for anyone else, the first toggle hides the course |
| Courses.TogglePublicStatus | src/courses/courses.service.ts:286-303 | NotFound unless visible; otherwise only `isPublic` of that row flips |
| Courses.ToggleUnderConstructionTwice | src/courses/courses.service.ts:306-323 | toggling under-construction twice restores the table, and the course stays visible in between |
| Courses.ToggleUnderConstruction | src/courses/courses.service.ts:306-323 | NotFound unless visible; otherwise only `courseUnderConstruction` flips |
| Courses.ListedCategory | src/courses/courses.service.ts:199-207 | the category looked up by slug: active, with the slug, visible unless the caller is an admin; None when none is |
| Courses.FindCoursesByCategory | src/courses/courses.service.ts:197-218 | NotFound without the category; otherwise exactly the courses the caller may see that link it, in table order |
| Courses.ClassesOf | src/courses/courses.service.ts:472-474 | exactly the active classes of the section, ascending by position |
| Courses.SortedSections | src/courses/courses.service.ts:465-467 | exactly the active sections of the course, ascending by position |
| Courses.SectionsOf | src/courses/courses.service.ts:466-474 | one view per active section of the course, in the sorted order, each holding that section's sorted active classes |
| Courses.SearchPublicCourses | src/courses/courses.service.ts:409-491 | exactly the active public courses that match the trimmed, lower-cased query, in table order, each with its sorted sections |
| Courses.BlankQueryListsAll | src/courses/courses.service.ts:427-432 | a query of blanks matches every active public course |
| Courses.GetInstructorsOfCourse | src/courses/courses.service.ts:493-502 | NotFound unless the course is active; otherwise only its active listed instructors, and with unique keys all of them (the same query as course-instructors.service.ts:75-84) |
| Categories.FindAll | src/categories/categories.service.ts:110-121 | exactly the active categories, restricted to visible ones unless the caller is an admin |
| Categories.FindVisible | src/categories/categories.service.ts:124-142 | an index of a category with the id that the caller may see, or None when there is none |
| Categories.FindOne | src/categories/categories.service.ts:124-142 | NotFound unless such a category exists |
| Categories.FindClash | src/categories/categories.service.ts:76-85 | Conflict exactly when an active row other than the excluded id holds the title or the slug |
| Categories.CreatedHidden | src/categories/categories.service.ts:87-95 | a created category is listed to admins only |
| Categories.Create | src/categories/categories.service.ts:71-107 | Conflict on an active duplicate; the store refuses a title or slug held by an inactive row; otherwise an active, hidden row with the sanitised title and its slug is appended |
| Categories.ResubmitStoredTitle | src/categories/categories.service.ts:155-157 | sending back a stored title reproduces the same title and slug |
| Categories.Update | src/categories/categories.service.ts:145-186 | NotFound unless visible to the caller; with a title, Conflict against other active rows; StoreRejected exactly when there is no Conflict and another row of any status holds the new title or slug, which needs a given title; otherwise the merged row is saved |
| Categories.RemoveHides | src/categories/categories.service.ts:189-203 | after removal nobody finds the category and the unique columns hold; the title stays held, so recreating it is refused |
| Categories.Remove | src/categories/categories.service.ts:189-203 | NotFound unless visible; otherwise a soft delete that replaces the slug |
| CourseInstructors.FindOne | src/course-instructors/course-instructors.service.ts:46-54 | NotFound unless an active instructor has the id |
| CourseInstructors.FindAll | src/course-instructors/course-instructors.service.ts:39-44 | exactly the active instructors |
| CourseInstructors.Create | src/course-instructors/course-instructors.service.ts:26-37 | appends an active instructor |
| CourseInstructors.DeactivatedHidden | src/course-instructors/course-instructors.service.ts:66-84 | after removal, `findOne` fails and no course's instructor listing contains the instructor |
| CourseInstructors.Remove | src/course-instructors/course-instructors.service.ts:66-73 | NotFound unless active; otherwise only `isActive` is cleared |
| CourseInstructors.SelectedIds | src/course-instructors/course-instructors.service.ts:94 | the ids `findByIds` returns: exactly the requested ids that name a row, each once |
| CourseInstructors.SetInstructorsToCourse | src/course-instructors/course-instructors.service.ts:86-101 | NotFound unless the course is active; otherwise its list becomes the looked-up ids, duplicate-free |
| CourseInstructors.Added | src/course-instructors/course-instructors.service.ts:120 | the list grows by exactly the id and stays duplicate-free |
| CourseInstructors.Removed | src/course-instructors/course-instructors.service.ts:140 | exactly the other ids, in their original order |
| CourseInstructors.AddThenRemove | src/course-instructors/course-instructors.service.ts:117-140 | adding an absent instructor and removing it again restores the list |
| CourseInstructors.AddInstructorToCourse | src/course-instructors/course-instructors.service.ts:103-126 | NotFound unless the course and the instructor are active; Conflict when listed; otherwise the id is appended |
| CourseInstructors.RemoveInstructorFromCourse | src/course-instructors/course-instructors.service.ts:128-146 | NotFound unless the course is active and lists the id; otherwise the id is filtered out |
| ClassContents.FindOne | src/class-content/class-content.service.ts:84-95 | NotFound unless an active content has the id |
| ClassContents.FindDuplicate | src/class-content/class-content.service.ts:50-60 | Conflict exactly when another active content holds the (class, type) pair |
| ClassContents.WriteKeepsPairsUnique | src/class-content/class-content.service.ts:123-153 | writing a row whose pair no other active row holds keeps at most one active content per pair |
| ClassContents.Create | src/class-content/class-content.service.ts:38-75 | Conflict when the class is missing or the pair is taken; otherwise an active content is appended; the one-per-pair invariant is kept |
| ClassContents.Update | src/class-content/class-content.service.ts:97-157 | NotFound unless active, or when a changed class is missing; when a type is given or the class changes, Conflict on a taken target pair; otherwise the merged row; the invariant is kept |
| ClassContents.RemoveFrees | src/class-content/class-content.service.ts:159-169 | after removal the content is not found, its pair is free, and the invariant holds |
| ClassContents.Remove | src/class-content/class-content.service.ts:159-169 | NotFound unless active; otherwise only `status` is cleared |

## Left out

- Unicode NFD normalisation is not modelled, because Dafny has none. Input is taken as already decomposed, and only the combining-mark strip, the `ñ` mapping and the ASCII and character-class filters are modelled.
- `toLowerCase` is modelled on ASCII letters only (`Text.LowerAscii`), in both the slugifiers and the search. Outside ASCII, the source's full Unicode lower-casing is not captured.
- The `course.price.toString()` clause of the search is left out, because price is a floating-point column.
- `creationDate` ordering is not modelled. This covers `findAll` of categories and instructors, and the order of `findAll` in general. Those listings are modelled in table order.
- Rows with equal `positionOrder` are listed in table order. The database leaves that order unspecified.
- Timestamps, audit-history writes, the user recorded as creator, and picture or price columns are left out. No modelled rule reads them.
- The primary keys and the `uuidv4()` tombstones are parameters (`newId`, `token`), not generated values.
- Concurrency and transactions are left out. The multi-row shifts are separate awaited writes; each operation is modelled as one sequential step.
- The join table of courses and categories, and that of courses and instructors, are each modelled as a list of ids on the course row. Membership is tested on ids, so the foreign keys are assumed to hold.
- `positionOrder` is an integer here. A non-integer number sent by a client is not modelled.
- Any store failure other than the category unique columns and the course's empty description is not modelled. This includes the generic InternalServerError wrappers around saves.
- Class content types are the three enumerated values. The DTO accepts any string, and the column enum would reject other strings; that path is not modelled.
- `CourseInstructorsService.update` is not modelled: it is a plain merge and save.
- `CoursesService.findAll`, `findBySlug`, `findAllPublic`, `findPublicCoursesByCategory` and `findOnePublicBySlug` are not modelled. Their filters are the visibility and ordering rules already modelled, and they are not part of the modelled core.
- `findAll`, `findBySection` and `findByCourseId` of the class and section services, and `findAllByCourseClassId` of the class-content service, are not modelled, for the same reason.
- `CategoriesService.findAllVisibleWithCourses` is not modelled, because it relies on random ordering.
- Controllers, DTO validation, authentication and file handling are not part of this model.
- CourseSections.Update: density is promised only when the new position lies in `0..n-1` (`InRange`). The source does not check the range, and outside it the course's positions are no longer dense.
- CourseSections.Create: density is promised only for a position in `0..n`, for the same reason (`InsertBeyondEndLeavesGap`).
