/** `CourseClassesService`: classes are ordered within their section and
    carry a slug that is unique among the section's active classes. */
module CourseClasses {
  import opened Common
  import opened Text
  import opened Slugs
  import opened Store
  import Seqs
  import Ordering

  /** The row `isSlugTaken` looks for: an active class of the section that
      holds `slug` and is not the class `existingId` names. */
  predicate Holds(c: CourseClass, slug: string, sectionId: Id, existingId: Option<Id>) {
    c.slug == slug && c.status && c.sectionId == sectionId &&
    (Given(existingId) ==> c.id != existingId.value)
  }

  /** `isSlugTaken` */
  predicate IsSlugTaken(classes: seq<CourseClass>, slug: string, sectionId: Id, existingId: Option<Id>) {
    exists c :: c in classes && Holds(c, slug, sectionId, existingId)
  }

  /** The `k`-th slug `ensureUniqueSlug` tries: `base`, `base-1`, `base-2`, … */
  function Candidate(base: string, k: nat): string {
    if k == 0 then base else base + "-" + Decimal(k)
  }

  /** Every candidate before the `k`-th is taken. */
  predicate TakenBelow(classes: seq<CourseClass>, base: string, sectionId: Id, existingId: Option<Id>, k: nat) {
    forall j :: 0 <= j < k ==> IsSlugTaken(classes, Candidate(base, j), sectionId, existingId)
  }

  /** Candidate `k` is free and every earlier candidate is taken. */
  predicate FirstFreeAt(classes: seq<CourseClass>, base: string, sectionId: Id, existingId: Option<Id>, k: nat) {
    !IsSlugTaken(classes, Candidate(base, k), sectionId, existingId) &&
    TakenBelow(classes, base, sectionId, existingId, k)
  }

  /** No two active classes of one section share a slug. */
  predicate SlugsUniqueInSection(classes: seq<CourseClass>) {
    forall i, j ::
      (0 <= i < |classes| && 0 <= j < |classes| && i != j &&
       classes[i].status && classes[j].status && classes[i].sectionId == classes[j].sectionId) ==>
      classes[i].slug != classes[j].slug
  }

  function MaxSlugLength(classes: seq<CourseClass>): (r: nat)
    ensures forall c :: c in classes ==> |c.slug| <= r
  {
    if classes == [] then 0
    else
      var rest := MaxSlugLength(classes[1..]);
      assert forall c :: c in classes ==> c == classes[0] || c in classes[1..];
      if |classes[0].slug| > rest then |classes[0].slug| else rest
  }

  lemma CandidateTooLong(base: string, k: nat, m: nat)
    requires k >= 1 && k >= Pow10(m)
    ensures |Candidate(base, k)| > m
  {
    DecimalLength(k, m);
  }

  /** A slug longer than every slug of the table is free. */
  lemma LongSlugFree(classes: seq<CourseClass>, slug: string, sectionId: Id, existingId: Option<Id>)
    requires |slug| > MaxSlugLength(classes)
    ensures !IsSlugTaken(classes, slug, sectionId, existingId)
  {
  }

  /** A taken candidate has fewer digits than the longest slug of the
      table, which bounds the probe. */
  lemma ProbeBounded(classes: seq<CourseClass>, base: string, sectionId: Id, existingId: Option<Id>, k: nat)
    requires IsSlugTaken(classes, Candidate(base, k), sectionId, existingId)
    ensures k < Pow10(MaxSlugLength(classes))
  {
    var m := MaxSlugLength(classes);
    if k >= Pow10(m) {
      CandidateTooLong(base, k, m);
      LongSlugFree(classes, Candidate(base, k), sectionId, existingId);
    }
  }

  lemma TakenBelowStep(classes: seq<CourseClass>, base: string, sectionId: Id, existingId: Option<Id>, k: nat)
    requires TakenBelow(classes, base, sectionId, existingId, k)
    requires IsSlugTaken(classes, Candidate(base, k), sectionId, existingId)
    ensures TakenBelow(classes, base, sectionId, existingId, k + 1)
  {
  }

  /** `ensureUniqueSlug`: probes `base`, `base-1`, … and returns the first
      candidate no other active class of the section holds. */
  method EnsureUniqueSlug(classes: seq<CourseClass>, base: string, sectionId: Id, existingId: Option<Id>)
    returns (slug: string)
    ensures !IsSlugTaken(classes, slug, sectionId, existingId)
    ensures exists k: nat :: slug == Candidate(base, k) && FirstFreeAt(classes, base, sectionId, existingId, k)
  {
    ghost var m := MaxSlugLength(classes);
    ghost var bound := Pow10(m);
    slug := base;
    var counter: nat := 1;
    while IsSlugTaken(classes, slug, sectionId, existingId)
      invariant counter >= 1 && slug == Candidate(base, counter - 1)
      invariant counter <= bound + 1
      invariant TakenBelow(classes, base, sectionId, existingId, counter - 1)
      decreases bound + 1 - counter
    {
      ProbeBounded(classes, base, sectionId, existingId, counter - 1);
      TakenBelowStep(classes, base, sectionId, existingId, counter - 1);
      slug := Candidate(base, counter);
      counter := counter + 1;
    }
    assert FirstFreeAt(classes, base, sectionId, existingId, counter - 1);
  }

  /** The probe's answer is determined by the table: at most one candidate
      is the first free one. */
  lemma FirstFreeUnique(classes: seq<CourseClass>, base: string, sectionId: Id, existingId: Option<Id>, k1: nat, k2: nat)
    requires FirstFreeAt(classes, base, sectionId, existingId, k1)
    requires FirstFreeAt(classes, base, sectionId, existingId, k2)
    ensures k1 == k2
  {
  }

  /** A second class titled like an existing one gets the suffix `-1` when
      that is free: `intro` then `intro-1`. */
  lemma SecondGetsSuffix(classes: seq<CourseClass>, base: string, sectionId: Id, existingId: Option<Id>)
    requires IsSlugTaken(classes, base, sectionId, existingId)
    requires !IsSlugTaken(classes, base + "-1", sectionId, existingId)
    ensures Candidate(base, 1) == base + "-1"
    ensures FirstFreeAt(classes, base, sectionId, existingId, 1)
  {
    assert Decimal(1) == "1";
  }

  /** The row `findOne` returns as an index into the table. */
  function FindActive(classes: seq<CourseClass>, id: Id): (r: Option<nat>)
    ensures r.Some? ==> r.value < |classes| && classes[r.value].id == id && classes[r.value].status
    ensures r.None? <==> forall i :: 0 <= i < |classes| ==> !(classes[i].id == id && classes[i].status)
  {
    Seqs.FindFirst(classes, (x: CourseClass) => x.id == id && x.status)
  }

  /** `findOne`: the active class with this id, or NotFound. */
  function FindOne(classes: seq<CourseClass>, id: Id): (r: Result<CourseClass>)
    ensures r.Ok? <==> exists c :: c in classes && c.id == id && c.status
    ensures r.Ok? ==> r.value in classes && r.value.id == id && r.value.status
    ensures r.Err? ==> r.error == NotFound
  {
    match FindActive(classes, id)
      case None => Err(NotFound)
      case Some(k) => Ok(classes[k])
  }

  /** `reorderClasses`: the section's active classes, listed by position,
      get the positions 0, 1, 2, … in that order. */
  method ReorderClasses(db: Database, sectionId: Id)
    requires db.Valid()
    modifies db`classes
    ensures db.Valid()
    ensures db.classes == WithClassPositions(old(db.classes),
      Ordering.Renumbered(ClassPositions(old(db.classes)), ClassMask(old(db.classes), sectionId)))
  {
    ghost var t0 := db.classes;
    var pos0 := ClassPositions(db.classes);
    var o := Ordering.SortedMembers(pos0, ClassMask(db.classes, sectionId));
    ClassOwnPositions(t0);
    for a := 0 to |o|
      invariant db.classes == WithClassPositions(t0, Ordering.Assign(pos0, o, a))
    {
      ClassAssignStep(t0, pos0, o, a);
      db.classes := db.classes[o[a] := db.classes[o[a]].(positionOrder := a)];
    }
    ClassIdsWith(t0, Ordering.Assign(pos0, o, |o|));
  }

  /** Appending an active class at the end of its section, with a slug no
      active sibling holds, keeps both table invariants. */
  lemma AppendKeepsInvariants(t0: seq<CourseClass>, c: CourseClass)
    requires c.status && c.positionOrder == Ordering.Count(ClassMask(t0, c.sectionId))
    requires !IsSlugTaken(t0, c.slug, c.sectionId, None)
    ensures ClassesDense(t0) ==> ClassesDense(t0 + [c])
    ensures SlugsUniqueInSection(t0) ==> SlugsUniqueInSection(t0 + [c])
  {
    if ClassesDense(t0) {
      forall sid
        ensures Ordering.Dense(ClassPositions(t0 + [c]), ClassMask(t0 + [c], sid))
      {
        ClassProjectionsAppend(t0, c, sid);
        if sid == c.sectionId {
          Ordering.AppendDense(ClassPositions(t0), ClassMask(t0, sid));
        } else {
          Ordering.AppendOutside(ClassPositions(t0), ClassMask(t0, sid), c.positionOrder);
        }
      }
    }
    if SlugsUniqueInSection(t0) {
      forall i | 0 <= i < |t0| && t0[i].status && t0[i].sectionId == c.sectionId
        ensures t0[i].slug != c.slug
      {
        assert !Holds(t0[i], c.slug, c.sectionId, None);
      }
    }
  }

  /** Rewriting the texts of class `k` with a slug no other active sibling
      holds keeps both table invariants. */
  lemma ReplaceKeepsInvariants(t0: seq<CourseClass>, k: nat, u: CourseClass)
    requires k < |t0| && ClassIdsUnique(t0)
    requires u.id == t0[k].id && u.status == t0[k].status && u.sectionId == t0[k].sectionId
    requires u.positionOrder == t0[k].positionOrder
    requires !IsSlugTaken(t0, u.slug, u.sectionId, Some(u.id))
    ensures ClassesDense(t0) ==> ClassesDense(t0[k := u])
    ensures SlugsUniqueInSection(t0) ==> SlugsUniqueInSection(t0[k := u])
  {
    var t1 := t0[k := u];
    assert ClassPositions(t1) == ClassPositions(t0);
    assert forall sid :: ClassMask(t1, sid) == ClassMask(t0, sid);
    if SlugsUniqueInSection(t0) {
      forall i | 0 <= i < |t0| && i != k && t0[i].status && t0[i].sectionId == u.sectionId
        ensures t0[i].slug != u.slug
      {
        assert t0[i] in t0 && !Holds(t0[i], u.slug, u.sectionId, Some(u.id));
      }
    }
  }

  /** The table after the soft delete and the renumbering of `remove`. */
  function ClassesReordered(t1: seq<CourseClass>, sectionId: Id): (r: seq<CourseClass>)
    ensures |r| == |t1|
  {
    WithClassPositions(t1, Ordering.Renumbered(ClassPositions(t1), ClassMask(t1, sectionId)))
  }

  lemma RemoveProjections(t0: seq<CourseClass>, k: nat, token: string)
    requires k < |t0| && t0[k].status
    ensures
      var t1 := SoftDeleted(t0, k, token);
      var sid := t0[k].sectionId;
      ClassPositions(t1) == ClassPositions(t0) &&
      ClassMask(t1, sid) == ClassMask(t0, sid)[k := false] &&
      (forall sid' :: sid' != sid ==> ClassMask(t1, sid') == ClassMask(t0, sid'))
  {
    var t1 := SoftDeleted(t0, k, token);
    var sid := t0[k].sectionId;
    assert ClassPositions(t1) == ClassPositions(t0);
    assert ClassMask(t1, sid) == ClassMask(t0, sid)[k := false];
    forall sid' | sid' != sid
      ensures ClassMask(t1, sid') == ClassMask(t0, sid')
    {
      assert ClassMask(t1, sid') == ClassMask(t0, sid');
    }
  }

  lemma RemoveKeepsDense(t0: seq<CourseClass>, k: nat, token: string)
    requires k < |t0| && t0[k].status && ClassesDense(t0)
    ensures ClassesDense(ClassesReordered(SoftDeleted(t0, k, token), t0[k].sectionId))
  {
    RemoveProjections(t0, k, token);
    var t1 := SoftDeleted(t0, k, token);
    var sid := t0[k].sectionId;
    var pos := ClassPositions(t0);
    var newPos := Ordering.Renumbered(pos, ClassMask(t1, sid));
    var t2 := WithClassPositions(t1, newPos);
    ClassProjectionsWith(t1, newPos, sid);
    Ordering.RenumberDense(pos, ClassMask(t1, sid));
    forall sid' | sid' != sid
      ensures Ordering.Dense(ClassPositions(t2), ClassMask(t2, sid'))
    {
      ClassProjectionsWith(t1, newPos, sid');
      Ordering.DenseFrame(pos, newPos, ClassMask(t0, sid'));
    }
  }

  lemma RemoveShifts(t0: seq<CourseClass>, k: nat, token: string)
    requires k < |t0| && t0[k].status && ClassesDense(t0)
    ensures
      var sid := t0[k].sectionId;
      var t2 := ClassesReordered(SoftDeleted(t0, k, token), sid);
      forall i :: 0 <= i < |t0| && i != k && t0[i].status && t0[i].sectionId == sid ==>
        t2[i].positionOrder ==
          if t0[i].positionOrder < t0[k].positionOrder then t0[i].positionOrder else t0[i].positionOrder - 1
  {
    RemoveProjections(t0, k, token);
    var t1 := SoftDeleted(t0, k, token);
    var sid := t0[k].sectionId;
    var pos := ClassPositions(t0);
    ClassProjectionsWith(t1, Ordering.Renumbered(pos, ClassMask(t1, sid)), sid);
    Ordering.RenumberAfterRemoval(pos, ClassMask(t0, sid), k);
  }

  lemma RemoveKeepsSlugs(t0: seq<CourseClass>, k: nat, token: string)
    requires k < |t0| && t0[k].status
    requires forall c :: c in t0 ==> c.slug != token
    requires SlugsUniqueInSection(t0)
    ensures
      var sid := t0[k].sectionId;
      var t2 := ClassesReordered(SoftDeleted(t0, k, token), sid);
      SlugsUniqueInSection(t2) && !IsSlugTaken(t2, t0[k].slug, sid, None)
  {
    RemoveProjections(t0, k, token);
    var t1 := SoftDeleted(t0, k, token);
    var sid := t0[k].sectionId;
    var newPos := Ordering.Renumbered(ClassPositions(t0), ClassMask(t1, sid));
    var t2 := WithClassPositions(t1, newPos);
    ClassProjectionsWith(t1, newPos, sid);
    forall c | c in t2
      ensures !Holds(c, t0[k].slug, sid, None)
    {
      var i :| 0 <= i < |t2| && t2[i] == c;
      if i != k {
        assert t2[i].slug == t0[i].slug && t2[i].status == t0[i].status;
      }
    }
  }

  /** Soft-deleting class `k` and renumbering its section keeps both table
      invariants, closes the gap it leaves, and frees its slug. */
  lemma RemoveKeepsInvariants(t0: seq<CourseClass>, k: nat, token: string)
    requires k < |t0| && t0[k].status
    requires forall c :: c in t0 ==> c.slug != token
    ensures
      var t1 := SoftDeleted(t0, k, token);
      var sid := t0[k].sectionId;
      var t2 := ClassesReordered(t1, sid);
      (ClassesDense(t0) ==> ClassesDense(t2)) &&
      (SlugsUniqueInSection(t0) ==> SlugsUniqueInSection(t2)) &&
      (SlugsUniqueInSection(t0) ==> !IsSlugTaken(t2, t0[k].slug, sid, None)) &&
      (ClassesDense(t0) ==>
        forall i :: 0 <= i < |t0| && i != k && t0[i].status && t0[i].sectionId == sid ==>
          t2[i].positionOrder ==
            if t0[i].positionOrder < t0[k].positionOrder then t0[i].positionOrder else t0[i].positionOrder - 1)
  {
    if ClassesDense(t0) {
      RemoveKeepsDense(t0, k, token);
      RemoveShifts(t0, k, token);
    }
    if SlugsUniqueInSection(t0) {
      RemoveKeepsSlugs(t0, k, token);
    }
  }


  /** Moving class `k` to an in-range position keeps both table invariants. */
  lemma MoveKeepsInvariants(t0: seq<CourseClass>, k: nat, newOrder: int)
    requires k < |t0| && t0[k].status
    requires 0 <= newOrder < Ordering.Count(ClassMask(t0, t0[k].sectionId))
    ensures
      var t1 := WithClassPositions(t0, Ordering.Move(ClassPositions(t0), ClassMask(t0, t0[k].sectionId), k, newOrder));
      (ClassesDense(t0) ==> ClassesDense(t1)) &&
      (SlugsUniqueInSection(t0) ==> SlugsUniqueInSection(t1))
  {
    var sid := t0[k].sectionId;
    var pos := ClassPositions(t0);
    var mask := ClassMask(t0, sid);
    var newPos := Ordering.Move(pos, mask, k, newOrder);
    ClassProjectionsWith(t0, newPos, sid);
    if ClassesDense(t0) {
      Ordering.MoveDense(pos, mask, k, newOrder);
      forall sid' | sid' != sid
        ensures Ordering.Dense(ClassPositions(WithClassPositions(t0, newPos)), ClassMask(WithClassPositions(t0, newPos), sid'))
      {
        ClassProjectionsWith(t0, newPos, sid');
        Ordering.DenseFrame(pos, newPos, ClassMask(t0, sid'));
      }
    }
  }

  /** The `save` of a new class row. */
  method AppendClass(db: Database, c: CourseClass)
    requires db.Valid()
    requires forall x :: x in db.classes ==> x.id != c.id
    requires c.status && c.positionOrder == Ordering.Count(ClassMask(db.classes, c.sectionId))
    requires !IsSlugTaken(db.classes, c.slug, c.sectionId, None)
    modifies db`classes
    ensures db.Valid()
    ensures db.classes == old(db.classes) + [c]
    ensures old(ClassesDense(db.classes)) ==> ClassesDense(db.classes)
    ensures old(SlugsUniqueInSection(db.classes)) ==> SlugsUniqueInSection(db.classes)
  {
    AppendKeepsInvariants(db.classes, c);
    db.classes := db.classes + [c];
  }

  /** What `create` stores: an active class of the section, at the end of
      the section, with sanitised texts and the first free slug. */
  ghost predicate CreatedClass(classes: seq<CourseClass>, sectionId: Id, title: string, description: string,
                         newId: Id, c: CourseClass)
  {
    var base := ClassSlugBase(SanitizeWord(title));
    c.id == newId && c.status && c.sectionId == sectionId &&
    c.title == SanitizeWord(title) && c.description == SanitizeWord(description) &&
    c.positionOrder == Ordering.Count(ClassMask(classes, sectionId)) &&
    exists k: nat :: c.slug == Candidate(base, k) && FirstFreeAt(classes, base, sectionId, None, k)
  }

  /** The row `create` builds from a snapshot of the classes table. */
  method NewClass(classes: seq<CourseClass>, sectionId: Id, title: string, description: string, newId: Id)
    returns (c: CourseClass)
    ensures CreatedClass(classes, sectionId, title, description, newId, c)
    ensures c.id == newId && c.status && c.sectionId == sectionId
    ensures c.positionOrder == Ordering.Count(ClassMask(classes, sectionId))
    ensures !IsSlugTaken(classes, c.slug, sectionId, None)
  {
    var newPositionOrder := Ordering.Count(ClassMask(classes, sectionId));
    var sanitizedTitle := SanitizeWord(title);
    var sanitizedDescription := SanitizeWord(description);
    var slug := EnsureUniqueSlug(classes, ClassSlugBase(sanitizedTitle), sectionId, None);
    c := CourseClass(newId, true, sanitizedTitle, sanitizedDescription, slug, sectionId, newPositionOrder);
  }

  /** `create` */
  method Create(db: Database, sectionId: Id, title: string, description: string, newId: Id)
    returns (r: Result<CourseClass>)
    requires db.Valid()
    requires forall c :: c in db.classes ==> c.id != newId
    modifies db`classes
    ensures db.Valid()
    ensures r.Err? <==> !SectionActive(old(db.sections), sectionId)
    ensures r.Err? ==> r.error == NotFound && db.classes == old(db.classes)
    ensures r.Ok? ==> db.classes == old(db.classes) + [r.value]
    ensures r.Ok? ==> CreatedClass(old(db.classes), sectionId, title, description, newId, r.value)
    ensures old(ClassesDense(db.classes)) ==> ClassesDense(db.classes)
    ensures old(SlugsUniqueInSection(db.classes)) ==> SlugsUniqueInSection(db.classes)
  {
    if !SectionActive(db.sections, sectionId) {
      return Err(NotFound);
    }
    var c := NewClass(db.classes, sectionId, title, description, newId);
    AppendClass(db, c);
    r := Ok(c);
  }

  /** The `save` of class `k` with new texts. */
  method ReplaceClass(db: Database, k: nat, u: CourseClass)
    requires db.Valid() && k < |db.classes|
    requires u.id == db.classes[k].id && u.status == db.classes[k].status
    requires u.sectionId == db.classes[k].sectionId && u.positionOrder == db.classes[k].positionOrder
    requires !IsSlugTaken(db.classes, u.slug, u.sectionId, Some(u.id))
    modifies db`classes
    ensures db.Valid()
    ensures db.classes == old(db.classes)[k := u]
    ensures old(ClassesDense(db.classes)) ==> ClassesDense(db.classes)
    ensures old(SlugsUniqueInSection(db.classes)) ==> SlugsUniqueInSection(db.classes)
  {
    ReplaceKeepsInvariants(db.classes, k, u);
    db.classes := db.classes[k := u];
  }

  /** The title `update` keeps: the sanitised new one if given. */
  function UpdatedTitle(c: CourseClass, title: Option<string>): string {
    if Given(title) then SanitizeWord(title.value) else c.title
  }

  /** The description `update` keeps: the sanitised new one if given. */
  function UpdatedDescription(c: CourseClass, description: Option<string>): string {
    if Given(description) then SanitizeWord(description.value) else c.description
  }

  /** The slug base `update` always regenerates: from the given slug, or
      else from the (possibly new) title. */
  function UpdatedSlugBase(c: CourseClass, title: Option<string>, slug: Option<string>): string {
    ClassSlugBase(if Given(slug) then slug.value else UpdatedTitle(c, title))
  }

  /** What `update` stores: the class with those texts and the first free
      slug for that base, the class itself excluded from the collision check. */
  ghost predicate UpdatedClass(classes: seq<CourseClass>, c: CourseClass, title: Option<string>,
                               description: Option<string>, slug: Option<string>, u: CourseClass)
  {
    var base := UpdatedSlugBase(c, title, slug);
    u == c.(title := UpdatedTitle(c, title), description := UpdatedDescription(c, description), slug := u.slug) &&
    exists k: nat :: u.slug == Candidate(base, k) && FirstFreeAt(classes, base, c.sectionId, Some(c.id), k)
  }

  /** `update` */
  method Update(db: Database, id: Id, title: Option<string>, description: Option<string>, slug: Option<string>)
    returns (r: Result<CourseClass>)
    requires db.Valid()
    modifies db`classes
    ensures db.Valid()
    ensures r.Err? <==> FindActive(old(db.classes), id).None?
    ensures r.Err? ==> r.error == NotFound && db.classes == old(db.classes)
    ensures r.Ok? ==>
      var k := FindActive(old(db.classes), id).value;
      db.classes == old(db.classes)[k := r.value] &&
      UpdatedClass(old(db.classes), old(db.classes)[k], title, description, slug, r.value)
    ensures old(ClassesDense(db.classes)) ==> ClassesDense(db.classes)
    ensures old(SlugsUniqueInSection(db.classes)) ==> SlugsUniqueInSection(db.classes)
  {
    var found := FindActive(db.classes, id);
    if found.None? {
      return Err(NotFound);
    }
    ghost var t0 := db.classes;
    var k := found.value;
    var c := db.classes[k];
    var newSlug := EnsureUniqueSlug(db.classes, UpdatedSlugBase(c, title, slug), c.sectionId, Some(id));
    var u := c.(title := UpdatedTitle(c, title), description := UpdatedDescription(c, description), slug := newSlug);
    ReplaceClass(db, k, u);
    r := Ok(u);
  }

  /** The soft delete: inactive, slug replaced by a fresh token. */
  function SoftDeleted(classes: seq<CourseClass>, k: nat, token: string): (r: seq<CourseClass>)
    requires k < |classes|
    ensures |r| == |classes|
  {
    classes[k := classes[k].(status := false, slug := token)]
  }

  /** `remove` */
  method Remove(db: Database, id: Id, token: string) returns (r: Result<()>)
    requires db.Valid()
    requires forall c :: c in db.classes ==> c.slug != token
    modifies db`classes
    ensures db.Valid()
    ensures r.Err? <==> FindActive(old(db.classes), id).None?
    ensures r.Err? ==> r.error == NotFound && db.classes == old(db.classes)
    ensures r.Ok? ==>
      var k := FindActive(old(db.classes), id).value;
      var t1 := SoftDeleted(old(db.classes), k, token);
      db.classes == ClassesReordered(t1, t1[k].sectionId)
    ensures r.Ok? && old(ClassesDense(db.classes)) ==>
      var t0 := old(db.classes);
      var k := FindActive(t0, id).value;
      forall i :: 0 <= i < |t0| && i != k && t0[i].status && t0[i].sectionId == t0[k].sectionId ==>
        db.classes[i].positionOrder ==
          if t0[i].positionOrder < t0[k].positionOrder then t0[i].positionOrder else t0[i].positionOrder - 1
    ensures old(ClassesDense(db.classes)) ==> ClassesDense(db.classes)
    ensures old(SlugsUniqueInSection(db.classes)) ==> SlugsUniqueInSection(db.classes)
    ensures r.Ok? && old(SlugsUniqueInSection(db.classes)) ==>
      var t0 := old(db.classes);
      var k := FindActive(t0, id).value;
      !IsSlugTaken(db.classes, t0[k].slug, t0[k].sectionId, None)
  {
    var found := FindActive(db.classes, id);
    if found.None? {
      return Err(NotFound);
    }
    ghost var t0 := db.classes;
    var k := found.value;
    var sid := db.classes[k].sectionId;
    db.classes := SoftDeleted(db.classes, k, token);
    ghost var t1 := db.classes;
    assert ClassIdsUnique(t1) by {
      forall i, j | 0 <= i < j < |t1|
        ensures t1[i].id != t1[j].id
      {
        assert t1[i].id == t0[i].id && t1[j].id == t0[j].id;
      }
    }
    ReorderClasses(db, sid);
    r := Ok(());
    RemoveKeepsInvariants(t0, k, token);
  }

  /** `updateOrder` */
  method UpdateOrder(db: Database, id: Id, newOrder: int) returns (r: Result<CourseClass>)
    requires db.Valid()
    modifies db`classes
    ensures db.Valid()
    ensures FindActive(old(db.classes), id).None? ==> r == Err(NotFound) && db.classes == old(db.classes)
    ensures FindActive(old(db.classes), id).Some? ==>
      var t0 := old(db.classes);
      var k := FindActive(t0, id).value;
      var mask := ClassMask(t0, t0[k].sectionId);
      if newOrder < 0 || newOrder >= Ordering.Count(mask) then
        r == Err(Conflict) && db.classes == t0
      else
        r.Ok? && db.classes == WithClassPositions(t0, Ordering.Move(ClassPositions(t0), mask, k, newOrder)) &&
        r.value == db.classes[k]
    ensures old(ClassesDense(db.classes)) ==> ClassesDense(db.classes)
    ensures old(SlugsUniqueInSection(db.classes)) ==> SlugsUniqueInSection(db.classes)
  {
    var found := FindActive(db.classes, id);
    if found.None? {
      return Err(NotFound);
    }
    ghost var t0 := db.classes;
    var k := found.value;
    var sid := db.classes[k].sectionId;
    var mask := ClassMask(db.classes, sid);
    var totalClasses := Ordering.Count(mask);
    if newOrder < 0 || newOrder >= totalClasses {
      return Err(Conflict);
    }
    var pos := ClassPositions(db.classes);
    var newPos := Ordering.Move(pos, mask, k, newOrder);
    db.classes := WithClassPositions(db.classes, newPos);
    r := Ok(db.classes[k]);
    MoveKeepsInvariants(t0, k, newOrder);
  }
}
