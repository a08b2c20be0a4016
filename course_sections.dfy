/** `CourseSectionsService`: sections are ordered within their course and
    carry a slug unique among all active sections. */
module CourseSections {
  import opened Common
  import opened Seqs
  import opened Text
  import opened Slugs
  import opened Store
  import Ordering

  /** `validateUniqueSlug`: Conflict exactly when an active section other
      than `exceptId` already holds the slug, in any course. */
  function ValidateUniqueSlug(sections: seq<Section>, slug: string, exceptId: Option<Id>): (r: Result<()>)
    ensures r.Err? <==> exists s :: s in sections && s.slug == slug && s.status &&
                                    (Given(exceptId) ==> s.id != exceptId.value)
    ensures r.Err? ==> r.error == Conflict
  {
    match FindFirst(sections, (s: Section) => s.slug == slug && s.status && (Given(exceptId) ==> s.id != exceptId.value))
      case Some(_) => Err(Conflict)
      case None => Ok(())
  }

  /** No two active sections share a slug. */
  predicate SlugsUnique(sections: seq<Section>) {
    forall i, j ::
      (0 <= i < |sections| && 0 <= j < |sections| && i != j && sections[i].status && sections[j].status)
      ==> sections[i].slug != sections[j].slug
  }

  /** The row `findOne` returns, as an index into the table. */
  function FindActive(sections: seq<Section>, id: Id): (r: Option<nat>)
    ensures r.Some? ==> r.value < |sections| && sections[r.value].id == id && sections[r.value].status
    ensures r.None? <==> forall i :: 0 <= i < |sections| ==> !(sections[i].id == id && sections[i].status)
  {
    FindFirst(sections, (x: Section) => x.id == id && x.status)
  }

  /** `findOne`: the active section with this id, or NotFound. */
  function FindOne(sections: seq<Section>, id: Id): (r: Result<Section>)
    ensures r.Ok? <==> exists s :: s in sections && s.id == id && s.status
    ensures r.Ok? ==> r.value in sections && r.value.id == id && r.value.status
    ensures r.Err? ==> r.error == NotFound
  {
    match FindActive(sections, id)
      case None => Err(NotFound)
      case Some(k) => Ok(sections[k])
  }

  /** `reorderSections`: the course's active sections, listed by position,
      get the positions 0, 1, 2, … in that order. */
  method ReorderSections(db: Database, courseId: Id)
    requires db.Valid()
    modifies db`sections
    ensures db.Valid()
    ensures db.sections == WithSectionPositions(old(db.sections),
      Ordering.Renumbered(SectionPositions(old(db.sections)), SectionMask(old(db.sections), courseId)))
  {
    ghost var t0 := db.sections;
    var pos0 := SectionPositions(db.sections);
    var o := Ordering.SortedMembers(pos0, SectionMask(db.sections, courseId));
    SectionOwnPositions(t0);
    for a := 0 to |o|
      invariant db.sections == WithSectionPositions(t0, Ordering.Assign(pos0, o, a))
    {
      SectionAssignStep(t0, pos0, o, a);
      db.sections := db.sections[o[a] := db.sections[o[a]].(positionOrder := a)];
    }
    SectionIdsWith(t0, Ordering.Assign(pos0, o, |o|));
  }

  /** The `for..of` loop of `create`: every active sibling at or after `p`
      moves one place down. */
  method ShiftForInsert(db: Database, courseId: Id, p: int)
    modifies db`sections
    ensures db.sections == WithSectionPositions(old(db.sections),
      Ordering.ShiftFrom(SectionPositions(old(db.sections)), SectionMask(old(db.sections), courseId), p))
  {
    var snapshot := db.sections;
    var pos0 := SectionPositions(snapshot);
    var mask := SectionMask(snapshot, courseId);
    var o := Ordering.SortedMembers(pos0, mask);
    ghost var target := Ordering.ShiftFrom(pos0, mask, p);
    Ordering.RankedDistinct(pos0, o);
    for a := 0 to |o|
      invariant |db.sections| == |snapshot|
      invariant forall i :: 0 <= i < |snapshot| ==>
        db.sections[i] == snapshot[i].(positionOrder := if i in o[..a] then target[i] else pos0[i])
    {
      assert o[..a + 1] == o[..a] + [o[a]];
      assert o[a] !in o[..a];
      var s := snapshot[o[a]];
      if s.positionOrder >= p {
        db.sections := db.sections[o[a] := db.sections[o[a]].(positionOrder := s.positionOrder + 1)];
      }
    }
    assert o[..|o|] == o;
  }

  /** The shifting loops of `update`: moving section `k` from `old` to `t`,
      the other active siblings in `[t, old)` move down by one, or those in
      `(old, t]` move up by one. Section `k` itself is not written here. */
  method ShiftForMove(db: Database, k: nat, t: int)
    requires k < |db.sections| && SectionIdsUnique(db.sections)
    modifies db`sections
    ensures
      var pos := SectionPositions(old(db.sections));
      var mask := SectionMask(old(db.sections), old(db.sections)[k].courseId);
      db.sections == WithSectionPositions(old(db.sections), Ordering.Move(pos, mask, k, t)[k := pos[k]])
  {
    var snapshot := db.sections;
    var id := snapshot[k].id;
    var oldOrder := snapshot[k].positionOrder;
    var pos0 := SectionPositions(snapshot);
    var mask := SectionMask(snapshot, snapshot[k].courseId);
    var o := Ordering.SortedMembers(pos0, mask);
    ghost var target := Ordering.Move(pos0, mask, k, t)[k := pos0[k]];
    Ordering.RankedDistinct(pos0, o);
    for a := 0 to |o|
      invariant |db.sections| == |snapshot|
      invariant forall i :: 0 <= i < |snapshot| ==>
        db.sections[i] == snapshot[i].(positionOrder := if i in o[..a] then target[i] else pos0[i])
    {
      assert o[..a + 1] == o[..a] + [o[a]];
      assert o[a] !in o[..a];
      var s := snapshot[o[a]];
      assert s.id != id <==> o[a] != k;
      assert mask[o[a]] && pos0[o[a]] == s.positionOrder && pos0[k] == oldOrder;
      assert target[o[a]] ==
        if s.id == id then s.positionOrder
        else if t < oldOrder && t <= s.positionOrder < oldOrder then s.positionOrder + 1
        else if oldOrder < t && oldOrder < s.positionOrder <= t then s.positionOrder - 1
        else s.positionOrder;
      if t < oldOrder {
        if s.positionOrder >= t && s.positionOrder < oldOrder && s.id != id {
          db.sections := db.sections[o[a] := db.sections[o[a]].(positionOrder := s.positionOrder + 1)];
        }
      } else if t > oldOrder {
        if s.positionOrder > oldOrder && s.positionOrder <= t && s.id != id {
          db.sections := db.sections[o[a] := db.sections[o[a]].(positionOrder := s.positionOrder - 1)];
        }
      }
    }
    assert o[..|o|] == o;
  }

  /** The sibling positions `create` leaves before appending: with a
      requested position `p`, every active sibling at or after `p` moved
      down by one. */
  function ShiftedPositions(t0: seq<Section>, courseId: Id, p: Option<int>): (r: seq<int>)
    ensures |r| == |t0|
  {
    if p.Some? then Ordering.ShiftFrom(SectionPositions(t0), SectionMask(t0, courseId), p.value)
    else SectionPositions(t0)
  }

  /** The table `create` leaves: the siblings shifted, then the new row
      appended. */
  function Inserted(t0: seq<Section>, c: Section, p: Option<int>): (r: seq<Section>)
    ensures |r| == |t0| + 1 && r[|t0|] == c
  {
    WithSectionPositions(t0, ShiftedPositions(t0, c.courseId, p)) + [c]
  }

  /** The projections of the table `create` leaves. */
  lemma InsertedProjections(t0: seq<Section>, c: Section, p: Option<int>, cid: Id)
    ensures SectionPositions(Inserted(t0, c, p)) == ShiftedPositions(t0, c.courseId, p) + [c.positionOrder]
    ensures SectionMask(Inserted(t0, c, p), cid) == SectionMask(t0, cid) + [c.status && c.courseId == cid]
  {
    var shifted := ShiftedPositions(t0, c.courseId, p);
    var ts := WithSectionPositions(t0, shifted);
    SectionProjectionsWith(t0, shifted, cid);
    SectionProjectionsAppend(ts, c, cid);
  }

  /** `create` at a position in `[0, n]` (or at the end) keeps every
      course's sections densely numbered. */
  lemma InsertKeepsDense(t0: seq<Section>, c: Section, p: Option<int>)
    requires c.status
    requires c.positionOrder == if p.Some? then p.value else Ordering.Count(SectionMask(t0, c.courseId))
    requires SectionsDense(t0) && (p.Some? ==> 0 <= p.value <= Ordering.Count(SectionMask(t0, c.courseId)))
    ensures SectionsDense(Inserted(t0, c, p))
  {
    var pos := SectionPositions(t0);
    var mask := SectionMask(t0, c.courseId);
    var shifted := ShiftedPositions(t0, c.courseId, p);
    var t1 := Inserted(t0, c, p);
    forall cid
      ensures Ordering.Dense(SectionPositions(t1), SectionMask(t1, cid))
    {
      InsertedProjections(t0, c, p, cid);
      if cid == c.courseId {
        if p.Some? {
          Ordering.InsertDense(pos, mask, p.value);
        } else {
          Ordering.AppendDense(pos, mask);
        }
      } else {
        Ordering.DenseFrame(pos, shifted, SectionMask(t0, cid));
        Ordering.AppendOutside(shifted, SectionMask(t0, cid), c.positionOrder);
      }
    }
  }

  /** `create` with a slug no active section holds keeps active slugs
      unique. */
  lemma InsertKeepsSlugs(t0: seq<Section>, c: Section, p: Option<int>)
    requires ValidateUniqueSlug(t0, c.slug, None).Ok?
    requires SlugsUnique(t0)
    ensures SlugsUnique(Inserted(t0, c, p))
  {
    forall i | 0 <= i < |t0| && t0[i].status
      ensures t0[i].slug != c.slug
    {
      assert t0[i] in t0;
    }
  }

  /** `create` keeps the siblings' relative order and the side of the new
      position each lies on. */
  lemma InsertKeepsOrder(t0: seq<Section>, c: Section, p: Option<int>)
    ensures forall i, j ::
      (0 <= i < |t0| && 0 <= j < |t0| && t0[i].status && t0[j].status &&
       t0[i].courseId == c.courseId && t0[j].courseId == c.courseId) ==>
        (Inserted(t0, c, p)[i].positionOrder < Inserted(t0, c, p)[j].positionOrder <==> t0[i].positionOrder < t0[j].positionOrder)
    ensures p.Some? ==> forall i :: 0 <= i < |t0| && t0[i].status && t0[i].courseId == c.courseId ==>
      (Inserted(t0, c, p)[i].positionOrder < p.value <==> t0[i].positionOrder < p.value)
  {
    var pos := SectionPositions(t0);
    var mask := SectionMask(t0, c.courseId);
    var shifted := ShiftedPositions(t0, c.courseId, p);
    var t1 := Inserted(t0, c, p);
    assert forall i :: 0 <= i < |t0| ==> t1[i].positionOrder == shifted[i];
    if p.Some? {
      Ordering.InsertKeepsOrder(pos, mask, p.value);
    }
  }

  /** `create` at a position in `[0, n]` (or at the end) keeps the course's
      sections densely numbered, keeps the siblings' relative order and the
      side of the new position each lies on, and keeps active slugs unique. */
  lemma InsertKeepsInvariants(t0: seq<Section>, c: Section, p: Option<int>)
    requires c.status
    requires c.positionOrder == if p.Some? then p.value else Ordering.Count(SectionMask(t0, c.courseId))
    requires ValidateUniqueSlug(t0, c.slug, None).Ok?
    ensures SectionsDense(t0) && (p.Some? ==> 0 <= p.value <= Ordering.Count(SectionMask(t0, c.courseId))) ==>
      SectionsDense(Inserted(t0, c, p))
    ensures SlugsUnique(t0) ==> SlugsUnique(Inserted(t0, c, p))
    ensures forall i, j ::
      (0 <= i < |t0| && 0 <= j < |t0| && t0[i].status && t0[j].status &&
       t0[i].courseId == c.courseId && t0[j].courseId == c.courseId) ==>
        (Inserted(t0, c, p)[i].positionOrder < Inserted(t0, c, p)[j].positionOrder <==> t0[i].positionOrder < t0[j].positionOrder)
    ensures p.Some? ==> forall i :: 0 <= i < |t0| && t0[i].status && t0[i].courseId == c.courseId ==>
      (Inserted(t0, c, p)[i].positionOrder < p.value <==> t0[i].positionOrder < p.value)
  {
    if SectionsDense(t0) && (p.Some? ==> 0 <= p.value <= Ordering.Count(SectionMask(t0, c.courseId))) {
      InsertKeepsDense(t0, c, p);
    }
    if SlugsUnique(t0) {
      InsertKeepsSlugs(t0, c, p);
    }
    InsertKeepsOrder(t0, c, p);
  }

  /** Without a range check, a requested position past the end leaves a gap
      in the course's numbering. */
  lemma InsertBeyondEndLeavesGap(t0: seq<Section>, c: Section, p: int)
    requires SectionsDense(t0) && c.status && c.positionOrder == p
    requires p > Ordering.Count(SectionMask(t0, c.courseId))
    ensures !Ordering.Dense(SectionPositions(Inserted(t0, c, Some(p))), SectionMask(Inserted(t0, c, Some(p)), c.courseId))
  {
    InsertedProjections(t0, c, Some(p), c.courseId);
    Ordering.InsertBeyondEnd(SectionPositions(t0), SectionMask(t0, c.courseId), p);
  }

  /** The row `create` builds: active, trimmed title, slug from the given
      slug, description as given, at the requested position or at the end. */
  function NewSection(t0: seq<Section>, courseId: Id, title: string, slug: string, description: string,
                      positionOrder: Option<int>, newId: Id): Section
  {
    Section(newId, true, Trim(title), GenerateSlug(slug), description, courseId,
            if positionOrder.Some? then positionOrder.value else Ordering.Count(SectionMask(t0, courseId)))
  }

  /** The writes of `create` once the checks have passed: the sibling
      shift when a position is requested, then the new row. */
  method InsertSection(db: Database, c: Section, p: Option<int>)
    requires db.Valid() && c.status
    requires forall s :: s in db.sections ==> s.id != c.id
    requires c.positionOrder == if p.Some? then p.value else Ordering.Count(SectionMask(db.sections, c.courseId))
    requires ValidateUniqueSlug(db.sections, c.slug, None).Ok?
    modifies db`sections
    ensures db.Valid()
    ensures db.sections == Inserted(old(db.sections), c, p)
    ensures old(SlugsUnique(db.sections)) ==> SlugsUnique(db.sections)
    ensures (old(SectionsDense(db.sections)) &&
             (p.Some? ==> 0 <= p.value <= Ordering.Count(SectionMask(old(db.sections), c.courseId))))
      ==> SectionsDense(db.sections)
  {
    ghost var t0 := db.sections;
    InsertKeepsInvariants(t0, c, p);
    if p.Some? {
      ShiftForInsert(db, c.courseId, p.value);
    } else {
      SectionOwnPositions(t0);
    }
    assert forall i :: 0 <= i < |t0| ==> db.sections[i].id == t0[i].id;
    db.sections := db.sections + [c];
    assert SectionIdsUnique(db.sections) by {
      forall i, j | 0 <= i < j < |db.sections|
        ensures db.sections[i].id != db.sections[j].id
      {
        if j < |t0| {
          assert t0[i].id != t0[j].id;
        } else {
          assert t0[i] in t0;
        }
      }
    }
  }

  /** `create` */
  method Create(db: Database, courseId: Id, title: string, slug: string, description: string,
                positionOrder: Option<int>, newId: Id) returns (r: Result<Section>)
    requires db.Valid()
    requires forall s :: s in db.sections ==> s.id != newId
    modifies db`sections
    ensures db.Valid()
    ensures r.Err? ==> db.sections == old(db.sections)
    ensures (r.Err? && r.error == Conflict) <==> ValidateUniqueSlug(old(db.sections), GenerateSlug(slug), None).Err?
    ensures (r.Err? && r.error == NotFound) <==>
      ValidateUniqueSlug(old(db.sections), GenerateSlug(slug), None).Ok? && !CourseActive(old(db.courses), courseId)
    ensures r.Err? ==> r.error == Conflict || r.error == NotFound
    ensures r.Ok? ==> r.value == NewSection(old(db.sections), courseId, title, slug, description, positionOrder, newId)
    ensures r.Ok? ==> db.sections == Inserted(old(db.sections), r.value, positionOrder)
    ensures old(SlugsUnique(db.sections)) ==> SlugsUnique(db.sections)
    ensures (old(SectionsDense(db.sections)) &&
             (positionOrder.Some? ==> 0 <= positionOrder.value <= Ordering.Count(SectionMask(old(db.sections), courseId))))
      ==> SectionsDense(db.sections)
  {
    var sanitizedSlug := GenerateSlug(slug);
    if ValidateUniqueSlug(db.sections, sanitizedSlug, None).Err? {
      return Err(Conflict);
    }
    if !CourseActive(db.courses, courseId) {
      return Err(NotFound);
    }
    var newPositionOrder := if positionOrder.Some? then positionOrder.value
                            else Ordering.Count(SectionMask(db.sections, courseId));
    var c := Section(newId, true, Trim(title), sanitizedSlug, description, courseId, newPositionOrder);
    InsertSection(db, c, positionOrder);
    r := Ok(c);
  }

  /** The title `update` keeps: the sanitised new one if given. */
  function UpdatedTitle(s: Section, title: Option<string>): string {
    if Given(title) then SanitizeText(title.value) else s.title
  }

  /** The description `update` keeps: the sanitised new one if given. */
  function UpdatedDescription(s: Section, description: Option<string>): string {
    if Given(description) then SanitizeText(description.value) else s.description
  }

  /** `update` regenerates the slug only when one is given that differs
      from the stored one. */
  predicate SlugChanges(s: Section, slug: Option<string>) {
    Given(slug) && slug.value != s.slug
  }

  function UpdatedSlug(s: Section, slug: Option<string>): string {
    if SlugChanges(s, slug) then GenerateSlug(slug.value) else s.slug
  }

  /** The position `update` asks for: the given one, or the current one. */
  function UpdatedPosition(s: Section, positionOrder: Option<int>): int {
    if positionOrder.Some? then positionOrder.value else s.positionOrder
  }

  /** The table `update` leaves: the siblings shifted as by a move of
      section `k` to `u`'s position, and row `k` replaced by `u`. */
  function Moved(t0: seq<Section>, k: nat, u: Section): (r: seq<Section>)
    requires k < |t0|
    ensures |r| == |t0| && r[k] == u
  {
    var newPos := Ordering.Move(SectionPositions(t0), SectionMask(t0, t0[k].courseId), k, u.positionOrder);
    WithSectionPositions(t0, newPos)[k := u]
  }

  /** Moving section `k` (with new texts and a slug no other active section
      holds) keeps the numbering dense when the target is in `[0, n)`, keeps
      the other siblings' relative order, and keeps active slugs unique. */
  lemma MoveKeepsInvariants(t0: seq<Section>, k: nat, u: Section)
    requires k < |t0| && t0[k].status && SectionIdsUnique(t0)
    requires u.id == t0[k].id && u.status && u.courseId == t0[k].courseId
    requires u.slug == t0[k].slug || ValidateUniqueSlug(t0, u.slug, Some(u.id)).Ok?
    ensures (SectionsDense(t0) && 0 <= u.positionOrder < Ordering.Count(SectionMask(t0, u.courseId))) ==>
      SectionsDense(Moved(t0, k, u))
    ensures SlugsUnique(t0) ==> SlugsUnique(Moved(t0, k, u))
    ensures SectionsDense(t0) ==> forall i, j ::
      (0 <= i < |t0| && 0 <= j < |t0| && i != k && j != k && t0[i].status && t0[j].status &&
       t0[i].courseId == u.courseId && t0[j].courseId == u.courseId) ==>
        (Moved(t0, k, u)[i].positionOrder < Moved(t0, k, u)[j].positionOrder <==> t0[i].positionOrder < t0[j].positionOrder)
  {
    var pos := SectionPositions(t0);
    var mask := SectionMask(t0, u.courseId);
    var newPos := Ordering.Move(pos, mask, k, u.positionOrder);
    var t1 := Moved(t0, k, u);
    assert t1 == WithSectionPositions(t0[k := u], newPos);
    forall cid
      ensures SectionPositions(t1) == newPos
      ensures SectionMask(t1, cid) == SectionMask(t0, cid)
    {
      SectionProjectionsWith(t0[k := u], newPos, cid);
    }
    if SectionsDense(t0) {
      Ordering.MoveKeepsOrder(pos, mask, k, u.positionOrder);
      if 0 <= u.positionOrder < Ordering.Count(mask) {
        Ordering.MoveDense(pos, mask, k, u.positionOrder);
        forall cid | cid != u.courseId
          ensures Ordering.Dense(SectionPositions(t1), SectionMask(t1, cid))
        {
          Ordering.DenseFrame(pos, newPos, SectionMask(t0, cid));
        }
      }
    }
    if SlugsUnique(t0) && u.slug != t0[k].slug {
      forall i | 0 <= i < |t0| && i != k && t0[i].status
        ensures t0[i].slug != u.slug
      {
        assert t0[i] in t0;
        if i < k { assert t0[i].id != t0[k].id; } else { assert t0[k].id != t0[i].id; }
      }
    }
  }

  /** Keeping a section's position moves none of its siblings. */
  lemma MoveInPlace(t0: seq<Section>, k: nat, u: Section)
    requires k < |t0| && u.positionOrder == t0[k].positionOrder
    ensures Moved(t0, k, u) == t0[k := u]
  {
    var pos := SectionPositions(t0);
    assert Ordering.Move(pos, SectionMask(t0, t0[k].courseId), k, pos[k]) == pos;
  }

  /** The shifting loops of `update` followed by the `save` of row `k`. */
  method SaveMoved(db: Database, k: nat, u: Section)
    requires db.Valid() && k < |db.sections| && db.sections[k].status
    requires u.id == db.sections[k].id && u.status && u.courseId == db.sections[k].courseId
    requires u.slug == db.sections[k].slug || ValidateUniqueSlug(db.sections, u.slug, Some(u.id)).Ok?
    modifies db`sections
    ensures db.Valid()
    ensures db.sections == Moved(old(db.sections), k, u)
    ensures old(SlugsUnique(db.sections)) ==> SlugsUnique(db.sections)
    ensures (old(SectionsDense(db.sections)) && 0 <= u.positionOrder < Ordering.Count(SectionMask(old(db.sections), u.courseId)))
      ==> SectionsDense(db.sections)
  {
    ghost var t0 := db.sections;
    if u.positionOrder != db.sections[k].positionOrder {
      ShiftForMove(db, k, u.positionOrder);
    } else {
      MoveInPlace(t0, k, u);
    }
    MoveKeepsInvariants(t0, k, u);
    db.sections := db.sections[k := u];
    assert db.sections == Moved(t0, k, u);
  }

  /** The requested position, if any, is one of the course's `n` places. */
  predicate InRange(t0: seq<Section>, id: Id, positionOrder: Option<int>)
    requires FindActive(t0, id).Some?
  {
    positionOrder.Some? ==> 0 <= positionOrder.value < Ordering.Count(SectionMask(t0, t0[FindActive(t0, id).value].courseId))
  }

  /** `update` */
  method Update(db: Database, id: Id, title: Option<string>, slug: Option<string>,
                description: Option<string>, positionOrder: Option<int>) returns (r: Result<Section>)
    requires db.Valid()
    modifies db`sections
    ensures db.Valid()
    ensures FindActive(old(db.sections), id).None? ==> r == Err(NotFound) && db.sections == old(db.sections)
    ensures FindActive(old(db.sections), id).Some? ==>
      var t0 := old(db.sections);
      var s := t0[FindActive(t0, id).value];
      if SlugChanges(s, slug) && ValidateUniqueSlug(t0, GenerateSlug(slug.value), Some(id)).Err? then
        r == Err(Conflict) && db.sections == t0
      else
        r.Ok? &&
        r.value == s.(title := UpdatedTitle(s, title), slug := UpdatedSlug(s, slug),
                      description := UpdatedDescription(s, description),
                      positionOrder := UpdatedPosition(s, positionOrder)) &&
        db.sections == Moved(t0, FindActive(t0, id).value, r.value)
    ensures old(SlugsUnique(db.sections)) ==> SlugsUnique(db.sections)
    ensures (old(SectionsDense(db.sections)) && FindActive(old(db.sections), id).Some? && InRange(old(db.sections), id, positionOrder))
      ==> SectionsDense(db.sections)
  {
    var found := FindActive(db.sections, id);
    if found.None? {
      return Err(NotFound);
    }
    ghost var t0 := db.sections;
    var k := found.value;
    var s := db.sections[k];
    var newSlug := s.slug;
    if SlugChanges(s, slug) {
      newSlug := GenerateSlug(slug.value);
      if ValidateUniqueSlug(db.sections, newSlug, Some(id)).Err? {
        return Err(Conflict);
      }
    }
    var u := s.(title := UpdatedTitle(s, title), slug := newSlug, description := UpdatedDescription(s, description),
                positionOrder := UpdatedPosition(s, positionOrder));
    SaveMoved(db, k, u);
    r := Ok(u);
  }

  /** The soft delete: inactive, slug replaced by a fresh token. */
  function SoftDeleted(sections: seq<Section>, k: nat, token: string): (r: seq<Section>)
    requires k < |sections|
    ensures |r| == |sections|
  {
    sections[k := sections[k].(status := false, slug := token)]
  }

  /** The table after renumbering course `courseId`. */
  function Reordered(t: seq<Section>, courseId: Id): (r: seq<Section>)
    ensures |r| == |t|
  {
    WithSectionPositions(t, Ordering.Renumbered(SectionPositions(t), SectionMask(t, courseId)))
  }

  /** Soft-deleting section `k` and renumbering its course keeps the
      numbering dense, closes the gap the section leaves, keeps active slugs
      unique and frees the section's slug. */
  /** The projections of the table after the soft delete and the
      renumbering of `remove`. */
  lemma RemoveProjections(t0: seq<Section>, k: nat, token: string)
    requires k < |t0| && t0[k].status
    ensures
      var cid := t0[k].courseId;
      var t1 := SoftDeleted(t0, k, token);
      var t2 := Reordered(t1, cid);
      SectionPositions(t1) == SectionPositions(t0) &&
      SectionMask(t1, cid) == SectionMask(t0, cid)[k := false] &&
      (forall cid' :: cid' != cid ==> SectionMask(t1, cid') == SectionMask(t0, cid')) &&
      t2 == WithSectionPositions(t1, Ordering.Renumbered(SectionPositions(t0), SectionMask(t1, cid)))
  {
    var t1 := SoftDeleted(t0, k, token);
    var cid := t0[k].courseId;
    assert SectionPositions(t1) == SectionPositions(t0);
    assert SectionMask(t1, cid) == SectionMask(t0, cid)[k := false];
    forall cid' | cid' != cid
      ensures SectionMask(t1, cid') == SectionMask(t0, cid')
    {
      assert SectionMask(t1, cid') == SectionMask(t0, cid');
    }
  }

  lemma RemoveKeepsDense(t0: seq<Section>, k: nat, token: string)
    requires k < |t0| && t0[k].status && SectionsDense(t0)
    ensures SectionsDense(Reordered(SoftDeleted(t0, k, token), t0[k].courseId))
  {
    RemoveProjections(t0, k, token);
    var t1 := SoftDeleted(t0, k, token);
    var cid := t0[k].courseId;
    var pos := SectionPositions(t0);
    var newPos := Ordering.Renumbered(pos, SectionMask(t1, cid));
    var t2 := WithSectionPositions(t1, newPos);
    SectionProjectionsWith(t1, newPos, cid);
    Ordering.RenumberDense(pos, SectionMask(t1, cid));
    forall cid' | cid' != cid
      ensures Ordering.Dense(SectionPositions(t2), SectionMask(t2, cid'))
    {
      SectionProjectionsWith(t1, newPos, cid');
      Ordering.DenseFrame(pos, newPos, SectionMask(t0, cid'));
    }
  }

  lemma RemoveShifts(t0: seq<Section>, k: nat, token: string)
    requires k < |t0| && t0[k].status && SectionsDense(t0)
    ensures
      var cid := t0[k].courseId;
      var t2 := Reordered(SoftDeleted(t0, k, token), cid);
      forall i :: 0 <= i < |t0| && i != k && t0[i].status && t0[i].courseId == cid ==>
        t2[i].positionOrder ==
          if t0[i].positionOrder < t0[k].positionOrder then t0[i].positionOrder else t0[i].positionOrder - 1
  {
    RemoveProjections(t0, k, token);
    var t1 := SoftDeleted(t0, k, token);
    var cid := t0[k].courseId;
    var pos := SectionPositions(t0);
    SectionProjectionsWith(t1, Ordering.Renumbered(pos, SectionMask(t1, cid)), cid);
    Ordering.RenumberAfterRemoval(pos, SectionMask(t0, cid), k);
  }

  lemma RemoveKeepsSlugs(t0: seq<Section>, k: nat, token: string)
    requires k < |t0| && t0[k].status
    requires forall s :: s in t0 ==> s.slug != token
    requires SlugsUnique(t0)
    ensures
      var t2 := Reordered(SoftDeleted(t0, k, token), t0[k].courseId);
      SlugsUnique(t2) && ValidateUniqueSlug(t2, t0[k].slug, None).Ok?
  {
    RemoveProjections(t0, k, token);
    var t1 := SoftDeleted(t0, k, token);
    var cid := t0[k].courseId;
    var newPos := Ordering.Renumbered(SectionPositions(t0), SectionMask(t1, cid));
    var t2 := WithSectionPositions(t1, newPos);
    SectionProjectionsWith(t1, newPos, cid);
    forall i | 0 <= i < |t2| && t2[i].status
      ensures t2[i].slug != t0[k].slug
    {
      assert t2[i].slug == t0[i].slug;
    }
  }

  lemma RemoveKeepsInvariants(t0: seq<Section>, k: nat, token: string)
    requires k < |t0| && t0[k].status
    requires forall s :: s in t0 ==> s.slug != token
    ensures
      var cid := t0[k].courseId;
      var t2 := Reordered(SoftDeleted(t0, k, token), cid);
      (SectionsDense(t0) ==> SectionsDense(t2)) &&
      (SlugsUnique(t0) ==> SlugsUnique(t2) && ValidateUniqueSlug(t2, t0[k].slug, None).Ok?) &&
      (SectionsDense(t0) ==>
        forall i :: 0 <= i < |t0| && i != k && t0[i].status && t0[i].courseId == cid ==>
          t2[i].positionOrder ==
            if t0[i].positionOrder < t0[k].positionOrder then t0[i].positionOrder else t0[i].positionOrder - 1)
  {
    if SectionsDense(t0) {
      RemoveKeepsDense(t0, k, token);
      RemoveShifts(t0, k, token);
    }
    if SlugsUnique(t0) {
      RemoveKeepsSlugs(t0, k, token);
    }
  }

  /** `remove` */
  method Remove(db: Database, id: Id, token: string) returns (r: Result<()>)
    requires db.Valid()
    requires forall s :: s in db.sections ==> s.slug != token
    modifies db`sections
    ensures db.Valid()
    ensures r.Err? <==> FindActive(old(db.sections), id).None?
    ensures r.Err? ==> r.error == NotFound && db.sections == old(db.sections)
    ensures r.Ok? ==>
      var k := FindActive(old(db.sections), id).value;
      db.sections == Reordered(SoftDeleted(old(db.sections), k, token), old(db.sections)[k].courseId)
    ensures old(SectionsDense(db.sections)) ==> SectionsDense(db.sections)
    ensures old(SlugsUnique(db.sections)) ==> SlugsUnique(db.sections)
  {
    var found := FindActive(db.sections, id);
    if found.None? {
      return Err(NotFound);
    }
    ghost var t0 := db.sections;
    var k := found.value;
    var courseId := db.sections[k].courseId;
    db.sections := SoftDeleted(db.sections, k, token);
    ghost var t1 := db.sections;
    assert SectionIdsUnique(t1) by {
      forall i, j | 0 <= i < j < |t1|
        ensures t1[i].id != t1[j].id
      {
        assert t1[i].id == t0[i].id && t1[j].id == t0[j].id;
      }
    }
    ReorderSections(db, courseId);
    r := Ok(());
    RemoveKeepsInvariants(t0, k, token);
  }

  /** Writing any position into section `k` and renumbering its course
      leaves the course densely numbered, whatever the position, and keeps
      every other invariant. */
  lemma WriteThenReorderDense(t0: seq<Section>, k: nat, newOrder: int)
    requires k < |t0| && t0[k].status
    ensures
      var cid := t0[k].courseId;
      var t2 := Reordered(t0[k := t0[k].(positionOrder := newOrder)], cid);
      Ordering.Dense(SectionPositions(t2), SectionMask(t2, cid)) &&
      (SectionsDense(t0) ==> SectionsDense(t2)) &&
      (SlugsUnique(t0) ==> SlugsUnique(t2))
  {
    var cid := t0[k].courseId;
    var t1 := t0[k := t0[k].(positionOrder := newOrder)];
    var pos1 := SectionPositions(t1);
    var mask := SectionMask(t1, cid);
    assert mask == SectionMask(t0, cid);
    var newPos := Ordering.Renumbered(pos1, mask);
    var t2 := WithSectionPositions(t1, newPos);
    SectionProjectionsWith(t1, newPos, cid);
    Ordering.RenumberDense(pos1, mask);
    if SectionsDense(t0) {
      forall cid' | cid' != cid
        ensures Ordering.Dense(SectionPositions(t2), SectionMask(t2, cid'))
      {
        SectionProjectionsWith(t1, newPos, cid');
        assert SectionMask(t1, cid') == SectionMask(t0, cid');
        Ordering.DenseFrame(SectionPositions(t0), newPos, SectionMask(t0, cid'));
      }
    }
    if SlugsUnique(t0) {
      assert forall i :: 0 <= i < |t0| ==> t2[i].slug == t0[i].slug && t2[i].status == t0[i].status;
    }
  }

  /** Writing any position into section `k` and renumbering its course
      keeps the siblings' relative order, and places `k` after the siblings
      below the written value and before those above it. */
  lemma WriteThenReorderOrder(t0: seq<Section>, k: nat, newOrder: int)
    requires k < |t0| && t0[k].status
    ensures
      var cid := t0[k].courseId;
      var t2 := Reordered(t0[k := t0[k].(positionOrder := newOrder)], cid);
      (forall i, j ::
        (0 <= i < |t0| && 0 <= j < |t0| && i != k && j != k && t0[i].status && t0[j].status &&
         t0[i].courseId == cid && t0[j].courseId == cid && t0[i].positionOrder < t0[j].positionOrder) ==>
          t2[i].positionOrder < t2[j].positionOrder) &&
      (forall i :: 0 <= i < |t0| && i != k && t0[i].status && t0[i].courseId == cid && t0[i].positionOrder < newOrder ==>
         t2[i].positionOrder < t2[k].positionOrder) &&
      (forall i :: 0 <= i < |t0| && i != k && t0[i].status && t0[i].courseId == cid && t0[i].positionOrder > newOrder ==>
         t2[k].positionOrder < t2[i].positionOrder)
  {
    var cid := t0[k].courseId;
    var t1 := t0[k := t0[k].(positionOrder := newOrder)];
    var pos1 := SectionPositions(t1);
    var mask := SectionMask(t1, cid);
    var newPos := Ordering.Renumbered(pos1, mask);
    var t2 := WithSectionPositions(t1, newPos);
    Ordering.RenumberKeepsOrder(pos1, mask);
    forall i, j |
      0 <= i < |t0| && 0 <= j < |t0| && i != k && j != k && t0[i].status && t0[j].status &&
      t0[i].courseId == cid && t0[j].courseId == cid && t0[i].positionOrder < t0[j].positionOrder
      ensures t2[i].positionOrder < t2[j].positionOrder
    {
      assert Ordering.Before(pos1, i, j);
    }
    forall i | 0 <= i < |t0| && i != k && t0[i].status && t0[i].courseId == cid && t0[i].positionOrder < newOrder
      ensures t2[i].positionOrder < t2[k].positionOrder
    {
      assert Ordering.Before(pos1, i, k);
    }
    forall i | 0 <= i < |t0| && i != k && t0[i].status && t0[i].courseId == cid && t0[i].positionOrder > newOrder
      ensures t2[k].positionOrder < t2[i].positionOrder
    {
      assert Ordering.Before(pos1, k, i);
    }
  }

  /** Writing any position into section `k` and renumbering its course
      leaves the course densely numbered (whatever the position, in or out
      of range), keeps every other invariant, keeps the siblings' relative
      order, and places `k` after the siblings below the written value and
      before those above it. */
  lemma WriteThenReorder(t0: seq<Section>, k: nat, newOrder: int)
    requires k < |t0| && t0[k].status
    ensures
      var cid := t0[k].courseId;
      var t2 := Reordered(t0[k := t0[k].(positionOrder := newOrder)], cid);
      Ordering.Dense(SectionPositions(t2), SectionMask(t2, cid)) &&
      (SectionsDense(t0) ==> SectionsDense(t2)) &&
      (SlugsUnique(t0) ==> SlugsUnique(t2)) &&
      (forall i, j ::
        (0 <= i < |t0| && 0 <= j < |t0| && i != k && j != k && t0[i].status && t0[j].status &&
         t0[i].courseId == cid && t0[j].courseId == cid && t0[i].positionOrder < t0[j].positionOrder) ==>
          t2[i].positionOrder < t2[j].positionOrder) &&
      (forall i :: 0 <= i < |t0| && i != k && t0[i].status && t0[i].courseId == cid && t0[i].positionOrder < newOrder ==>
         t2[i].positionOrder < t2[k].positionOrder) &&
      (forall i :: 0 <= i < |t0| && i != k && t0[i].status && t0[i].courseId == cid && t0[i].positionOrder > newOrder ==>
         t2[k].positionOrder < t2[i].positionOrder)
  {
    WriteThenReorderDense(t0, k, newOrder);
    WriteThenReorderOrder(t0, k, newOrder);
  }

  /** With unique ids, `findOne` finds an active section at its own index. */
  lemma FindActiveAt(t: seq<Section>, k: nat)
    requires SectionIdsUnique(t) && k < |t| && t[k].status
    ensures FindActive(t, t[k].id) == Some(k)
  {
  }

  /** The `update` of the position followed by `reorderSections`. */
  method WriteOrder(db: Database, k: nat, newOrder: int)
    requires db.Valid() && k < |db.sections| && db.sections[k].status
    modifies db`sections
    ensures db.Valid()
    ensures db.sections == Reordered(old(db.sections)[k := old(db.sections)[k].(positionOrder := newOrder)], old(db.sections)[k].courseId)
    ensures db.sections[k].id == old(db.sections)[k].id && db.sections[k].status
    ensures old(SectionsDense(db.sections)) ==> SectionsDense(db.sections)
    ensures old(SlugsUnique(db.sections)) ==> SlugsUnique(db.sections)
  {
    ghost var t0 := db.sections;
    var courseId := db.sections[k].courseId;
    db.sections := db.sections[k := db.sections[k].(positionOrder := newOrder)];
    ghost var t1 := db.sections;
    assert SectionIdsUnique(t1) by {
      forall i, j | 0 <= i < j < |t1|
        ensures t1[i].id != t1[j].id
      {
        assert t1[i].id == t0[i].id && t1[j].id == t0[j].id;
      }
    }
    ReorderSections(db, courseId);
    WriteThenReorder(t0, k, newOrder);
  }

  /** `updateOrder`: the position is written as given and the course is
      renumbered; the section is then read back. */
  method UpdateOrder(db: Database, id: Id, newOrder: int) returns (r: Result<Section>)
    requires db.Valid()
    modifies db`sections
    ensures db.Valid()
    ensures FindActive(old(db.sections), id).None? ==> r == Err(NotFound) && db.sections == old(db.sections)
    ensures FindActive(old(db.sections), id).Some? ==>
      var t0 := old(db.sections);
      var k := FindActive(t0, id).value;
      db.sections == Reordered(t0[k := t0[k].(positionOrder := newOrder)], t0[k].courseId) &&
      r == Ok(db.sections[k])
    ensures old(SectionsDense(db.sections)) ==> SectionsDense(db.sections)
    ensures old(SlugsUnique(db.sections)) ==> SlugsUnique(db.sections)
  {
    var found := FindActive(db.sections, id);
    if found.None? {
      return Err(NotFound);
    }
    var k := found.value;
    WriteOrder(db, k, newOrder);
    FindActiveAt(db.sections, k);
    r := FindOne(db.sections, id);
  }
}
