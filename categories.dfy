/** `CategoriesService`: category records, the title-or-slug conflict rule
    of `create` and `update`, visibility by role and soft deletion. */
module Categories {
  import opened Common
  import opened Seqs
  import opened Slugs
  import opened Store

  /** The filter of `findAll` and `findOne`: active, and visible unless the
      caller is an admin. */
  predicate Visible(c: Category, user: Option<User>) {
    c.status && (IsAdmin(user) || c.visible)
  }

  /** `findAll(user)`: the categories the caller may see, in table order
      (the `creationDate` order is not modelled). */
  function FindAll(categories: seq<Category>, user: Option<User>): (r: seq<Category>)
    ensures forall c :: c in r <==> c in categories && Visible(c, user)
    ensures IsSubsequence(r, categories)
  {
    Filter(categories, (c: Category) => Visible(c, user))
  }

  /** The row `findOne(id, user)` returns, as an index. */
  function FindVisible(categories: seq<Category>, id: Id, user: Option<User>): (r: Option<nat>)
    ensures r.Some? ==> r.value < |categories| && categories[r.value].id == id && Visible(categories[r.value], user)
    ensures r.None? <==> forall i :: 0 <= i < |categories| ==> !(categories[i].id == id && Visible(categories[i], user))
  {
    FindFirst(categories, (c: Category) => c.id == id && Visible(c, user))
  }

  /** `findOne(id, user)`: NotFound unless a category the caller may see
      has the id. */
  function FindOne(categories: seq<Category>, id: Id, user: Option<User>): (r: Result<Category>)
    ensures r.Ok? <==> exists c :: c in categories && c.id == id && Visible(c, user)
    ensures r.Ok? ==> r.value in categories && r.value.id == id && Visible(r.value, user)
    ensures r.Err? ==> r.error == NotFound
  {
    match FindVisible(categories, id, user)
    case None => Err(NotFound)
    case Some(k) => Ok(categories[k])
  }

  /** One of the two `where` alternatives of the duplicate lookup matches:
      an active row, other than `exceptId`, with the title or the slug. */
  predicate Clashes(c: Category, title: string, slug: string, exceptId: Option<Id>) {
    c.status && (c.title == title || c.slug == slug) && (exceptId.Some? ==> c.id != exceptId.value)
  }

  /** The duplicate lookup of `create` and `update`: Conflict exactly when
      some active row other than `exceptId` holds the title or the slug. */
  function FindClash(categories: seq<Category>, title: string, slug: string, exceptId: Option<Id>): (r: Result<()>)
    ensures r.Err? <==> exists c :: c in categories && Clashes(c, title, slug, exceptId)
    ensures r.Err? ==> r.error == Conflict
  {
    match FindFirst(categories, (c: Category) => Clashes(c, title, slug, exceptId))
    case Some(_) => Err(Conflict)
    case None => Ok(())
  }

  /** The unique `title` and `slug` columns accept row `u`: no other row,
      active or not, holds its title or its slug. */
  predicate ColumnsFree(categories: seq<Category>, u: Category) {
    forall c :: c in categories && c.id != u.id ==> c.title != u.title && c.slug != u.slug
  }

  /** The row `create` builds: the sanitised title, its slug, active and
      hidden whatever the request says about visibility. */
  function NewCategory(title: string, newId: Id): Category {
    var t := SanitizeText(title);
    Category(newId, true, false, t, GenerateSlug(t))
  }

  /** A new category is listed to admins only, until an update makes it
      visible. */
  lemma {:induction false} CreatedHidden(categories: seq<Category>, title: string, newId: Id, user: Option<User>)
    ensures FindAll(categories + [NewCategory(title, newId)], user) ==
            FindAll(categories, user) + (if IsAdmin(user) then [NewCategory(title, newId)] else [])
  {
    FilterConcat(categories, [NewCategory(title, newId)], (c: Category) => Visible(c, user));
  }

  /** Writes row `u` over row `k`, or appends it when `k` is the table's
      length; the unique columns must accept it. */
  method SaveCategory(db: Database, k: nat, u: Category)
    requires db.Valid() && k <= |db.categories|
    requires k < |db.categories| ==> u.id == db.categories[k].id
    requires k == |db.categories| ==> forall c :: c in db.categories ==> c.id != u.id
    requires ColumnsFree(db.categories, u)
    modifies db`categories
    ensures db.Valid()
    ensures k < |old(db.categories)| ==> db.categories == old(db.categories)[k := u]
    ensures k == |old(db.categories)| ==> db.categories == old(db.categories) + [u]
  {
    ghost var t0 := db.categories;
    if k < |db.categories| {
      db.categories := db.categories[k := u];
      forall i, j | 0 <= i < j < |db.categories|
        ensures db.categories[i].id != db.categories[j].id
        ensures db.categories[i].title != db.categories[j].title && db.categories[i].slug != db.categories[j].slug
      {
        if i == k {
          assert t0[j] in t0 && t0[j].id != t0[k].id;
        } else if j == k {
          assert t0[i] in t0 && t0[i].id != t0[k].id;
        }
      }
    } else {
      db.categories := db.categories + [u];
      forall i, j | 0 <= i < j < |db.categories|
        ensures db.categories[i].id != db.categories[j].id
        ensures db.categories[i].title != db.categories[j].title && db.categories[i].slug != db.categories[j].slug
      {
        if j == k {
          assert t0[i] in t0;
        }
      }
    }
  }

  /** `create`: Conflict when an active row holds the sanitised title or its
      slug; otherwise the store refuses the row when an inactive row still
      holds either; otherwise the hidden row is appended. */
  method Create(db: Database, title: string, newId: Id) returns (r: Result<Category>)
    requires db.Valid()
    requires forall c :: c in db.categories ==> c.id != newId
    modifies db`categories
    ensures db.Valid()
    ensures r.Err? ==> db.categories == old(db.categories)
    ensures r == Err(Conflict) <==>
      FindClash(old(db.categories), NewCategory(title, newId).title, NewCategory(title, newId).slug, None).Err?
    ensures r == Err(StoreRejected) <==>
      FindClash(old(db.categories), NewCategory(title, newId).title, NewCategory(title, newId).slug, None).Ok? &&
      !ColumnsFree(old(db.categories), NewCategory(title, newId))
    ensures r.Err? ==> r.error != NotFound
    ensures r.Ok? ==> r.value == NewCategory(title, newId) && db.categories == old(db.categories) + [r.value]
  {
    var c := NewCategory(title, newId);
    if FindClash(db.categories, c.title, c.slug, None).Err? {
      return Err(Conflict);
    }
    if !ColumnsFree(db.categories, c) {
      return Err(StoreRejected);
    }
    SaveCategory(db, |db.categories|, c);
    r := Ok(c);
  }

  /** The row `update` saves: a given title is sanitised and re-slugged, a
      given visibility replaces the old one, everything else is kept. */
  function UpdatedCategory(c: Category, title: Option<string>, visible: Option<bool>): Category {
    var t := if Given(title) then SanitizeText(title.value) else c.title;
    c.(title := t,
       slug := if Given(title) then GenerateSlug(t) else c.slug,
       visible := if visible.Some? then visible.value else c.visible)
  }

  /** Sending back the title an update stored changes nothing more: the
      second sanitising pass and the second slug are the first ones. */
  lemma ResubmitStoredTitle(c: Category, title: string, visible: Option<bool>)
    requires title != "" && SanitizeText(title) != ""
    ensures var u := UpdatedCategory(c, Some(title), visible);
            UpdatedCategory(u, Some(u.title), None) == u
  {
    var t := SanitizeText(title);
    var u := UpdatedCategory(c, Some(title), visible);
    assert u.title == t && u.slug == GenerateSlug(t);
    SanitizeTextIdempotent(title);
    assert UpdatedCategory(u, Some(t), None) == u.(title := SanitizeText(t), slug := GenerateSlug(SanitizeText(t)));
  }

  /** `update(id, dto, user)`: NotFound unless the caller may see the row;
      with a title, Conflict when another active row holds the new title or
      slug; the store refuses the row when another row of any status holds
      either; otherwise the merged row is saved. Without a title the store
      has nothing to refuse. */
  method Update(db: Database, id: Id, user: Option<User>, title: Option<string>, visible: Option<bool>)
    returns (r: Result<Category>)
    requires db.Valid()
    modifies db`categories
    ensures db.Valid()
    ensures r.Err? ==> db.categories == old(db.categories)
    ensures r == Err(NotFound) <==> FindVisible(old(db.categories), id, user).None?
    ensures r == Err(Conflict) <==>
      FindVisible(old(db.categories), id, user).Some? && Given(title) &&
      var u := UpdatedCategory(old(db.categories)[FindVisible(old(db.categories), id, user).value], title, visible);
      FindClash(old(db.categories), u.title, u.slug, Some(id)).Err?
    ensures r == Err(StoreRejected) <==>
      FindVisible(old(db.categories), id, user).Some? &&
      var u := UpdatedCategory(old(db.categories)[FindVisible(old(db.categories), id, user).value], title, visible);
      !(Given(title) && FindClash(old(db.categories), u.title, u.slug, Some(id)).Err?) &&
      !ColumnsFree(old(db.categories), u)
    ensures r == Err(StoreRejected) ==> Given(title)
    ensures r.Ok? ==>
      var k := FindVisible(old(db.categories), id, user).value;
      r.value == UpdatedCategory(old(db.categories)[k], title, visible) &&
      db.categories == old(db.categories)[k := r.value]
  {
    var found := FindVisible(db.categories, id, user);
    if found.None? {
      return Err(NotFound);
    }
    var k := found.value;
    var u := UpdatedCategory(db.categories[k], title, visible);
    if Given(title) && FindClash(db.categories, u.title, u.slug, Some(id)).Err? {
      return Err(Conflict);
    }
    if !ColumnsFree(db.categories, u) {
      assert Given(title) by {
        if !Given(title) {
          forall c | c in db.categories && c.id != u.id
            ensures c.title != u.title && c.slug != u.slug
          {
            var i :| 0 <= i < |db.categories| && db.categories[i] == c;
            assert i != k;
          }
        }
      }
      return Err(StoreRejected);
    }
    SaveCategory(db, k, u);
    r := Ok(u);
  }

  /** The row `remove` leaves: inactive, its slug replaced by a fresh token,
      its title kept. */
  function SoftDeleted(categories: seq<Category>, k: nat, token: string): (r: seq<Category>)
    requires k < |categories|
  {
    categories[k := categories[k].(status := false, slug := token)]
  }

  /** After removal nobody finds the category, the unique columns still
      hold, and its title stays taken: recreating it passes the active
      duplicate lookup unless its slug clashes, and the store then refuses
      it. */
  lemma RemoveHides(categories: seq<Category>, k: nat, token: string, title: string, newId: Id)
    requires CategoryIdsUnique(categories) && CategoryColumnsUnique(categories) && k < |categories|
    requires forall c :: c in categories ==> c.slug != token
    requires SanitizeText(title) == categories[k].title && newId != categories[k].id
    ensures forall user :: FindVisible(SoftDeleted(categories, k, token), categories[k].id, user).None?
    ensures CategoryIdsUnique(SoftDeleted(categories, k, token)) && CategoryColumnsUnique(SoftDeleted(categories, k, token))
    ensures var n := NewCategory(title, newId);
            FindClash(SoftDeleted(categories, k, token), n.title, n.slug, None).Err? <==>
            exists c :: c in SoftDeleted(categories, k, token) && c.status && c.slug == n.slug
    ensures !ColumnsFree(SoftDeleted(categories, k, token), NewCategory(title, newId))
  {
    var t := SoftDeleted(categories, k, token);
    forall i, j | 0 <= i < j < |t|
      ensures t[i].title != t[j].title && t[i].slug != t[j].slug
    {
      if i == k {
        assert categories[j] in categories;
      } else if j == k {
        assert categories[i] in categories;
      }
    }
    forall c | c in t && c.status
      ensures c.title != categories[k].title
    {
      var i :| 0 <= i < |t| && t[i] == c;
      assert i != k;
    }
    assert t[k] in t;
  }

  /** `remove(id, user)`: NotFound unless the caller may see the row;
      otherwise the row is soft-deleted and its slug released. */
  method Remove(db: Database, id: Id, user: Option<User>, token: string) returns (r: Result<()>)
    requires db.Valid()
    requires forall c :: c in db.categories ==> c.slug != token
    modifies db`categories
    ensures db.Valid()
    ensures r.Err? <==> FindVisible(old(db.categories), id, user).None?
    ensures r.Err? ==> r.error == NotFound && db.categories == old(db.categories)
    ensures r.Ok? ==> db.categories == SoftDeleted(old(db.categories), FindVisible(old(db.categories), id, user).value, token)
  {
    var found := FindVisible(db.categories, id, user);
    if found.None? {
      return Err(NotFound);
    }
    var k := found.value;
    var u := db.categories[k].(status := false, slug := token);
    forall c | c in db.categories && c.id != u.id
      ensures c.title != u.title && c.slug != u.slug
    {
      var i :| 0 <= i < |db.categories| && db.categories[i] == c;
      assert i != k;
    }
    SaveCategory(db, k, u);
    r := Ok(());
  }
}
