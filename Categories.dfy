/** The handlers of `categoriesRouter` (src/server/routers/categories.ts). */
module CategoriesRouter {
  import opened Slug
  import opened Ordering
  import opened Tables

  /** A category row spread with its `postCount`. */
  datatype CategoryWithCount = CategoryWithCount(category: Category, postCount: nat)

  /** `ORDER BY name`. */
  predicate ByName(a: CategoryWithCount, b: CategoryWithCount) {
    StrLe(a.category.name, b.category.name)
  }

  function IdOf(x: CategoryWithCount): int {
    x.category.id
  }

  lemma ByNameIsTotalPreorder()
    ensures TotalPreorder(ByName)
  {
    forall a: CategoryWithCount, b: CategoryWithCount ensures ByName(a, b) || ByName(b, a) {
      StrLeTotal(a.category.name, b.category.name);
    }
    forall a: CategoryWithCount, b: CategoryWithCount, c: CategoryWithCount | ByName(a, b) && ByName(b, c)
      ensures ByName(a, c)
    {
      StrLeTransitive(a.category.name, b.category.name, c.category.name);
    }
  }

  /**
   * The category stored under `id`, spread with its post count: the number of
   * association rows that reference it, zero exactly when there are none.
   */
  function Counted(db: Store, id: int): (r: CategoryWithCount)
    reads db
    requires id in db.categories
    ensures r.category == db.categories[id]
    ensures r.postCount == multiset(CategoryColumn(db.assoc))[id]
    ensures r.postCount == 0 <==> forall a :: a in db.assoc ==> a.categoryId != id
    ensures db.Valid() ==> r.category.id == id
  {
    CategoryWithCount(db.categories[id], UsageCount(db.assoc, id))
  }

  /**
   * `getAll`: every category exactly once, ordered by name, each with the number of
   * association rows that reference it.
   */
  method GetAll(db: Store) returns (r: seq<CategoryWithCount>)
    requires db.Valid()
    ensures SortedBy(r, ByName)
    ensures DistinctBy(r, IdOf)
    ensures forall x :: x in r ==> x.category.id in db.categories && x == Counted(db, x.category.id)
    ensures KeysOf(r, IdOf) == db.categories.Keys
  {
    var left := db.categories.Keys;
    r := [];
    while left != {}
      invariant left <= db.categories.Keys
      invariant SortedBy(r, ByName)
      invariant DistinctBy(r, IdOf)
      invariant forall x :: x in r ==> x.category.id in db.categories && x == Counted(db, x.category.id)
      invariant KeysOf(r, IdOf) == db.categories.Keys - left
      decreases left
    {
      var k := PickKey(left);
      var row := Counted(db, k);
      var r' := InsertSorted(row, r, ByName);
      assert SortedBy(r', ByName) by {
        ByNameIsTotalPreorder();
        InsertSortedSorted(row, r, ByName);
      }
      InsertSortedDistinct(row, r, ByName, IdOf);
      InsertSortedKeys(row, r, ByName, IdOf);
      InsertSortedMembers(row, r, ByName);
      r := r';
      left := left - {k};
    }
  }

  /** `getById`: the category with `id` and its post count, or NotFound. */
  method GetById(db: Store, id: int) returns (r: Outcome<CategoryWithCount>)
    ensures id !in db.categories ==> r == NotFound
    ensures id in db.categories ==> r == Ok(Counted(db, id))
  {
    if id !in db.categories {
      return NotFound;
    }
    r := Ok(CategoryWithCount(db.categories[id], UsageCount(db.assoc, id)));
  }

  /**
   * `getBySlug`: the category whose slug is `slug` (there is at most one) and its
   * post count, or NotFound; a string that is no slug is never found.
   */
  method GetBySlug(db: Store, slug: string) returns (r: Outcome<CategoryWithCount>)
    requires db.Valid()
    ensures (forall k :: k in db.categories ==> db.categories[k].slug != slug) ==> r == NotFound
    ensures forall k :: k in db.categories && db.categories[k].slug == slug ==> r == Ok(Counted(db, k))
    ensures !IsSlug(slug) ==> r == NotFound
  {
    StoredSlugsAreSlugs(db);
    if k :| k in db.categories && db.categories[k].slug == slug {
      r := Ok(CategoryWithCount(db.categories[k], UsageCount(db.assoc, k)));
    } else {
      r := NotFound;
    }
  }

  /** Some category other than `id` has slug `slug`. */
  predicate SlugTakenByOther(categories: map<int, Category>, slug: string, id: int) {
    exists k :: k in categories && k != id && categories[k].slug == slug
  }

  /** Some category has slug `slug`. */
  predicate SlugTaken(categories: map<int, Category>, slug: string) {
    exists k :: k in categories && categories[k].slug == slug
  }

  /**
   * `create`: Conflict when the slug of `name` is taken; otherwise exactly one new row,
   * under a fresh id, with that slug and `createdAt == now`.
   */
  method Create(db: Store, name: string, description: Option<string>, now: int) returns (r: Outcome<Category>)
    requires db.Valid()
    modifies db
    ensures db.Valid()
    ensures !ValidCategoryName(name) ==> r == ValidationFailed && unchanged(db)
    ensures ValidCategoryName(name) && SlugTaken(old(db.categories), GenerateSlug(name)) ==>
      r == Conflict && unchanged(db)
    ensures ValidCategoryName(name) && !SlugTaken(old(db.categories), GenerateSlug(name)) ==>
      && r == Ok(Category(old(db.nextCategoryId), name, GenerateSlug(name), description, now))
      && r.value.id !in old(db.categories)
      && db.categories == old(db.categories)[r.value.id := r.value]
      && db.nextCategoryId == old(db.nextCategoryId) + 1
      && db.posts == old(db.posts) && db.assoc == old(db.assoc) && db.nextPostId == old(db.nextPostId)
  {
    if !ValidCategoryName(name) {
      return ValidationFailed;
    }
    var slug := GenerateSlug(name);
    if exists k :: k in db.categories && db.categories[k].slug == slug {
      return Conflict;
    }
    var category := Category(db.nextCategoryId, name, slug, description, now);
    CategoryAdded(db.categories, db.nextCategoryId, category);
    db.categories := db.categories[category.id := category];
    db.nextCategoryId := db.nextCategoryId + 1;
    r := Ok(category);
  }

  /**
   * `update`: NotFound for an absent id. The slug is recomputed only when a name is
   * supplied that differs from the stored one, and Conflict is raised only when another
   * category holds the new slug. Otherwise the supplied fields are overwritten and
   * nothing else changes: id, `createdAt`, the other categories, the association rows.
   */
  method Update(db: Store, id: int, name: Option<string>, description: Option<string>)
    returns (r: Outcome<Category>)
    requires db.Valid()
    modifies db
    ensures db.Valid()
    ensures name.Some? && !ValidCategoryName(name.value) ==> r == ValidationFailed && unchanged(db)
    ensures (name.Some? ==> ValidCategoryName(name.value)) && id !in old(db.categories) ==>
      r == NotFound && unchanged(db)
    ensures (name.Some? ==> ValidCategoryName(name.value)) && id in old(db.categories) ==>
      var existing := old(db.categories)[id];
      var renamed := name.Some? && name.value != existing.name;
      var slug := if renamed then GenerateSlug(name.value) else existing.slug;
      if renamed && SlugTakenByOther(old(db.categories), slug, id) then
        r == Conflict && unchanged(db)
      else
        && r == Ok(Category(
             id,
             if name.Some? then name.value else existing.name,
             slug,
             if description.Some? then description else existing.description,
             existing.createdAt))
        && db.categories == old(db.categories)[id := r.value]
        && db.posts == old(db.posts) && db.assoc == old(db.assoc)
        && db.nextCategoryId == old(db.nextCategoryId) && db.nextPostId == old(db.nextPostId)
  {
    if name.Some? && !ValidCategoryName(name.value) {
      return ValidationFailed;
    }
    if id !in db.categories {
      return NotFound;
    }
    var existing := db.categories[id];
    var slug := existing.slug;
    if name.Some? && name.value != existing.name {
      slug := GenerateSlug(name.value);
      if exists k :: k in db.categories && k != id && db.categories[k].slug == slug {
        return Conflict;
      }
    }
    var updated := Category(
      id,
      if name.Some? then name.value else existing.name,
      slug,
      if description.Some? then description else existing.description,
      existing.createdAt);
    CategoryReplaced(db.categories, db.nextCategoryId, updated);
    db.categories := db.categories[id := updated];
    r := Ok(updated);
  }

  /**
   * `delete`: NotFound for an absent id; PreconditionFailed carrying the count, with
   * nothing changed, while association rows reference the category; otherwise exactly
   * that category is removed.
   */
  method Delete(db: Store, id: int) returns (r: Outcome<int>)
    requires db.Valid()
    modifies db
    ensures db.Valid()
    ensures id !in old(db.categories) ==> r == NotFound && unchanged(db)
    ensures id in old(db.categories) && UsageCount(old(db.assoc), id) > 0 ==>
      r == PreconditionFailed(UsageCount(old(db.assoc), id)) && unchanged(db)
    ensures id in old(db.categories) && UsageCount(old(db.assoc), id) == 0 ==>
      && r == Ok(id)
      && db.categories == old(db.categories) - {id}
      && db.posts == old(db.posts) && db.assoc == old(db.assoc)
      && db.nextCategoryId == old(db.nextCategoryId) && db.nextPostId == old(db.nextPostId)
    ensures r.Ok? ==> forall a :: a in db.assoc ==> a.categoryId != id
  {
    if id !in db.categories {
      return NotFound;
    }
    var usage := UsageCount(db.assoc, id);
    if usage > 0 {
      return PreconditionFailed(usage);
    }
    CategoryRemoved(db.categories, db.nextCategoryId, id);
    db.categories := db.categories - {id};
    r := Ok(id);
  }
}
