/**
 * The relational store both routers run against: the `categories`, `posts`
 * and `postCategories` tables, the handlers' result type, and the queries on the
 * association table that the handlers issue.
 */
module Tables {
  import opened Slug

  datatype Option<T> = None | Some(value: T)

  /** What a handler returns: a value, or the error it raises. */
  datatype Outcome<T> =
    | Ok(value: T)
    | ValidationFailed              // the input schema rejected the input
    | NotFound                      // NOT_FOUND
    | Conflict                      // CONFLICT
    | PreconditionFailed(count: nat) // PRECONDITION_FAILED, with the blocking row count

  datatype Category = Category(
    id: int,
    name: string,
    slug: string,
    description: Option<string>,
    createdAt: int)

  datatype Post = Post(
    id: int,
    title: string,
    slug: string,
    content: string,
    excerpt: string,
    published: bool,
    createdAt: int,
    updatedAt: int)

  /** A row of `postCategories`. */
  datatype Assoc = Assoc(postId: int, categoryId: int)

  /** The number of characters `create` copies from the content into a missing excerpt. */
  const ExcerptLength := 200

  // ---------------------------------------------------------------------------
  // Input schemas

  predicate ValidCategoryName(name: string) {
    1 <= |name| <= 100
  }

  predicate ValidTitle(title: string) {
    1 <= |title| <= 255
  }

  predicate ValidContent(content: string) {
    1 <= |content|
  }

  // ---------------------------------------------------------------------------
  // Queries on `postCategories`

  /** `SELECT categoryId FROM postCategories WHERE postId = postId`, in row order. */
  function PostCategoryIds(rows: seq<Assoc>, postId: int): (r: seq<int>)
    ensures forall c :: c in r <==> Assoc(postId, c) in rows
  {
    if rows == [] then []
    else (if rows[0].postId == postId then [rows[0].categoryId] else []) + PostCategoryIds(rows[1..], postId)
  }

  /** `SELECT postId FROM postCategories WHERE categoryId = categoryId`, in row order. */
  function CategoryPostIds(rows: seq<Assoc>, categoryId: int): (r: seq<int>)
    ensures forall p :: p in r <==> Assoc(p, categoryId) in rows
  {
    if rows == [] then []
    else (if rows[0].categoryId == categoryId then [rows[0].postId] else []) + CategoryPostIds(rows[1..], categoryId)
  }

  /** The `categoryId` column of the association rows, in row order. */
  function CategoryColumn(rows: seq<Assoc>): seq<int> {
    seq(|rows|, i requires 0 <= i < |rows| => rows[i].categoryId)
  }

  /**
   * `SELECT count(*) FROM postCategories WHERE categoryId = categoryId`: the number of
   * rows whose `categoryId` is the given one, zero exactly when no row references it.
   */
  function UsageCount(rows: seq<Assoc>, categoryId: int): (n: nat)
    ensures n == multiset(CategoryColumn(rows))[categoryId]
    ensures n == 0 <==> forall a :: a in rows ==> a.categoryId != categoryId
  {
    var ids := CategoryPostIds(rows, categoryId);
    assert forall a :: a in rows && a.categoryId == categoryId ==> a == Assoc(a.postId, categoryId) && a.postId in ids;
    assert |ids| > 0 ==> ids[0] in ids && Assoc(ids[0], categoryId) in rows;
    CategoryPostIdsCount(rows, categoryId);
    |ids|
  }

  /** One post id per row that references the category. */
  lemma {:induction false} CategoryPostIdsCount(rows: seq<Assoc>, categoryId: int)
    ensures |CategoryPostIds(rows, categoryId)| == multiset(CategoryColumn(rows))[categoryId]
  {
    if rows != [] {
      CategoryPostIdsCount(rows[1..], categoryId);
      assert CategoryColumn(rows) == [rows[0].categoryId] + CategoryColumn(rows[1..]);
    }
  }

  /** `DELETE FROM postCategories WHERE postId = postId`: the rows that remain, in order. */
  function WithoutPost(rows: seq<Assoc>, postId: int): (r: seq<Assoc>)
    ensures forall a :: a in r <==> a in rows && a.postId != postId
  {
    if rows == [] then []
    else (if rows[0].postId != postId then [rows[0]] else []) + WithoutPost(rows[1..], postId)
  }

  /** The rows `{postId, categoryId}` the handlers insert, one per listed id, in list order. */
  function RowsFor(postId: int, categoryIds: seq<int>): (r: seq<Assoc>)
    ensures |r| == |categoryIds|
    ensures forall a :: a in r <==> a.postId == postId && a.categoryId in categoryIds
  {
    var r := seq(|categoryIds|, i requires 0 <= i < |categoryIds| => Assoc(postId, categoryIds[i]));
    RowsForMembers(postId, categoryIds, r);
    r
  }

  lemma {:induction false} RowsForMembers(postId: int, categoryIds: seq<int>, r: seq<Assoc>)
    requires |r| == |categoryIds| && forall i :: 0 <= i < |r| ==> r[i] == Assoc(postId, categoryIds[i])
    ensures forall a :: a in r <==> a.postId == postId && a.categoryId in categoryIds
  {
    forall a ensures a in r <==> a.postId == postId && a.categoryId in categoryIds {
      if a.postId == postId && a.categoryId in categoryIds {
        var i :| 0 <= i < |categoryIds| && categoryIds[i] == a.categoryId;
        assert r[i] == a;
      }
    }
  }

  /** The inner join of a list of category ids with `categories`: ids with no row are dropped. */
  function Lookup(categories: map<int, Category>, ids: seq<int>): (r: seq<Category>)
    ensures |r| <= |ids|
    ensures forall c :: c in r <==> exists k :: k in ids && k in categories && categories[k] == c
  {
    if ids == [] then []
    else
      assert forall k :: k in ids <==> k == ids[0] || k in ids[1..];
      (if ids[0] in categories then [categories[ids[0]]] else []) + Lookup(categories, ids[1..])
  }

  /**
   * The categories of a post:
   * `postCategories INNER JOIN categories ON categoryId = categories.id WHERE postId = postId`.
   */
  function Joined(rows: seq<Assoc>, categories: map<int, Category>, postId: int): (r: seq<Category>)
    ensures |r| <= |PostCategoryIds(rows, postId)|
    ensures forall c :: c in r <==>
      exists k :: Assoc(postId, k) in rows && k in categories && categories[k] == c
  {
    Lookup(categories, PostCategoryIds(rows, postId))
  }

  /**
   * The inner join yields one row per listed id that has a category row: a stored
   * category appears as often as its id is listed, and nothing else appears.
   */
  lemma {:induction false} LookupCount(categories: map<int, Category>, ids: seq<int>, c: Category)
    requires forall k :: k in categories ==> categories[k].id == k
    ensures multiset(Lookup(categories, ids))[c] ==
      if c.id in categories && categories[c.id] == c then multiset(ids)[c.id] else 0
  {
    if ids != [] {
      LookupCount(categories, ids[1..], c);
      assert ids == [ids[0]] + ids[1..];
    }
  }

  /** A post lists a category id once per association row of the post naming it. */
  lemma {:induction false} PostCategoryIdsCount(rows: seq<Assoc>, postId: int, k: int)
    ensures multiset(PostCategoryIds(rows, postId))[k] == multiset(rows)[Assoc(postId, k)]
  {
    if rows != [] {
      PostCategoryIdsCount(rows[1..], postId, k);
      assert rows == [rows[0]] + rows[1..];
    }
  }

  /**
   * A post's joined categories hold a stored category once per association row of the
   * post that names it; a row naming a missing category contributes nothing.
   */
  lemma {:induction false} JoinedCount(rows: seq<Assoc>, categories: map<int, Category>, postId: int, c: Category)
    requires forall k :: k in categories ==> categories[k].id == k
    ensures multiset(Joined(rows, categories, postId))[c] ==
      if c.id in categories && categories[c.id] == c then multiset(rows)[Assoc(postId, c.id)] else 0
  {
    LookupCount(categories, PostCategoryIds(rows, postId), c);
    PostCategoryIdsCount(rows, postId, c.id);
  }

  // ---------------------------------------------------------------------------
  // Lemmas about the association table

  lemma {:induction false} PostCategoryIdsAppend(a: seq<Assoc>, b: seq<Assoc>, postId: int)
    ensures PostCategoryIds(a + b, postId) == PostCategoryIds(a, postId) + PostCategoryIds(b, postId)
  {
    if a == [] {
      assert a + b == b;
    } else {
      assert (a + b)[1..] == a[1..] + b;
      PostCategoryIdsAppend(a[1..], b, postId);
    }
  }

  lemma {:induction false} PostCategoryIdsWithoutPost(rows: seq<Assoc>, postId: int, other: int)
    ensures PostCategoryIds(WithoutPost(rows, postId), postId) == []
    ensures other != postId ==> PostCategoryIds(WithoutPost(rows, postId), other) == PostCategoryIds(rows, other)
  {
    if rows != [] {
      PostCategoryIdsWithoutPost(rows[1..], postId, other);
      var head := if rows[0].postId != postId then [rows[0]] else [];
      PostCategoryIdsAppend(head, WithoutPost(rows[1..], postId), postId);
      PostCategoryIdsAppend(head, WithoutPost(rows[1..], postId), other);
    }
  }

  lemma {:induction false} PostCategoryIdsRowsFor(postId: int, categoryIds: seq<int>, other: int)
    ensures PostCategoryIds(RowsFor(postId, categoryIds), postId) == categoryIds
    ensures other != postId ==> PostCategoryIds(RowsFor(postId, categoryIds), other) == []
  {
    if categoryIds != [] {
      var rows := RowsFor(postId, categoryIds);
      assert rows[1..] == RowsFor(postId, categoryIds[1..]);
      PostCategoryIdsRowsFor(postId, categoryIds[1..], other);
      assert categoryIds == [categoryIds[0]] + categoryIds[1..];
    }
  }

  /**
   * Replacing a post's associations (delete its rows, insert one row per listed id)
   * leaves that post with exactly the listed category ids, in order, and every other
   * post with the ids it had.
   */
  lemma {:induction false} ReplaceAssociations(rows: seq<Assoc>, postId: int, categoryIds: seq<int>, other: int)
    ensures PostCategoryIds(WithoutPost(rows, postId) + RowsFor(postId, categoryIds), postId) == categoryIds
    ensures other != postId ==>
      PostCategoryIds(WithoutPost(rows, postId) + RowsFor(postId, categoryIds), other) == PostCategoryIds(rows, other)
  {
    PostCategoryIdsAppend(WithoutPost(rows, postId), RowsFor(postId, categoryIds), postId);
    PostCategoryIdsAppend(WithoutPost(rows, postId), RowsFor(postId, categoryIds), other);
    PostCategoryIdsWithoutPost(rows, postId, other);
    PostCategoryIdsRowsFor(postId, categoryIds, other);
  }

  /**
   * Appending the rows of a post that had none gives it exactly the listed ids and
   * leaves every other post's ids as they were.
   */
  lemma {:induction false} AddAssociations(rows: seq<Assoc>, postId: int, categoryIds: seq<int>, other: int)
    requires forall a :: a in rows ==> a.postId != postId
    ensures PostCategoryIds(rows + RowsFor(postId, categoryIds), postId) == categoryIds
    ensures other != postId ==>
      PostCategoryIds(rows + RowsFor(postId, categoryIds), other) == PostCategoryIds(rows, other)
  {
    PostCategoryIdsAppend(rows, RowsFor(postId, categoryIds), postId);
    PostCategoryIdsAppend(rows, RowsFor(postId, categoryIds), other);
    PostCategoryIdsRowsFor(postId, categoryIds, other);
    PostCategoryIdsNone(rows, postId);
  }

  lemma {:induction false} PostCategoryIdsNone(rows: seq<Assoc>, postId: int)
    requires forall a :: a in rows ==> a.postId != postId
    ensures PostCategoryIds(rows, postId) == []
  {
    if rows != [] {
      assert rows[0] in rows;
      assert forall a :: a in rows[1..] ==> a in rows;
      PostCategoryIdsNone(rows[1..], postId);
    }
  }

  // ---------------------------------------------------------------------------
  // Table invariants

  /**
   * Every category is stored under its own id, below the next identity value, with the
   * slug of its name; no two categories share a slug.
   */
  ghost predicate CategoriesWellFormed(categories: map<int, Category>, next: int) {
    && 1 <= next
    && (forall k :: k in categories ==>
          categories[k].id == k && 1 <= k < next && categories[k].slug == GenerateSlug(categories[k].name))
    && (forall j, k :: j in categories && k in categories && categories[j].slug == categories[k].slug ==> j == k)
  }

  /**
   * Every post is stored under its own id, below the next identity value, with the
   * slug of its title; no two posts share a slug.
   */
  ghost predicate PostsWellFormed(posts: map<int, Post>, next: int) {
    && 1 <= next
    && (forall k :: k in posts ==>
          posts[k].id == k && 1 <= k < next && posts[k].slug == GenerateSlug(posts[k].title))
    && (forall j, k :: j in posts && k in posts && posts[j].slug == posts[k].slug ==> j == k)
  }

  /** Association rows only name post ids that have been handed out. */
  ghost predicate AssocWellFormed(assoc: seq<Assoc>, nextPostId: int) {
    forall a :: a in assoc ==> a.postId < nextPostId
  }

  lemma {:induction false} CategoryAdded(categories: map<int, Category>, next: int, c: Category)
    requires CategoriesWellFormed(categories, next)
    requires c.id == next && c.slug == GenerateSlug(c.name)
    requires forall k :: k in categories ==> categories[k].slug != c.slug
    ensures CategoriesWellFormed(categories[c.id := c], next + 1)
  {
  }

  lemma {:induction false} CategoryReplaced(categories: map<int, Category>, next: int, c: Category)
    requires CategoriesWellFormed(categories, next)
    requires c.id in categories && c.slug == GenerateSlug(c.name)
    requires forall k :: k in categories && k != c.id ==> categories[k].slug != c.slug
    ensures CategoriesWellFormed(categories[c.id := c], next)
  {
  }

  lemma {:induction false} CategoryRemoved(categories: map<int, Category>, next: int, id: int)
    requires CategoriesWellFormed(categories, next)
    ensures CategoriesWellFormed(categories - {id}, next)
  {
  }

  lemma {:induction false} PostAdded(posts: map<int, Post>, next: int, p: Post)
    requires PostsWellFormed(posts, next)
    requires p.id == next && p.slug == GenerateSlug(p.title)
    requires forall k :: k in posts ==> posts[k].slug != p.slug
    ensures PostsWellFormed(posts[p.id := p], next + 1)
  {
  }

  lemma {:induction false} PostReplaced(posts: map<int, Post>, next: int, p: Post)
    requires PostsWellFormed(posts, next)
    requires p.id in posts && p.slug == GenerateSlug(p.title)
    requires forall k :: k in posts && k != p.id ==> posts[k].slug != p.slug
    ensures PostsWellFormed(posts[p.id := p], next)
  {
  }

  lemma {:induction false} PostRemoved(posts: map<int, Post>, next: int, id: int)
    requires PostsWellFormed(posts, next)
    ensures PostsWellFormed(posts - {id}, next)
  {
  }

  /** Rows for an id already handed out keep the association table well formed. */
  lemma {:induction false} RowsAdded(assoc: seq<Assoc>, next: int, postId: int, categoryIds: seq<int>)
    requires AssocWellFormed(assoc, next)
    requires postId < next
    ensures AssocWellFormed(assoc + RowsFor(postId, categoryIds), next)
  {
    forall a | a in assoc + RowsFor(postId, categoryIds) ensures a.postId < next {
      if a !in assoc {
        var i :| 0 <= i < |categoryIds| && RowsFor(postId, categoryIds)[i] == a;
      }
    }
  }

  // ---------------------------------------------------------------------------
  // The store

  /**
   * The database. Identity columns hand out `nextCategoryId` and `nextPostId`.
   * `cascadePostDelete` says whether the schema removes a post's association rows
   * when the post row is deleted; the schema is not part of this model.
   * `whereConjoins` says whether a second `where` on a query builder is combined with
   * the first (`AND`) or replaces it; that is behaviour of the query library.
   */
  class Store {
    var categories: map<int, Category>
    var posts: map<int, Post>
    var assoc: seq<Assoc>
    var nextCategoryId: int
    var nextPostId: int
    const cascadePostDelete: bool
    const whereConjoins: bool

    /**
     * Every row is stored under its own id, below the next identity value; every slug is
     * the slug of its name or title; no two categories and no two posts share a slug;
     * association rows only name posts that have been created.
     */
    ghost predicate Valid()
      reads this
    {
      && CategoriesWellFormed(categories, nextCategoryId)
      && PostsWellFormed(posts, nextPostId)
      && AssocWellFormed(assoc, nextPostId)
    }

    /** An empty database. */
    constructor (cascade: bool, conjoin: bool)
      ensures Valid()
      ensures categories == map[] && posts == map[] && assoc == []
      ensures cascadePostDelete == cascade && whereConjoins == conjoin
    {
      categories := map[];
      posts := map[];
      assoc := [];
      nextCategoryId := 1;
      nextPostId := 1;
      cascadePostDelete := cascade;
      whereConjoins := conjoin;
    }
  }

  /** The next key a loop over a table visits: some key not yet visited. */
  method PickKey<K>(keys: set<K>) returns (k: K)
    requires keys != {}
    ensures k in keys
  {
    k :| k in keys;
  }

  /** Every slug a valid store holds is a slug: lower-case, hyphenated, no whitespace. */
  lemma {:induction false} StoredSlugsAreSlugs(db: Store)
    requires db.Valid()
    ensures forall k :: k in db.categories ==> IsSlug(db.categories[k].slug)
    ensures forall k :: k in db.posts ==> IsSlug(db.posts[k].slug)
  {
    forall k | k in db.categories ensures IsSlug(db.categories[k].slug) {
      GenerateSlugIsSlug(db.categories[k].name);
    }
    forall k | k in db.posts ensures IsSlug(db.posts[k].slug) {
      GenerateSlugIsSlug(db.posts[k].title);
    }
  }
}
