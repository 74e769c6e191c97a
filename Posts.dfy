/** The handlers of `postsRouter` (src/server/routers/posts.ts). */
module PostsRouter {
  import opened Slug
  import opened Ordering
  import opened Tables

  /** A joined category as `getAll` selects it: id, name and slug. */
  datatype CategoryRef = CategoryRef(id: int, name: string, slug: string)

  /** A joined category as `getById` and `getBySlug` select it: id, name, slug and description. */
  datatype CategoryDetail = CategoryDetail(id: int, name: string, slug: string, description: Option<string>)

  /** An element of `getAll`'s answer: the post's columns spread with its categories. */
  datatype PostListItem = PostListItem(post: Post, categories: seq<CategoryRef>)

  /** The answer of `getById` and `getBySlug`. */
  datatype PostWithCategories = PostWithCategories(post: Post, categories: seq<CategoryDetail>)

  function Ref(c: Category): CategoryRef {
    CategoryRef(c.id, c.name, c.slug)
  }

  function Detail(c: Category): CategoryDetail {
    CategoryDetail(c.id, c.name, c.slug, c.description)
  }

  /** The `categories` `getAll` attaches to post `postId`. */
  function RefsOf(db: Store, postId: int): seq<CategoryRef>
    reads db
  {
    var cs := Joined(db.assoc, db.categories, postId);
    seq(|cs|, i requires 0 <= i < |cs| => Ref(cs[i]))
  }

  /** The `categories` `getById` and `getBySlug` attach to post `postId`. */
  function DetailsOf(db: Store, postId: int): seq<CategoryDetail>
    reads db
  {
    var cs := Joined(db.assoc, db.categories, postId);
    seq(|cs|, i requires 0 <= i < |cs| => Detail(cs[i]))
  }

  /** The post stored under `id` with its categories, as the single-post queries return it. */
  function WithCategories(db: Store, id: int): PostWithCategories
    reads db
    requires id in db.posts
  {
    PostWithCategories(db.posts[id], DetailsOf(db, id))
  }

  function PostId(p: Post): int {
    p.id
  }

  // ---------------------------------------------------------------------------
  // getAll

  /** `ORDER BY createdAt DESC`: `a` may precede `b`. */
  predicate ByCreatedDesc(a: Post, b: Post) {
    a.createdAt >= b.createdAt
  }

  lemma ByCreatedDescIsTotalPreorder()
    ensures TotalPreorder(ByCreatedDesc)
  {
  }

  /** `input?.categoryId` is truthy: supplied and not `0`. */
  predicate FiltersByCategory(categoryId: Option<int>) {
    categoryId.Some? && categoryId.value != 0
  }

  /**
   * The `WHERE` the query ends up with. `where` is called for `id IN ids` when a category
   * filter produced `ids`, then for `published = published` when a flag was supplied.
   * With `conjoin` the two are combined with `AND`; without it the second call replaces
   * the first, so the `id IN ids` filter only applies when no flag was supplied.
   */
  predicate Matches(p: Post, ids: Option<seq<int>>, published: Option<bool>, conjoin: bool) {
    && (ids.Some? && (conjoin || published.None?) ==> p.id in ids.value)
    && (published.Some? ==> p.published == published.value)
  }

  /**
   * Whether `getAll` lists post `p`. When a category filter applies, some association
   * row must reference the category (otherwise the handler answers `[]` before the
   * query runs), and `p` must be associated with it unless the flag's `where` replaced
   * that filter. When a flag is given, `p` must have it.
   */
  predicate Listed(assoc: seq<Assoc>, p: Post, published: Option<bool>, categoryId: Option<int>, conjoin: bool) {
    && (FiltersByCategory(categoryId) ==> CategoryPostIds(assoc, categoryId.value) != [])
    && (FiltersByCategory(categoryId) && (conjoin || published.None?) ==> Assoc(p.id, categoryId.value) in assoc)
    && (published.Some? ==> p.published == published.value)
  }

  /**
   * The ids the category filter passes to `where(inArray(posts.id, ids))`: the post ids of
   * the category's association rows when the filter applies, and no filter otherwise.
   */
  function CategoryFilter(assoc: seq<Assoc>, categoryId: Option<int>): Option<seq<int>> {
    if FiltersByCategory(categoryId) then Some(CategoryPostIds(assoc, categoryId.value)) else None
  }

  /**
   * The `id IN ids` filter built from a category's association rows selects the posts
   * `getAll` lists, whichever way the two `where` calls combine.
   */
  lemma {:induction false} CategoryFilterListed(
    assoc: seq<Assoc>, published: Option<bool>, categoryId: Option<int>, conjoin: bool)
    requires FiltersByCategory(categoryId) ==> CategoryPostIds(assoc, categoryId.value) != []
    ensures forall p: Post ::
      (Matches(p, CategoryFilter(assoc, categoryId), published, conjoin) <==>
       Listed(assoc, p, published, categoryId, conjoin))
  {
  }

  /** The posts of a list of `getAll` answers. */
  function PostsOf(r: seq<PostListItem>): seq<Post> {
    seq(|r|, i requires 0 <= i < |r| => r[i].post)
  }

  /**
   * The `SELECT … FROM posts WHERE … ORDER BY createdAt DESC` that `getAll` runs:
   * every stored post that matches the filters, once, newest first.
   */
  method SelectPosts(db: Store, ids: Option<seq<int>>, published: Option<bool>) returns (r: seq<Post>)
    requires db.Valid()
    ensures SortedBy(r, ByCreatedDesc)
    ensures DistinctBy(r, PostId)
    ensures forall p :: p in r ==> p.id in db.posts && db.posts[p.id] == p && Matches(p, ids, published, db.whereConjoins)
    ensures forall k :: k in db.posts && Matches(db.posts[k], ids, published, db.whereConjoins) ==> db.posts[k] in r
  {
    var left := db.posts.Keys;
    r := [];
    while left != {}
      invariant left <= db.posts.Keys
      invariant SortedBy(r, ByCreatedDesc)
      invariant DistinctBy(r, PostId)
      invariant forall p :: p in r ==> p.id in db.posts && db.posts[p.id] == p && Matches(p, ids, published, db.whereConjoins)
      invariant KeysOf(r, PostId) + left >= set k | k in db.posts && Matches(db.posts[k], ids, published, db.whereConjoins)
      invariant KeysOf(r, PostId) !! left
      decreases left
    {
      var k := PickKey(left);
      var p := db.posts[k];
      if Matches(p, ids, published, db.whereConjoins) {
        var r' := InsertSorted(p, r, ByCreatedDesc);
        assert SortedBy(r', ByCreatedDesc) by {
          ByCreatedDescIsTotalPreorder();
          InsertSortedSorted(p, r, ByCreatedDesc);
        }
        InsertSortedDistinct(p, r, ByCreatedDesc, PostId);
        InsertSortedKeys(p, r, ByCreatedDesc, PostId);
        r := r';
      }
      left := left - {k};
    }
    forall k | k in db.posts && Matches(db.posts[k], ids, published, db.whereConjoins) ensures db.posts[k] in r {
      assert k in KeysOf(r, PostId);
      var q :| q in r && q.id == k;
    }
  }

  /**
   * `getAll`: the posts that pass the filters, newest first, each once and each with
   * exactly the categories its association rows join to. A category filter that no
   * association row references gives `[]`; a `categoryId` of `0` filters nothing.
   */
  method GetAll(db: Store, published: Option<bool>, categoryId: Option<int>) returns (r: seq<PostListItem>)
    requires db.Valid()
    ensures FiltersByCategory(categoryId) && UsageCount(db.assoc, categoryId.value) == 0 ==> r == []
    ensures SortedBy(PostsOf(r), ByCreatedDesc)
    ensures DistinctBy(PostsOf(r), PostId)
    ensures forall p :: p in PostsOf(r) ==>
      p.id in db.posts && db.posts[p.id] == p && Listed(db.assoc, p, published, categoryId, db.whereConjoins)
    ensures forall k :: k in db.posts && Listed(db.assoc, db.posts[k], published, categoryId, db.whereConjoins) ==>
      db.posts[k] in PostsOf(r)
    ensures forall i :: 0 <= i < |r| ==> r[i].categories == RefsOf(db, r[i].post.id)
  {
    var ids := CategoryFilter(db.assoc, categoryId);
    if ids.Some? && |ids.value| == 0 {
      return [];
    }
    CategoryFilterListed(db.assoc, published, categoryId, db.whereConjoins);
    var result := SelectPosts(db, ids, published);
    r := WithRefs(db, result);
    forall k | k in db.posts && Listed(db.assoc, db.posts[k], published, categoryId, db.whereConjoins)
      ensures db.posts[k] in PostsOf(r)
    {
      assert Matches(db.posts[k], ids, published, db.whereConjoins);
    }
  }

  /** The `Promise.all` over the selected posts: each post spread with the categories it joins to. */
  method WithRefs(db: Store, posts: seq<Post>) returns (r: seq<PostListItem>)
    ensures PostsOf(r) == posts
    ensures forall i :: 0 <= i < |r| ==> r[i].categories == RefsOf(db, r[i].post.id)
  {
    r := [];
    var i := 0;
    while i < |posts|
      invariant 0 <= i <= |posts|
      invariant PostsOf(r) == posts[..i]
      invariant forall j :: 0 <= j < i ==> r[j].categories == RefsOf(db, posts[j].id)
    {
      r := r + [PostListItem(posts[i], RefsOf(db, posts[i].id))];
      i := i + 1;
    }
    assert posts[..i] == posts;
  }

  // ---------------------------------------------------------------------------
  // getBySlug, getById

  /** `getBySlug`: the post whose slug is `slug` (there is at most one) with its categories, or NotFound. */
  method GetBySlug(db: Store, slug: string) returns (r: Outcome<PostWithCategories>)
    requires db.Valid()
    ensures (forall k :: k in db.posts ==> db.posts[k].slug != slug) ==> r == NotFound
    ensures forall k :: k in db.posts && db.posts[k].slug == slug ==> r == Ok(WithCategories(db, k))
    ensures !IsSlug(slug) ==> r == NotFound
  {
    StoredSlugsAreSlugs(db);
    if k :| k in db.posts && db.posts[k].slug == slug {
      r := Ok(PostWithCategories(db.posts[k], DetailsOf(db, k)));
    } else {
      r := NotFound;
    }
  }

  /** `getById`: the post stored under `id` with its categories, or NotFound. */
  method GetById(db: Store, id: int) returns (r: Outcome<PostWithCategories>)
    requires db.Valid()
    ensures id !in db.posts ==> r == NotFound
    ensures id in db.posts ==> r == Ok(WithCategories(db, id)) && r.value.post.id == id
    ensures r.Ok? ==> |r.value.categories| <= |PostCategoryIds(db.assoc, id)|
  {
    if id !in db.posts {
      return NotFound;
    }
    r := Ok(PostWithCategories(db.posts[id], DetailsOf(db, id)));
  }

  // ---------------------------------------------------------------------------
  // create

  /**
   * `input.excerpt || input.content.substring(0, 200)`: a supplied, non-empty excerpt is
   * kept; an absent or empty one becomes the first 200 characters of the content, or
   * all of it when it is shorter.
   */
  function ExcerptOrDefault(excerpt: Option<string>, content: string): (r: string)
    ensures excerpt.Some? && excerpt.value != [] ==> r == excerpt.value
    ensures excerpt.None? || excerpt.value == [] ==>
      && r <= content
      && |r| == (if |content| < ExcerptLength then |content| else ExcerptLength)
  {
    if excerpt.Some? && excerpt.value != [] then excerpt.value
    else content[..if |content| < ExcerptLength then |content| else ExcerptLength]
  }

  /** Some post has slug `slug`. */
  predicate SlugTaken(posts: map<int, Post>, slug: string) {
    exists k :: k in posts && posts[k].slug == slug
  }

  /** Some post other than `id` has slug `slug`. */
  predicate SlugTakenByOther(posts: map<int, Post>, slug: string, id: int) {
    exists k :: k in posts && k != id && posts[k].slug == slug
  }

  /**
   * Append one association row `{postId, c}` per listed `c`, in list order
   * (`db.insert(postCategories).values(categoryIds.map(…))`).
   */
  method InsertRows(db: Store, postId: int, categoryIds: seq<int>)
    requires AssocWellFormed(db.assoc, db.nextPostId) && postId < db.nextPostId
    modifies db
    ensures AssocWellFormed(db.assoc, db.nextPostId)
    ensures db.assoc == old(db.assoc) + RowsFor(postId, categoryIds)
    ensures db.categories == old(db.categories) && db.posts == old(db.posts)
    ensures db.nextCategoryId == old(db.nextCategoryId) && db.nextPostId == old(db.nextPostId)
  {
    var i := 0;
    while i < |categoryIds|
      invariant 0 <= i <= |categoryIds|
      invariant db.assoc == old(db.assoc) + RowsFor(postId, categoryIds[..i])
      invariant db.categories == old(db.categories) && db.posts == old(db.posts)
      invariant db.nextCategoryId == old(db.nextCategoryId) && db.nextPostId == old(db.nextPostId)
    {
      assert RowsFor(postId, categoryIds[..i + 1]) == RowsFor(postId, categoryIds[..i]) + [Assoc(postId, categoryIds[i])];
      db.assoc := db.assoc + [Assoc(postId, categoryIds[i])];
      i := i + 1;
    }
    assert categoryIds[..i] == categoryIds;
    RowsAdded(old(db.assoc), db.nextPostId, postId, categoryIds);
  }

  /**
   * Delete every association row of post `postId`, then insert one per listed id:
   * afterwards the post's category ids are exactly the list, and every other post's are
   * what they were.
   */
  method ReplaceRows(db: Store, postId: int, categoryIds: seq<int>)
    requires AssocWellFormed(db.assoc, db.nextPostId) && postId < db.nextPostId
    modifies db
    ensures AssocWellFormed(db.assoc, db.nextPostId)
    ensures db.assoc == WithoutPost(old(db.assoc), postId) + RowsFor(postId, categoryIds)
    ensures PostCategoryIds(db.assoc, postId) == categoryIds
    ensures forall q :: q != postId ==> PostCategoryIds(db.assoc, q) == PostCategoryIds(old(db.assoc), q)
    ensures db.categories == old(db.categories) && db.posts == old(db.posts)
    ensures db.nextCategoryId == old(db.nextCategoryId) && db.nextPostId == old(db.nextPostId)
  {
    db.assoc := WithoutPost(db.assoc, postId);
    if |categoryIds| > 0 {
      InsertRows(db, postId, categoryIds);
    } else {
      assert RowsFor(postId, categoryIds) == [];
      assert db.assoc == WithoutPost(old(db.assoc), postId) + [];
    }
    forall q ensures PostCategoryIds(db.assoc, q) == (if q == postId then categoryIds else PostCategoryIds(old(db.assoc), q)) {
      ReplaceAssociations(old(db.assoc), postId, categoryIds, q);
    }
  }

  /** The ids a `categoryIds` input stands for: none when it is omitted. */
  function IdsOrEmpty(categoryIds: Option<seq<int>>): seq<int> {
    if categoryIds.Some? then categoryIds.value else []
  }

  /**
   * The writes of a successful `create`: the post row is inserted under the next identity
   * value, followed by one association row per listed category id.
   */
  method Insert(db: Store, post: Post, categoryIds: Option<seq<int>>)
    requires db.Valid()
    requires post.id == db.nextPostId && post.slug == GenerateSlug(post.title)
    requires !SlugTaken(db.posts, post.slug)
    modifies db
    ensures db.Valid()
    ensures db.posts == old(db.posts)[post.id := post] && db.nextPostId == old(db.nextPostId) + 1
    ensures db.categories == old(db.categories) && db.nextCategoryId == old(db.nextCategoryId)
    ensures db.assoc == old(db.assoc) + RowsFor(post.id, IdsOrEmpty(categoryIds))
    ensures PostCategoryIds(db.assoc, post.id) == IdsOrEmpty(categoryIds)
    ensures forall q :: q != post.id ==> PostCategoryIds(db.assoc, q) == PostCategoryIds(old(db.assoc), q)
  {
    PostAdded(db.posts, db.nextPostId, post);
    db.posts := db.posts[post.id := post];
    db.nextPostId := db.nextPostId + 1;
    ghost var before := db.assoc;
    if categoryIds.Some? && |categoryIds.value| > 0 {
      InsertRows(db, post.id, categoryIds.value);
    } else {
      assert RowsFor(post.id, IdsOrEmpty(categoryIds)) == [];
      assert db.assoc == before + [];
    }
    forall q ensures PostCategoryIds(db.assoc, q) == (if q == post.id then IdsOrEmpty(categoryIds) else PostCategoryIds(before, q)) {
      AddAssociations(before, post.id, IdsOrEmpty(categoryIds), q);
    }
  }

  /**
   * `create`: Conflict, with nothing changed, when the slug of `title` is taken.
   * Otherwise one post row under a fresh id with that slug, the defaulted excerpt,
   * `published` defaulting to false and `createdAt == updatedAt == now`, followed by one
   * association row per listed category id; no check that those categories exist.
   */
  method Create(
    db: Store, title: string, content: string, excerpt: Option<string>,
    published: Option<bool>, categoryIds: Option<seq<int>>, now: int)
    returns (r: Outcome<Post>)
    requires db.Valid()
    modifies db
    ensures db.Valid()
    ensures !(ValidTitle(title) && ValidContent(content)) ==> r == ValidationFailed && unchanged(db)
    ensures ValidTitle(title) && ValidContent(content) && SlugTaken(old(db.posts), GenerateSlug(title)) ==>
      r == Conflict && unchanged(db)
    ensures ValidTitle(title) && ValidContent(content) && !SlugTaken(old(db.posts), GenerateSlug(title)) ==>
      && r == Ok(Post(
           old(db.nextPostId), title, GenerateSlug(title), content, ExcerptOrDefault(excerpt, content),
           published.Some? && published.value, now, now))
      && r.value.id !in old(db.posts)
      && db.posts == old(db.posts)[r.value.id := r.value]
      && db.nextPostId == old(db.nextPostId) + 1
      && db.assoc == old(db.assoc) + RowsFor(r.value.id, IdsOrEmpty(categoryIds))
      && PostCategoryIds(db.assoc, r.value.id) == IdsOrEmpty(categoryIds)
      && (forall q :: q != r.value.id ==> PostCategoryIds(db.assoc, q) == PostCategoryIds(old(db.assoc), q))
      && db.categories == old(db.categories) && db.nextCategoryId == old(db.nextCategoryId)
  {
    if !(ValidTitle(title) && ValidContent(content)) {
      return ValidationFailed;
    }
    var slug := GenerateSlug(title);
    if SlugTaken(db.posts, slug) {
      return Conflict;
    }
    var post := Post(
      db.nextPostId, title, slug, content, ExcerptOrDefault(excerpt, content),
      published.Some? && published.value, now, now);
    Insert(db, post, categoryIds);
    r := Ok(post);
  }

  // ---------------------------------------------------------------------------
  // update

  /**
   * The writes of a successful `update`: the post row is overwritten with `updated`, and a
   * supplied `categoryIds` replaces the post's association rows.
   */
  method Rewrite(db: Store, updated: Post, categoryIds: Option<seq<int>>)
    requires db.Valid()
    requires updated.id in db.posts && updated.slug == GenerateSlug(updated.title)
    requires !SlugTakenByOther(db.posts, updated.slug, updated.id)
    modifies db
    ensures db.Valid()
    ensures db.posts == old(db.posts)[updated.id := updated]
    ensures db.categories == old(db.categories)
    ensures db.nextCategoryId == old(db.nextCategoryId) && db.nextPostId == old(db.nextPostId)
    ensures categoryIds.None? ==> db.assoc == old(db.assoc)
    ensures categoryIds.Some? ==>
      && db.assoc == WithoutPost(old(db.assoc), updated.id) + RowsFor(updated.id, categoryIds.value)
      && PostCategoryIds(db.assoc, updated.id) == categoryIds.value
    ensures forall q :: q != updated.id ==> PostCategoryIds(db.assoc, q) == PostCategoryIds(old(db.assoc), q)
  {
    PostReplaced(db.posts, db.nextPostId, updated);
    db.posts := db.posts[updated.id := updated];
    if categoryIds.Some? {
      ReplaceRows(db, updated.id, categoryIds.value);
    }
  }

  /**
   * `update`: NotFound for an absent id. The slug is recomputed only when a title is
   * supplied that differs from the stored one, and Conflict is raised only when another
   * post holds the new slug. Otherwise the supplied fields are overwritten, `updatedAt`
   * becomes `now`, and id and `createdAt` are kept. A supplied `categoryIds`, even `[]`,
   * becomes exactly this post's list of category ids; an omitted one leaves the
   * association rows alone. Other posts and the categories are never touched.
   */
  method Update(
    db: Store, id: int, title: Option<string>, content: Option<string>, excerpt: Option<string>,
    published: Option<bool>, categoryIds: Option<seq<int>>, now: int)
    returns (r: Outcome<Post>)
    requires db.Valid()
    modifies db
    ensures db.Valid()
    ensures !((title.Some? ==> ValidTitle(title.value)) && (content.Some? ==> ValidContent(content.value))) ==>
      r == ValidationFailed && unchanged(db)
    ensures (title.Some? ==> ValidTitle(title.value)) && (content.Some? ==> ValidContent(content.value)) ==>
      if id !in old(db.posts) then
        r == NotFound && unchanged(db)
      else
        var existing := old(db.posts)[id];
        var retitled := title.Some? && title.value != existing.title;
        var slug := if retitled then GenerateSlug(title.value) else existing.slug;
        if retitled && SlugTakenByOther(old(db.posts), slug, id) then
          r == Conflict && unchanged(db)
        else
          && r == Ok(Post(
               id,
               if title.Some? then title.value else existing.title,
               slug,
               if content.Some? then content.value else existing.content,
               if excerpt.Some? then excerpt.value else existing.excerpt,
               if published.Some? then published.value else existing.published,
               existing.createdAt,
               now))
          && db.posts == old(db.posts)[id := r.value]
          && db.categories == old(db.categories)
          && db.nextCategoryId == old(db.nextCategoryId) && db.nextPostId == old(db.nextPostId)
          && (categoryIds.None? ==> db.assoc == old(db.assoc))
          && (categoryIds.Some? ==>
                && db.assoc == WithoutPost(old(db.assoc), id) + RowsFor(id, categoryIds.value)
                && PostCategoryIds(db.assoc, id) == categoryIds.value)
          && (forall q :: q != id ==> PostCategoryIds(db.assoc, q) == PostCategoryIds(old(db.assoc), q))
  {
    if !((title.Some? ==> ValidTitle(title.value)) && (content.Some? ==> ValidContent(content.value))) {
      return ValidationFailed;
    }
    if id !in db.posts {
      return NotFound;
    }
    var existing := db.posts[id];
    var slug := existing.slug;
    if title.Some? && title.value != existing.title {
      slug := GenerateSlug(title.value);
      if SlugTakenByOther(db.posts, slug, id) {
        return Conflict;
      }
    }
    var updated := Post(
      id,
      if title.Some? then title.value else existing.title,
      slug,
      if content.Some? then content.value else existing.content,
      if excerpt.Some? then excerpt.value else existing.excerpt,
      if published.Some? then published.value else existing.published,
      existing.createdAt,
      now);
    Rewrite(db, updated, categoryIds);
    r := Ok(updated);
  }

  // ---------------------------------------------------------------------------
  // delete

  /**
   * `delete`: NotFound for an absent id; otherwise the post row is removed. Its
   * association rows go with it only when the schema cascades the delete.
   */
  method Delete(db: Store, id: int) returns (r: Outcome<int>)
    requires db.Valid()
    modifies db
    ensures db.Valid()
    ensures id !in old(db.posts) ==> r == NotFound && unchanged(db)
    ensures id in old(db.posts) ==>
      && r == Ok(id)
      && db.posts == old(db.posts) - {id}
      && db.assoc == (if db.cascadePostDelete then WithoutPost(old(db.assoc), id) else old(db.assoc))
      && db.categories == old(db.categories)
      && db.nextCategoryId == old(db.nextCategoryId) && db.nextPostId == old(db.nextPostId)
  {
    if id !in db.posts {
      return NotFound;
    }
    PostRemoved(db.posts, db.nextPostId, id);
    db.posts := db.posts - {id};
    if db.cascadePostDelete {
      db.assoc := WithoutPost(db.assoc, id);
    }
    r := Ok(id);
  }
}
