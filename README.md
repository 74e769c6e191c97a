# Blog routers: slugs, categories and posts

A Dafny model of the server-side business logic of a small blogging platform: the two
remote-procedure routers `categoriesRouter` and `postsRouter`, which sit directly on a
relational store with three tables (`categories`, `posts` and the association table
`postCategories`).

- `Slug.dfy` (module `Slug`): `generateSlug`, the string transform both routers carry
  word for word (lower-case, delete everything outside `[\w\s-]`, turn each whitespace
  run into `-`, collapse each run of `-`, `trim`). It is defined once and used by both
  routers. Proved: the output alphabet is `[a-z0-9_-]` with no `--` and no whitespace;
  a slug is never longer than its text; the transform is idempotent; it keeps the
  input's word characters, lower-cased and in order; whitespace at the start (end) of
  the text leaves a hyphen at the start (end) of the slug; the seeded category name
  "Web Development" gets the slug "web-development".
- `Ordering.dfy` (module `Ordering`): what the list queries need of an `ORDER BY`:
  sortedness and distinct keys, total preorders, insertion into a sequence kept sorted,
  and code-point order on strings. The two orders themselves are defined with their
  routers: `ByName` in `Categories.dfy`, `ByCreatedDesc` in `Posts.dfy`.
- `Tables.dfy` (module `Tables`): the row types, the handlers' outcome type
  (`Ok`, `ValidationFailed`, `NotFound`, `Conflict`, `PreconditionFailed(count)`), the
  input-schema bounds, the queries on the association table, and the `Store` class
  whose fields the handlers update: `categories` and `posts` as maps from id to row,
  `assoc` as the sequence of association rows, the two identity counters, and two
  constants for behaviour outside the routers (`cascadePostDelete`, `whereConjoins`).
  `Store.Valid()` is the invariant every handler keeps: rows are stored under their own
  id below the next identity value, every slug is the slug of its row's name or title,
  no two categories and no two posts share a slug, and association rows only name post
  ids already handed out.
- `Categories.dfy` (module `CategoriesRouter`) and `Posts.dfy` (module `PostsRouter`):
  one method per handler, taking the store. Read handlers change nothing; write handlers
  `modify` the store and state its whole new state. The clock is the parameter `now`.
  The input schemas are checked first and reject with `ValidationFailed` before the
  store is read.

Behaviour worth noting:

- The final `.trim()` of `generateSlug` strips whitespace only, and none is left by
  then, so a hyphen at either end of a slug stays (`" Hi "` gives `"-hi-"`,
  `Slug.EdgeHyphensKept`; in general `Slug.LeadingSpaceGivesHyphen` and
  `Slug.TrailingSpaceGivesHyphen`).
- Post `delete` removes only the post row. Whether its association rows disappear
  depends on an `ON DELETE CASCADE` in a schema that is not part of this model; the
  store carries it as the explicit constant `Store.cascadePostDelete`, and
  `PostsRouter.Delete` states both cases.
- Neither create nor update checks that the listed category ids exist; the model
  inserts the rows as given.
- Post `getAll` calls `where` twice on one query builder when both a category and a
  published flag are given. Whether the second call is combined with the first or
  replaces it is behaviour of the query library; the store carries it as the explicit
  constant `Store.whereConjoins`, and `PostsRouter.GetAll` states both cases.

## Model

| member | source | states |
|---|---|---|
| `Slug.Lower` | src/server/routers/categories.ts:23 | `toLowerCase` keeps the length, turns each upper-case ASCII letter into its own lower-case letter at the same position and leaves every other character as it is; so no upper-case letter is left and each position keeps its class |
| `Slug.StripDisallowed` | src/server/routers/categories.ts:24 | every character of the result is an input character inside `[\w\s-]`; `Slug.KeepStripDisallowed` adds that none of those is lost |
| `Slug.KeepStripDisallowed` | src/server/routers/categories.ts:24 | for any class of characters inside `[\w\s-]`, the characters of that class in the result are exactly those of the input, in the same order |
| `Slug.ReplaceRuns` | src/server/routers/categories.ts:25-26 | the result is no longer than the input and holds only `-` and input characters outside the replaced class; its first character is `-` when the input's first character is in the class, and the input's first character otherwise |
| `Slug.KeepReplaceRuns` | src/server/routers/categories.ts:25-26 | replacing runs keeps every character outside the replaced class: for any class disjoint from it and not containing `-`, its characters in the result are exactly those of the input, in order |
| `Slug.ReplaceRunsCollapse` | src/server/routers/categories.ts:25-26 | two adjacent characters of the replaced class give the same result as one, so a whole run leaves a single `-` |
| `Slug.TrimEnd` | src/server/routers/categories.ts:27 | stripping trailing whitespace leaves a prefix of the input that does not end in whitespace, and everything cut off is whitespace |
| `Slug.Trim` | src/server/routers/categories.ts:27 | `.trim()` gives a string no longer than its input that neither starts nor ends with whitespace |
| `Slug.TrimPadded` | src/server/routers/categories.ts:27 | `.trim()` removes exactly the leading and the trailing whitespace: the result is a contiguous piece of the input and everything before and after it is whitespace |
| `Slug.DropRunSuffix` | src/server/routers/categories.ts:25-27 | dropping a leading run leaves a suffix of the input, and everything dropped is in the class |
| `Slug.GenerateSlug` | src/server/routers/categories.ts:21-28 | a slug is never longer than the text it is derived from |
| `Slug.ReplaceRunsNoAdjacent` | src/server/routers/categories.ts:26 | after `.replace(/-+/g, '-')` no two adjacent characters are hyphens |
| `Slug.GenerateSlugIsSlug` | src/server/routers/categories.ts:21-28 | every slug consists of `a-z`, `0-9`, `_` and `-` only, holds no whitespace and no `--` |
| `Slug.GenerateSlugFixed` | src/server/routers/posts.ts:27-34 | a string that already has the slug shape is its own slug |
| `Slug.GenerateSlugIdempotent` | src/server/routers/categories.ts:21-28 | `generateSlug(generateSlug(s)) == generateSlug(s)` for every `s` |
| `Slug.GenerateSlugWords` | src/server/routers/posts.ts:27-34 | the word characters of the slug are those of the input, lower-cased, in the same order: nothing else is lost or invented |
| `Slug.EdgeHyphensKept` | src/server/routers/categories.ts:27 | `trim` leaves edge hyphens: `" Hi "` has the slug `"-hi-"` |
| `Slug.LeadingSpaceGivesHyphen` | src/server/routers/categories.ts:25-27 | text that starts with whitespace has a slug that starts with `-` |
| `Slug.TrailingSpaceGivesHyphen` | src/server/routers/categories.ts:25-27 | text that ends with whitespace has a slug that ends with `-` |
| `Slug.GenerateSlugTwoWords` | src/server/routers/categories.ts:21-28 | two runs of word characters separated by one space slug to both runs lower-cased and joined by one hyphen |
| `Slug.WebDevelopmentSlug` | src/db/seeds/categories.ts:13-14 | the seeded name "Web Development" has the slug "web-development" it is seeded with |
| `Tables.PostCategoryIds` | src/server/routers/posts.ts:89-91 | the category ids selected for a post are exactly those of its association rows |
| `Tables.CategoryPostIds` | src/server/routers/posts.ts:62-67 | the post ids selected for a category are exactly those of its association rows |
| `Tables.CategoryPostIdsCount` | src/server/routers/categories.ts:257-260 | a category's post-id list has one entry per association row that references the category |
| `Tables.UsageCount` | src/server/routers/categories.ts:257-260 | the `count(*)` is the number of association rows whose `categoryId` is the category's (its multiplicity in that column), so it is zero exactly when no row references it |
| `Tables.RowsFor` | src/server/routers/posts.ts:234-237 | one row per listed id: as many rows as ids, each for the given post, and exactly the listed category ids |
| `Tables.PostCategoryIdsRowsFor` | src/server/routers/posts.ts:310-313 | the inserted rows give the post exactly the listed ids, in list order, and give every other post none |
| `Tables.WithoutPost` | src/server/routers/posts.ts:305 | deleting a post's association rows keeps exactly the rows of other posts |
| `Tables.Lookup` | src/server/routers/posts.ts:135-137 | the inner join yields only stored categories whose id is listed, every such category, and never more rows than ids |
| `Tables.LookupCount` | src/server/routers/posts.ts:135-137 | the inner join yields a stored category exactly as many times as its id is listed, and nothing for an id without a category row |
| `Tables.Joined` | src/server/routers/posts.ts:83-91 | a post's joined categories are exactly the stored categories some association row of the post names, never more than the post's rows |
| `Tables.PostCategoryIdsCount` | src/server/routers/posts.ts:89-91 | a post lists a category id once for each of the post's association rows naming it |
| `Tables.JoinedCount` | src/server/routers/posts.ts:83-91 | a post's joined categories hold a stored category once per association row of the post naming it; a row naming a missing category contributes nothing |
| `Tables.ReplaceAssociations` | src/server/routers/posts.ts:303-316 | after delete-then-insert the post's category ids are exactly the supplied list, in order, and every other post's are unchanged |
| `Tables.AddAssociations` | src/server/routers/posts.ts:232-239 | inserting the rows of a new post gives it exactly the listed ids and leaves every other post's ids unchanged |
| `Tables.StoredSlugsAreSlugs` | src/server/routers/categories.ts:143 | in a valid store every stored slug has the slug shape |
| `CategoriesRouter.Counted` | src/server/routers/categories.ts:82-90 | the row spread with its `postCount`, which is the number of association rows that reference the category, zero exactly when there are none; in a valid store the row carries the requested id |
| `CategoriesRouter.GetAll` | src/server/routers/categories.ts:32-62 | every category exactly once, ordered by name, each with the number of association rows referencing it |
| `CategoriesRouter.GetById` | src/server/routers/categories.ts:65-99 | NotFound for an absent id; otherwise the row and its association-row count |
| `CategoriesRouter.GetBySlug` | src/server/routers/categories.ts:102-136 | NotFound when no row has the slug (always for a non-slug string); otherwise the unique row and its count |
| `CategoriesRouter.Create` | src/server/routers/categories.ts:139-178 | ValidationFailed outside 1..100 characters; Conflict with the store unchanged when the slug is taken; otherwise exactly one new row under a fresh id with that slug and `createdAt = now`; the store stays valid |
| `CategoriesRouter.Update` | src/server/routers/categories.ts:181-237 | NotFound and no change for an absent id; slug recomputed only for a supplied, different name; Conflict only against another id; otherwise only the supplied fields change, id, `createdAt`, other rows and all association rows are kept |
| `CategoriesRouter.Delete` | src/server/routers/categories.ts:240-280 | NotFound for an absent id; PreconditionFailed carrying the count, store unchanged, while rows reference it; otherwise exactly that category is removed |
| `PostsRouter.CategoryFilterListed` | src/server/routers/posts.ts:61-70 | the category filter applies only to a supplied, non-zero `categoryId`; the `id IN ids` filter built from its rows selects exactly the posts associated with the category, under either reading of the two `where` calls |
| `PostsRouter.SelectPosts` | src/server/routers/posts.ts:47-78 | the query returns every stored post that matches the `where` it ends up with, once each, ordered by `createdAt` descending; with `whereConjoins` both filters apply, otherwise a published flag replaces the id filter |
| `PostsRouter.WithRefs` | src/server/routers/posts.ts:83-97 | each selected post, in order, spread with exactly the categories its association rows join to |
| `PostsRouter.GetAll` | src/server/routers/posts.ts:38-108 | `[]` when the category filter has no rows; a `categoryId` of 0 filters nothing; the listed posts are exactly those passing the filters (both, or only the flag when the second `where` replaces the first), newest first, each with the categories its rows join to |
| `PostsRouter.GetBySlug` | src/server/routers/posts.ts:111-151 | NotFound when no post has the slug; otherwise the unique post with its joined categories |
| `PostsRouter.GetById` | src/server/routers/posts.ts:154-194 | NotFound for an absent id; otherwise that post with its joined categories, at most one per association row |
| `PostsRouter.ExcerptOrDefault` | src/server/routers/posts.ts:224 | a non-empty supplied excerpt is kept; otherwise the excerpt is the prefix of the content of length 200 or the content's length, whichever is smaller |
| `PostsRouter.InsertRows` | src/server/routers/posts.ts:233-238 | appends one association row per listed id, in list order, and changes nothing else |
| `PostsRouter.ReplaceRows` | src/server/routers/posts.ts:303-316 | afterwards the post's category ids are exactly the list and other posts' ids are as before |
| `PostsRouter.Insert` | src/server/routers/posts.ts:217-239 | the new post is stored under the next id, the counter advances, and the post gets exactly the listed category ids while every other post keeps its ids; the store stays valid |
| `PostsRouter.Create` | src/server/routers/posts.ts:197-250 | ValidationFailed for a bad title or content; Conflict with the store unchanged when the slug is taken; otherwise a new post with `createdAt == updatedAt == now`, `published` defaulting to false, the defaulted excerpt, and exactly the listed category ids |
| `PostsRouter.Rewrite` | src/server/routers/posts.ts:291-316 | the merged row replaces the stored one; a supplied list replaces the post's rows so its ids are exactly the list, an omitted one leaves all rows alone; other posts' ids never change; the store stays valid |
| `PostsRouter.Update` | src/server/routers/posts.ts:253-327 | NotFound for an absent id; slug recomputed only for a supplied, different title, Conflict only against another id; supplied fields overwritten, `updatedAt = now`; a supplied `categoryIds` (even `[]`) becomes exactly the post's ids, an omitted one leaves the rows alone; other posts' ids never change |
| `PostsRouter.Delete` | src/server/routers/posts.ts:330-357 | NotFound for an absent id; otherwise exactly the post row is removed, and its association rows only when the schema cascades |

## Left out

- Store failures: every handler wraps unexpected store errors as `INTERNAL_SERVER_ERROR` and logs them; the store here never fails, so that path is not modelled.
- Concurrency: each handler runs as one step on the store. The window between a uniqueness or usage check and the write, and any unique constraint the database enforces on its own, are not modelled.
- Timestamps are integers supplied by the caller as `now`, not ISO strings read from a clock.
- Authentication, the RPC and schema-library wiring, `Promise.all`, and logging are not modelled; of the input schemas only their bounds are (title 1..255, content at least 1, category name 1..100), as `ValidationFailed`.
- String lengths and `substring(0, 200)` count characters, not UTF-16 code units, so text outside the Basic Multilingual Plane is measured differently.
- `toLowerCase` is modelled on ASCII letters only. Every other non-whitespace character is deleted by the next step either way, except U+0130 and U+212A, whose JavaScript lower-case forms contain an ASCII letter that would be kept.
- `ORDER BY name` uses code-point order; the database's collation may order names differently.
- Rows with equal sort keys may come back in any order; the contracts allow any such order. The categories joined to a post are modelled in association-row order, which the database does not promise.
- The association table's composite key and foreign keys belong to a schema that is not part of this model: duplicate or dangling category ids are inserted as given, where the database might reject them.
- The `id` and `categoryIds` inputs are modelled as integers; the schemas accept any number.
