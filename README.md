# Blog backend: aggregation utilities and post-store rules in Dafny

This project models two parts of a small blog backend (an Express/Mongoose
REST service for blog posts) and proves properties of them.

1. **The four statistics utilities** over a sequence of post records:
   `totalLikes`, `favouritePost`, `mostLikes` and `mostBlogs`. They are
   pure functions. The lodash helpers they call (`groupBy`, `countBy`,
   `sumBy`, `maxBy`) are written out as explicit left folds. JavaScript's
   string `>` is defined as a lexicographic order.
2. **The create, delete and update handlers of the posts router.** They
   are methods of a `Store` class. It holds the blog collection
   (`map<BlogId, Blog>`), each user's list of blog ids
   (`map<UserId, seq<BlogId>>`) and the next id to hand out. An object
   invariant `Valid()` ties owners and lists together, and every handler
   preserves it.

Files:

- `wrappers.dfy`: `Option`.
- `posts.dfy`: the `Post` record and the reference definitions: `SumLikes`, `PostsBy` (an author's posts), `HasAuthor`, `FirstIndex`.
- `string_order.dfy`: JavaScript string `<`.
- `lodash.dfy`: `groupBy`, `countBy` and `maxBy` by `author`.
- `total_likes.dfy`, `favourite_post.dfy`, `most_likes.dfy`, `most_blogs.dfy`: one file per utility.
- `posts_controller.dfy`: the store and its handlers.

Behaviours of the code worth knowing, which the model keeps:

- `favouritePost` returns the **last** post with the most likes. The strict `>` keeps the earlier post only when it has strictly more likes, so the last maximum wins.
- Deleting a missing blog is not a 404. It dereferences `null`, shown here as the `Crash` answer. Updating a missing id also ends in `Crash`, not a 404.
- Creation answers 201, as the active handler does. The integration tests expect 200 instead.

## Model

| member | source | states |
|---|---|---|
| `TotalLikesUtil.TotalLikes` | utils/total_likes.js:1-10 | `totalLikes` itself: `map(likes).reduce(+, 0)` with the shortcut for `[]`. Its contract is stated by `TotalLikesIsSum` and the lemmas below it |
| `TotalLikesUtil.TotalLikesIsSum` | utils/total_likes.js:1-10 | the result is the left-to-right sum of every post's likes |
| `TotalLikesUtil.TotalLikesEmpty` | utils/total_likes.js:9 | an empty array gives 0 |
| `TotalLikesUtil.ShortcutAgrees` | utils/total_likes.js:9 | the `length === 0` shortcut agrees with `map(likes).reduce(+, 0)` for every input, `[]` included |
| `TotalLikesUtil.TotalLikesAppend` | utils/total_likes.js:9 | appending a post adds exactly its likes |
| `TotalLikesUtil.TotalLikesConcat` | utils/total_likes.js:9 | the total of a concatenation is the sum of the totals |
| `TotalLikesUtil.TotalLikesBounds` | utils/total_likes.js:9 | with no negative likes, the total is at least 0 and at least each post's likes |
| `TotalLikesUtil.TotalLikesSingle` | utils/total_likes.js:9 | a single post gives its own likes |
| `FavouritePostUtil.FavouritePost` | utils/favouritePost.js:1-8 | defined for non-empty arrays only (reduce without an initial value); the result is a post of the input, and no post has more likes |
| `FavouritePostUtil.FavouritePostLastOfTies` | utils/favouritePost.js:2-4 | the result sits at a position after which every post has strictly fewer likes, so the last tied maximum wins |
| `FavouritePostUtil.FavouritePostSingle` | utils/favouritePost.js:2 | a single post is returned unchanged |
| `FavouritePostUtil.FavouritePostPair` | utils/favouritePost.js:3 | of `[a, b]`, `a` is kept only when `a.likes > b.likes`, otherwise `b` is returned |
| `Lodash.GroupByAuthor` | utils/mostLikes.js:4 | `_.groupBy(array, 'author')` as a left fold. Its contract is stated by `GroupByAuthorCorrect` |
| `Lodash.CountByAuthor` | utils/mostBlogs.js:4 | `_.countBy(array, 'author')` as a left fold. Its contract is stated by `CountByAuthorIsGroupSizes` together with `GroupByAuthorCorrect` |
| `Lodash.GroupByAuthorCorrect` | utils/mostLikes.js:4 | groupBy keys are distinct; they are exactly the input's authors, in first-appearance order; each holds exactly its author's posts in input order |
| `Lodash.CountByAuthorIsGroupSizes` | utils/mostBlogs.js:4 | countBy has the same keys, in the same order, as groupBy; each count is the length of that author's group |
| `Lodash.MaxBy` | utils/mostLikes.js:9 | maxBy yields `undefined` (None) exactly on empty input |
| `Lodash.MaxByFirstMaximum` | utils/mostLikes.js:9 | for a strict weak order, maxBy returns an element that strictly beats all earlier elements and that no later element beats (the first maximum on ties) |
| `MostLikesUtil.LikesPerAuthor` | utils/mostLikes.js:4-7 | the `_.map` to `{author: key, likes: _.sumBy(value, 'likes')}`, one entry per group, in group order. Its effect on the result is stated by `MostLikesCorrect` |
| `MostLikesUtil.MostLikes` | utils/mostLikes.js:3-11 | `mostLikes` itself. Its contract is stated by `MostLikesNone`, `MostLikesCorrect` and `MostLikesSoleAuthor` |
| `MostLikesUtil.MostLikesNone` | utils/mostLikes.js:9 | the result is None exactly when the input is empty |
| `MostLikesUtil.MostLikesCorrect` | utils/mostLikes.js:3-11 | the result's author wrote a post of the input and its likes equal that author's summed likes; no author has more; every author whose first post comes earlier has strictly fewer |
| `MostLikesUtil.MostLikesSoleAuthor` | utils/mostLikes.js:4-9 | with a single author, the result is that author with `totalLikes` of the input |
| `MostBlogsUtil.BlogsPerAuthor` | utils/mostBlogs.js:4-7 | the `_.map` to `{author: key, blogs: value}`, one entry per count, in key order. Its effect on the result is stated by `MostBlogsCorrect` |
| `MostBlogsUtil.MostBlogs` | utils/mostBlogs.js:3-10 | `mostBlogs` as written. Its contract is stated by `MostBlogsNone`, `MostBlogsCorrect`, `MostBlogsPermutation` and `MostBlogsNotTheLargestCount` |
| `MostBlogsUtil.MostBlogsNone` | utils/mostBlogs.js:8 | the result is None exactly when the input is empty |
| `MostBlogsUtil.MostBlogsCorrect` | utils/mostBlogs.js:3-10 | the result's author wrote a post of the input; blogs is that author's post count (at least 1); every other author sorts before it, so selection is by name |
| `MostBlogsUtil.MostBlogsPermutation` | utils/mostBlogs.js:4-8 | reordering the input does not change the result |
| `MostBlogsUtil.MostBlogsNotTheLargestCount` | utils/mostBlogs.js:8 | on two posts by "A" and one by "B", the result is `{author: "B", blogs: 1}`, although "A" has 2 |
| `MostBlogsUtil.MostBlogsByCount` | utils/mostBlogs.js:8 | the corrected `mostBlogs`, with `x => x.blogs` as the `maxBy` iteratee. Its contract is stated by `MostBlogsByCountCorrect` and `MostBlogsByCountOnExample` |
| `MostBlogsUtil.MostBlogsByCountCorrect` | utils/mostBlogs.js:8 | corrected selection by count: an author of the input with the largest post count, first-seen on ties |
| `MostBlogsUtil.MostBlogsByCountOnExample` | utils/mostBlogs.js:8 | on the same input, the corrected selection gives "A" with 2 |
| `StringOrder.Less` | utils/mostBlogs.js:8 | JavaScript string `<`, which `maxBy`'s `>` uses on author names. Its contract is stated by `LessIsLexicographic`, `LessTransitive` and `LessTotal` |
| `StringOrder.LessIsLexicographic` | utils/mostBlogs.js:8 | string `<` holds exactly when `a` is a proper prefix of `b`, or the first differing character of `a` is smaller |
| `StringOrder.LessTransitive` | utils/mostBlogs.js:8 | string `<` is transitive |
| `StringOrder.LessTotal` | utils/mostBlogs.js:8 | two different strings are ordered one way or the other |
| `PostsController.Status` | controllers/posts.js:96-154 | 201 for creation, 204 for deletion, 200 for an update, 401 for a token without an id and for a non-owner, 400 for missing title or url; only 400 and 401 are errors |
| `PostsController.Without` | controllers/posts.js:112-114 | the user's list loses every occurrence of the deleted id; every other id is kept as many times as it occurred |
| `PostsController.WithoutSingle` | controllers/posts.js:112-114 | on a one-id list, the filter keeps the id exactly when it differs from the deleted one |
| `PostsController.WithoutConcat` | controllers/posts.js:112-114 | the filter distributes over concatenation, so with `WithoutSingle` it keeps the other ids in their original order |
| `PostsController.WithoutUndoesAppend` | controllers/posts.js:112-114 | removing a freshly appended id restores the list from before the creation |
| `PostsController.CreateKeepsInvariant` | controllers/posts.js:147-151 | saving a blog owned by a known user under a fresh id, and appending the id to that user's list, keeps the store invariant (fresh ids; every owner lists its blogs; every listed blog that still exists belongs to the one listing it) |
| `PostsController.CrashedCreateKeepsInvariant` | controllers/posts.js:147-150 | saving an ownerless blog (null user) under a fresh id keeps the store invariant |
| `PostsController.DeleteKeepsInvariant` | controllers/posts.js:111-115 | removing an owned blog and dropping its id from the owner's list keeps the invariant; no other user's list held the id |
| `PostsController.UpdateKeepsInvariant` | controllers/posts.js:122-124 | replacing a blog with one that has the same owner keeps the invariant |
| `PostsController.Store.Create` | controllers/posts.js:128-154 | the token check comes first (401, nothing changes); then the title/url check (400, nothing changes); a falsy likes is stored as 0 and any other value is kept; exactly one blog is added under a fresh id; with a known caller, the owner is the caller, the caller's list gains the id at its end, and the answer is 201; with an unknown caller, the blog is saved ownerless and the handler crashes; the invariant is kept |
| `PostsController.Store.Delete` | controllers/posts.js:96-117 | a missing token gives 401 and nothing changes; a missing blog, an ownerless blog or an unknown caller is a crash and nothing changes; a non-owner gets 401 and nothing changes; the owner removes that blog only (the count drops by one), the id leaves the owner's list and no list holds it any more, and the answer is 204 |
| `PostsController.Store.Update` | controllers/posts.js:119-126 | no identity check; a missing id is a crash with nothing changed; otherwise only the target blog changes: the fields present in the body overwrite it, the owner is kept, and every other blog and all lists are unchanged |

## Left out

- Express routing, request and response objects, `populate` joins and the `GET` handlers (controllers/posts.js:90-94) are not modelled. The model starts from the already-parsed body and id.
- Mongoose persistence (`save`, `remove`, `findById`, `findByIdAndUpdate`) is replaced by map updates, and each handler runs atomically. Database errors, the race between the ownership check and the removal, and malformed ids (400 from error-handling middleware that is not part of this model) are out of scope.
- JWT verification (`jwt.verify` with the process secret) is a foreign call, and runs before the handlers' own token test. The caller is given as `Option<UserId>`. `None` answers "token missing or invalid" with 401, which is what the handlers send for a verified token whose payload has no `id`. A missing, malformed or expired token makes `jwt.verify` throw before that test. The status for that comes from error middleware that is not part of this model, so the model folds that case into the same `None` answer. Signature and expiry checks are not modelled.
- The schemas in models/blog.js and models/user.js are not part of this model. The model assumes no schema validation rejects a blog with a null owner. The store's own id counter stands in for database-assigned ids.
- PostsController.Store.Update: only the fields `title`, `author`, `url` and `likes` of the body are modelled. A body that sets `user` (which the source would accept) is not modelled.
- PostsController.Store.Create: the `Crash` answer has no status code; the status sent after a thrown error depends on the framework.
- The commented-out earlier controller (controllers/posts.js:1-81) is dead code and is not modelled.
- JavaScript number details are not modelled. That means the unary-plus coercion in `favouritePost`, `NaN` from a missing `likes`, and lodash `sumBy` skipping `undefined`. `likes` is an always-present `int`.
- `Post.author` is always a string in the utilities. In the source, a post without an author is grouped and counted under the key `"undefined"`. Such a post can be modelled as one whose author is the string `"undefined"`; a missing author is not modelled separately.
- MostBlogsUtil.MostBlogs: an author named "length" makes lodash `_.map` treat the `countBy` object `{length: n}` as array-like, so the source then maps over indices instead of keys (for one such post it returns `{author: 0, blogs: undefined}`). That is not modelled; the model returns that author with its count. `mostLikes` is unaffected, because there the `length` key holds an array, not a number.
- Object keys are kept in first-appearance order. JavaScript lists integer-like keys (an author named "42") first; that is not modelled.
- StringOrder.Less: compares Dafny characters (Unicode scalar values). JavaScript compares UTF-16 code units, and the two orders differ only between supplementary-plane characters and U+E000–U+FFFF.
- The user-list filter compares `b.id.toString()` with the request id. The string form of a stored id depends on the database driver, so the evident intent is modelled: dropping every occurrence of the deleted id.

## Findings

| source | as written | input that shows it | evidently intended | confidence | as-written member | corrected member |
|---|---|---|---|---|---|---|
| utils/mostBlogs.js:8 | `maxBy(entries, x => x.author)` picks the alphabetically last author | two posts by "A", one by "B": the result is `{author: "B", blogs: 1}` | `maxBy(entries, x => x.blogs)`: the author with the most posts, here `{author: "A", blogs: 2}` | high (the name and the returned field say "most blogs"); not executed | `MostBlogsUtil.MostBlogsNotTheLargestCount` | `MostBlogsUtil.MostBlogsByCountCorrect` |
