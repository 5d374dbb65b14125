# Feed and like services of a college social-feed backend, in Dafny

This project models the two service modules that hold the backend's logic:

- **post service** (`src/services/post.service.ts`): creating a plain post, creating a poll (2 to 10 options, checked before anything is written), looking a post up by id with its like count, and the cursor-paginated college feed. The feed builds a `where` predicate (the caller's filter, then college scoping and the soft-delete flag written over it, then an optional case-insensitive search on title or content), applies the option defaults, asks the store for `limit + 1` rows, and pops the extra row to set `hasMore`.
- **like service** (`src/services/like.service.ts`): `likePost`, a toggle per (post, user) pair. It fails with NOT_FOUND when the post does not exist. Otherwise it deletes the pair's like ("Post unliked") or creates one ("Post Liked"), then reads the post again.

The store is in memory.
- The post table is a `seq<Post>`. Each post carries its poll option labels.
- The like table is a `seq<Like>`.
- `createPost`, `createPoll` and `getPostById` are pure functions over the table.
- `queryCollegePosts` is a method. It reads a page and pops the extra row. It is proved equal to the specification function `FeedPage`.
- `likePost` is a method on the class `ContentStore`. It reassigns the like table. It is proved to perform the function `Toggle`, and the toggle's properties are proved as lemmas.

Files:
- `wrappers.dfy`: Option and Result.
- `text.dfy`: substring containment and ASCII case-insensitive matching.
- `schema.dfy`: records, errors and the like count.
- `post_service.dfy`: the post service.
- `like_service.dfy`: the like service.
- `feed_scenario.dfy`: a worked two-page example.

In three places the code does not do what a caller of the service would expect. The model follows the code:

- **The cursor is inclusive.** The store is passed `cursor: { id }` without `skip`, so the next request starts AT the row the cursor names. An exclusive cursor, with every row served exactly once, is what cursor pagination is expected to give. The model proves instead that each next page begins with the previous page's last row and skips nothing (`NextPageResumesAtLastRow`). With posts A, B, C and limit 2, the second page is [B, A], not [A] (`ThreePostsTwoPages`).
  - Each followed cursor therefore advances only `limit - 1` rows (`NextPageProgresses`).
  - With limit 1, a followed cursor returns the same page, with `hasMore` still set, forever (`LimitOneNeverAdvances`).
- **`getPostById` ignores `isDeleted`.** A soft-deleted post would be expected to count as not found. The code finds it, so a like can be toggled on it.
- **A missing college leaves the feed unscoped.** When the caller has no college, `collegeId: undefined` is ignored by the store, so the feed is not scoped to any college. Scoping to the caller's college would be expected to apply always. Soft-deleted posts are excluded in every case.

## Model

| member | source | states |
|---|---|---|
| Text.ContainsIffOccurs | src/services/post.service.ts:172-173 | `contains` holds exactly when the search term occurs at some position of the text |
| Text.ExactMatchIsInsensitiveMatch | src/services/post.service.ts:172-173 | a verbatim occurrence of the term is also an insensitive match, so an exact search always finds the post |
| Text.InsensitiveMatchIgnoresCase | src/services/post.service.ts:172-173 | `mode: "insensitive"` gives the same answer whatever the case of the text or of the term |
| Schema.LikeCount | src/services/post.service.ts:121-126 | the `_count.likes` aggregate: at most the table size, and zero exactly when no like points at the post |
| PostService.CreatePost | src/services/post.service.ts:19-36 | appends exactly one row of type POST with the given content, author, title, media and college, no options, not edited and not deleted |
| PostService.CreatePoll | src/services/post.service.ts:49-85 | fails with BAD_REQUEST and its message exactly when there are fewer than 2 or more than 10 options, and then writes nothing; otherwise appends exactly one POLL row owning exactly the given options |
| PostService.CreatePostKeepsWellFormed | src/services/post.service.ts:26-35 | with a fresh key, keys stay unique and every plain post still owns no options |
| PostService.CreatePollKeepsWellFormed | src/services/post.service.ts:57-84 | with a fresh key, a successful poll creation keeps keys unique and every poll owning 2 to 10 options |
| PostService.IndexOfPost | src/services/post.service.ts:111-112 | `findUnique({ where: { id } })`: the first row with that key, or none exactly when no row has it |
| PostService.GetPostById | src/services/post.service.ts:93-129 | returns a row with the key and that post's like count, or null exactly when no row has the key; soft-deleted rows are found too |
| PostService.CreatedPostIsFound | src/services/post.service.ts:26-35 | a post just created with a fresh key is what `getPostById` returns for that key, with its likes counted |
| PostService.BuildWhere | src/services/post.service.ts:165-177 | a row passes exactly when it matches the filter's author and type, is in the caller's college (if the caller has one), is not soft-deleted, and matches a non-empty search on title or content; the filter's own `collegeId` and `isDeleted` have no effect |
| PostService.Resolve | src/services/post.service.ts:160-163 | a falsy limit becomes 100 and any other limit is kept; sort field defaults to `createdAt` and direction to `desc`; an absent or empty cursor means start from the first row |
| PostService.SelectMembers | src/services/post.service.ts:179-180 | the store's `where` evaluation keeps exactly the rows that satisfy the predicate |
| PostService.Candidates | src/services/post.service.ts:198 | every row the store yields satisfies the predicate and comes from the table; with no cursor, every satisfying row is yielded |
| PostService.FindMany | src/services/post.service.ts:199 | `take: limit + 1` yields at most `limit + 1` rows, the first ones of the candidates, and all of them when fewer exist |
| PostService.FeedPage | src/services/post.service.ts:137-212 | at most `limit` rows, each from the table, not deleted, in the caller's college, and matching the search; the first rows from the cursor on; `hasMore` exactly when more than `limit` rows exist, and then exactly `limit` are returned; the cursor is the last returned id, or null for an empty page |
| PostService.QueryCollegePosts | src/services/post.service.ts:199-211 | fetching `limit + 1` rows and popping the extra one when more than `limit` came back produces exactly `FeedPage` |
| PostService.CandidatesFromCursorRow | src/services/post.service.ts:198 | asking the store with the id of the k-th candidate as cursor yields the candidates from the k-th on, that row included |
| PostService.NextPageResumesAtLastRow | src/services/post.service.ts:198-210 | following the returned cursor after a page with `hasMore` yields the earlier rows from that page's last row on: the last row is served again and nothing is skipped |
| PostService.NextPageProgresses | src/services/post.service.ts:198-210 | following the returned cursor after a page with `hasMore` leaves exactly `limit - 1` fewer rows to serve, not `limit` |
| PostService.LimitOneNeverAdvances | src/services/post.service.ts:198-210 | with limit 1, following the returned cursor after a page with `hasMore` returns that same page again, cursor and `hasMore` included |
| FeedScenario.ThreePostsTwoPages | src/services/post.service.ts:198-210 | posts C, B, A with limit 2 give [C, B] with `hasMore` and cursor B, then [B, A] with no more and cursor A |
| LikeService.IndexOfLike | src/services/like.service.ts:19-24 | `findFirst({ where: { postId, userId } })`: the first like of the pair, or none exactly when the pair has no like |
| LikeService.Toggle | src/services/like.service.ts:25-42 | the like table shrinks by one when the pair had a like and grows by one otherwise |
| LikeService.ToggleFlips | src/services/like.service.ts:25-42 | with at most one like per pair, a toggle flips whether the pair is liked |
| LikeService.ToggleKeepsAtMostOnePerPair | src/services/like.service.ts:19-42 | at most one like per (postId, userId) before the call implies at most one after it |
| LikeService.ToggleKeepsOtherLikes | src/services/like.service.ts:26-42 | the likes of every other pair are exactly as before, in the same order |
| LikeService.ToggleMovesCountByOne | src/services/like.service.ts:25-42 | the target post's like count moves by exactly -1 (unlike) or +1 (like); every other post's count is unchanged |
| LikeService.ToggleTwiceRestores | src/services/like.service.ts:19-48 | two toggles restore whether the pair is liked, every other pair's likes and every post's count; from the unliked state they restore the table exactly |
| LikeService.ContentStore.LikePost | src/services/like.service.ts:14-49 | fails with NOT_FOUND "Post not found" and no change exactly when no post has the key; otherwise applies `Toggle` and answers "Post unliked" or "Post Liked" (with the created like); the post in the answer is read after the change and its count is the old count -1 or +1; the post table is not written; at most one like per pair is kept |

## Left out

- Id generation: the store generates the keys of new posts and likes. Here they are parameters (`newId`, `likeId`). The well-formedness lemmas assume the new post key is fresh and non-empty.
- Timestamps (`createdAt`, `updatedAt`) and how the store sorts by an arbitrary field with `orderBy`. The sorted table is an input: `order(sortBy, sortType)`.
- Ties on the sort key: the cursor is modelled as a position in the given order. Ties are not modelled.
- A cursor naming no row is assumed to yield an empty page.
- Negative limits: the store would read them backwards. The limit is a natural number.
- PostService.Resolve: models a numeric limit only, so its 0 becomes 100. The controller passes `limit` as a query string, so `?limit=0` arrives as the truthy "0" and is not replaced by 100. The store then takes `parseInt("0") + 1` = 1 row, and `posts.length > "0"` pops it: the page is empty, `hasMore` is true and the cursor is null (src/services/post.service.ts:160, 199-210). `parseInt` and the string-to-number coercion are not modelled.
- Unicode case folding: insensitive matching lower-cases ASCII letters only.
- The selected projection (`keys`, `Author`, the first comment, `_count.comments`). Pages hold whole post rows. `getPostById` returns the row with its like count. `comments: { take: 1 }` has no ordering, so no claim is made about which comment it returns.
- Deleting a like by its key is modelled as removing the like record that `findFirst` returned. This is the same thing when like keys are unique.
- Concurrency: two `likePost` calls racing on the same pair, and writes during a feed traversal. The model is sequential.
- Store failures (`StoreError`) are not modelled. Every store call here succeeds.
- Authentication, routing, the controllers, media upload, the AI completion service, the message model and the role table are not part of this model.
