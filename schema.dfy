/**
 * The records the two services read and write: posts (with their poll options), likes,
 * and the `ApiError` the services throw.
 */
module Schema {
  import opened Wrappers

  /** The store's opaque record identifiers. */
  type Id = string

  /** The `PostType` enum: a plain post or a poll. */
  datatype PostType = POST | POLL

  /**
   * A row of the post table. `options` holds the labels of the poll options the post owns,
   * in creation order; `title`, `media` and `collegeId` are optional columns.
   */
  datatype Post = Post(
    id: Id,
    title: Option<string>,
    content: string,
    authorId: Id,
    collegeId: Option<Id>,
    media: Option<string>,
    postType: PostType,
    options: seq<string>,
    isEdited: bool,
    isDeleted: bool)

  /** A row of the like table: user `userId` likes post `postId`. */
  datatype Like = Like(id: Id, postId: Id, userId: Id)

  /** The HTTP statuses the services throw with. */
  const BAD_REQUEST: nat := 400
  const NOT_FOUND: nat := 404

  /** A thrown `ApiError`: an HTTP status and a message. */
  datatype ApiError = ApiError(status: nat, message: string)

  /** The `_count.likes` aggregate of a post: how many like rows point at it. */
  function LikeCount(likes: seq<Like>, postId: Id): (n: nat)
    ensures n <= |likes|
    ensures n == 0 <==> forall i :: 0 <= i < |likes| ==> likes[i].postId != postId
  {
    if likes == [] then 0
    else
      assert forall i :: 1 <= i < |likes| ==> likes[i] == likes[1..][i - 1];
      (if likes[0].postId == postId then 1 else 0) + LikeCount(likes[1..], postId)
  }

  /** Counting likes distributes over concatenating like tables. */
  lemma {:induction false} LikeCountConcat(a: seq<Like>, b: seq<Like>, postId: Id)
    ensures LikeCount(a + b, postId) == LikeCount(a, postId) + LikeCount(b, postId)
  {
    if a == [] {
      assert a + b == b;
    } else {
      assert (a + b)[1..] == a[1..] + b;
      LikeCountConcat(a[1..], b, postId);
    }
  }
}
