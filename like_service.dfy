/**
 * The like service: `likePost` toggles the like of one user on one post.
 *
 * The store is a class holding the post table and the like table; `LikePost` reads the
 * post, then deletes the pair's like or creates one, then reads the post again. Its effect
 * on the like table is the function `Toggle`, about which the lemmas below are proved.
 */
module LikeService {
  import opened Wrappers
  import opened Schema
  import opened PostService

  const POST_NOT_FOUND := "Post not found"
  const POST_LIKED := "Post Liked"
  const POST_UNLIKED := "Post unliked"

  /** `l` is a like of user `userId` on post `postId`. */
  predicate IsFor(l: Like, postId: Id, userId: Id)
  {
    l.postId == postId && l.userId == userId
  }

  /** The like table holds a like of `userId` on `postId`. */
  predicate HasLike(likes: seq<Like>, postId: Id, userId: Id)
  {
    exists i :: 0 <= i < |likes| && IsFor(likes[i], postId, userId)
  }

  /** At most one like per (postId, userId) pair. */
  predicate AtMostOnePerPair(likes: seq<Like>)
  {
    forall i, j :: 0 <= i < j < |likes| ==> likes[i].postId != likes[j].postId || likes[i].userId != likes[j].userId
  }

  /** `findFirst({ where: { postId, userId } })`: the position of the first like of the pair, if any. */
  function IndexOfLike(likes: seq<Like>, postId: Id, userId: Id): (r: Option<nat>)
    ensures r.None? <==> !HasLike(likes, postId, userId)
    ensures r.Some? ==> r.value < |likes| && IsFor(likes[r.value], postId, userId)
    ensures r.Some? ==> forall j :: 0 <= j < r.value ==> !IsFor(likes[j], postId, userId)
  {
    if likes == [] then None
    else if IsFor(likes[0], postId, userId) then Some(0)
    else
      assert forall j :: 1 <= j < |likes| ==> likes[j] == likes[1..][j - 1];
      match IndexOfLike(likes[1..], postId, userId)
      case None => None
      case Some(i) => Some(i + 1)
  }

  /** The likes of every pair other than (`postId`, `userId`), in table order. */
  function OtherLikes(likes: seq<Like>, postId: Id, userId: Id): (r: seq<Like>)
    ensures |r| <= |likes|
  {
    if likes == [] then []
    else if IsFor(likes[0], postId, userId) then OtherLikes(likes[1..], postId, userId)
    else [likes[0]] + OtherLikes(likes[1..], postId, userId)
  }

  lemma {:induction false} OtherLikesConcat(a: seq<Like>, b: seq<Like>, postId: Id, userId: Id)
    ensures OtherLikes(a + b, postId, userId) == OtherLikes(a, postId, userId) + OtherLikes(b, postId, userId)
  {
    if a == [] {
      assert a + b == b;
    } else {
      assert (a + b)[0] == a[0];
      assert (a + b)[1..] == a[1..] + b;
      OtherLikesConcat(a[1..], b, postId, userId);
    }
  }

  /**
   * The effect of one successful `likePost` on the like table: the pair's first like is
   * deleted when there is one; otherwise the like `Like(likeId, postId, userId)` is
   * appended (`likeId` is the key the store generates).
   */
  function Toggle(likes: seq<Like>, postId: Id, userId: Id, likeId: Id): (r: seq<Like>)
    ensures |r| == if HasLike(likes, postId, userId) then |likes| - 1 else |likes| + 1
  {
    match IndexOfLike(likes, postId, userId)
    case Some(i) => likes[..i] + likes[i + 1..]
    case None => likes + [Like(likeId, postId, userId)]
  }

  /** With at most one like per pair, a toggle flips whether the pair is liked. */
  lemma ToggleFlips(likes: seq<Like>, postId: Id, userId: Id, likeId: Id)
    requires AtMostOnePerPair(likes)
    ensures HasLike(Toggle(likes, postId, userId, likeId), postId, userId) == !HasLike(likes, postId, userId)
  {
    var r := Toggle(likes, postId, userId, likeId);
    match IndexOfLike(likes, postId, userId)
    case Some(i) =>
      forall k | 0 <= k < |r|
        ensures !IsFor(r[k], postId, userId)
      {
        if k < i {
          assert r[k] == likes[k];
        } else {
          assert r[k] == likes[k + 1];
        }
      }
    case None =>
      assert IsFor(r[|likes|], postId, userId);
  }

  /** A toggle keeps the table at one like per pair at most. */
  lemma ToggleKeepsAtMostOnePerPair(likes: seq<Like>, postId: Id, userId: Id, likeId: Id)
    requires AtMostOnePerPair(likes)
    ensures AtMostOnePerPair(Toggle(likes, postId, userId, likeId))
  {
  }

  /** A toggle leaves the likes of every other pair exactly as they were, in the same order. */
  lemma ToggleKeepsOtherLikes(likes: seq<Like>, postId: Id, userId: Id, likeId: Id)
    ensures OtherLikes(Toggle(likes, postId, userId, likeId), postId, userId) == OtherLikes(likes, postId, userId)
  {
    match IndexOfLike(likes, postId, userId)
    case Some(i) =>
      assert likes == likes[..i] + ([likes[i]] + likes[i + 1..]);
      OtherLikesConcat(likes[..i], [likes[i]] + likes[i + 1..], postId, userId);
      OtherLikesConcat([likes[i]], likes[i + 1..], postId, userId);
      OtherLikesConcat(likes[..i], likes[i + 1..], postId, userId);
    case None =>
      OtherLikesConcat(likes, [Like(likeId, postId, userId)], postId, userId);
  }

  /** A toggle moves the target post's like count by exactly one and no other post's count. */
  lemma ToggleMovesCountByOne(likes: seq<Like>, postId: Id, userId: Id, likeId: Id, other: Id)
    ensures var r := Toggle(likes, postId, userId, likeId);
            LikeCount(r, postId) == if HasLike(likes, postId, userId) then LikeCount(likes, postId) - 1
                                    else LikeCount(likes, postId) + 1
    ensures other != postId ==> LikeCount(Toggle(likes, postId, userId, likeId), other) == LikeCount(likes, other)
  {
    match IndexOfLike(likes, postId, userId)
    case Some(i) =>
      assert likes == likes[..i] + ([likes[i]] + likes[i + 1..]);
      LikeCountConcat(likes[..i], [likes[i]] + likes[i + 1..], postId);
      LikeCountConcat([likes[i]], likes[i + 1..], postId);
      LikeCountConcat(likes[..i], likes[i + 1..], postId);
      LikeCountConcat(likes[..i], [likes[i]] + likes[i + 1..], other);
      LikeCountConcat([likes[i]], likes[i + 1..], other);
      LikeCountConcat(likes[..i], likes[i + 1..], other);
    case None =>
      LikeCountConcat(likes, [Like(likeId, postId, userId)], postId);
      LikeCountConcat(likes, [Like(likeId, postId, userId)], other);
  }

  /**
   * Toggling twice restores the like state: the pair is liked again exactly when it was,
   * every other pair's likes are as before, and every post's like count is as before.
   * From the unliked state the table is restored exactly; from the liked state the
   * recreated like carries the new key `likeId2` and sits at the end of the table.
   */
  lemma ToggleTwiceRestores(likes: seq<Like>, postId: Id, userId: Id, likeId1: Id, likeId2: Id, other: Id)
    requires AtMostOnePerPair(likes)
    ensures var twice := Toggle(Toggle(likes, postId, userId, likeId1), postId, userId, likeId2);
            && HasLike(twice, postId, userId) == HasLike(likes, postId, userId)
            && OtherLikes(twice, postId, userId) == OtherLikes(likes, postId, userId)
            && LikeCount(twice, other) == LikeCount(likes, other)
            && (!HasLike(likes, postId, userId) ==> twice == likes)
  {
    var once := Toggle(likes, postId, userId, likeId1);
    var twice := Toggle(once, postId, userId, likeId2);
    ToggleFlips(likes, postId, userId, likeId1);
    ToggleKeepsAtMostOnePerPair(likes, postId, userId, likeId1);
    ToggleFlips(once, postId, userId, likeId2);
    ToggleKeepsOtherLikes(likes, postId, userId, likeId1);
    ToggleKeepsOtherLikes(once, postId, userId, likeId2);
    ToggleMovesCountByOne(likes, postId, userId, likeId1, other);
    ToggleMovesCountByOne(once, postId, userId, likeId2, other);
    if !HasLike(likes, postId, userId) {
      assert once == likes + [Like(likeId1, postId, userId)];
      var i := IndexOfLike(once, postId, userId);
      assert i == Some(|likes|) by {
        assert IsFor(once[|likes|], postId, userId);
        assert forall j :: 0 <= j < |likes| ==> once[j] == likes[j];
      }
      assert twice == once[..|likes|] + once[|likes| + 1..];
      assert once[..|likes|] == likes;
    }
  }

  /** The answer of a successful `likePost`: its message, the like it created (if any), and the post read afterwards. */
  datatype LikeReply = LikeReply(message: string, like: Option<Like>, post: Option<PostView>)

  /** The content store as the like service uses it: the post table and the like table. */
  class ContentStore {
    var posts: seq<Post>
    var likes: seq<Like>

    /** The like table's invariant: at most one like per (postId, userId) pair. */
    ghost predicate Valid()
      reads this
    {
      AtMostOnePerPair(likes)
    }

    constructor (posts: seq<Post>)
      ensures Valid()
      ensures this.posts == posts && likes == []
    {
      this.posts := posts;
      likes := [];
    }

    /**
     * `likePost`: fails with NOT_FOUND, changing nothing, when no post has key `postId`
     * (a soft-deleted post is found like any other). Otherwise deletes the pair's like and
     * answers "Post unliked", or creates one and answers "Post Liked" with the new like,
     * and in both cases answers with the post read AFTER the change. The post table is
     * never written.
     */
    method LikePost(postId: Id, userId: Id, likeId: Id) returns (r: Result<LikeReply, ApiError>)
      requires Valid()
      modifies this`likes
      ensures Valid()
      ensures r.Failure? <==> GetPostById(posts, old(likes), postId).None?
      ensures r.Failure? ==> r.error == ApiError(NOT_FOUND, POST_NOT_FOUND) && likes == old(likes)
      ensures r.Success? ==> likes == Toggle(old(likes), postId, userId, likeId)
      ensures r.Success? ==> r.value.message == if HasLike(old(likes), postId, userId) then POST_UNLIKED else POST_LIKED
      ensures r.Success? ==> r.value.like == if HasLike(old(likes), postId, userId) then None else Some(Like(likeId, postId, userId))
      ensures r.Success? ==> r.value.post == GetPostById(posts, likes, postId)
      ensures r.Success? ==>
                && r.value.post.Some?
                && r.value.post.value.likeCount == if HasLike(old(likes), postId, userId)
                                                   then LikeCount(old(likes), postId) - 1
                                                   else LikeCount(old(likes), postId) + 1
    {
      var post := GetPostById(posts, likes, postId);
      if post.None? {
        return Failure(ApiError(NOT_FOUND, POST_NOT_FOUND));
      }
      ToggleKeepsAtMostOnePerPair(likes, postId, userId, likeId);
      ToggleMovesCountByOne(likes, postId, userId, likeId, postId);
      var alreadyLiked := IndexOfLike(likes, postId, userId);
      if alreadyLiked.Some? {
        var i := alreadyLiked.value;
        likes := likes[..i] + likes[i + 1..];
        return Success(LikeReply(POST_UNLIKED, None, GetPostById(posts, likes, postId)));
      }
      var like := Like(likeId, postId, userId);
      likes := likes + [like];
      r := Success(LikeReply(POST_LIKED, Some(like), GetPostById(posts, likes, postId)));
    }
  }
}
