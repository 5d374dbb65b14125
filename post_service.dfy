/**
 * The post service: creating posts and polls, looking a post up by id, and the
 * cursor-paginated college feed.
 *
 * The post table is a sequence of rows. Where the store orders rows for the feed, the
 * order is an input: `order(sortBy, sortType)` is the table as the store sorts it.
 */
module PostService {
  import opened Wrappers
  import opened Schema
  import opened Text

  /** The bounds on the number of options of a poll. */
  const MIN_POLL_OPTIONS: nat := 2
  const MAX_POLL_OPTIONS: nat := 10

  const TOO_FEW_OPTIONS := "Please provide at least 2 options"
  const TOO_MANY_OPTIONS := "Please limit the number of options to 10"

  /** The table after a creation, and the row that was created. */
  datatype Created = Created(rows: seq<Post>, post: Post)

  /** A post as `getPostById` returns it: the row and its `_count.likes` aggregate. */
  datatype PostView = PostView(post: Post, likeCount: nat)

  // ---------------------------------------------------------------------------
  // Table invariant
  // ---------------------------------------------------------------------------

  /** No two rows share an id (the table's primary key). */
  predicate UniqueIds(rows: seq<Post>)
  {
    forall i, j :: 0 <= i < j < |rows| ==> rows[i].id != rows[j].id
  }

  /** `id` is a usable new key: non-empty and not taken by any row. */
  predicate FreshId(rows: seq<Post>, id: Id)
  {
    id != "" && forall i :: 0 <= i < |rows| ==> rows[i].id != id
  }

  /** A poll owns between 2 and 10 options; a plain post owns none. */
  predicate WellFormedPost(p: Post)
  {
    && p.id != ""
    && (p.postType == POLL ==> MIN_POLL_OPTIONS <= |p.options| <= MAX_POLL_OPTIONS)
    && (p.postType == POST ==> p.options == [])
  }

  predicate WellFormed(rows: seq<Post>)
  {
    UniqueIds(rows) && forall i :: 0 <= i < |rows| ==> WellFormedPost(rows[i])
  }

  // ---------------------------------------------------------------------------
  // createPost, createPoll
  // ---------------------------------------------------------------------------

  /**
   * `createPost`: adds one row of type POST with the given columns and no options.
   * `newId` is the key the store generates for the row.
   */
  function CreatePost(rows: seq<Post>, newId: Id, content: string, userId: Id,
                      title: Option<string>, media: Option<string>, collegeId: Option<Id>): (r: Created)
    ensures r.rows == rows + [r.post]
    ensures r.post.id == newId && r.post.postType == POST && r.post.options == []
    ensures r.post.content == content && r.post.authorId == userId && r.post.title == title
    ensures r.post.media == media && r.post.collegeId == collegeId
    ensures !r.post.isEdited && !r.post.isDeleted
  {
    var post := Post(newId, title, content, userId, collegeId, media, POST, [], false, false);
    Created(rows + [post], post)
  }

  /**
   * `createPoll`: rejects fewer than 2 or more than 10 options with BAD_REQUEST before
   * anything is written; otherwise adds one row of type POLL owning exactly `options`.
   * A failure carries no new table: the store is unchanged.
   */
  function CreatePoll(rows: seq<Post>, newId: Id, content: string, userId: Id, options: seq<string>,
                      title: Option<string>, media: Option<string>, collegeId: Option<Id>): (r: Result<Created, ApiError>)
    ensures r.Failure? <==> |options| < MIN_POLL_OPTIONS || |options| > MAX_POLL_OPTIONS
    ensures |options| < MIN_POLL_OPTIONS ==> r == Failure(ApiError(BAD_REQUEST, TOO_FEW_OPTIONS))
    ensures |options| > MAX_POLL_OPTIONS ==> r == Failure(ApiError(BAD_REQUEST, TOO_MANY_OPTIONS))
    ensures r.Success? ==> r.value.rows == rows + [r.value.post]
    ensures r.Success? ==> r.value.post.id == newId && r.value.post.postType == POLL && r.value.post.options == options
    ensures r.Success? ==> r.value.post.content == content && r.value.post.authorId == userId && r.value.post.title == title
    ensures r.Success? ==> r.value.post.media == media && r.value.post.collegeId == collegeId
    ensures r.Success? ==> !r.value.post.isEdited && !r.value.post.isDeleted
  {
    if |options| < MIN_POLL_OPTIONS then
      Failure(ApiError(BAD_REQUEST, TOO_FEW_OPTIONS))
    else if |options| > MAX_POLL_OPTIONS then
      Failure(ApiError(BAD_REQUEST, TOO_MANY_OPTIONS))
    else
      var post := Post(newId, title, content, userId, collegeId, media, POLL, options, false, false);
      Success(Created(rows + [post], post))
  }

  /** Creating a post with a fresh key keeps the table well formed. */
  lemma CreatePostKeepsWellFormed(rows: seq<Post>, newId: Id, content: string, userId: Id,
                                  title: Option<string>, media: Option<string>, collegeId: Option<Id>)
    requires WellFormed(rows) && FreshId(rows, newId)
    ensures WellFormed(CreatePost(rows, newId, content, userId, title, media, collegeId).rows)
  {
  }

  /** A successful poll creation with a fresh key keeps the table well formed: every poll owns 2 to 10 options. */
  lemma CreatePollKeepsWellFormed(rows: seq<Post>, newId: Id, content: string, userId: Id, options: seq<string>,
                                  title: Option<string>, media: Option<string>, collegeId: Option<Id>)
    requires WellFormed(rows) && FreshId(rows, newId)
    ensures var r := CreatePoll(rows, newId, content, userId, options, title, media, collegeId);
            r.Success? ==> WellFormed(r.value.rows)
  {
  }

  // ---------------------------------------------------------------------------
  // getPostById
  // ---------------------------------------------------------------------------

  /** The position of the first row whose id is `id`, if any. */
  function IndexOfPost(rows: seq<Post>, id: Id): (r: Option<nat>)
    ensures r.None? <==> forall j :: 0 <= j < |rows| ==> rows[j].id != id
    ensures r.Some? ==> r.value < |rows| && rows[r.value].id == id
    ensures r.Some? ==> forall j :: 0 <= j < r.value ==> rows[j].id != id
  {
    if rows == [] then None
    else if rows[0].id == id then Some(0)
    else
      assert forall j :: 1 <= j < |rows| ==> rows[j] == rows[1..][j - 1];
      match IndexOfPost(rows[1..], id)
      case None => None
      case Some(i) => Some(i + 1)
  }

  /**
   * `getPostById`: the row with key `id` together with its like count, or `None`.
   * It looks at the key only, so a soft-deleted row is found like any other.
   */
  function GetPostById(rows: seq<Post>, likes: seq<Like>, id: Id): (r: Option<PostView>)
    ensures r.None? <==> forall j :: 0 <= j < |rows| ==> rows[j].id != id
    ensures r.Some? ==> r.value.post in rows && r.value.post.id == id
    ensures r.Some? ==> r.value.likeCount == LikeCount(likes, id)
  {
    match IndexOfPost(rows, id)
    case None => None
    case Some(i) => Some(PostView(rows[i], LikeCount(likes, id)))
  }

  /** In a table with unique keys, the row just created is what `getPostById` returns for its key, with its likes counted. */
  lemma CreatedPostIsFound(rows: seq<Post>, likes: seq<Like>, newId: Id, content: string, userId: Id,
                           title: Option<string>, media: Option<string>, collegeId: Option<Id>)
    requires FreshId(rows, newId)
    ensures var r := CreatePost(rows, newId, content, userId, title, media, collegeId);
            GetPostById(r.rows, likes, newId) == Some(PostView(r.post, LikeCount(likes, newId)))
  {
    var r := CreatePost(rows, newId, content, userId, title, media, collegeId);
    var i := IndexOfPost(r.rows, newId);
    assert r.rows[|rows|].id == newId;
    assert forall j :: 0 <= j < |rows| ==> r.rows[j] == rows[j];
    assert i == Some(|rows|);
  }

  // ---------------------------------------------------------------------------
  // queryCollegePosts: the predicate
  // ---------------------------------------------------------------------------

  /**
   * The caller's `filter`: the query keys the controller picks (`authorId`, `PostType`)
   * and the two keys the service writes after spreading it (`collegeId`, `isDeleted`),
   * which a caller could also put there.
   */
  datatype PostFilter = PostFilter(
    authorId: Option<Id>,
    postType: Option<PostType>,
    collegeId: Option<Id>,
    isDeleted: Option<bool>)

  /**
   * A `where` object of the store: each present key constrains its column; `search`
   * stands for the `AND: { OR: [title contains, content contains] }` clause.
   */
  datatype Where = Where(
    authorId: Option<Id>,
    postType: Option<PostType>,
    collegeId: Option<Id>,
    isDeleted: Option<bool>,
    search: Option<string>)

  /** Title or content contains `term`, ignoring case; a missing title never matches. */
  predicate MatchesText(p: Post, term: string)
  {
    (p.title.Some? && ContainsInsensitive(p.title.value, term)) || ContainsInsensitive(p.content, term)
  }

  /** The store's evaluation of a `where` object on one row. */
  predicate Satisfies(p: Post, w: Where)
  {
    && (w.authorId.None? || p.authorId == w.authorId.value)
    && (w.postType.None? || p.postType == w.postType.value)
    && (w.collegeId.None? || p.collegeId == w.collegeId)
    && (w.isDeleted.None? || p.isDeleted == w.isDeleted.value)
    && (w.search.None? || MatchesText(p, w.search.value))
  }

  /** The search term that is in force: an absent or empty `search` adds no clause. */
  function SearchTerm(search: Option<string>): Option<string>
  {
    if search.Some? && search.value != "" then search else None
  }

  /**
   * The `where` object of `queryCollegePosts`: the filter spread first, then `collegeId`
   * and `isDeleted` written over it, then the search clause. An absent `entityId` is
   * `undefined`, which the store ignores, so it leaves the college unconstrained.
   * The contract states which rows the object admits: the filter's own `collegeId` and
   * `isDeleted` have no effect at all.
   */
  function BuildWhere(entityId: Option<Id>, search: Option<string>, filter: PostFilter): (w: Where)
    ensures forall p :: Satisfies(p, w) <==>
      && (filter.authorId.None? || p.authorId == filter.authorId.value)
      && (filter.postType.None? || p.postType == filter.postType.value)
      && (entityId.None? || p.collegeId == entityId)
      && !p.isDeleted
      && (SearchTerm(search).None? || MatchesText(p, search.value))
  {
    Where(filter.authorId, filter.postType, entityId, Some(false), SearchTerm(search))
  }

  // ---------------------------------------------------------------------------
  // queryCollegePosts: options and defaults
  // ---------------------------------------------------------------------------

  datatype SortType = ASC | DESC

  /** The optional paging and sorting options of a feed request. */
  datatype FeedOptions = FeedOptions(
    limit: Option<nat>,
    cursor: Option<Id>,
    sortBy: Option<string>,
    sortType: Option<SortType>)

  /** A feed request: the caller's college, search term, filter and options. */
  datatype FeedQuery = FeedQuery(
    entityId: Option<Id>,
    search: Option<string>,
    filter: PostFilter,
    options: FeedOptions)

  /** The options with their defaults applied. */
  datatype Settings = Settings(limit: nat, cursor: Option<Id>, sortBy: string, sortType: SortType)

  const DEFAULT_LIMIT: nat := 100
  const DEFAULT_SORT_BY := "createdAt"
  const DEFAULT_SORT_TYPE := DESC

  /**
   * Defaults: a falsy limit (absent or 0) becomes 100; an absent sort field is `createdAt`
   * and an absent direction `desc`; a falsy cursor (absent or empty) means the first row.
   */
  function Resolve(o: FeedOptions): (s: Settings)
    ensures s.limit >= 1
    ensures o.limit.Some? && o.limit.value != 0 ==> s.limit == o.limit.value
    ensures o.limit.None? || o.limit == Some(0) ==> s.limit == DEFAULT_LIMIT
    ensures o.sortBy.Some? ==> s.sortBy == o.sortBy.value
    ensures o.sortBy.None? ==> s.sortBy == DEFAULT_SORT_BY
    ensures o.sortType.Some? ==> s.sortType == o.sortType.value
    ensures o.sortType.None? ==> s.sortType == DEFAULT_SORT_TYPE
    ensures s.cursor.Some? <==> o.cursor.Some? && o.cursor.value != ""
    ensures s.cursor.Some? ==> s.cursor == o.cursor
  {
    Settings(
      if o.limit.Some? && o.limit.value != 0 then o.limit.value else DEFAULT_LIMIT,
      if o.cursor.Some? && o.cursor.value != "" then o.cursor else None,
      if o.sortBy.Some? then o.sortBy.value else DEFAULT_SORT_BY,
      if o.sortType.Some? then o.sortType.value else DEFAULT_SORT_TYPE)
  }

  // ---------------------------------------------------------------------------
  // The store's `findMany`
  // ---------------------------------------------------------------------------

  /** The rows of `s` that satisfy `w`, in the order of `s`. */
  function Select(s: seq<Post>, w: Where): (r: seq<Post>)
    ensures |r| <= |s|
  {
    if s == [] then []
    else if Satisfies(s[0], w) then [s[0]] + Select(s[1..], w) else Select(s[1..], w)
  }

  /** The selection holds exactly the rows of `s` that satisfy `w`. */
  lemma {:induction false} SelectMembers(s: seq<Post>, w: Where)
    ensures forall p :: p in Select(s, w) <==> p in s && Satisfies(p, w)
  {
    if s != [] {
      assert forall p :: p in s <==> p == s[0] || p in s[1..];
      SelectMembers(s[1..], w);
    }
  }

  /** Selecting distributes over concatenation. */
  lemma {:induction false} SelectConcat(a: seq<Post>, b: seq<Post>, w: Where)
    ensures Select(a + b, w) == Select(a, w) + Select(b, w)
  {
    if a == [] {
      assert a + b == b;
    } else {
      assert (a + b)[0] == a[0];
      assert (a + b)[1..] == a[1..] + b;
      SelectConcat(a[1..], b, w);
    }
  }

  /**
   * Every row the store would yield for `where` and `cursor` with no `take`: the rows of
   * `ordered` that satisfy `w`, starting AT the row whose id is the cursor (the cursor row
   * itself is included when it satisfies `w`). A cursor naming no row yields nothing.
   */
  function Candidates(ordered: seq<Post>, w: Where, cursor: Option<Id>): (r: seq<Post>)
    ensures forall p :: p in r ==> p in ordered && Satisfies(p, w)
    ensures cursor.None? ==> forall p :: p in ordered && Satisfies(p, w) ==> p in r
  {
    match cursor
    case None =>
      SelectMembers(ordered, w);
      Select(ordered, w)
    case Some(c) =>
      match IndexOfPost(ordered, c)
      case None => []
      case Some(i) =>
        SelectMembers(ordered[i..], w);
        Select(ordered[i..], w)
  }

  /** `findMany` with `take`: the first `take` candidates. */
  function FindMany(ordered: seq<Post>, w: Where, cursor: Option<Id>, take: nat): (r: seq<Post>)
    ensures |r| <= take && |r| <= |Candidates(ordered, w, cursor)|
    ensures r == Candidates(ordered, w, cursor)[..|r|]
    ensures |r| < take ==> r == Candidates(ordered, w, cursor)
  {
    var c := Candidates(ordered, w, cursor);
    if |c| <= take then c else c[..take]
  }

  // ---------------------------------------------------------------------------
  // queryCollegePosts: the page
  // ---------------------------------------------------------------------------

  /** A page of the feed: its rows, whether more follow, and the cursor for the next request. */
  datatype Page = Page(data: seq<Post>, hasMore: bool, cursor: Option<Id>)

  /** The ordered table the store sorts for this query. */
  function Ordered(q: FeedQuery, order: (string, SortType) -> seq<Post>): seq<Post>
  {
    var s := Resolve(q.options);
    order(s.sortBy, s.sortType)
  }

  /** All rows of the feed from the query's cursor on, before the page limit applies. */
  function Rows(q: FeedQuery, order: (string, SortType) -> seq<Post>): seq<Post>
  {
    Candidates(Ordered(q, order), BuildWhere(q.entityId, q.search, q.filter), Resolve(q.options).cursor)
  }

  /**
   * The page `queryCollegePosts` answers with: at most `limit` rows, each in the caller's
   * college (when it has one), not soft-deleted and matching the search; the first rows of
   * the feed from the cursor on, all of them unless more than `limit` exist, in which case
   * `hasMore` is set; the cursor is the id of the last row returned, or none.
   */
  function FeedPage(q: FeedQuery, order: (string, SortType) -> seq<Post>): (r: Page)
    ensures |r.data| <= Resolve(q.options).limit
    ensures forall p :: p in r.data ==> p in Ordered(q, order)
    ensures forall p :: p in r.data ==> !p.isDeleted && (q.entityId.Some? ==> p.collegeId == q.entityId)
    ensures forall p :: p in r.data && SearchTerm(q.search).Some? ==> MatchesText(p, q.search.value)
    ensures r.hasMore <==> |Rows(q, order)| > Resolve(q.options).limit
    ensures |r.data| <= |Rows(q, order)| && r.data == Rows(q, order)[..|r.data|]
    ensures !r.hasMore ==> r.data == Rows(q, order)
    ensures r.hasMore ==> |r.data| == Resolve(q.options).limit
    ensures r.cursor.None? <==> r.data == []
    ensures r.cursor.Some? ==> r.cursor.value == r.data[|r.data| - 1].id
  {
    var s := Resolve(q.options);
    var rows := Rows(q, order);
    var data := if |rows| > s.limit then rows[..s.limit] else rows;
    assert forall p :: p in data ==> p in rows;
    Page(data, |rows| > s.limit, if data == [] then None else Some(data[|data| - 1].id))
  }

  /**
   * `queryCollegePosts`: builds the predicate, asks the store for `limit + 1` rows, and when
   * more than `limit` come back pops the extra one and sets `hasMore`.
   */
  method QueryCollegePosts(q: FeedQuery, order: (string, SortType) -> seq<Post>) returns (page: Page)
    ensures page == FeedPage(q, order)
  {
    var settings := Resolve(q.options);
    var where := BuildWhere(q.entityId, q.search, q.filter);
    var posts := FindMany(order(settings.sortBy, settings.sortType), where, settings.cursor, settings.limit + 1);
    var hasMore := |posts| > settings.limit;
    if hasMore {
      posts := posts[..|posts| - 1];
    }
    var cursor := if |posts| > 0 then Some(posts[|posts| - 1].id) else None;
    page := Page(posts, hasMore, cursor);
  }

  // ---------------------------------------------------------------------------
  // Following the cursor
  // ---------------------------------------------------------------------------

  /** In a sequence with unique ids, the row at `j` occurs in no slice that leaves out position `j`. */
  lemma RowNotInSlice(ordered: seq<Post>, j: nat, lo: nat, hi: nat)
    requires UniqueIds(ordered)
    requires j < |ordered| && lo <= hi <= |ordered| && (j < lo || hi <= j)
    ensures ordered[j] !in ordered[lo..hi]
  {
  }

  /** If `x` occurs in neither `a` nor `rest`, position `|a|` is its only position in `a + [x] + rest`. */
  lemma OnlyPosition(a: seq<Post>, x: Post, rest: seq<Post>, k: nat)
    requires x !in a && x !in rest
    requires k < |a + [x] + rest| && (a + [x] + rest)[k] == x
    ensures k == |a|
  {
  }

  /**
   * In a sequence with unique ids, if the row at `j` (which satisfies `w`) is the `k`-th
   * selected row from position `i`, then the selection from `i` continues, from its `k`-th
   * element on, exactly as the selection from `j`.
   */
  lemma SelectResumesAt(ordered: seq<Post>, w: Where, i: nat, j: nat, k: nat)
    requires UniqueIds(ordered)
    requires i <= j < |ordered| && Satisfies(ordered[j], w)
    requires k < |Select(ordered[i..], w)| && Select(ordered[i..], w)[k] == ordered[j]
    ensures Select(ordered[i..], w)[k..] == Select(ordered[j..], w)
  {
    var x := ordered[j];
    var a := Select(ordered[i..j], w);
    var rest := Select(ordered[j + 1..], w);
    assert Select(ordered[j..], w) == [x] + rest by {
      assert ordered[j..] == [x] + ordered[j + 1..];
      SelectConcat([x], ordered[j + 1..], w);
    }
    assert Select(ordered[i..], w) == a + [x] + rest by {
      assert ordered[i..] == ordered[i..j] + ordered[j..];
      SelectConcat(ordered[i..j], ordered[j..], w);
    }
    assert x !in a by {
      RowNotInSlice(ordered, j, i, j);
      SelectMembers(ordered[i..j], w);
    }
    assert x !in rest by {
      RowNotInSlice(ordered, j, j + 1, |ordered|);
      SelectMembers(ordered[j + 1..], w);
    }
    OnlyPosition(a, x, rest, k);
  }

  /**
   * Asking the store again with the id of the `k`-th candidate as cursor yields the
   * candidates from the `k`-th on: the cursor row itself first. (Keys unique and non-empty.)
   */
  lemma CandidatesFromCursorRow(ordered: seq<Post>, w: Where, cursor: Option<Id>, k: nat)
    requires UniqueIds(ordered)
    requires k < |Candidates(ordered, w, cursor)|
    ensures Candidates(ordered, w, Some(Candidates(ordered, w, cursor)[k].id)) == Candidates(ordered, w, cursor)[k..]
  {
    var rows := Candidates(ordered, w, cursor);
    var x := rows[k];
    var i: nat := if cursor.None? then 0 else IndexOfPost(ordered, cursor.value).value;
    assert rows == Select(ordered[i..], w) by {
      assert ordered[0..] == ordered;
    }
    var j := SelectedPosition(ordered, w, i, x);
    assert IndexOfPost(ordered, x.id) == Some(j);
    SelectResumesAt(ordered, w, i, j, k);
  }

  /** A row selected from position `i` on sits at some position `j >= i` of the table and satisfies `w`. */
  lemma SelectedPosition(ordered: seq<Post>, w: Where, i: nat, x: Post) returns (j: nat)
    requires i <= |ordered| && x in Select(ordered[i..], w)
    ensures i <= j < |ordered| && ordered[j] == x && Satisfies(x, w)
  {
    SelectMembers(ordered[i..], w);
    var t :| 0 <= t < |ordered[i..]| && ordered[i..][t] == x;
    j := i + t;
  }

  /**
   * The cursor is inclusive. When a page reports `hasMore` and the caller asks again with
   * the cursor it returned, the next request's rows are the previous request's rows from
   * the previous page's LAST row on: that row comes back as the first row of the next
   * page, and no row is skipped. (Table keys are unique and non-empty.)
   */
  lemma NextPageResumesAtLastRow(q: FeedQuery, order: (string, SortType) -> seq<Post>)
    requires UniqueIds(Ordered(q, order))
    requires forall j :: 0 <= j < |Ordered(q, order)| ==> Ordered(q, order)[j].id != ""
    requires FeedPage(q, order).hasMore
    ensures var p1 := FeedPage(q, order);
            var q2 := q.(options := q.options.(cursor := p1.cursor));
            && Rows(q2, order) == Rows(q, order)[|p1.data| - 1..]
            && FeedPage(q2, order).data[0] == p1.data[|p1.data| - 1]
  {
    var p1 := FeedPage(q, order);
    var q2 := q.(options := q.options.(cursor := p1.cursor));
    var ordered := Ordered(q, order);
    var w := BuildWhere(q.entityId, q.search, q.filter);
    var rows := Rows(q, order);
    var k := |p1.data| - 1;
    var x := rows[k];
    assert x in ordered by {
      assert x in rows;
    }
    assert p1.cursor == Some(x.id);
    assert Ordered(q2, order) == ordered;
    assert Rows(q2, order) == Candidates(ordered, w, Some(x.id));
    CandidatesFromCursorRow(ordered, w, Resolve(q.options).cursor, k);
  }

  /**
   * Each followed cursor moves forward by only `limit - 1` rows: the rows left after the
   * next cursor are the earlier ones less the `limit - 1` rows served only once.
   */
  lemma NextPageProgresses(q: FeedQuery, order: (string, SortType) -> seq<Post>)
    requires UniqueIds(Ordered(q, order))
    requires forall j :: 0 <= j < |Ordered(q, order)| ==> Ordered(q, order)[j].id != ""
    requires FeedPage(q, order).hasMore
    ensures var q2 := q.(options := q.options.(cursor := FeedPage(q, order).cursor));
            |Rows(q2, order)| == |Rows(q, order)| - (Resolve(q.options).limit - 1)
  {
    NextPageResumesAtLastRow(q, order);
  }

  /**
   * With a limit of 1 a followed cursor never moves: a page with `hasMore` returns a cursor
   * that yields the very same page again.
   */
  lemma LimitOneNeverAdvances(q: FeedQuery, order: (string, SortType) -> seq<Post>)
    requires UniqueIds(Ordered(q, order))
    requires forall j :: 0 <= j < |Ordered(q, order)| ==> Ordered(q, order)[j].id != ""
    requires Resolve(q.options).limit == 1 && FeedPage(q, order).hasMore
    ensures var q2 := q.(options := q.options.(cursor := FeedPage(q, order).cursor));
            FeedPage(q2, order) == FeedPage(q, order)
  {
    NextPageResumesAtLastRow(q, order);
    var q2 := q.(options := q.options.(cursor := FeedPage(q, order).cursor));
    assert Rows(q2, order) == Rows(q, order);
    assert Resolve(q2.options).limit == Resolve(q.options).limit;
  }
}
