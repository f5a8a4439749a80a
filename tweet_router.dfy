/**
 * The tweet router: the two feed queries built on `getInfiniteTweets`,
 * `create`, and `toggleLike`, over a store holding the tweet, like and
 * follow tables.
 */
module TweetRouter {
  import opened Common
  import opened TweetQuery

  /** `limit` when a feed query leaves it out. */
  const DEFAULT_LIMIT: nat := 10

  function LimitOrDefault(limit: Option<nat>): nat {
    match limit
    case None => DEFAULT_LIMIT
    case Some(n) => n
  }

  /**
   * The `where` clause of `infiniteFeed`: the followed-authors filter only
   * when it is asked for and someone is signed in, otherwise no filter.
   */
  function FeedWhere(onlyFollowing: Option<bool>, me: Option<UserId>): (w: Where)
    ensures w.AuthorFollowedBy? <==> onlyFollowing == Some(true) && me.Some?
    ensures w.AuthorFollowedBy? ==> w.userId == me.value
    ensures !w.ByAuthor?
  {
    var only := match onlyFollowing case None => false case Some(b) => b;
    if !only || me.None? then AllTweets else AuthorFollowedBy(me.value)
  }

  predicate HasTweet(tweets: seq<Row>, id: TweetId) {
    exists r :: r in tweets && r.id == id
  }

  /** The like edges on one tweet; `_count.likes` is their number. */
  function LikesOn(likes: set<Like>, id: TweetId): set<Like> {
    set l | l in likes && l.tweetId == id
  }

  /** The projection of one selected row to a feed tweet. */
  function Project(r: Row, likes: set<Like>, me: Option<UserId>): (t: Tweet)
    ensures me.None? ==> !t.likedByMe
    ensures t.likedByMe ==> t.likeCount >= 1
  {
    var likedByMe := me.Some? && Like(me.value, r.id) in likes;
    assert likedByMe ==> Like(me.value, r.id) in LikesOn(likes, r.id);
    Tweet(r.id, r.content, r.createdAt, |LikesOn(likes, r.id)|, r.user, likedByMe)
  }

  function ProjectAll(rows: seq<Row>, likes: set<Like>, me: Option<UserId>): (ts: seq<Tweet>)
    ensures |ts| == |rows|
  {
    seq(|rows|, i requires 0 <= i < |rows| => Project(rows[i], likes, me))
  }

  lemma ProjectAllAppend(a: seq<Row>, b: seq<Row>, likes: set<Like>, me: Option<UserId>)
    ensures ProjectAll(a + b, likes, me) == ProjectAll(a, likes, me) + ProjectAll(b, likes, me)
  {
  }

  /** Tweets listed newest first, larger id first on equal timestamps, with no ties. */
  ghost predicate NewestFirst(ts: seq<Tweet>) {
    forall i, j :: 0 <= i < j < |ts| ==>
      Earlier(Cursor(ts[i].id, ts[i].createdAt), Cursor(ts[j].id, ts[j].createdAt))
  }

  /**
   * The page a feed query answers for `cursor`: the first `limit` rows from
   * the cursor on (all of them when fewer remain), projected, and the key of
   * the row after them, if there is one, as `nextCursor`.
   */
  function PageOf(
    tweets: seq<Row>, likes: set<Like>, follows: set<Follow>,
    w: Where, limit: nat, cursor: Option<Cursor>, me: Option<UserId>): (p: FeedPage)
    ensures |p.tweets| <= limit
    ensures p.nextCursor.Some? <==> |Window(tweets, w, follows, cursor)| > limit
    ensures p.nextCursor.Some? ==> |p.tweets| == limit
  {
    var win := Window(tweets, w, follows, cursor);
    if |win| > limit then
      FeedPage(ProjectAll(win[..limit], likes, me), Some(KeyOf(win[limit])))
    else
      FeedPage(ProjectAll(win, likes, me), None)
  }

  /**
   * A page holds the first `limit` rows of the window, or all of them when
   * fewer remain, and `nextCursor` is the key of the row right after them:
   * the row that opens the next page.
   */
  lemma PageCursor(
    tweets: seq<Row>, likes: set<Like>, follows: set<Follow>,
    w: Where, limit: nat, cursor: Option<Cursor>, me: Option<UserId>)
    ensures var p := PageOf(tweets, likes, follows, w, limit, cursor, me);
      var win := Window(tweets, w, follows, cursor);
      && |p.tweets| == (if |win| > limit then limit else |win|)
      && (p.nextCursor.Some? ==> p.nextCursor.value == KeyOf(win[limit]))
  {
  }

  /** The i-th tweet of a page is the projection of the i-th row of the window. */
  lemma PageShape(
    tweets: seq<Row>, likes: set<Like>, follows: set<Follow>,
    w: Where, limit: nat, cursor: Option<Cursor>, me: Option<UserId>)
    ensures var p := PageOf(tweets, likes, follows, w, limit, cursor, me);
      var win := Window(tweets, w, follows, cursor);
      && |p.tweets| <= |win|
      && (forall i :: 0 <= i < |p.tweets| ==> p.tweets[i] == Project(win[i], likes, me))
  {
  }

  /**
   * Following `nextCursor` resumes right after the page: the rows from the
   * next cursor on are the rows from this cursor on minus the `limit` this
   * page shows, so nothing is skipped or shown twice.
   */
  lemma NextPageFollowsOn(
    tweets: seq<Row>, likes: set<Like>, follows: set<Follow>,
    w: Where, limit: nat, cursor: Option<Cursor>, me: Option<UserId>)
    requires DistinctKeys(tweets)
    ensures var p := PageOf(tweets, likes, follows, w, limit, cursor, me);
      var win := Window(tweets, w, follows, cursor);
      p.nextCursor.Some? ==> Window(tweets, w, follows, p.nextCursor) == win[limit..]
  {
    var p := PageOf(tweets, likes, follows, w, limit, cursor, me);
    if p.nextCursor.Some? {
      PageCursor(tweets, likes, follows, w, limit, cursor, me);
      NextWindow(tweets, w, follows, cursor, limit);
    }
  }

  /** Every tweet on a page satisfies the page's `where` clause. */
  lemma PageMatchesFilter(
    tweets: seq<Row>, likes: set<Like>, follows: set<Follow>,
    w: Where, limit: nat, cursor: Option<Cursor>, me: Option<UserId>)
    ensures forall t :: t in PageOf(tweets, likes, follows, w, limit, cursor, me).tweets ==>
      Matches(w, t.user.id, follows)
  {
    var p := PageOf(tweets, likes, follows, w, limit, cursor, me);
    var win := Window(tweets, w, follows, cursor);
    PageShape(tweets, likes, follows, w, limit, cursor, me);
    WindowRowsMatch(tweets, w, follows, cursor);
    forall t | t in p.tweets ensures Matches(w, t.user.id, follows) {
      var i :| 0 <= i < |p.tweets| && p.tweets[i] == t;
      assert t.user == win[i].user;
    }
  }

  /** A page keeps the query order: newest first, ties broken by the larger id. */
  lemma PageIsNewestFirst(
    tweets: seq<Row>, likes: set<Like>, follows: set<Follow>,
    w: Where, limit: nat, cursor: Option<Cursor>, me: Option<UserId>)
    requires DistinctIds(tweets)
    ensures NewestFirst(PageOf(tweets, likes, follows, w, limit, cursor, me).tweets)
  {
    var p := PageOf(tweets, likes, follows, w, limit, cursor, me);
    var win := Window(tweets, w, follows, cursor);
    PageShape(tweets, likes, follows, w, limit, cursor, me);
    DistinctIdsGiveDistinctKeys(tweets);
    WindowIsStrictlyOrdered(tweets, w, follows, cursor);
    forall i, j | 0 <= i < j < |p.tweets|
      ensures Earlier(Cursor(p.tweets[i].id, p.tweets[i].createdAt), Cursor(p.tweets[j].id, p.tweets[j].createdAt))
    {
      assert Earlier(KeyOf(win[i]), KeyOf(win[j]));
    }
  }

  /** The like set after creating the edge `l` if absent, deleting it if present. */
  function Toggle(likes: set<Like>, l: Like): (r: set<Like>)
    ensures l in r <==> l !in likes
    ensures forall m :: m != l ==> (m in r <==> m in likes)
  {
    if l in likes then likes - {l} else likes + {l}
  }

  /** Two toggles of the same edge restore the like set. */
  lemma ToggleTwice(likes: set<Like>, l: Like)
    ensures Toggle(Toggle(likes, l), l) == likes
  {
  }

  /** A toggle moves the toggled tweet's like count by exactly one and no other tweet's. */
  lemma LikeCountAfterToggle(likes: set<Like>, l: Like, id: TweetId)
    ensures |LikesOn(Toggle(likes, l), id)| ==
      |LikesOn(likes, id)| + (if id != l.tweetId then 0 else if l in likes then -1 else 1)
  {
    var before := LikesOn(likes, id);
    var after := LikesOn(Toggle(likes, l), id);
    if id != l.tweetId {
      assert after == before;
    } else if l in likes {
      assert after == before - {l};
    } else {
      assert after == before + {l};
    }
  }

  /** The tweet, like and follow tables. */
  class TweetStore {
    var tweets: seq<Row>
    var likes: set<Like>
    var follows: set<Follow>

    /** Tweet ids are a primary key; every like references a stored tweet. */
    ghost predicate Valid()
      reads this
    {
      && DistinctIds(tweets)
      && forall l :: l in likes ==> HasTweet(tweets, l.tweetId)
    }

    constructor (follows: set<Follow>)
      ensures Valid()
      ensures tweets == [] && likes == {} && this.follows == follows
    {
      tweets := [];
      likes := {};
      this.follows := follows;
    }

    /**
     * `getInfiniteTweets`: one page of the filtered feed from `cursor` on.
     * `limit + 1` rows are fetched; when more than `limit` come back the last
     * one is popped and its key becomes `nextCursor`.
     */
    method GetInfiniteTweets(w: Where, limit: nat, cursor: Option<Cursor>, session: Option<User>)
      returns (page: FeedPage)
      ensures page == PageOf(tweets, likes, follows, w, limit, cursor, SessionUserId(session))
    {
      var currentUserId := SessionUserId(session);
      var data := FindMany(tweets, w, follows, cursor, limit + 1);
      ghost var win := Window(tweets, w, follows, cursor);
      FindManyIsPrefix(tweets, w, follows, cursor, limit + 1);
      var nextCursor: Option<Cursor> := None;
      if |data| > limit {
        assert |data| == limit + 1;
        var nextItem := data[|data| - 1];
        data := data[..|data| - 1];
        assert data == win[..limit];
        nextCursor := Some(Cursor(nextItem.id, nextItem.createdAt));
      } else {
        assert data == win;
      }
      page := FeedPage(ProjectAll(data, likes, currentUserId), nextCursor);
    }

    /** `infiniteProfileFeed`: one author's tweets. */
    method InfiniteProfileFeed(userId: UserId, limit: Option<nat>, cursor: Option<Cursor>, session: Option<User>)
      returns (page: FeedPage)
      ensures page == PageOf(tweets, likes, follows, ByAuthor(userId), LimitOrDefault(limit), cursor, SessionUserId(session))
      ensures |page.tweets| <= LimitOrDefault(limit)
      ensures forall t :: t in page.tweets ==> t.user.id == userId
    {
      page := GetInfiniteTweets(ByAuthor(userId), LimitOrDefault(limit), cursor, session);
      PageMatchesFilter(tweets, likes, follows, ByAuthor(userId), LimitOrDefault(limit), cursor, SessionUserId(session));
    }

    /** `infiniteFeed`: every tweet, or only those of authors the signed-in user follows. */
    method InfiniteFeed(onlyFollowing: Option<bool>, limit: Option<nat>, cursor: Option<Cursor>, session: Option<User>)
      returns (page: FeedPage)
      ensures var me := SessionUserId(session);
        page == PageOf(tweets, likes, follows, FeedWhere(onlyFollowing, me), LimitOrDefault(limit), cursor, me)
      ensures |page.tweets| <= LimitOrDefault(limit)
      ensures onlyFollowing != Some(true) || session.None? ==>
        page == PageOf(tweets, likes, follows, AllTweets, LimitOrDefault(limit), cursor, SessionUserId(session))
      ensures onlyFollowing == Some(true) && session.Some? ==>
        forall t :: t in page.tweets ==> Follow(session.value.id, t.user.id) in follows
    {
      var currentUserId := SessionUserId(session);
      var w := FeedWhere(onlyFollowing, currentUserId);
      page := GetInfiniteTweets(w, LimitOrDefault(limit), cursor, session);
      PageMatchesFilter(tweets, likes, follows, w, LimitOrDefault(limit), cursor, currentUserId);
    }

    /** `create`: the signed-in user posts a tweet; the store supplies a fresh id and the time. */
    method Create(session: Option<User>, content: string, id: TweetId, now: Timestamp)
      returns (r: Result<Row>)
      requires Valid() && !HasTweet(tweets, id)
      modifies this`tweets
      ensures Valid()
      ensures session.None? ==> r == Err(Unauthorized) && tweets == old(tweets)
      ensures session.Some? ==>
        r == Ok(Row(id, content, now, session.value)) && tweets == old(tweets) + [r.value]
    {
      if session.None? {
        return Err(Unauthorized);
      }
      var row := Row(id, content, now, session.value);
      forall l | l in likes ensures HasTweet(tweets + [row], l.tweetId) {
        var x :| x in tweets && x.id == l.tweetId;
        assert x in tweets + [row];
      }
      assert forall i :: 0 <= i < |tweets| ==> tweets[i] in tweets;
      tweets := tweets + [row];
      r := Ok(row);
    }

    /** `toggleLike`: creates the signed-in user's like on `id` if absent, deletes it if present. */
    method ToggleLike(session: Option<User>, id: TweetId) returns (r: Result<bool>)
      requires Valid()
      modifies this`likes
      ensures Valid()
      ensures session.None? ==> r == Err(Unauthorized)
      ensures session.Some? && Like(session.value.id, id) in old(likes) ==> r == Ok(false)
      ensures session.Some? && Like(session.value.id, id) !in old(likes) ==>
        r == (if HasTweet(tweets, id) then Ok(true) else Err(ForeignKeyViolation))
      ensures r.Ok? ==> likes == Toggle(old(likes), Like(session.value.id, id))
      ensures r.Err? ==> likes == old(likes)
    {
      if session.None? {
        return Err(Unauthorized);
      }
      var data := Like(session.value.id, id);
      var existingLike := data in likes;
      if !existingLike {
        if !HasTweet(tweets, id) {
          return Err(ForeignKeyViolation);
        }
        likes := likes + {data};
        return Ok(true);
      }
      likes := likes - {data};
      return Ok(false);
    }
  }
}
