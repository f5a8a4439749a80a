/**
 * Why patching the cache is enough: after a successful `toggleLike` by the
 * signed-in user, `updateData` turns every cached page into exactly the
 * page the server would now return, and the profile feeds it leaves alone
 * are the ones the like cannot reach.
 */
module Reconcile {
  import opened Common
  import opened TweetQuery
  import opened TweetRouter
  import opened InfiniteTweetFeed

  /** The patched projection of a row is the projection under the toggled like set. */
  lemma PatchAgreesWithRefetch(r: Row, likes: set<Like>, u: UserId, id: TweetId, addedLike: bool)
    requires addedLike == (Like(u, id) !in likes)
    ensures PatchTweet(Project(r, likes, Some(u)), id, addedLike)
      == Project(r, Toggle(likes, Like(u, id)), Some(u))
  {
    LikeCountAfterToggle(likes, Like(u, id), r.id);
  }

  /** A row other than the liked tweet projects the same before and after the toggle. */
  lemma OtherRowUnchanged(r: Row, likes: set<Like>, me: Option<UserId>, l: Like)
    requires r.id != l.tweetId
    ensures Project(r, Toggle(likes, l), me) == Project(r, likes, me)
  {
    LikeCountAfterToggle(likes, l, r.id);
  }

  /** Patching a page the server returned gives the page it returns after the toggle. */
  lemma PatchedPageIsRefetch(
    tweets: seq<Row>, likes: set<Like>, follows: set<Follow>,
    w: Where, limit: nat, cursor: Option<Cursor>, u: UserId, id: TweetId, addedLike: bool)
    requires addedLike == (Like(u, id) !in likes)
    ensures PatchPage(PageOf(tweets, likes, follows, w, limit, cursor, Some(u)), id, addedLike)
      == PageOf(tweets, Toggle(likes, Like(u, id)), follows, w, limit, cursor, Some(u))
  {
    var toggled := Toggle(likes, Like(u, id));
    var p := PageOf(tweets, likes, follows, w, limit, cursor, Some(u));
    var q := PageOf(tweets, toggled, follows, w, limit, cursor, Some(u));
    var patched := PatchPage(p, id, addedLike);
    var win := Window(tweets, w, follows, cursor);
    PageCursor(tweets, likes, follows, w, limit, cursor, Some(u));
    PageCursor(tweets, toggled, follows, w, limit, cursor, Some(u));
    PageShape(tweets, likes, follows, w, limit, cursor, Some(u));
    PageShape(tweets, toggled, follows, w, limit, cursor, Some(u));
    forall i | 0 <= i < |q.tweets| ensures patched.tweets[i] == q.tweets[i] {
      PatchAgreesWithRefetch(win[i], likes, u, id, addedLike);
    }
  }

  /** A page whose filter no row of the liked tweet matches is not changed by the toggle. */
  lemma PageWithoutTweetUnchanged(
    tweets: seq<Row>, likes: set<Like>, follows: set<Follow>,
    w: Where, limit: nat, cursor: Option<Cursor>, me: Option<UserId>, l: Like)
    requires forall r :: r in tweets && Matches(w, r.user.id, follows) ==> r.id != l.tweetId
    ensures PageOf(tweets, Toggle(likes, l), follows, w, limit, cursor, me)
      == PageOf(tweets, likes, follows, w, limit, cursor, me)
  {
    var p := PageOf(tweets, likes, follows, w, limit, cursor, me);
    var q := PageOf(tweets, Toggle(likes, l), follows, w, limit, cursor, me);
    var win := Window(tweets, w, follows, cursor);
    PageCursor(tweets, likes, follows, w, limit, cursor, me);
    PageCursor(tweets, Toggle(likes, l), follows, w, limit, cursor, me);
    PageShape(tweets, likes, follows, w, limit, cursor, me);
    PageShape(tweets, Toggle(likes, l), follows, w, limit, cursor, me);
    WindowRowsMatch(tweets, w, follows, cursor);
    forall i | 0 <= i < |q.tweets| ensures p.tweets[i] == q.tweets[i] {
      OtherRowUnchanged(win[i], likes, me, l);
    }
  }

  /**
   * Cached data is fresh when each cached page is the page the server
   * returns for that page's parameter; the client never passes `limit`, so
   * every page has the default size.
   */
  ghost predicate Fetched(
    d: InfiniteData, tweets: seq<Row>, likes: set<Like>, follows: set<Follow>, w: Where, me: Option<UserId>)
  {
    && |d.pages| == |d.pageParams|
    && forall k :: 0 <= k < |d.pages| ==>
      d.pages[k] == PageOf(tweets, likes, follows, w, DEFAULT_LIMIT, d.pageParams[k], me)
  }

  /** `updateData` keeps fresh data fresh across a toggle by the signed-in user. */
  lemma UpdateKeepsFetched(
    d: InfiniteData, tweets: seq<Row>, likes: set<Like>, follows: set<Follow>, w: Where,
    u: UserId, id: TweetId, addedLike: bool)
    requires Fetched(d, tweets, likes, follows, w, Some(u))
    requires addedLike == (Like(u, id) !in likes)
    ensures Fetched(UpdateData(Some(d), id, addedLike).value, tweets, Toggle(likes, Like(u, id)), follows, w, Some(u))
  {
    var r := UpdateData(Some(d), id, addedLike).value;
    forall k | 0 <= k < |r.pages|
      ensures r.pages[k] == PageOf(tweets, Toggle(likes, Like(u, id)), follows, w, DEFAULT_LIMIT, r.pageParams[k], Some(u))
    {
      PatchedPageIsRefetch(tweets, likes, follows, w, DEFAULT_LIMIT, d.pageParams[k], u, id, addedLike);
    }
  }

  /** Another author's profile feed stays fresh without being touched. */
  lemma OtherProfileStaysFetched(
    d: InfiniteData, tweets: seq<Row>, likes: set<Like>, follows: set<Follow>,
    a: UserId, me: Option<UserId>, l: Like, author: UserId)
    requires Fetched(d, tweets, likes, follows, ByAuthor(a), me)
    requires a != author
    requires forall r :: r in tweets && r.id == l.tweetId ==> r.user.id == author
    ensures Fetched(d, tweets, Toggle(likes, l), follows, ByAuthor(a), me)
  {
    forall k | 0 <= k < |d.pages|
      ensures d.pages[k] == PageOf(tweets, Toggle(likes, l), follows, ByAuthor(a), DEFAULT_LIMIT, d.pageParams[k], me)
    {
      PageWithoutTweetUnchanged(tweets, likes, follows, ByAuthor(a), DEFAULT_LIMIT, d.pageParams[k], me, l);
    }
  }

  /**
   * Every cache entry is fresh: the recent feed is `infiniteFeed({})`, the
   * following feed `infiniteFeed({ onlyFollowing: true })`, and each profile
   * entry that author's `infiniteProfileFeed`.
   */
  ghost predicate Fresh(
    recent: Option<InfiniteData>, following: Option<InfiniteData>, profiles: map<UserId, InfiniteData>,
    tweets: seq<Row>, likes: set<Like>, follows: set<Follow>, me: Option<UserId>)
  {
    && (recent.Some? ==> Fetched(recent.value, tweets, likes, follows, FeedWhere(None, me), me))
    && (following.Some? ==> Fetched(following.value, tweets, likes, follows, FeedWhere(Some(true), me), me))
    && forall a :: a in profiles ==> Fetched(profiles[a], tweets, likes, follows, ByAuthor(a), me)
  }

  /** Patching a fresh cache the way `onSuccess` does leaves it fresh under the toggled likes. */
  lemma ReconcileCache(
    tweets: seq<Row>, likes: set<Like>, follows: set<Follow>, me: Option<UserId>,
    u: UserId, id: TweetId, author: UserId, addedLike: bool,
    recent: Option<InfiniteData>, following: Option<InfiniteData>, profiles: map<UserId, InfiniteData>,
    recent': Option<InfiniteData>, following': Option<InfiniteData>, profiles': map<UserId, InfiniteData>)
    requires me == Some(u) && addedLike == (Like(u, id) !in likes)
    requires forall x :: x in tweets && x.id == id ==> x.user.id == author
    requires Fresh(recent, following, profiles, tweets, likes, follows, me)
    requires recent' == UpdateData(recent, id, addedLike)
    requires following' == UpdateData(following, id, addedLike)
    requires profiles'.Keys == profiles.Keys
    requires author in profiles ==> Some(profiles'[author]) == UpdateData(Some(profiles[author]), id, addedLike)
    requires forall a :: a in profiles' && a != author ==> profiles'[a] == profiles[a]
    ensures Fresh(recent', following', profiles', tweets, Toggle(likes, Like(u, id)), follows, me)
  {
    if recent.Some? {
      UpdateKeepsFetched(recent.value, tweets, likes, follows, FeedWhere(None, me), u, id, addedLike);
    }
    if following.Some? {
      UpdateKeepsFetched(following.value, tweets, likes, follows, FeedWhere(Some(true), me), u, id, addedLike);
    }
    forall a | a in profiles'
      ensures Fetched(profiles'[a], tweets, Toggle(likes, Like(u, id)), follows, ByAuthor(a), me)
    {
      if a == author {
        UpdateKeepsFetched(profiles[a], tweets, likes, follows, ByAuthor(a), u, id, addedLike);
      } else {
        OtherProfileStaysFetched(profiles[a], tweets, likes, follows, a, me, Like(u, id), author);
      }
    }
  }

  /**
   * Liking or unliking a tweet from its card: the mutation runs on the
   * store, and only when it succeeds does `onSuccess` patch the cache with
   * the returned `addedLike`, whatever it holds. The cache is patched,
   * never dropped or refetched, and a cache that matched the store before
   * still matches it afterwards; on an error neither the likes nor the
   * cache change.
   */
  method ToggleLikeFromCard(
    store: TweetStore, cache: QueryCache, session: Option<User>, id: TweetId, author: UserId)
    returns (r: Result<bool>)
    requires store.Valid()
    requires forall x :: x in store.tweets && x.id == id ==> x.user.id == author
    modifies store`likes, cache
    ensures store.Valid()
    ensures old(Fresh(cache.recent, cache.following, cache.profiles,
                      store.tweets, store.likes, store.follows, SessionUserId(session))) ==>
      Fresh(cache.recent, cache.following, cache.profiles,
        store.tweets, store.likes, store.follows, SessionUserId(session))
    ensures session.None? ==> r == Err(Unauthorized)
    ensures session.Some? && (Like(session.value.id, id) in old(store.likes) || HasTweet(store.tweets, id)) ==> r.Ok?
    ensures r.Ok? ==>
      && session.Some?
      && r.value == (Like(session.value.id, id) !in old(store.likes))
      && store.likes == Toggle(old(store.likes), Like(session.value.id, id))
    ensures r.Ok? ==>
      && cache.recent == UpdateData(old(cache.recent), id, r.value)
      && cache.following == UpdateData(old(cache.following), id, r.value)
      && cache.profiles.Keys == old(cache.profiles).Keys
      && (author in cache.profiles ==>
            Some(cache.profiles[author]) == UpdateData(Some(old(cache.profiles)[author]), id, r.value))
      && (forall a :: a in cache.profiles && a != author ==> cache.profiles[a] == old(cache.profiles)[a])
    ensures r.Err? ==>
      && store.likes == old(store.likes)
      && cache.recent == old(cache.recent)
      && cache.following == old(cache.following)
      && cache.profiles == old(cache.profiles)
  {
    ghost var likes := store.likes;
    ghost var me := SessionUserId(session);
    ghost var wasFresh := Fresh(cache.recent, cache.following, cache.profiles,
      store.tweets, store.likes, store.follows, me);
    r := store.ToggleLike(session, id);
    if r.Ok? {
      var u := session.value.id;
      assert r.value == (Like(u, id) !in likes);
      ghost var recent, following, profiles := cache.recent, cache.following, cache.profiles;
      cache.OnToggleLikeSuccess(id, author, r.value);
      if wasFresh {
        ReconcileCache(store.tweets, likes, store.follows, me, u, id, author, r.value,
          recent, following, profiles, cache.recent, cache.following, cache.profiles);
      }
    }
  }
}
