/**
 * Paging through a feed the way an infinite query does: start without a
 * cursor, pass each page's `nextCursor` as the next page parameter, stop
 * when it is absent, and show `pages.flatMap((page) => page.tweets)`.
 */
module FeedPaging {
  import opened Common
  import opened TweetQuery
  import opened TweetRouter

  /** Every page but the last carries a `nextCursor` and holds `limit` tweets. */
  predicate FullBeforeLast(pages: seq<FeedPage>, limit: nat) {
    |pages| <= 1 ||
    (pages[0].nextCursor.Some? && |pages[0].tweets| == limit && FullBeforeLast(pages[1..], limit))
  }

  /**
   * The pages fetched from `cursor` on until a page comes back without a
   * `nextCursor`.
   */
  function AllPages(
    tweets: seq<Row>, likes: set<Like>, follows: set<Follow>,
    w: Where, limit: nat, cursor: Option<Cursor>, me: Option<UserId>): (pages: seq<FeedPage>)
    requires limit >= 1 && DistinctKeys(tweets)
    ensures pages != [] && pages[|pages| - 1].nextCursor.None?
    decreases |Window(tweets, w, follows, cursor)|
  {
    var p := PageOf(tweets, likes, follows, w, limit, cursor, me);
    if p.nextCursor.None? then [p]
    else
      NextPageFollowsOn(tweets, likes, follows, w, limit, cursor, me);
      [p] + AllPages(tweets, likes, follows, w, limit, p.nextCursor, me)
  }

  /** Paging from `cursor` on: every page before the last carries a `nextCursor` and is full. */
  lemma {:induction false} EarlierPagesAreFull(
    tweets: seq<Row>, likes: set<Like>, follows: set<Follow>,
    w: Where, limit: nat, cursor: Option<Cursor>, me: Option<UserId>)
    requires limit >= 1 && DistinctKeys(tweets)
    ensures FullBeforeLast(AllPages(tweets, likes, follows, w, limit, cursor, me), limit)
    decreases |Window(tweets, w, follows, cursor)|
  {
    var p := PageOf(tweets, likes, follows, w, limit, cursor, me);
    var pages := AllPages(tweets, likes, follows, w, limit, cursor, me);
    if p.nextCursor.Some? {
      NextPageFollowsOn(tweets, likes, follows, w, limit, cursor, me);
      EarlierPagesAreFull(tweets, likes, follows, w, limit, p.nextCursor, me);
      var rest := AllPages(tweets, likes, follows, w, limit, p.nextCursor, me);
      assert pages == [p] + rest;
      FullPagePrepended(p, rest, limit);
    }
  }

  lemma FullPagePrepended(p: FeedPage, rest: seq<FeedPage>, limit: nat)
    requires p.nextCursor.Some? && |p.tweets| == limit && FullBeforeLast(rest, limit)
    ensures FullBeforeLast([p] + rest, limit)
  {
    assert ([p] + rest)[1..] == rest;
  }

  /** The tweets of a page are the projection of the first rows from its cursor on. */
  lemma PageTweetsProjected(
    tweets: seq<Row>, likes: set<Like>, follows: set<Follow>,
    w: Where, limit: nat, cursor: Option<Cursor>, me: Option<UserId>)
    ensures var p := PageOf(tweets, likes, follows, w, limit, cursor, me);
      var win := Window(tweets, w, follows, cursor);
      |p.tweets| <= |win| && p.tweets == ProjectAll(win[..|p.tweets|], likes, me)
  {
    PageShape(tweets, likes, follows, w, limit, cursor, me);
  }

  /**
   * Paging is lossless and never repeats: the pages from `cursor` on hold
   * exactly the window from `cursor` on, in order.
   */
  lemma {:induction false} AllPagesLossless(
    tweets: seq<Row>, likes: set<Like>, follows: set<Follow>,
    w: Where, limit: nat, cursor: Option<Cursor>, me: Option<UserId>)
    requires limit >= 1 && DistinctKeys(tweets)
    ensures Flatten(AllPages(tweets, likes, follows, w, limit, cursor, me))
      == ProjectAll(Window(tweets, w, follows, cursor), likes, me)
    decreases |Window(tweets, w, follows, cursor)|
  {
    var p := PageOf(tweets, likes, follows, w, limit, cursor, me);
    var win := Window(tweets, w, follows, cursor);
    var pages := AllPages(tweets, likes, follows, w, limit, cursor, me);
    PageTweetsProjected(tweets, likes, follows, w, limit, cursor, me);
    if p.nextCursor.None? {
      assert pages == [p];
      FlattenLastPage(p, win, likes, me);
    } else {
      NextPageFollowsOn(tweets, likes, follows, w, limit, cursor, me);
      AllPagesLossless(tweets, likes, follows, w, limit, p.nextCursor, me);
      var rest := AllPages(tweets, likes, follows, w, limit, p.nextCursor, me);
      assert pages == [p] + rest;
      FlattenFullPage(p, rest, win, limit, likes, me);
    }
  }

  lemma FlattenLastPage(p: FeedPage, win: seq<Row>, likes: set<Like>, me: Option<UserId>)
    requires |p.tweets| == |win| && p.tweets == ProjectAll(win[..|p.tweets|], likes, me)
    ensures Flatten([p]) == ProjectAll(win, likes, me)
  {
    assert Flatten([p]) == p.tweets + Flatten([p][1..]);
    assert win[..|p.tweets|] == win;
  }

  lemma FlattenFullPage(
    p: FeedPage, rest: seq<FeedPage>, win: seq<Row>, limit: nat, likes: set<Like>, me: Option<UserId>)
    requires |p.tweets| == limit <= |win|
    requires p.tweets == ProjectAll(win[..limit], likes, me)
    requires Flatten(rest) == ProjectAll(win[limit..], likes, me)
    ensures Flatten([p] + rest) == ProjectAll(win, likes, me)
  {
    assert ([p] + rest)[1..] == rest;
    ProjectAllAppend(win[..limit], win[limit..], likes, me);
    assert win == win[..limit] + win[limit..];
  }

  /** The whole projected query order is newest first and repeats no tweet. */
  lemma ProjectedOrderIsStrict(
    tweets: seq<Row>, likes: set<Like>, follows: set<Follow>, w: Where, me: Option<UserId>)
    requires DistinctIds(tweets)
    ensures var feed := ProjectAll(Window(tweets, w, follows, None), likes, me);
      && NewestFirst(feed)
      && (forall i, j :: 0 <= i < j < |feed| ==> feed[i].id != feed[j].id)
  {
    var win := Window(tweets, w, follows, None);
    var feed := ProjectAll(win, likes, me);
    DistinctIdsGiveDistinctKeys(tweets);
    WindowRowsMatch(tweets, w, follows, None);
    WindowIsStrictlyOrdered(tweets, w, follows, None);
    forall i, j | 0 <= i < j < |feed| ensures feed[i].id != feed[j].id {
      assert win[i] != win[j] by {
        assert Earlier(KeyOf(win[i]), KeyOf(win[j]));
      }
      var a :| 0 <= a < |tweets| && tweets[a] == win[i];
      var b :| 0 <= b < |tweets| && tweets[b] == win[j];
      assert a != b;
    }
    forall i, j | 0 <= i < j < |feed|
      ensures Earlier(Cursor(feed[i].id, feed[i].createdAt), Cursor(feed[j].id, feed[j].createdAt))
    {
      assert Earlier(KeyOf(win[i]), KeyOf(win[j]));
    }
  }

  /** A stored tweet is in the projected query order exactly when it matches the filter. */
  lemma ProjectedOrderMembers(
    tweets: seq<Row>, likes: set<Like>, follows: set<Follow>, w: Where, me: Option<UserId>)
    ensures var feed := ProjectAll(Window(tweets, w, follows, None), likes, me);
      && (forall r :: r in tweets ==> (Project(r, likes, me) in feed <==> Matches(w, r.user.id, follows)))
      && (forall t :: t in feed ==>
            exists r :: r in tweets && Matches(w, r.user.id, follows) && t == Project(r, likes, me))
  {
    var win := Window(tweets, w, follows, None);
    var feed := ProjectAll(win, likes, me);
    WindowRowsMatch(tweets, w, follows, None);
    OrderedMembers(tweets, w, follows);
    assert win == Ordered(tweets, w, follows);
    forall r | r in tweets ensures Project(r, likes, me) in feed <==> Matches(w, r.user.id, follows) {
      if Matches(w, r.user.id, follows) {
        var i :| 0 <= i < |win| && win[i] == r;
        assert feed[i] == Project(r, likes, me);
      }
      if Project(r, likes, me) in feed {
        var i :| 0 <= i < |feed| && feed[i] == Project(r, likes, me);
        assert win[i] == r;
      }
    }
    forall t | t in feed
      ensures exists r :: r in tweets && Matches(w, r.user.id, follows) && t == Project(r, likes, me)
    {
      var i :| 0 <= i < |feed| && feed[i] == t;
      assert t == Project(win[i], likes, me);
    }
  }

  /**
   * Paging a feed from the start to the end lists every tweet that matches
   * the filter exactly once and nothing else, newest first.
   */
  lemma FeedIsComplete(
    tweets: seq<Row>, likes: set<Like>, follows: set<Follow>,
    w: Where, limit: nat, me: Option<UserId>)
    requires limit >= 1 && DistinctIds(tweets)
    ensures var feed := Flatten(AllPages(tweets, likes, follows, w, limit, None, me));
      && NewestFirst(feed)
      && (forall i, j :: 0 <= i < j < |feed| ==> feed[i].id != feed[j].id)
      && (forall r :: r in tweets ==> (Project(r, likes, me) in feed <==> Matches(w, r.user.id, follows)))
      && (forall t :: t in feed ==>
            exists r :: r in tweets && Matches(w, r.user.id, follows) && t == Project(r, likes, me))
  {
    DistinctIdsGiveDistinctKeys(tweets);
    AllPagesLossless(tweets, likes, follows, w, limit, None, me);
    ProjectedOrderIsStrict(tweets, likes, follows, w, me);
    ProjectedOrderMembers(tweets, likes, follows, w, me);
  }

  /**
   * With `limit` 0 a page is empty and its `nextCursor` leads back to the
   * same page, so following `nextCursor` never ends.
   */
  lemma ZeroLimitStalls(
    tweets: seq<Row>, likes: set<Like>, follows: set<Follow>,
    w: Where, cursor: Option<Cursor>, me: Option<UserId>)
    requires DistinctKeys(tweets)
    requires Window(tweets, w, follows, cursor) != []
    ensures var p := PageOf(tweets, likes, follows, w, 0, cursor, me);
      && p.tweets == []
      && p.nextCursor.Some?
      && PageOf(tweets, likes, follows, w, 0, p.nextCursor, me) == p
  {
    var win := Window(tweets, w, follows, cursor);
    NextWindow(tweets, w, follows, cursor, 0);
    assert win[0..] == win;
  }
}
