/**
 * The client side of a like: when `toggleLike` succeeds, the cached pages of
 * the feeds are patched in place of a refetch. `updateData` rewrites the
 * liked tweet wherever it appears; `onSuccess` applies it to the recent
 * feed, the following feed and the tweet author's profile feed.
 */
module InfiniteTweetFeed {
  import opened Common

  /**
   * What an infinite query caches: the pages fetched so far and the page
   * parameter (cursor) each one was fetched with.
   */
  datatype InfiniteData = InfiniteData(pages: seq<FeedPage>, pageParams: seq<Option<Cursor>>)

  /** `countModifier`: one more like when one was added, one fewer when one was removed. */
  function CountModifier(addedLike: bool): int {
    if addedLike then 1 else -1
  }

  /** One cached tweet after the like on tweet `id` was added or removed. */
  function PatchTweet(t: Tweet, id: TweetId, addedLike: bool): (u: Tweet)
    ensures u.id == t.id && u.content == t.content && u.createdAt == t.createdAt && u.user == t.user
    ensures t.id != id ==> u == t
    ensures t.id == id ==> u.likedByMe == addedLike && u.likeCount == t.likeCount + CountModifier(addedLike)
  {
    if t.id == id then t.(likeCount := t.likeCount + CountModifier(addedLike), likedByMe := addedLike)
    else t
  }

  /** `page.tweets.map(...)`. */
  function PatchTweets(ts: seq<Tweet>, id: TweetId, addedLike: bool): (us: seq<Tweet>)
    ensures |us| == |ts|
  {
    seq(|ts|, i requires 0 <= i < |ts| => PatchTweet(ts[i], id, addedLike))
  }

  /** `{ ...page, tweets: ... }`: the page's `nextCursor` is kept. */
  function PatchPage(p: FeedPage, id: TweetId, addedLike: bool): (q: FeedPage)
    ensures q.nextCursor == p.nextCursor && |q.tweets| == |p.tweets|
  {
    p.(tweets := PatchTweets(p.tweets, id, addedLike))
  }

  /**
   * `updateData`: nothing cached stays nothing; otherwise every page keeps
   * its place, length, order and `nextCursor`, the page parameters are
   * kept, tweets with another id are untouched, and each copy of the liked
   * tweet gets `likedByMe := addedLike` and its count moved by one.
   */
  function UpdateData(oldData: Option<InfiniteData>, id: TweetId, addedLike: bool): (r: Option<InfiniteData>)
    ensures r.None? <==> oldData.None?
    ensures r.Some? ==>
      && |r.value.pages| == |oldData.value.pages|
      && r.value.pageParams == oldData.value.pageParams
      && forall k :: 0 <= k < |r.value.pages| ==>
        && r.value.pages[k].nextCursor == oldData.value.pages[k].nextCursor
        && |r.value.pages[k].tweets| == |oldData.value.pages[k].tweets|
    ensures r.Some? ==>
      forall k, i :: 0 <= k < |r.value.pages| && 0 <= i < |r.value.pages[k].tweets| ==>
        var t := oldData.value.pages[k].tweets[i];
        var u := r.value.pages[k].tweets[i];
        && u.id == t.id && u.content == t.content && u.createdAt == t.createdAt && u.user == t.user
        && (t.id != id ==> u == t)
        && (t.id == id ==> u.likedByMe == addedLike && u.likeCount == t.likeCount + CountModifier(addedLike))
  {
    match oldData
    case None => None
    case Some(d) =>
      Some(d.(pages := seq(|d.pages|, k requires 0 <= k < |d.pages| => PatchPage(d.pages[k], id, addedLike))))
  }

  /**
   * A like followed by an unlike of the same tweet puts every like count
   * back; the only trace left is `likedByMe` false on that tweet.
   */
  lemma LikeThenUnlike(d: InfiniteData, id: TweetId)
    ensures var r := UpdateData(UpdateData(Some(d), id, true), id, false).value;
      && |r.pages| == |d.pages|
      && r.pageParams == d.pageParams
      && forall k :: 0 <= k < |d.pages| ==>
        && r.pages[k].nextCursor == d.pages[k].nextCursor
        && r.pages[k].tweets == seq(|d.pages[k].tweets|, i requires 0 <= i < |d.pages[k].tweets| =>
             var t := d.pages[k].tweets[i]; if t.id == id then t.(likedByMe := false) else t)
  {
    var r := UpdateData(UpdateData(Some(d), id, true), id, false).value;
    forall k | 0 <= k < |d.pages|
      ensures r.pages[k].tweets == seq(|d.pages[k].tweets|, i requires 0 <= i < |d.pages[k].tweets| =>
        var t := d.pages[k].tweets[i]; if t.id == id then t.(likedByMe := false) else t)
    {
      var ts := d.pages[k].tweets;
      var expected := seq(|ts|, i requires 0 <= i < |ts| =>
        var t := ts[i]; if t.id == id then t.(likedByMe := false) else t);
      assert |r.pages[k].tweets| == |expected|;
      forall i | 0 <= i < |ts| ensures r.pages[k].tweets[i] == expected[i] {
        var t := ts[i];
        var u := r.pages[k].tweets[i];
        if t.id == id {
          assert u.likeCount == t.likeCount;
        }
      }
    }
  }

  /**
   * Patching the cache patches the list the feed shows: the flattened
   * pages after `updateData` are the flattened pages with the same
   * per-tweet map applied.
   */
  lemma {:induction false} FlattenPatched(pages: seq<FeedPage>, id: TweetId, addedLike: bool)
    ensures Flatten(seq(|pages|, k requires 0 <= k < |pages| => PatchPage(pages[k], id, addedLike)))
      == PatchTweets(Flatten(pages), id, addedLike)
  {
    var patched := seq(|pages|, k requires 0 <= k < |pages| => PatchPage(pages[k], id, addedLike));
    if pages != [] {
      var rest := pages[1..];
      FlattenPatched(rest, id, addedLike);
      assert patched[1..] == seq(|rest|, k requires 0 <= k < |rest| => PatchPage(rest[k], id, addedLike));
      var a := pages[0].tweets;
      var b := Flatten(rest);
      assert Flatten(pages) == a + b;
      assert PatchTweets(a + b, id, addedLike) == PatchTweets(a, id, addedLike) + PatchTweets(b, id, addedLike);
    }
  }

  /**
   * The query cache of the signed-in client: the two `infiniteFeed`
   * entries and one `infiniteProfileFeed` entry per author whose profile
   * was opened. `None` (or a missing author) is a query never fetched.
   */
  class QueryCache {
    var recent: Option<InfiniteData>           // `infiniteFeed({})`
    var following: Option<InfiniteData>        // `infiniteFeed({ onlyFollowing: true })`
    var profiles: map<UserId, InfiniteData>    // `infiniteProfileFeed({ userId })`

    constructor ()
      ensures recent.None? && following.None? && profiles == map[]
    {
      recent := None;
      following := None;
      profiles := map[];
    }

    /**
     * `onSuccess` of `toggleLike`: `updateData` applied to the recent feed,
     * the following feed and the profile feed of the tweet's author; every
     * other profile entry is left as it was, and an entry never fetched is
     * not created.
     */
    method OnToggleLikeSuccess(id: TweetId, author: UserId, addedLike: bool)
      modifies this
      ensures recent == UpdateData(old(recent), id, addedLike)
      ensures following == UpdateData(old(following), id, addedLike)
      ensures profiles.Keys == old(profiles).Keys
      ensures author in profiles ==> Some(profiles[author]) == UpdateData(Some(old(profiles)[author]), id, addedLike)
      ensures forall u :: u in profiles && u != author ==> profiles[u] == old(profiles)[u]
    {
      recent := UpdateData(recent, id, addedLike);
      following := UpdateData(following, id, addedLike);
      var cached := if author in profiles then Some(profiles[author]) else None;
      var updated := UpdateData(cached, id, addedLike);
      if updated.Some? {
        profiles := profiles[author := updated.value];
      }
    }
  }
}
