/**
 * Values shared by the tweet router (server) and the infinite-feed cache
 * (client): rows of the store, the tweets a feed page carries, cursors,
 * like and follow edges.
 */
module Common {

  datatype Option<+T> = None | Some(value: T)

  /** Error paths of the router's procedures. */
  datatype Error =
    | Unauthorized          // a protected procedure called without a session
    | ForeignKeyViolation   // a like created for a tweet id the store does not hold

  datatype Result<+T> = Ok(value: T) | Err(error: Error)

  type TweetId = int
  type UserId = string
  /** A `Date`, as milliseconds since the epoch. */
  type Timestamp = int

  /** The author fields a feed selects: `{ id, name, image }`. */
  datatype User = User(id: UserId, name: Option<string>, image: Option<string>)

  /** `ctx.session?.user.id`: the signed-in user's id, if someone is signed in. */
  function SessionUserId(session: Option<User>): Option<UserId> {
    match session
    case None => None
    case Some(u) => Some(u.id)
  }

  /** A stored tweet, already joined with its author's record. */
  datatype Row = Row(id: TweetId, content: string, createdAt: Timestamp, user: User)

  /** The `createdAt_id` compound key that a page cursor carries. */
  datatype Cursor = Cursor(id: TweetId, createdAt: Timestamp)

  /** A tweet as a feed page returns it and as the client caches it. */
  datatype Tweet = Tweet(
    id: TweetId,
    content: string,
    createdAt: Timestamp,
    likeCount: int,
    user: User,
    likedByMe: bool)

  /** One page of a feed: `{ tweets, nextCursor }`. */
  datatype FeedPage = FeedPage(tweets: seq<Tweet>, nextCursor: Option<Cursor>)

  /** `pages.flatMap(page => page.tweets)`: the list a feed shows. */
  function Flatten(pages: seq<FeedPage>): seq<Tweet> {
    if pages == [] then [] else pages[0].tweets + Flatten(pages[1..])
  }

  /** The like table's rows; `(userId, tweetId)` is its primary key. */
  datatype Like = Like(userId: UserId, tweetId: TweetId)

  /** `followerId` follows `followingId`. */
  datatype Follow = Follow(followerId: UserId, followingId: UserId)
}
