# Feed paging and like reconciliation of a Twitter clone, in Dafny

This project models the core of a small Twitter clone. It is written in TypeScript with tRPC, Prisma and React Query.

The server half is the tweet router (`src/server/api/routers/tweet.ts`):
- `getInfiniteTweets` fetches `limit + 1` tweets in `createdAt desc, id desc` order, starting at an inclusive `createdAt_id` cursor. It holds back the extra row as `nextCursor` and projects each row to a feed tweet with `likeCount` and `likedByMe`.
- `infiniteFeed` and `infiniteProfileFeed` pick the `where` clause and the default `limit` of 10.
- `toggleLike` creates or deletes the signed-in user's like edge.
- `create` posts a tweet.

The client half is the like mutation of a tweet card (`src/components/InfiniteTweetFeed.tsx`):
- `updateData` is the pure patch over a cached infinite query.
- `onSuccess` applies that patch to the recent feed, the following feed and the author's profile feed.

Modules:

- `Common` (common.dfy): rows, feed tweets, pages, cursors, like and follow edges, `Option`, `Result` and the error cases; the session's user id and `pages.flatMap(page => page.tweets)`, which both halves use.
- `TweetQuery` (tweet_query.dfy): Prisma's `findMany` as filter → sort (insertion sort by recency) → skip to the cursor → `take`.
  - The cursor is resolved against the whole table by its compound key.
  - A cursor that no row carries yields an empty result.
- `TweetRouter` (tweet_router.dfy):
  - the page specification `PageOf` and the row projection;
  - the like toggle on the like set;
  - the `TweetStore` class holding the tweet, like and follow tables. Its methods are the router's procedures.
- `FeedPaging` (feed_paging.dfy): the pages an infinite query fetches by following `nextCursor` until it is absent, and what the flattened pages show. This is where the paging of `src/pages/index.tsx:42-78` lives.
- `InfiniteTweetFeed` (infinite_tweet_feed.dfy): `updateData` and the `QueryCache` class. Its `OnToggleLikeSuccess` method overwrites the three cache entries.
- `Reconcile` (reconcile.dfy): the patch of a cached page equals the page the server returns after the toggle. A fresh cache therefore stays fresh through a like or unlike, and `ToggleLikeFromCard` puts the mutation and `onSuccess` together.

The model follows what the code does, including where a reader of the router's interface might expect otherwise:

- The cursor is inclusive. A page does not resume strictly after the cursor, and `nextCursor` is not the last item of the page. In the code, `nextCursor` is the first row of the next page (the popped `limit + 1`-th row), and that row is returned again as the first row of the next call. The pages are the same either way. `NextWindow`, `CursorIsInclusive` and `AllPagesLossless` state the code's version.
- `limit` is not required to be positive: the input schema checks only that it is a number (tweet.ts:18,34). With `limit` 0 every page is empty, and while rows remain from the cursor on it still carries a `nextCursor` that leads back to the same page, so paging never ends (`ZeroLimitStalls`, from tweet.ts:95,111-114). There is no invalid-input error.
- A cursor that names no row ends the feed (an empty page without `nextCursor`), as Prisma does. No invalid-cursor error is raised.
- A page may be empty: the first page of an empty feed has no tweets.
- `updateData` builds new objects for every page. The model compares values, so "untouched" pages are equal values. Referential identity is not modelled.

## Model

| member | source | states |
|---|---|---|
| TweetQuery.FilteredMembers | src/server/api/routers/tweet.ts:106 | a row survives the `where` filter exactly when it is in the table and its author matches the clause |
| TweetQuery.SortPermutes | src/server/api/routers/tweet.ts:97 | ordering neither loses nor duplicates a row (the sorted rows are a permutation) |
| TweetQuery.InsertKeepsOrder | src/server/api/routers/tweet.ts:97 | inserting a row with a fresh key into a strictly ordered list keeps it strictly ordered |
| TweetQuery.SortIsStrictlyOrdered | src/server/api/routers/tweet.ts:97 | with distinct keys, the order is strictly by `createdAt` desc, then `id` desc, with no ties |
| TweetQuery.OrderedMembers | src/server/api/routers/tweet.ts:94-107 | the ordered query holds exactly the matching rows of the table |
| TweetQuery.OrderedIsExactlyTheMatches | src/server/api/routers/tweet.ts:94-107 | with distinct keys the ordered query is strictly ordered and a permutation of the filtered rows |
| TweetQuery.SkipCountBoundary | src/server/api/routers/tweet.ts:96 | the rows skipped before the cursor are all listed before it, and the first row kept is not |
| TweetQuery.SkipCountToRow | src/server/api/routers/tweet.ts:96 | in a strictly ordered list, the cursor of the j-th row skips exactly j rows |
| TweetQuery.CursorOfRowResolves | src/server/api/routers/tweet.ts:96 | the key of any stored row is a cursor the table resolves |
| TweetQuery.UnknownCursorEndsFeed | src/server/api/routers/tweet.ts:96 | a cursor no row carries yields no rows |
| TweetQuery.WindowRowsMatch | src/server/api/routers/tweet.ts:106 | every row from the cursor on is a stored row that satisfies the `where` clause |
| TweetQuery.WindowIsStrictlyOrdered | src/server/api/routers/tweet.ts:97 | the rows from the cursor on keep the strict query order |
| TweetQuery.FindMany | src/server/api/routers/tweet.ts:94-107 | `findMany` returns at most `take` rows |
| TweetQuery.FindManyIsPrefix | src/server/api/routers/tweet.ts:95 | `findMany` returns the first `min(take, remaining)` rows from the cursor on, in order |
| TweetQuery.NextWindow | src/server/api/routers/tweet.ts:96 | resuming at the key of the k-th row from a cursor gives the rows from that row on (the cursor is inclusive; nothing is skipped or repeated) |
| TweetQuery.CursorIsInclusive | src/server/api/routers/tweet.ts:96 | a cursor made from a matching row returns that row first |
| TweetRouter.FeedWhere | src/server/api/routers/tweet.ts:46-53 | the followed-authors filter is used iff `onlyFollowing` is true and someone is signed in, for that user; otherwise no filter |
| TweetRouter.Project | src/server/api/routers/tweet.ts:118-125 | nobody signed in means `likedByMe` is false; a tweet liked by me has at least one like |
| TweetRouter.ProjectAll | src/server/api/routers/tweet.ts:118 | `data.map` keeps the number of rows |
| TweetRouter.PageOf | src/server/api/routers/tweet.ts:109-115 | a page holds at most `limit` tweets; `nextCursor` is present iff more than `limit` rows remain from the cursor on, and then the page is full |
| TweetRouter.PageCursor | src/server/api/routers/tweet.ts:109-115 | a page has `min(limit, remaining)` tweets, and `nextCursor` is the key of the `limit + 1`-th row from the cursor on (the row that opens the next page) |
| TweetRouter.PageShape | src/server/api/routers/tweet.ts:118-126 | the i-th tweet of a page is the projection of the i-th row from the cursor on: pages keep the query order |
| TweetRouter.NextPageFollowsOn | src/server/api/routers/tweet.ts:111-115 | the rows from `nextCursor` on are the rows from the page's own cursor on minus the `limit` rows the page shows |
| TweetRouter.PageMatchesFilter | src/server/api/routers/tweet.ts:106 | every tweet on a page satisfies the page's `where` clause |
| TweetRouter.PageIsNewestFirst | src/server/api/routers/tweet.ts:97 | a page is newest first, larger id first on equal timestamps, with no ties |
| TweetRouter.Toggle | src/server/api/routers/tweet.ts:71-77 | the toggled edge is present afterwards iff it was absent before, and no other like edge changes |
| TweetRouter.ToggleTwice | src/server/api/routers/tweet.ts:64-78 | toggling the same edge twice restores the like set |
| TweetRouter.LikeCountAfterToggle | src/server/api/routers/tweet.ts:102 | a toggle moves the toggled tweet's like count by +1 (added) or -1 (removed) and leaves every other tweet's count unchanged |
| TweetRouter.TweetStore.GetInfiniteTweets | src/server/api/routers/tweet.ts:81-128 | fetching `limit + 1` rows and popping the extra one into `nextCursor` yields exactly the specified page |
| TweetRouter.TweetStore.InfiniteProfileFeed | src/server/api/routers/tweet.ts:14-29 | one author's page with `limit` defaulting to 10; at most that many tweets, all by that author |
| TweetRouter.TweetStore.InfiniteFeed | src/server/api/routers/tweet.ts:30-56 | `limit` defaults to 10; unfiltered unless `onlyFollowing` with a signed-in user, when every tweet is by an author that user follows |
| TweetRouter.TweetStore.Create | src/server/api/routers/tweet.ts:57-63 | no session gives `Unauthorized` and no change; otherwise the new tweet is appended and returned; the store invariant is kept |
| TweetRouter.TweetStore.ToggleLike | src/server/api/routers/tweet.ts:64-78 | no session gives `Unauthorized`; an existing like is deleted (`false`); an absent one is created (`true`) when the tweet exists, otherwise the foreign key fails; success applies the toggle and failure changes nothing |
| FeedPaging.AllPages | src/pages/index.tsx:43-48 | following `nextCursor` from page to page terminates, on a page without `nextCursor` |
| FeedPaging.EarlierPagesAreFull | src/server/api/routers/tweet.ts:111-115 | every page before the last carries a `nextCursor` and holds exactly `limit` tweets |
| FeedPaging.PageTweetsProjected | src/server/api/routers/tweet.ts:118-125 | a page's tweets are the projection of the first rows from its cursor on |
| FeedPaging.AllPagesLossless | src/server/api/routers/tweet.ts:96 | the pages from a cursor on, flattened, are exactly the projected rows from that cursor on, in order |
| FeedPaging.ProjectedOrderIsStrict | src/server/api/routers/tweet.ts:97 | the whole projected feed is newest first and no tweet id appears twice |
| FeedPaging.ProjectedOrderMembers | src/server/api/routers/tweet.ts:106 | a stored tweet is in the projected feed iff it matches the filter, and the feed holds nothing else |
| FeedPaging.FeedIsComplete | src/pages/index.tsx:52 | paging a feed from the start to the end shows every matching tweet exactly once and nothing else, newest first |
| FeedPaging.ZeroLimitStalls | src/server/api/routers/tweet.ts:111-114 | with `limit` 0 a non-empty window gives an empty page whose `nextCursor` leads back to the same page |
| InfiniteTweetFeed.PatchTweet | src/components/InfiniteTweetFeed.tsx:89-97 | a tweet with another id is unchanged; the liked tweet gets `likedByMe := addedLike` and its count moved by +1 or -1; id, content, timestamp and author are kept |
| InfiniteTweetFeed.PatchTweets | src/components/InfiniteTweetFeed.tsx:89 | the per-tweet map keeps the page's length |
| InfiniteTweetFeed.PatchPage | src/components/InfiniteTweetFeed.tsx:87-99 | a patched page keeps its `nextCursor` and its length |
| InfiniteTweetFeed.UpdateData | src/components/InfiniteTweetFeed.tsx:78-101 | nothing cached stays nothing; otherwise pages keep number, order, lengths, cursors and page parameters, other tweets are unchanged, and the liked tweet gets the exact delta |
| InfiniteTweetFeed.LikeThenUnlike | src/components/InfiniteTweetFeed.tsx:83-95 | a like then an unlike of the same tweet restores every like count and every other tweet; only `likedByMe` false remains on the liked tweet |
| InfiniteTweetFeed.FlattenPatched | src/components/InfiniteTweetFeed.tsx:85-100 | patching the pages patches the flattened list the feed shows in the same way |
| InfiniteTweetFeed.QueryCache.OnToggleLikeSuccess | src/components/InfiniteTweetFeed.tsx:102-110 | `updateData` is applied to the recent feed, the following feed and the author's profile feed; no profile entry is created, and every other one is unchanged |
| Reconcile.PatchAgreesWithRefetch | src/components/InfiniteTweetFeed.tsx:90-95 | the patched projection of a row equals its projection under the toggled like set |
| Reconcile.OtherRowUnchanged | src/server/api/routers/tweet.ts:118-125 | a row other than the liked tweet projects the same before and after the toggle |
| Reconcile.PatchedPageIsRefetch | src/components/InfiniteTweetFeed.tsx:85-100 | patching any server page gives the page the server returns after the toggle |
| Reconcile.PageWithoutTweetUnchanged | src/components/InfiniteTweetFeed.tsx:107-110 | a page whose filter the liked tweet does not match is unchanged by the toggle |
| Reconcile.UpdateKeepsFetched | src/components/InfiniteTweetFeed.tsx:78-101 | a cached query that matched the server still matches it after the toggle and the patch |
| Reconcile.OtherProfileStaysFetched | src/components/InfiniteTweetFeed.tsx:107-110 | another author's profile feed stays correct without being patched |
| Reconcile.ReconcileCache | src/components/InfiniteTweetFeed.tsx:102-110 | patching the recent, following and author's profile entries of a cache that matched the store, and leaving the other profiles, gives a cache that matches the store after the toggle |
| Reconcile.ToggleLikeFromCard | src/components/InfiniteTweetFeed.tsx:76-116 | for any cache contents: no session gives `Unauthorized`; with a session the mutation succeeds when the like exists or the tweet does; on success `addedLike` says whether the like was absent, the likes are toggled, the recent, following and author's profile entries are their `updateData` images, no profile entry is added or dropped and the others are unchanged; a cache that matched the store before still matches it; on an error neither the likes nor the cache change |

## Left out

- Tweet ids are strings (cuids) in the source and user ids are strings. The model takes tweet ids as integers and timestamps as integer milliseconds. The `id desc` tie-break is the integer order, which stands in for the string order.
- The users table is folded into the rows: each row carries its author's `{ id, name, image }`. The follow relation is a set of edges. Following and unfollowing belong to the profile router, which is not part of this model.
- Project: treats every `Some(u)` as a signed-in user. The source's truthiness test `currentUserId ? … : false` would also treat an empty user id as signed out; generated ids are never empty.
- `limit` is a natural number. Zod accepts any number, and Prisma's behaviour for a negative or fractional `take` is not modelled.
- Session and auth wiring (`protectedProcedure`, `useSession`): every procedure takes the signed-in user as an `Option<User>` parameter and reads its id as `ctx.session?.user.id` does.
- The fresh tweet id and the clock used by `create`: `Create` takes them as parameters, and its caller supplies an unused id.
- Prisma, tRPC, zod and React Query internals. `findMany` is abstracted as filter → sort → cursor → take. The query cache is three fields holding the entries the client uses.
- The race between `findUnique` and `create`/`delete` in `toggleLike`: the model is sequential.
- Network and store failures of a mutation (`StoreUnavailable`): `onSuccess` runs only on success, and the only failures modelled are `Unauthorized` and the foreign key of a like on a missing tweet.
- The JSX of the feed, the tweet card and the heart button, infinite scrolling, and date formatting.
- Reconcile.ToggleLikeFromCard: the freshness it carries over describes pages fetched with the default page size, since the client never passes `limit`, by the same signed-in user who likes the tweet. A stale cache is patched all the same, but nothing is promised about how it then relates to the store.
