# News-feed fan-out and cache model

A Dafny model of the core of a Spring news-feed service.

Posts are written to a relational store. A fan-out step publishes the author's follower ids on a message queue. A worker pushes the new post id into every follower's Redis sorted set, the *feed index*. Reads follow a chain:

1. Take ids from the feed index, or rebuild it from the store on a miss.
2. Hydrate the ids into posts through a cache-aside post cache.
3. Resolve the authors through a cache-aside user cache.
4. Return a page with `hasMore`/`nextCursor`.

Everything is immutable data and pure functions:

- **Redis keyspace** (`Keyspace`). The state is one `Redis` value:
  - a map of feed sorted sets, each with an expiry;
  - the `post:<id>` and `user:<id>` value maps, each slot with an expiry;
  - the `post_cache:count` counter;
  - a set of *faulty* keys. Every command on a faulty key throws, which lets the model follow each `try`/`catch` of the services.
- **Sorted sets** (`SortedSet`). A sorted set is a sequence of `(member, score)` entries, ascending by rank. The module models ZADD (re-scoring an existing member), ZREM, ZREMRANGEBYRANK, ZREVRANGE and ZREVRANGEBYSCORE … LIMIT. Negative ranks and LIMIT counts are normalised the way Redis does.
- **Relational store** (`Store`). It holds:
  - the `users` table as a map keyed by id;
  - the `posts` table in insertion order (IDENTITY ids ascend);
  - the `follows` table with its unique pair constraint.

  The JPQL queries of `PostRepository` and `FollowRepository` become functions over this state.
- **Services**:
  - `NewsFeedCache`, `PostCache` and `UserCache` model the three cache services.
  - `Fanout` models the publisher and the queue worker. The broker is an append-only sequence of envelopes.
  - `UserService` models the follow graph operations.
  - `FeedService` models the post write path and the feed read path.
- **Errors**. Exceptions that escape a service become `Result` errors. Exceptions a service catches become the unchanged state, or a null (`None`) read.
- **Time**. The clock is an explicit `now` argument, one per request or queue message. Remaining TTLs are stored numbers; time never passes inside the model.

Some behaviour is kept as the code has it:

- The feed cursor is compared with sorted-set *scores* (milliseconds) in the cache. In the store it is compared with post *ids*.
- The write-back counter increment in `cachePost` can never run: the key was just written, so `hasKey` is always true.
- Post hydration returns the cache hits in request order, followed by the store rows for the misses in table order. So the service does not keep the feed's id order (`FeedService.MixedHitsReorder` shows a two-post case where the order changes).
- A missing `post:` key reads as TTL -2, which is below the sweep threshold. So a sweep "deletes" such a key and still decrements the counter. The counting lemmas therefore assume a scan of distinct, existing keys.

## Model

| member | source | states |
|---|---|---|
| NewsFeedCache.AddToUserFeed | src/main/java/com/newsfeed/demo/feed/cache/NewsFeedCacheService.java:28-47 | With a working key, the user's feed becomes ZADD-then-cap of the old entries, with a fresh 3600 s expiry and at most 1000 entries. A failing key leaves the keyspace unchanged. No other user's feed and no other key family changes. |
| NewsFeedCache.AddFeedEvictsLowest | src/main/java/com/newsfeed/demo/feed/cache/NewsFeedCacheService.java:35-40 | The cap keeps min(1000, size after ZADD) entries, a suffix by rank. Every removed entry ranks below every kept one. |
| NewsFeedCache.TrimIsSuffix | src/main/java/com/newsfeed/demo/feed/cache/NewsFeedCacheService.java:36-38 | ZREMRANGEBYRANK 0 (size−1000−1) leaves exactly the top 1000 entries, and nothing is removed when the set fits. |
| NewsFeedCache.AddFeedContents | src/main/java/com/newsfeed/demo/feed/cache/NewsFeedCacheService.java:32-38 | After an add, every entry is either (post, now) or an old entry of another post. The member set grows by at most the post. |
| NewsFeedCache.AddFeedKeepsNewest | src/main/java/com/newsfeed/demo/feed/cache/NewsFeedCacheService.java:32-38 | With a clock ahead of every other entry, the added post is the top-ranked entry and is never trimmed away. |
| NewsFeedCache.AddedPostSurvives | src/main/java/com/newsfeed/demo/feed/cache/NewsFeedCacheService.java:28-38 | With a working key and a clock ahead of the feed, addToUserFeed leaves the post in the user's feed. |
| NewsFeedCache.AddFeedIdempotent | src/main/java/com/newsfeed/demo/feed/cache/NewsFeedCacheService.java:32 | Adding the same post twice at the same instant gives the same set as adding it once. |
| NewsFeedCache.ReAddKeepsMembers | src/main/java/com/newsfeed/demo/feed/cache/NewsFeedCacheService.java:32 | Re-adding a member already present changes only its score. The member set and the size stay the same. |
| NewsFeedCache.RemoveFromUserFeed | src/main/java/com/newsfeed/demo/feed/cache/NewsFeedCacheService.java:52-60 | ZREM removes exactly that post. All other entries keep their scores, and the expiry is unchanged. A failing key changes nothing, and no other feed changes. |
| NewsFeedCache.GetUserFeed | src/main/java/com/newsfeed/demo/feed/cache/NewsFeedCacheService.java:66-96 | The read contract: ids are distinct members, in non-increasing score order, and inside the score window [0, cursor−1] when a cursor is given. No window member left out outranks a reported id. There are at most `size` ids, and all window members are reported when fewer than `size` come back. Redis' handling of size ≤ 0 is included. A failing key gives the empty list. |
| NewsFeedCache.ReadWindowFacts | src/main/java/com/newsfeed/demo/feed/cache/NewsFeedCacheService.java:70-82 | The ZREVRANGE / ZREVRANGEBYSCORE … LIMIT 0 size reads satisfy the read contract on any valid sorted set. |
| NewsFeedCache.WindowIsPrefix | src/main/java/com/newsfeed/demo/feed/cache/NewsFeedCacheService.java:70-77 | A read is a prefix of the candidates in the window, top first. Its length follows Redis' rank and LIMIT normalisation (negative count = all, 0 = none, ZREVRANGE 0 (size−1) with size ≤ 0 counts from the end). |
| NewsFeedCache.IsCacheMiss | src/main/java/com/newsfeed/demo/feed/cache/NewsFeedCacheService.java:101-110 | A miss holds exactly when the feed size is below both 100 and the requested size, or when the key fails. |
| NewsFeedCache.InvalidateUserFeed | src/main/java/com/newsfeed/demo/feed/cache/NewsFeedCacheService.java:115-123 | DEL removes that user's feed and nothing else. A failing key changes nothing. |
| NewsFeedCache.InvalidateThenMiss | src/main/java/com/newsfeed/demo/feed/cache/NewsFeedCacheService.java:101-123 | After an invalidation that went through, isCacheMiss holds for every requested size ≥ 1. |
| NewsFeedCache.AddedPostReadFirst | src/main/java/com/newsfeed/demo/feed/cache/NewsFeedCacheService.java:28-77 | After an add with a clock ahead of the feed, the first page without a cursor starts with that post. |
| NewsFeedCache.CursorBelowScores | src/main/java/com/newsfeed/demo/feed/cache/NewsFeedCacheService.java:70-73 | A cursor at or below every score in the feed reads nothing. |
| PostCache.CachePost | src/main/java/com/newsfeed/demo/feed/cache/PostCacheService.java:25-53 | A counter failure changes nothing. With a working counter and key, the value is stored for 7200 s. Any other key either keeps its slot or was removed by the sweep with TTL below 3600. Below the counter limit, or with at most 80000 keys, the only change is the SET. |
| PostCache.CachePostNeverIncrements | src/main/java/com/newsfeed/demo/feed/cache/PostCacheService.java:42-47 | The `hasKey` test runs after the SET, so the counter never grows, even for a new id. |
| PostCache.GetCachedPost | src/main/java/com/newsfeed/demo/feed/cache/PostCacheService.java:58-66 | Returns the stored value, or null exactly when the key is absent or fails. |
| PostCache.InvalidatePost | src/main/java/com/newsfeed/demo/feed/cache/PostCacheService.java:71-81 | Deletes the key and decrements the counter unconditionally. A failing post key changes nothing, and a failing counter keeps the deletion only. |
| PostCache.InvalidateAbsentDecrements | src/main/java/com/newsfeed/demo/feed/cache/PostCacheService.java:73-76 | Invalidating an id that is not cached still decrements the counter. |
| PostCache.CacheThenGet | src/main/java/com/newsfeed/demo/feed/cache/PostCacheService.java:25-66 | A value cached through working keys reads back. |
| PostCache.OtherPostsKeep | src/main/java/com/newsfeed/demo/feed/cache/PostCacheService.java:25-81 | Invalidating one id leaves other ids' reads unchanged. Caching one id changes another's read only when the sweep removed that key for a short TTL. |
| PostCache.InvalidateThenGet | src/main/java/com/newsfeed/demo/feed/cache/PostCacheService.java:58-81 | After an invalidation that went through, the id reads as null. |
| PostCache.CachePostCoherent | src/main/java/com/newsfeed/demo/feed/cache/PostCacheService.java:42 | Caching a post under its own id keeps every cached post under its own id. |
| PostCache.FreshPostSurvives | src/main/java/com/newsfeed/demo/feed/cache/PostCacheService.java:25-53 | A post just cached with a full TTL survives the caching of another post, sweep included. |
| PostCache.Sweep | src/main/java/com/newsfeed/demo/feed/cache/PostCacheService.java:92-99 | The sweep only deletes scanned keys whose TTL is below 3600 and leaves every surviving slot intact. The counter never grows. |
| PostCache.SweepCounts | src/main/java/com/newsfeed/demo/feed/cache/PostCacheService.java:92-99 | Over a scan of distinct existing keys, the sweep deletes at most its limit. A working counter drops by exactly the number of keys deleted. |
| PostCache.CleanupOldPosts | src/main/java/com/newsfeed/demo/feed/cache/PostCacheService.java:86-106 | Nothing happens with at most 80000 post keys. Otherwise only keys with TTL below 3600 are deleted, and survivors are unchanged. |
| PostCache.CleanupBounds | src/main/java/com/newsfeed/demo/feed/cache/PostCacheService.java:89-99 | A cleanup never leaves fewer than 70000 post keys when it runs. A working counter drops by the number of keys deleted. |
| PostCache.ScanListsKeys | src/main/java/com/newsfeed/demo/feed/cache/PostCacheService.java:89 | The KEYS scan lists every post key exactly once. |
| UserCache.CacheUser | src/main/java/com/newsfeed/demo/user/cache/UserCacheService.java:22-30 | SET with a 1800 s TTL on that id only. A failing key changes nothing. |
| UserCache.GetCachedUser | src/main/java/com/newsfeed/demo/user/cache/UserCacheService.java:35-43 | Returns the stored value, or null exactly when the key is absent or fails. |
| UserCache.InvalidateUser | src/main/java/com/newsfeed/demo/user/cache/UserCacheService.java:48-56 | DEL on that id only. A failing key changes nothing. |
| UserCache.CacheThenGetUser | src/main/java/com/newsfeed/demo/user/cache/UserCacheService.java:22-43 | A cached value reads back, and a second write replaces it. |
| UserCache.InvalidateThenGetUser | src/main/java/com/newsfeed/demo/user/cache/UserCacheService.java:35-56 | After an invalidation that went through, the id reads as null. |
| UserCache.OtherUsersKeep | src/main/java/com/newsfeed/demo/user/cache/UserCacheService.java:22-56 | Caching or invalidating one id leaves every other id's read unchanged. |
| UserCache.FaultsSwallowed | src/main/java/com/newsfeed/demo/user/cache/UserCacheService.java:22-56 | On a failing key, writes are no-ops and the read is null. |
| UserCache.CacheUserCoherent | src/main/java/com/newsfeed/demo/user/cache/UserCacheService.java:25 | Caching a user under their own id keeps every cached user under their own id. |
| Fanout.FanoutToFollowers | src/main/java/com/newsfeed/demo/feed/service/FanoutService.java:29-51 | On success, exactly one envelope is appended to the fan-out exchange and routing key, even with no followers. It carries the author and post ids and exactly the author's followers, without duplicates when the follow table has none. Any failure publishes nothing. |
| Fanout.MessageIsLookup | src/main/java/com/newsfeed/demo/feed/service/FanoutService.java:34-40 | The message's follower list is the follower query's answer, in its order. |
| Fanout.Deliver | src/main/java/com/newsfeed/demo/feed/service/FanoutWorkerService.java:36-43 | The per-follower loop changes only the feeds of listed followers. |
| Fanout.ProcessFanoutMessage | src/main/java/com/newsfeed/demo/feed/service/FanoutWorkerService.java:26-50 | Processing a message changes only feeds, and only those of listed followers, so a message with no followers leaves every feed as it was. |
| Fanout.DeliverEffect | src/main/java/com/newsfeed/demo/feed/service/FanoutWorkerService.java:36-43 | Each listed follower with a working key ends with one addToUserFeed of the post, even when listed twice. A failing key is left as it was, and later followers are still served. |
| Fanout.DeliveredToFollowers | src/main/java/com/newsfeed/demo/feed/service/FanoutWorkerService.java:26-50 | Every listed follower with a working key and a clock ahead of the feed holds the post afterwards. |
| Fanout.ProcessTwiceSameClock | src/main/java/com/newsfeed/demo/feed/service/FanoutWorkerService.java:36-43 | Redelivery at the same instant changes nothing. |
| Fanout.ProcessTwiceSameMembers | src/main/java/com/newsfeed/demo/feed/service/FanoutWorkerService.java:36-43 | Redelivery at a later instant keeps every feed's member set. Only the post's score moves. |
| Fanout.PublishThenConsume | src/main/java/com/newsfeed/demo/feed/service/FanoutWorkerService.java:26-50 | Publishing and then consuming the message puts the post into the feed of every follower in the store whose key works. |
| Store.NewestFirst | src/main/java/com/newsfeed/demo/feed/repository/PostRepository.java:16-20 | The WHERE clause (author IN list, id < cursor) with ORDER BY id DESC: exactly the matching rows, strictly descending by id. |
| Store.NewestPage | src/main/java/com/newsfeed/demo/feed/repository/PostRepository.java:16-21 | Page 0 of size n: at most n stored matching posts, descending by id. Any matching post left out has a smaller id than every returned one, and then the page is full. |
| Store.NextPageContinues | src/main/java/com/newsfeed/demo/feed/repository/PostRepository.java:19-21 | A full page followed by the page after its last id equals one page of the combined size. |
| Store.TailBelowLast | src/main/java/com/newsfeed/demo/feed/repository/PostRepository.java:19-20 | The rows below the n-th newest id are exactly the rows after it. |
| Store.FindAllById | src/main/java/com/newsfeed/demo/feed/service/FeedService.java:152 | `findAllById` returns exactly the stored posts whose id was requested, in table order. |
| Store.FindAllByIdBound | src/main/java/com/newsfeed/demo/feed/service/FeedService.java:152 | It returns no more posts than ids requested. |
| Store.FindUsersById | src/main/java/com/newsfeed/demo/feed/service/FeedService.java:193 | `findAllById` on users returns exactly the stored users with a requested id, ascending by id. |
| Store.SavePost | src/main/java/com/newsfeed/demo/feed/service/FeedService.java:48 | Saving appends the post with a fresh id above every stored id and keeps the tables valid. |
| Store.SaveUser | src/main/java/com/newsfeed/demo/user/service/UserService.java:31 | Saving adds the user under a fresh id and keeps the tables valid. |
| Store.FindFollowingByFollower | src/main/java/com/newsfeed/demo/user/repository/FollowRepository.java:22-23 | Exactly the targets of the follower's edges, without duplicates, and no longer than the table. |
| Store.FindFollowersByFollowing | src/main/java/com/newsfeed/demo/user/repository/FollowRepository.java:26-27 | Exactly the sources of the user's incoming edges, without duplicates, and no longer than the table. |
| Store.FindByFollowerAndFollowing | src/main/java/com/newsfeed/demo/user/repository/FollowRepository.java:16 | Finds the row of the pair, or reports that the pair is absent. |
| Store.ExistsByFollowerAndFollowing | src/main/java/com/newsfeed/demo/user/repository/FollowRepository.java:19 | True exactly when the edge is stored. |
| Store.ExistsIffFound | src/main/java/com/newsfeed/demo/user/repository/FollowRepository.java:16-19 | The existence test agrees with the row lookup. |
| Store.CountsMatchLists | src/main/java/com/newsfeed/demo/user/repository/FollowRepository.java:22-33 | countByFollower / countByFollowing equal the lengths of the following / follower lists. |
| Store.CountsAreDegrees | src/main/java/com/newsfeed/demo/user/repository/FollowRepository.java:30-33 | With unique edges, the counts equal the out- and in-degree of the user in the edge set. |
| UserService.CreateUser | src/main/java/com/newsfeed/demo/user/service/UserService.java:26-33 | A new user gets a fresh id. Other users, edges and posts are unchanged, and the DTO reports 0 / 0 counts. |
| UserService.GetUserById | src/main/java/com/newsfeed/demo/user/service/UserService.java:35-43 | Fails exactly for an unknown id. Otherwise it reports the out- and in-degree of the user in the edge set. |
| UserService.GetFollowingList | src/main/java/com/newsfeed/demo/user/service/UserService.java:45-52 | Fails exactly for an unknown id. Otherwise it lists every followed user once and nothing else. |
| UserService.GetFollowersList | src/main/java/com/newsfeed/demo/user/service/UserService.java:54-61 | Fails exactly for an unknown id. Otherwise it lists every follower once and nothing else. |
| UserService.FollowUser | src/main/java/com/newsfeed/demo/user/service/UserService.java:63-84 | Fails with, in order: unknown follower, unknown target, self-follow, already following. On success it appends exactly that edge and invalidates only the follower's feed. |
| UserService.UnfollowUser | src/main/java/com/newsfeed/demo/user/service/UserService.java:86-99 | Fails with, in order: unknown follower, unknown target, missing edge. On success it removes exactly that edge and invalidates only the follower's feed. |
| UserService.DeleteRow | src/main/java/com/newsfeed/demo/user/service/UserService.java:95 | Deleting a row of a duplicate-free table removes exactly that row. |
| UserService.IsFollowing | src/main/java/com/newsfeed/demo/user/service/UserService.java:101-108 | Fails for unknown ids. Otherwise it is true exactly when the edge is stored. |
| UserService.FollowThenIsFollowing | src/main/java/com/newsfeed/demo/user/service/UserService.java:63-108 | After a follow, isFollowing is true and the follower's feed reads as a cache miss. |
| UserService.FollowUnfollowRoundTrip | src/main/java/com/newsfeed/demo/user/service/UserService.java:63-99 | An unfollow after a follow succeeds and restores the store exactly. |
| UserService.FollowCounts | src/main/java/com/newsfeed/demo/user/service/UserService.java:35-84 | A follow raises the follower's following count and the target's follower count by one. |
| UserService.SelfFollowRefused | src/main/java/com/newsfeed/demo/user/service/UserService.java:69-71 | Following oneself fails with the self-follow error. |
| FeedService.FindUserById | src/main/java/com/newsfeed/demo/feed/service/FeedService.java:244-247 | Succeeds exactly for a stored id and returns that user. |
| FeedService.CreatePost | src/main/java/com/newsfeed/demo/feed/service/FeedService.java:45-56 | An unknown user fails before anything is saved. Otherwise exactly one post is appended, with a fresh id above all others. The DTO describes it, and at most one fan-out envelope is queued, listing the author's followers. |
| FeedService.CreatedPostReachesFollowers | src/main/java/com/newsfeed/demo/feed/service/FeedService.java:45-56 | Once the fan-out message is consumed at an instant later than every cached score, the new post heads the first page of every follower whose feed key works. |
| FeedService.GetPostsFromDatabase | src/main/java/com/newsfeed/demo/feed/service/FeedService.java:232-239 | Picks the cursor or plain query. `PageRequest.of` rejects a size below 1. |
| FeedService.StorePage | src/main/java/com/newsfeed/demo/feed/service/FeedService.java:211-213 | The rebuild's store answer: the newest `size` posts by followed users below the cursor, with nothing newer left out. |
| FeedService.RebuildNewsFeedCache | src/main/java/com/newsfeed/demo/feed/service/FeedService.java:210-227 | Fails for an unknown user or an invalid size. Otherwise it returns the store page's ids in store order, touches only that user's feed, and leaves the cache alone for an empty page. |
| FeedService.AddAllToFeed | src/main/java/com/newsfeed/demo/feed/service/FeedService.java:223 | Adding a list of ids only touches that user's feed and only brings in those ids, scored `now`. |
| FeedService.AddFeedStep | src/main/java/com/newsfeed/demo/feed/service/FeedService.java:223 | While all the ids of a rebuild fit under the cap, each add keeps every id already added at score `now`. |
| FeedService.AddAllKeeps | src/main/java/com/newsfeed/demo/feed/service/FeedService.java:223 | Across the whole loop, the entries scored `now` are exactly the ids added so far. |
| FeedService.RebuildFillsFeed | src/main/java/com/newsfeed/demo/feed/service/FeedService.java:210-227 | A rebuild of at most 1000 ids at a clock ahead of the feed leaves every returned id in the index. Starting from an absent index, it holds exactly those ids. |
| FeedService.RebuildTicksReverseOrder | src/main/java/com/newsfeed/demo/feed/service/FeedService.java:209-226 | The page arrives newest first and each add reads the clock afresh, so a rebuild whose adds straddle a clock tick reads back oldest first: [5, 3] added at 100 then 101 reads [3, 5]. The single-instant rebuild of the model reads the same page back as [5, 3]. |
| FeedService.GetNewsFeedFromCacheOrDatabase | src/main/java/com/newsfeed/demo/feed/service/FeedService.java:107-123 | The decision chain in both directions. If the index is no miss and the cache read is non-empty, that read is returned and the keyspace is unchanged; the read satisfies the read contract. If the index is a miss or the read is empty, the result is exactly the rebuild. It fails only for an unknown user or an invalid size, and returns at most `size` ids. |
| FeedService.FaultyFeedReadsStore | src/main/java/com/newsfeed/demo/feed/service/FeedService.java:107-112 | A failing feed key counts as a miss and gives the store page. |
| FeedService.LowCursorReadsStore | src/main/java/com/newsfeed/demo/feed/service/FeedService.java:107-119 | A cursor below every cached score makes the cache read empty, so the store page is returned. |
| FeedService.ZeroSizeReadsWholeFeed | src/main/java/com/newsfeed/demo/feed/service/FeedService.java:107-123 | With a working key, size 0 without a cursor returns the whole cached feed unchanged, or fails when there is no feed. |
| FeedService.PostHit | src/main/java/com/newsfeed/demo/feed/service/FeedService.java:138-139 | A hit is a working key holding a `Post`. Other values count as misses. |
| FeedService.PostHits | src/main/java/com/newsfeed/demo/feed/service/FeedService.java:137-144 | The hits are exactly the cached posts of requested ids. When all ids hit, they come in request order. |
| FeedService.PostMisses | src/main/java/com/newsfeed/demo/feed/service/FeedService.java:137-144 | The misses are exactly the requested ids without a hit, and hits plus misses account for every id. |
| FeedService.CacheAllPosts | src/main/java/com/newsfeed/demo/feed/service/FeedService.java:155-158 | The write-back only stores the fetched posts under their ids, or sweeps keys whose TTL is short. |
| FeedService.CacheAllWritesBack | src/main/java/com/newsfeed/demo/feed/service/FeedService.java:155-158 | With a working counter, every fetched post with a working key reads back afterwards. |
| FeedService.GetPostsFromCacheOrDatabaseBatch | src/main/java/com/newsfeed/demo/feed/service/FeedService.java:128-164 | Only post keys change. An empty request returns immediately, and no more posts come back than ids asked for. |
| FeedService.HydrationMatchesStore | src/main/java/com/newsfeed/demo/feed/service/FeedService.java:128-164 | With a post cache that agrees with the store, hydration returns exactly the stored posts with requested ids. Unknown ids are dropped, and the cache still agrees afterwards. |
| FeedService.AllCachedKeepsOrder | src/main/java/com/newsfeed/demo/feed/service/FeedService.java:128-164 | When every id hits, the posts come back in request order and nothing is written. |
| FeedService.MixedHitsReorder | src/main/java/com/newsfeed/demo/feed/service/FeedService.java:137-158 | A concrete feed [2, 1] with only post 1 cached hydrates as [1, 2]: hits come first, then the store rows. |
| FeedService.HydrationWritesBack | src/main/java/com/newsfeed/demo/feed/service/FeedService.java:150-158 | Every stored post that missed reads back as a hit afterwards. |
| FeedService.UserHit | src/main/java/com/newsfeed/demo/feed/service/FeedService.java:179-180 | A hit is a working key holding a `User`. |
| FeedService.UserHits | src/main/java/com/newsfeed/demo/feed/service/FeedService.java:178-185 | The hits are exactly the cached users of the ids, ascending by id when the cache is coherent. |
| FeedService.UserMisses | src/main/java/com/newsfeed/demo/feed/service/FeedService.java:178-185 | The misses are exactly the ids without a hit. |
| FeedService.CacheAllUsers | src/main/java/com/newsfeed/demo/feed/service/FeedService.java:196-199 | The write-back stores each fetched user under their id and removes nothing. |
| FeedService.GetUsersFromCacheOrDatabaseBatch | src/main/java/com/newsfeed/demo/feed/service/FeedService.java:169-205 | Only user keys change, and an empty id set returns immediately. |
| FeedService.UserBatchMatchesStore | src/main/java/com/newsfeed/demo/feed/service/FeedService.java:169-205 | With a user cache that agrees with the store, the batch returns exactly the stored users with requested ids, each once. The cache still agrees afterwards. |
| FeedService.CacheAllUsersAgrees | src/main/java/com/newsfeed/demo/feed/service/FeedService.java:196-199 | Writing back stored users keeps the user cache in agreement with the store. |
| FeedService.ToMap | src/main/java/com/newsfeed/demo/feed/service/FeedService.java:70 | `Collectors.toMap` succeeds exactly when no id repeats, and then maps each user's id to that user. |
| FeedService.Entries | src/main/java/com/newsfeed/demo/feed/service/FeedService.java:73-80 | One entry per post, in order, with the same id, content, media and time. The author DTO is present exactly when the author is in the map. |
| FeedService.AssembleResponse | src/main/java/com/newsfeed/demo/feed/service/FeedService.java:62-87 | The only possible failure is a duplicate user id in `toMap`. On success the entries mirror the hydrated posts one for one, in order: same id, content, media and time. `hasMore` holds exactly when the page has `size` posts. `nextCursor` is the last post's id exactly when `hasMore` holds and the page is non-empty. The page is no longer than the id list, and feeds are untouched. |
| FeedService.GetNewsFeedWithUserInfo | src/main/java/com/newsfeed/demo/feed/service/FeedService.java:61-87 | An unknown user fails with UserNotFound. The only other failures are an invalid page size (size < 1) and a duplicate user id. With a known user and size ≥ 1, only the duplicate-key failure remains. On success the entries mirror, one for one and in order, the hydration of the ids the decision chain chose. No feed other than the reader's changes, the `hasMore`/`nextCursor` rules hold, and the page has at most `size` posts. |
| FeedService.AssembleResolvesAuthors | src/main/java/com/newsfeed/demo/feed/service/FeedService.java:65-80 | With caches that agree with the store, assembly never hits a duplicate key. Every entry is a stored post with a requested id and has its author resolved. |
| FeedService.AuthorsInMap | src/main/java/com/newsfeed/demo/feed/service/FeedService.java:65-70 | The authors of stored posts all land in the user map. |
| FeedService.AuthorsResolved | src/main/java/com/newsfeed/demo/feed/service/FeedService.java:61-87 | With caches that agree with the store, a read by an existing user with a valid size succeeds. Every entry is a stored post whose id is one of the ids the decision chain chose, and every author is resolved. |
| Domain.ToUserDto | src/main/java/com/newsfeed/demo/feed/service/FeedService.java:261-264 | The DTO keeps the user's id and reports zero counts. |
| Domain.SortedIds | src/main/java/com/newsfeed/demo/feed/service/FeedService.java:178 | The iteration order of the author id set: each element once, ascending. |

## Left out

- Controllers, configuration (`RedisConfig`, `RabbitMQConfig`), monitoring and logging: HTTP binding, bean wiring and I/O. `RabbitMQConstants` values appear only as opaque tags.
- Serialisation: a cached value is a `Post`, a `User` or some other value. What the configured JSON serialiser actually reads back is not modelled, and other values count as misses.
- Time: TTLs are stored numbers and never run down, and keys never expire by themselves. `System.currentTimeMillis` is one `now` per request or message. The worker reads the clock once per follower, so its scores can differ within one message; the model uses one instant.
- FeedService.RebuildNewsFeedCache: scores every rebuilt id with one instant. The service reads the clock once per post, and the page comes newest first, so the newest post can get the lowest score. The next cached read then returns the rebuilt page oldest first, and ids added within one millisecond come back in reverse lexicographic order of their decimal strings ("9" before "10"). The model returns the page newest first; `FeedService.RebuildTicksReverseOrder` shows the difference on a two-post page.
- Integer widths: Java `long` ids, the INCRBY counter, `cursor - 1`, the millisecond clock and Redis' double-precision scores are all unbounded integers. Overflow, wrap-around and the loss of precision in scores above 2^53 are not modelled.
- Sorted-set ties: Redis orders members of equal score lexicographically by their string form. The model orders them by numeric id.
- KEYS failure: the `KEYS post:*` scan in the sweep is modelled as always answering, listing the keys in ascending id order. A failing TTL read or DEL still ends the sweep.
- `getExpire` returning null: never modelled; every key reports a number (-2 absent, -1 persistent).
- HashSet iteration: the author id set of a page is iterated in ascending id order. Java's `HashSet` order is unspecified.
- JPA ordering: `findAllById` and the follow queries return rows in table order. Lazy loading, transactions, and the empty IN list are framework details; an empty author list simply matches nothing.
- `UserRepository`: it is not part of the core. Its `findById`, `save` and `findAllById` are modelled directly on the `users` map (`Store.SaveUser`, `Store.FindUsersById`).
- Concurrency: concurrent consumers, the counter-then-set race, at-least-once redelivery and broker ordering. Every operation is one sequential step; redelivery is covered only by the twice-processing lemmas.
- Null message fields and null follower lists: not modelled; every message carries a list.
- `getNewsFeed`: it is folded into `FeedService.GetNewsFeedWithUserInfo` (user lookup, then id list, then hydration in `FeedService.AssembleResponse`). `rebuildNewsFeedCache` repeats the user lookup, and that repeat is kept.
- FeedService.GetPostsFromCacheOrDatabaseBatch: its own contract states only the frame and the size bound. The content of the result is stated by `FeedService.HydrationMatchesStore`, `FeedService.AllCachedKeepsOrder` and `FeedService.MixedHitsReorder` under the cache-agrees-with-store assumption, because a cache holding a stale post can return any value.
- FeedService.GetUsersFromCacheOrDatabaseBatch: its own contract states only the frame. The content of the result is stated by `FeedService.UserBatchMatchesStore`, for the same reason.
