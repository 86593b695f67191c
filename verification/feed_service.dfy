/** The feed service (`FeedService`): post creation with fan-out, and the
    news-feed read path. A read takes the user's post ids from the feed
    index cache, or rebuilds the index from the store when the cache
    misses. It then hydrates the posts and their authors from the content
    caches, with the store as fallback, and assembles the response. A
    request reads the clock once (`now`). */
module FeedService {
  import opened Wrappers
  import opened Domain
  import opened SortedSet
  import opened Keyspace
  import opened NewsFeedCache
  import PostCache
  import UserCache
  import opened Store
  import opened Fanout

  datatype PostWithUserDto = PostWithUserDto(
    id: PostId, user: Option<UserDto>, content: string, mediaUrls: seq<string>, createdAt: int)

  datatype NewsFeedResponse = NewsFeedResponse(
    posts: seq<PostWithUserDto>, nextCursor: Option<PostId>, hasMore: bool)

  /** findUserById: the account, or the "user not found" failure. */
  function FindUserById(db: Db, id: UserId): (r: Result<User, Error>)
    requires db.Valid()
    ensures r.Ok? <==> id in db.users
    ensures r.Ok? ==> r.value == db.users[id] && r.value.id == id
    ensures r.Err? ==> r.error == UserNotFound
  {
    if id in db.users then Ok(db.users[id]) else Err(UserNotFound)
  }

  // ---------------------------------------------------------------------
  // createPost
  // ---------------------------------------------------------------------

  /** createPost(userId, content, mediaUrls): save the post, publish one
      fan-out message (a failure there is swallowed), return the DTO. The
      cache is not touched: followers' feeds change only when the worker
      consumes the message. */
  function CreatePost(db: Db, queue: seq<Envelope>, userId: UserId, content: string, media: seq<string>,
                      now: int, fault: FanoutFault): (res: Result<(Db, seq<Envelope>, PostDto), Error>)
    requires db.Valid()
    ensures res.Err? <==> userId !in db.users
    ensures res.Err? ==> res.error == UserNotFound
    ensures res.Ok? ==>
      var (db', q', dto) := res.value;
      && db'.Valid()
      && db'.users == db.users && db'.follows == db.follows
      && |db'.posts| == |db.posts| + 1 && db'.posts[..|db.posts|] == db.posts
      && var p := db'.posts[|db.posts|];
         && p.author == userId && p.content == content && p.mediaUrls == media && p.createdAt == now
         && (forall q :: q in db.posts ==> q.id < p.id)
         && dto == PostDto(p.id, ToUserDto(db.users[userId]), content, media, now)
         && (fault != NoFault ==> q' == queue)
         && (fault == NoFault ==>
               && |q'| == |queue| + 1 && q'[..|queue|] == queue
               && q'[|queue|].message.postId == p.id && q'[|queue|].message.authorId == userId
               && forall f :: f in q'[|queue|].message.followerIds <==> Follow(f, userId) in db.follows)
  {
    var user :- FindUserById(db, userId);
    var saved := SavePost(db, user.id, content, media, now);
    var post := saved.1;
    var q' := FanoutToFollowers(saved.0.follows, queue, user, post, fault);
    assert saved.0.posts[|db.posts|] == post;
    Ok((saved.0, q', PostDto(post.id, ToUserDto(user), post.content, post.mediaUrls, post.createdAt)))
  }

  /** A created post reaches every follower once the worker consumes the
      published message: with a working feed key and a clock ahead of the
      follower's feed, it is the first id of the follower's next read. */
  lemma CreatedPostReachesFollowers(db: Db, queue: seq<Envelope>, r: Redis, userId: UserId,
                                    content: string, media: seq<string>, now: int, later: int, size: int)
    requires db.Valid() && Wf(r) && userId in db.users && size >= 1
    requires forall f, x :: x in FeedOf(r, f) ==> x.score < later
    ensures var res := CreatePost(db, queue, userId, content, media, now, NoFault);
      res.Ok? &&
      var (db', q', dto) := res.value;
      var r' := ProcessFanoutMessage(r, q'[|queue|].message, later);
      forall f :: Follow(f, userId) in db.follows && FeedKey(f) !in r.faulty ==>
        var ids := GetUserFeed(r', f, None, size);
        |ids| >= 1 && ids[0] == dto.id
  {
    var res := CreatePost(db, queue, userId, content, media, now, NoFault);
    var (db', q', dto) := res.value;
    var m := q'[|queue|].message;
    var r' := ProcessFanoutMessage(r, m, later);
    forall f | Follow(f, userId) in db.follows && FeedKey(f) !in r.faulty
      ensures var ids := GetUserFeed(r', f, None, size); |ids| >= 1 && ids[0] == dto.id
    {
      assert f in m.followerIds;
      DeliverEffect(r, m.followerIds, m.postId, later, f);
      AddedPostReadFirst(r, f, m.postId, later, size);
    }
  }

  // ---------------------------------------------------------------------
  // Rebuilding the feed index from the store
  // ---------------------------------------------------------------------

  /** The store's answer to a rebuild: the newest `size` posts by the users
      `u` follows, below the cursor when one is given. */
  function StorePage(db: Db, u: UserId, cursor: Option<int>, size: PageSize): (page: seq<Post>)
    requires db.Valid()
    ensures |page| <= size && IdsDescending(page)
    ensures forall p :: p in page ==>
      p in db.posts && Follow(u, p.author) in db.follows && (cursor.None? || p.id < cursor.value)
    ensures forall p ::
      (p in db.posts && Follow(u, p.author) in db.follows && (cursor.None? || p.id < cursor.value) && p !in page)
      ==> |page| == size && forall q :: q in page ==> p.id < q.id
  {
    NewestPage(db, FindFollowingByFollower(db.follows, u), cursor, size)
  }

  /** getPostsFromDatabase(followingUsers, cursor, size): one of the two
      repository queries; `PageRequest.of(0, size)` rejects a size below 1. */
  function GetPostsFromDatabase(db: Db, following: seq<UserId>, cursor: Option<int>, size: int)
    : (r: Result<seq<Post>, Error>)
    requires db.Valid()
    ensures r.Err? <==> size < 1
    ensures r.Err? ==> r.error == InvalidPageSize
    ensures r.Ok? ==> size >= 1 && r.value == NewestPage(db, following, cursor, size)
  {
    if size < 1 then Err(InvalidPageSize)
    else if cursor.Some? then Ok(FindByUserInAndIdLessThanOrderByIdDesc(db, following, cursor.value, size))
    else Ok(FindByUserInOrderByIdDesc(db, following, size))
  }

  /** `posts.forEach(addToUserFeed(userId, id))`, all at the same instant. */
  function AddAllToFeed(r: Redis, u: UserId, ids: seq<PostId>, now: int): (r': Redis)
    requires Wf(r)
    ensures Wf(r') && FeedsAgreeExcept(r, r', u) && OnlyFeedsChanged(r, r')
    ensures FeedKey(u) in r.faulty ==> r' == r
    ensures ids == [] ==> r' == r
    ensures forall x :: x in FeedOf(r', u) ==> x in FeedOf(r, u) || (x.member in ids && x.score == now)
    decreases |ids|
  {
    if ids == [] then r
    else
      var r1 := AddToUserFeed(r, u, ids[0], now);
      var r' := AddAllToFeed(r1, u, ids[1..], now);
      AddedEntries(r, u, ids[0], now);
      ChainAdds(r, r1, r', u, ids, now);
      r'
  }

  /** Composes one addToUserFeed with the rest of the list. */
  lemma ChainAdds(r: Redis, r1: Redis, r': Redis, u: UserId, ids: seq<PostId>, now: int)
    requires ids != []
    requires FeedsAgreeExcept(r, r1, u) && OnlyFeedsChanged(r, r1)
    requires FeedsAgreeExcept(r1, r', u) && OnlyFeedsChanged(r1, r')
    requires FeedKey(u) in r.faulty ==> r1 == r
    requires FeedKey(u) in r1.faulty ==> r' == r1
    requires forall x :: x in FeedOf(r1, u) ==> x in FeedOf(r, u) || (x.member == ids[0] && x.score == now)
    requires forall x :: x in FeedOf(r', u) ==> x in FeedOf(r1, u) || (x.member in ids[1..] && x.score == now)
    ensures FeedsAgreeExcept(r, r', u) && OnlyFeedsChanged(r, r')
    ensures FeedKey(u) in r.faulty ==> r' == r
    ensures forall x :: x in FeedOf(r', u) ==> x in FeedOf(r, u) || (x.member in ids && x.score == now)
  {
    forall x | x in FeedOf(r', u) ensures x in FeedOf(r, u) || (x.member in ids && x.score == now) {
      if x.member in ids[1..] {
        var j :| 0 <= j < |ids[1..]| && ids[1..][j] == x.member;
        assert ids[j + 1] == x.member;
      }
    }
  }

  lemma AddedEntries(r: Redis, u: UserId, p: PostId, now: int)
    requires Wf(r)
    ensures forall x :: x in FeedOf(AddToUserFeed(r, u, p, now), u) ==>
      x in FeedOf(r, u) || (x.member == p && x.score == now)
  {
    if FeedKey(u) !in r.faulty {
      AddFeedContents(FeedOf(r, u), p, now);
    }
  }

  /** rebuildNewsFeedCache(userId, cursor, size): the ids of the store page,
      each added to the feed index; an empty page leaves the cache alone. */
  function RebuildNewsFeedCache(db: Db, r: Redis, u: UserId, cursor: Option<int>, size: int, now: int)
    : (res: Result<(Redis, seq<PostId>), Error>)
    requires db.Valid() && Wf(r)
    ensures res.Err? <==> u !in db.users || size < 1
    ensures res.Err? ==> res.error == (if u !in db.users then UserNotFound else InvalidPageSize)
    ensures res.Ok? ==> size >= 1 && res.value.1 == PostIds(StorePage(db, u, cursor, size))
    ensures res.Ok? ==> Wf(res.value.0) && FeedsAgreeExcept(r, res.value.0, u) && OnlyFeedsChanged(r, res.value.0)
    ensures res.Ok? && res.value.1 == [] ==> res.value.0 == r
  {
    var user :- FindUserById(db, u);
    var following := FindFollowingByFollower(db.follows, user.id);
    var posts :- GetPostsFromDatabase(db, following, cursor, size);
    if posts == [] then Ok((r, []))
    else
      var ids := PostIds(posts);
      Ok((AddAllToFeed(r, u, ids, now), ids))
  }

  /** What a rebuild at one instant keeps: every entry is at most `now`,
      and the entries scored `now` are exactly those of the ids `done`. */
  predicate AddedAt(z: seq<Entry>, done: set<PostId>, now: int) {
    && Valid(z)
    && (forall x :: x in z ==> x.score <= now)
    && (forall x :: x in z && x.score == now ==> x.member in done)
    && (forall d :: d in done ==> Entry(d, now) in z)
  }

  /** One insertion of a rebuild: as long as all ids of the rebuild fit in
      the cap, the cap only ever evicts older entries. */
  lemma AddFeedStep(z: seq<Entry>, done: set<PostId>, all: set<PostId>, p: PostId, now: int)
    requires AddedAt(z, done, now)
    requires done <= all && p in all && |all| <= MAX_FEED_SIZE
    ensures AddedAt(AddFeed(z, p, now), done + {p}, now)
  {
    var a := ZAdd(z, p, now);
    var t := AddFeed(z, p, now);
    var done' := done + {p};
    AddFeedContents(z, p, now);
    AddFeedEvictsLowest(z, p, now);
    assert forall x :: x in a <==> x == Entry(p, now) || (x in z && x.member != p);
    forall d | d in done' ensures Entry(d, now) in t {
      var e := Entry(d, now);
      assert e in a;
      if e !in t {
        forall y | y in t ensures y.member in done' - {d} {
          assert Below(e, y);
          assert y.score == now;
        }
        assert Members(t) <= done' - {d};
        MembersCard(t);
        SubsetCard(Members(t), done' - {d});
        SubsetCard(done', all);
        assert false;
      }
    }
  }

  lemma {:induction false} AddAllKeeps(r: Redis, u: UserId, ids: seq<PostId>, now: int,
                                       done: set<PostId>, all: set<PostId>)
    requires Wf(r) && FeedKey(u) !in r.faulty
    requires AddedAt(FeedOf(r, u), done, now)
    requires done <= all && (forall k :: k in ids ==> k in all) && |all| <= MAX_FEED_SIZE
    ensures AddedAt(FeedOf(AddAllToFeed(r, u, ids, now), u), done + (set k | k in ids), now)
    decreases |ids|
  {
    if ids == [] {
      assert done + (set k | k in ids) == done;
    } else {
      var r1 := AddToUserFeed(r, u, ids[0], now);
      AddFeedStep(FeedOf(r, u), done, all, ids[0], now);
      AddAllKeeps(r1, u, ids[1..], now, done + {ids[0]}, all);
      assert done + {ids[0]} + (set k | k in ids[1..]) == done + (set k | k in ids);
    }
  }

  /** The rebuild receives the page newest first. Every addToUserFeed reads
      the clock afresh, so in the service a later (older) post can get a
      higher score: pushing [5, 3] at instants 100 and 101 into an absent
      index reads back [3, 5], oldest first. With the one instant the model
      gives a rebuild, the same page reads back [5, 3]. */
  lemma RebuildTicksReverseOrder()
    ensures var r0 := Redis(map[], map[], map[], 0, {});
      var ticked := AddToUserFeed(AddToUserFeed(r0, 1, 5, 100), 1, 3, 101);
      var single := AddAllToFeed(r0, 1, [5, 3], 100);
      && GetUserFeed(ticked, 1, None, 10) == [3, 5]
      && GetUserFeed(single, 1, None, 10) == [5, 3]
  {
    var r0 := Redis(map[], map[], map[], 0, {});
    var r1 := AddToUserFeed(r0, 1, 5, 100);
    assert FeedOf(r1, 1) == [Entry(5, 100)];
    var ticked := AddToUserFeed(r1, 1, 3, 101);
    assert FeedOf(ticked, 1) == [Entry(5, 100), Entry(3, 101)];
    var single := AddAllToFeed(r0, 1, [5, 3], 100);
    assert [5, 3][1..] == [3];
    assert AddAllToFeed(r1, 1, [3], 100) == AddToUserFeed(r1, 1, 3, 100);
    assert FeedOf(single, 1) == [Entry(3, 100), Entry(5, 100)];
  }

  /** A rebuild of at most MAX_FEED_SIZE ids, at a clock ahead of the
      cached feed, leaves every returned id in the index; starting from an
      absent index, the index then holds exactly those ids. */
  lemma RebuildFillsFeed(db: Db, r: Redis, u: UserId, cursor: Option<int>, size: int, now: int)
    requires db.Valid() && Wf(r) && FeedKey(u) !in r.faulty
    requires u in db.users && 1 <= size <= MAX_FEED_SIZE
    requires forall x :: x in FeedOf(r, u) ==> x.score < now
    ensures var res := RebuildNewsFeedCache(db, r, u, cursor, size, now);
      && res.Ok?
      && (forall k :: k in res.value.1 ==> Entry(k, now) in FeedOf(res.value.0, u))
      && (u !in r.feeds ==> Members(FeedOf(res.value.0, u)) == set k | k in res.value.1)
  {
    var res := RebuildNewsFeedCache(db, r, u, cursor, size, now);
    var ids := res.value.1;
    if ids != [] {
      assert res.value.0 == AddAllToFeed(r, u, ids, now);
      AddAllFills(r, u, ids, now);
    }
  }

  /** The feed after adding a list of at most MAX_FEED_SIZE ids at a clock
      ahead of it holds every one of them. */
  lemma AddAllFills(r: Redis, u: UserId, ids: seq<PostId>, now: int)
    requires Wf(r) && FeedKey(u) !in r.faulty && |ids| <= MAX_FEED_SIZE
    requires forall x :: x in FeedOf(r, u) ==> x.score < now
    ensures var z := FeedOf(AddAllToFeed(r, u, ids, now), u);
      && (forall k :: k in ids ==> Entry(k, now) in z)
      && (u !in r.feeds ==> Members(z) == set k | k in ids)
  {
    var all := set k | k in ids;
    SetOfSeqCard(ids);
    AddAllKeeps(r, u, ids, now, {}, all);
    assert {} + all == all;
    var z := FeedOf(AddAllToFeed(r, u, ids, now), u);
    if u !in r.feeds {
      forall m | m in Members(z) ensures m in all {
        var x :| x in z && x.member == m;
      }
      forall m | m in all ensures m in Members(z) {
        assert Entry(m, now) in z;
      }
    }
  }

  // ---------------------------------------------------------------------
  // getNewsFeedFromCacheOrDatabase
  // ---------------------------------------------------------------------

  /** getNewsFeedFromCacheOrDatabase(userId, cursor, size): the cached ids
      when the index is large enough and the read is not empty, otherwise
      a rebuild from the store. */
  function GetNewsFeedFromCacheOrDatabase(db: Db, r: Redis, u: UserId, cursor: Option<int>, size: int, now: int)
    : (res: Result<(Redis, seq<PostId>), Error>)
    requires db.Valid() && Wf(r)
    ensures res.Err? ==> (u !in db.users || size < 1)
    ensures res.Err? ==> res.error == (if u !in db.users then UserNotFound else InvalidPageSize)
    ensures u in db.users && size >= 1 ==> res.Ok?
    ensures res.Ok? ==> Wf(res.value.0) && FeedsAgreeExcept(r, res.value.0, u) && OnlyFeedsChanged(r, res.value.0)
    ensures res.Ok? && size >= 1 ==> |res.value.1| <= size
    ensures res.Ok? ==>
      || (&& res.value.0 == r && res.value.1 != [] && !IsCacheMiss(r, u, size)
          && ReadContract(FeedOf(r, u), cursor, size, res.value.1))
      || (size >= 1 && res.value.1 == PostIds(StorePage(db, u, cursor, size)))
    ensures !IsCacheMiss(r, u, size) && GetUserFeed(r, u, cursor, size) != [] ==>
      res == Ok((r, GetUserFeed(r, u, cursor, size)))
    ensures IsCacheMiss(r, u, size) || GetUserFeed(r, u, cursor, size) == [] ==>
      res == RebuildNewsFeedCache(db, r, u, cursor, size, now)
  {
    if IsCacheMiss(r, u, size) then RebuildNewsFeedCache(db, r, u, cursor, size, now)
    else
      var cached := GetUserFeed(r, u, cursor, size);
      if cached == [] then RebuildNewsFeedCache(db, r, u, cursor, size, now)
      else Ok((r, cached))
  }

  /** A failing feed key makes every read a miss: the ids come from the
      store and the failed writes leave the cache as it was. */
  lemma FaultyFeedReadsStore(db: Db, r: Redis, u: UserId, cursor: Option<int>, size: int, now: int)
    requires db.Valid() && Wf(r) && FeedKey(u) in r.faulty
    requires u in db.users && size >= 1
    ensures GetNewsFeedFromCacheOrDatabase(db, r, u, cursor, size, now)
      == Ok((r, PostIds(StorePage(db, u, cursor, size))))
  {
  }

  /** A cursor below every cached score reads nothing from the cache, so the
      read falls back to the store. Scores are milliseconds and cursors are
      post ids, so this is what a cursored read usually does. */
  lemma LowCursorReadsStore(db: Db, r: Redis, u: UserId, c: int, size: int, now: int)
    requires db.Valid() && Wf(r)
    requires u in db.users && size >= 1
    requires forall x :: x in FeedOf(r, u) ==> x.score >= c
    ensures var res := GetNewsFeedFromCacheOrDatabase(db, r, u, Some(c), size, now);
      res.Ok? && res.value.1 == PostIds(StorePage(db, u, Some(c), size))
  {
    if !IsCacheMiss(r, u, size) {
      CursorBelowScores(r, u, c, size);
    }
  }

  /** A zero size is never a miss for a non-empty index: ZREVRANGE 0 -1
      returns the whole feed. An empty index at size zero fails in the
      store's page request. */
  lemma ZeroSizeReadsWholeFeed(db: Db, r: Redis, u: UserId, now: int)
    requires db.Valid() && Wf(r) && FeedKey(u) !in r.faulty
    ensures var res := GetNewsFeedFromCacheOrDatabase(db, r, u, None, 0, now);
      && (u in r.feeds ==> res.Ok? && res.value.0 == r && |res.value.1| == |FeedOf(r, u)|)
      && (u !in r.feeds ==> res.Err?)
  {
  }

  // ---------------------------------------------------------------------
  // getPostsFromCacheOrDatabaseBatch
  // ---------------------------------------------------------------------

  /** The `instanceof Post` test on getCachedPost(id). */
  function PostHit(r: Redis, id: PostId): (o: Option<Post>)
    ensures o.Some? <==> PostKey(id) !in r.faulty && id in r.posts && r.posts[id].value.PostValue?
    ensures o.Some? ==> o.value == r.posts[id].value.post
  {
    match PostCache.GetCachedPost(r, id)
    case Some(PostValue(p)) => Some(p)
    case _ => None
  }

  /** The cached posts, in request order. */
  function PostHits(r: Redis, ids: seq<PostId>): (hits: seq<Post>)
    ensures forall p :: p in hits <==> exists k :: k in ids && PostHit(r, k) == Some(p)
    ensures (forall k :: k in ids ==> PostHit(r, k).Some?) ==>
      |hits| == |ids| && forall i :: 0 <= i < |ids| ==> PostHit(r, ids[i]) == Some(hits[i])
  {
    if ids == [] then []
    else
      var rest := PostHits(r, ids[1..]);
      assert forall k :: k in ids <==> k == ids[0] || k in ids[1..];
      match PostHit(r, ids[0])
      case Some(p) => [p] + rest
      case None => rest
  }

  /** The ids the cache does not answer, in request order. */
  function PostMisses(r: Redis, ids: seq<PostId>): (missed: seq<PostId>)
    ensures forall k :: k in missed <==> k in ids && PostHit(r, k).None?
    ensures |PostHits(r, ids)| + |missed| == |ids|
  {
    if ids == [] then []
    else
      var rest := PostMisses(r, ids[1..]);
      assert forall k :: k in ids <==> k == ids[0] || k in ids[1..];
      if PostHit(r, ids[0]).Some? then rest else [ids[0]] + rest
  }

  /** `for (Post post : dbPosts) cachePost(post.getId(), post)`: every key
      is either as before or one of the written posts, and a key disappears
      only when a sweep found it old. */
  function CacheAllPosts(r: Redis, ps: seq<Post>): (r': Redis)
    ensures PostCache.OnlyPostsChanged(r, r')
    ensures forall k :: k in r'.posts ==>
      || (k in r.posts && r'.posts[k] == r.posts[k])
      || (exists p :: p in ps && p.id == k && r'.posts[k] == Slot(PostValue(p), ExpiresIn(PostCache.POST_CACHE_TTL)))
    ensures forall k :: k in r.posts && k !in r'.posts ==> PostCache.TtlOf(r, k) < PostCache.SHORT_TTL
    decreases |ps|
  {
    if ps == [] then r
    else
      var r1 := PostCache.CachePost(r, ps[0].id, PostValue(ps[0]));
      var r' := CacheAllPosts(r1, ps[1..]);
      CacheAllPostsStep(r, ps, r1, r');
      r'
  }

  lemma CacheAllPostsStep(r: Redis, ps: seq<Post>, r1: Redis, r': Redis)
    requires ps != [] && r1 == PostCache.CachePost(r, ps[0].id, PostValue(ps[0]))
    requires PostCache.OnlyPostsChanged(r1, r')
    requires forall k :: k in r'.posts ==>
      || (k in r1.posts && r'.posts[k] == r1.posts[k])
      || (exists p :: p in ps[1..] && p.id == k && r'.posts[k] == Slot(PostValue(p), ExpiresIn(PostCache.POST_CACHE_TTL)))
    requires forall k :: k in r1.posts && k !in r'.posts ==> PostCache.TtlOf(r1, k) < PostCache.SHORT_TTL
    ensures forall k :: k in r'.posts ==>
      || (k in r.posts && r'.posts[k] == r.posts[k])
      || (exists p :: p in ps && p.id == k && r'.posts[k] == Slot(PostValue(p), ExpiresIn(PostCache.POST_CACHE_TTL)))
    ensures forall k :: k in r.posts && k !in r'.posts ==> PostCache.TtlOf(r, k) < PostCache.SHORT_TTL
  {
    forall k | k in r'.posts && !(k in r.posts && r'.posts[k] == r.posts[k])
      ensures exists p :: p in ps && p.id == k && r'.posts[k] == Slot(PostValue(p), ExpiresIn(PostCache.POST_CACHE_TTL))
    {
      if k in r1.posts && r'.posts[k] == r1.posts[k] {
        assert ps[0] in ps;
      } else {
        var p :| p in ps[1..] && p.id == k && r'.posts[k] == Slot(PostValue(p), ExpiresIn(PostCache.POST_CACHE_TTL));
        assert p in ps;
      }
    }
  }

  /** Each post written back from the store reads back afterwards: a fresh
      key is never old enough for a later sweep, and the ids are distinct. */
  lemma {:induction false} CacheAllWritesBack(r: Redis, ps: seq<Post>)
    requires CountKey !in r.faulty && IdsAscending(ps)
    ensures forall p :: p in ps && PostKey(p.id) !in r.faulty ==>
      PostCache.GetCachedPost(CacheAllPosts(r, ps), p.id) == Some(PostValue(p))
    decreases |ps|
  {
    if ps != [] {
      var r1 := PostCache.CachePost(r, ps[0].id, PostValue(ps[0]));
      var rest := ps[1..];
      CacheAllWritesBack(r1, rest);
      var r' := CacheAllPosts(r1, rest);
      assert CacheAllPosts(r, ps) == r';
      assert forall p :: p in ps <==> p == ps[0] || p in rest;
      var k := ps[0].id;
      if PostKey(k) !in r.faulty {
        assert PostCache.TtlOf(r1, k) == PostCache.POST_CACHE_TTL;
        assert k in r'.posts;
        assert forall p :: p in rest ==> p.id != k;
      }
    }
  }

  /** getPostsFromCacheOrDatabaseBatch(postIds): the cached posts in
      request order, then the missed ones from the store in table order;
      the latter are written back to the cache. */
  function GetPostsFromCacheOrDatabaseBatch(db: Db, r: Redis, ids: seq<PostId>): (res: (Redis, seq<Post>))
    requires db.Valid()
    ensures PostCache.OnlyPostsChanged(r, res.0)
    ensures ids == [] ==> res == (r, [])
    ensures |res.1| <= |ids|
  {
    if ids == [] then (r, [])
    else
      var hits := PostHits(r, ids);
      var missed := PostMisses(r, ids);
      if missed == [] then (r, hits)
      else
        var dbPosts := FindAllById(db.posts, missed);
        FindAllByIdBound(db.posts, missed);
        (CacheAllPosts(r, dbPosts), hits + dbPosts)
  }

  /** The post cache agrees with the store: every cached post value is the
      store's row under its own id. */
  predicate PostCacheAgrees(db: Db, r: Redis) {
    forall k :: k in r.posts && r.posts[k].value.PostValue? ==>
      r.posts[k].value.post in db.posts && r.posts[k].value.post.id == k
  }

  /** With a cache that agrees with the store, hydration returns exactly the
      store's rows for the requested ids, and the cache still agrees
      afterwards. */
  lemma HydrationMatchesStore(db: Db, r: Redis, ids: seq<PostId>)
    requires db.Valid() && PostCacheAgrees(db, r)
    ensures var res := GetPostsFromCacheOrDatabaseBatch(db, r, ids);
      && (forall p :: p in res.1 <==> p in db.posts && p.id in ids)
      && PostCacheAgrees(db, res.0)
  {
    var res := GetPostsFromCacheOrDatabaseBatch(db, r, ids);
    if ids != [] {
      var hits := PostHits(r, ids);
      var missed := PostMisses(r, ids);
      var dbPosts := FindAllById(db.posts, missed);
      forall p | p in hits ensures p in db.posts && p.id in ids {
        var k :| k in ids && PostHit(r, k) == Some(p);
      }
      forall p | p in db.posts && p.id in ids ensures p in res.1 {
        match PostHit(r, p.id)
        case Some(q) =>
          assert q in hits;
          UniqueIds(db, p, q);
        case None =>
          assert p.id in missed;
          assert p in dbPosts;
      }
    }
  }

  lemma UniqueIds(db: Db, p: Post, q: Post)
    requires db.Valid() && p in db.posts && q in db.posts && p.id == q.id
    ensures p == q
  {
    var i :| 0 <= i < |db.posts| && db.posts[i] == p;
    var j :| 0 <= j < |db.posts| && db.posts[j] == q;
    assert i == j;
  }

  /** When the cache answers every id, hydration is the identity on the
      request: the posts come back in request order. */
  lemma AllCachedKeepsOrder(db: Db, r: Redis, ids: seq<PostId>)
    requires db.Valid() && PostCache.Coherent(r)
    requires forall k :: k in ids ==> PostHit(r, k).Some?
    ensures var res := GetPostsFromCacheOrDatabaseBatch(db, r, ids);
      res.0 == r && PostIds(res.1) == ids
  {
    if ids != [] {
      var missed := PostMisses(r, ids);
      assert missed == [];
    }
  }

  /** Otherwise the request order is lost: with post 1 cached and post 2
      not, a request for [2, 1] returns post 1 before post 2. */
  lemma MixedHitsReorder()
    ensures var author := User(7, "ann", "ann@example.com", 0);
      var p1 := Post(1, 7, "first", [], 10);
      var p2 := Post(2, 7, "second", [], 20);
      var db := Db(map[7 := author], [p1, p2], [], 8, 3);
      var r := Redis(map[], map[1 := Slot(PostValue(p1), ExpiresIn(PostCache.POST_CACHE_TTL))], map[], 1, {});
      PostIds(GetPostsFromCacheOrDatabaseBatch(db, r, [2, 1]).1) == [1, 2]
  {
    var author := User(7, "ann", "ann@example.com", 0);
    var p1 := Post(1, 7, "first", [], 10);
    var p2 := Post(2, 7, "second", [], 20);
    var db := Db(map[7 := author], [p1, p2], [], 8, 3);
    var r := Redis(map[], map[1 := Slot(PostValue(p1), ExpiresIn(PostCache.POST_CACHE_TTL))], map[], 1, {});
    assert PostHits(r, [2, 1]) == [p1] by {
      assert PostHit(r, 2).None?;
      assert [2, 1][1..] == [1];
      assert PostHits(r, [1]) == [p1];
    }
    assert PostMisses(r, [2, 1]) == [2] by {
      assert [2, 1][1..] == [1];
    }
    assert FindAllById(db.posts, [2]) == [p2] by {
      assert [p1, p2][1..] == [p2];
    }
  }

  /** Posts fetched from the store are cached afterwards, when the counter
      and their keys work. */
  lemma HydrationWritesBack(db: Db, r: Redis, ids: seq<PostId>)
    requires db.Valid() && CountKey !in r.faulty
    ensures var res := GetPostsFromCacheOrDatabaseBatch(db, r, ids);
      forall p :: p in db.posts && p.id in ids && PostHit(r, p.id).None? && PostKey(p.id) !in r.faulty ==>
        PostHit(res.0, p.id) == Some(p)
  {
    if ids != [] {
      var missed := PostMisses(r, ids);
      var dbPosts := FindAllById(db.posts, missed);
      CacheAllWritesBack(r, dbPosts);
      forall p | p in db.posts && p.id in ids && PostHit(r, p.id).None? ensures p in dbPosts {
      }
    }
  }

  // ---------------------------------------------------------------------
  // getUsersFromCacheOrDatabaseBatch
  // ---------------------------------------------------------------------

  /** The `instanceof User` test on getCachedUser(id). */
  function UserHit(r: Redis, id: UserId): (o: Option<User>)
    ensures o.Some? <==> UserKey(id) !in r.faulty && id in r.users && r.users[id].value.UserValue?
    ensures o.Some? ==> o.value == r.users[id].value.user
  {
    match UserCache.GetCachedUser(r, id)
    case Some(UserValue(x)) => Some(x)
    case _ => None
  }

  function UserHits(r: Redis, ks: seq<UserId>): (hits: seq<User>)
    ensures forall x :: x in hits <==> exists k :: k in ks && UserHit(r, k) == Some(x)
    ensures UserCache.Coherent(r) && (forall i, j :: 0 <= i < j < |ks| ==> ks[i] < ks[j]) ==>
      forall i, j :: 0 <= i < j < |hits| ==> hits[i].id < hits[j].id
  {
    if ks == [] then []
    else
      var rest := UserHits(r, ks[1..]);
      assert forall k :: k in ks <==> k == ks[0] || k in ks[1..];
      match UserHit(r, ks[0])
      case Some(x) =>
        assert UserCache.Coherent(r) && (forall i, j :: 0 <= i < j < |ks| ==> ks[i] < ks[j]) ==>
          forall y :: y in rest ==> x.id < y.id;
        [x] + rest
      case None => rest
  }

  function UserMisses(r: Redis, ks: seq<UserId>): (missed: seq<UserId>)
    ensures forall k :: k in missed <==> k in ks && UserHit(r, k).None?
  {
    if ks == [] then []
    else
      var rest := UserMisses(r, ks[1..]);
      assert forall k :: k in ks <==> k == ks[0] || k in ks[1..];
      if UserHit(r, ks[0]).Some? then rest else [ks[0]] + rest
  }

  /** `for (User user : dbUsers) cacheUser(user.getId(), user)`. */
  function CacheAllUsers(r: Redis, us: seq<User>): (r': Redis)
    ensures UserCache.OnlyUsersChanged(r, r')
    ensures r.users.Keys <= r'.users.Keys
    ensures forall k :: k in r'.users ==>
      || (k in r.users && r'.users[k] == r.users[k])
      || (exists x :: x in us && x.id == k && r'.users[k] == Slot(UserValue(x), ExpiresIn(UserCache.USER_CACHE_TTL)))
    ensures forall x :: x in us && UserKey(x.id) !in r.faulty ==> x.id in r'.users
    decreases |us|
  {
    if us == [] then r
    else
      var r1 := UserCache.CacheUser(r, us[0].id, UserValue(us[0]));
      var r' := CacheAllUsers(r1, us[1..]);
      assert forall x :: x in us <==> x == us[0] || x in us[1..];
      assert forall k :: k in r'.users && !(k in r.users && r'.users[k] == r.users[k]) ==>
        exists x :: x in us && x.id == k && r'.users[k] == Slot(UserValue(x), ExpiresIn(UserCache.USER_CACHE_TTL));
      r'
  }

  /** The user cache agrees with the store. */
  predicate UserCacheAgrees(db: Db, r: Redis) {
    forall k :: k in r.users && r.users[k].value.UserValue? ==>
      k in db.users && db.users[k] == r.users[k].value.user
  }

  /** getUsersFromCacheOrDatabaseBatch(userIds): iterated in ascending id
      order; cached users first, then the missed ones from the store,
      which are written back. */
  function GetUsersFromCacheOrDatabaseBatch(db: Db, r: Redis, ids: set<UserId>): (res: (Redis, seq<User>))
    ensures UserCache.OnlyUsersChanged(r, res.0)
    ensures ids == {} ==> res == (r, [])
  {
    if ids == {} then (r, [])
    else
      var ks := SortedIds(ids);
      var hits := UserHits(r, ks);
      var missed := UserMisses(r, ks);
      if missed == [] then (r, hits)
      else
        var dbUsers := FindUsersById(db.users, missed);
        (CacheAllUsers(r, dbUsers), hits + dbUsers)
  }

  /** With a user cache that agrees with the store, the batch returns
      exactly the stored users with the requested ids, each once, and the
      cache still agrees afterwards. */
  lemma UserBatchMatchesStore(db: Db, r: Redis, ids: set<UserId>)
    requires db.Valid() && UserCacheAgrees(db, r)
    ensures var res := GetUsersFromCacheOrDatabaseBatch(db, r, ids);
      && (forall x :: x in res.1 <==> x.id in ids && x.id in db.users && db.users[x.id] == x)
      && DistinctIds(res.1)
      && UserCacheAgrees(db, res.0)
  {
    if ids != {} {
      var ks := SortedIds(ids);
      var hits := UserHits(r, ks);
      var missed := UserMisses(r, ks);
      var dbUsers := if missed == [] then [] else FindUsersById(db.users, missed);
      HitsAreStored(db, r, ks);
      MissesAreStored(db, r, ks);
      var all := hits + dbUsers;
      assert GetUsersFromCacheOrDatabaseBatch(db, r, ids).1 == all;
      forall x: User | x.id in ks && x.id in db.users && db.users[x.id] == x ensures x in all {
        match UserHit(r, x.id)
        case Some(y) => assert y in hits;
        case None => assert x in dbUsers;
      }
      AscendingConcatDistinct(hits, dbUsers);
      if missed != [] {
        CacheAllUsersAgrees(db, r, dbUsers);
      }
    }
  }

  /** Two id-ascending lists with no id in common concatenate to a list
      without repeated ids. */
  lemma AscendingConcatDistinct(a: seq<User>, b: seq<User>)
    requires forall i, j :: 0 <= i < j < |a| ==> a[i].id < a[j].id
    requires forall i, j :: 0 <= i < j < |b| ==> b[i].id < b[j].id
    requires forall x, y :: x in a && y in b ==> x.id != y.id
    ensures DistinctIds(a + b)
  {
    var all := a + b;
    forall i, j | 0 <= i < j < |all| ensures all[i].id != all[j].id {
      if j < |a| {
        assert all[i] == a[i] && all[j] == a[j];
      } else if i >= |a| {
        assert all[i] == b[i - |a|] && all[j] == b[j - |a|];
      } else {
        assert all[i] == a[i] && all[j] == b[j - |a|];
        assert a[i] in a && b[j - |a|] in b;
      }
    }
  }

  lemma HitsAreStored(db: Db, r: Redis, ks: seq<UserId>)
    requires db.Valid() && UserCacheAgrees(db, r)
    requires forall i, j :: 0 <= i < j < |ks| ==> ks[i] < ks[j]
    ensures var hits := UserHits(r, ks);
      && (forall x :: x in hits ==> x.id in ks && x.id in db.users && db.users[x.id] == x && UserHit(r, x.id).Some?)
      && (forall i, j :: 0 <= i < j < |hits| ==> hits[i].id < hits[j].id)
  {
    var hits := UserHits(r, ks);
    assert UserCache.Coherent(r);
    forall x | x in hits ensures x.id in ks && x.id in db.users && db.users[x.id] == x && UserHit(r, x.id).Some? {
      var k :| k in ks && UserHit(r, k) == Some(x);
    }
  }

  lemma MissesAreStored(db: Db, r: Redis, ks: seq<UserId>)
    requires db.Valid()
    ensures var dbUsers := FindUsersById(db.users, UserMisses(r, ks));
      && (forall x :: x in dbUsers ==> x.id in ks && x.id in db.users && db.users[x.id] == x && UserHit(r, x.id).None?)
      && (forall x: User :: x.id in ks && x.id in db.users && db.users[x.id] == x && UserHit(r, x.id).None? ==> x in dbUsers)
      && (forall i, j :: 0 <= i < j < |dbUsers| ==> dbUsers[i].id < dbUsers[j].id)
  {
    var missed := UserMisses(r, ks);
    var dbUsers := FindUsersById(db.users, missed);
    forall x | x in dbUsers ensures x.id in ks && x.id in db.users && db.users[x.id] == x && UserHit(r, x.id).None? {
      var k :| k in missed && k in db.users && db.users[k] == x;
    }
  }

  lemma CacheAllUsersAgrees(db: Db, r: Redis, us: seq<User>)
    requires db.Valid() && UserCacheAgrees(db, r)
    requires forall x :: x in us ==> x.id in db.users && db.users[x.id] == x
    ensures UserCacheAgrees(db, CacheAllUsers(r, us))
  {
    var r' := CacheAllUsers(r, us);
    forall k | k in r'.users && r'.users[k].value.UserValue? ensures k in db.users && db.users[k] == r'.users[k].value.user {
      if !(k in r.users && r'.users[k] == r.users[k]) {
        var x :| x in us && x.id == k && r'.users[k] == Slot(UserValue(x), ExpiresIn(UserCache.USER_CACHE_TTL));
      }
    }
  }

  // ---------------------------------------------------------------------
  // getNewsFeedWithUserInfo
  // ---------------------------------------------------------------------

  /** No two users share an id. */
  predicate DistinctIds(us: seq<User>) {
    forall i, j :: 0 <= i < j < |us| ==> us[i].id != us[j].id
  }

  /** `Collectors.toMap(User::getId, user -> user)`: fails on a repeated id. */
  function ToMap(us: seq<User>): (m: Result<map<UserId, User>, Error>)
    ensures m.Ok? <==> DistinctIds(us)
    ensures m.Err? ==> m.error == DuplicateKey
    ensures m.Ok? ==> m.value.Keys == (set x | x in us :: x.id) && forall x :: x in us ==> m.value[x.id] == x
  {
    if us == [] then Ok(map[])
    else
      var rest := ToMap(us[1..]);
      DistinctIdsCons(us);
      if rest.Err? || us[0].id in rest.value then Err(DuplicateKey)
      else Ok(rest.value[us[0].id := us[0]])
  }

  lemma DistinctIdsCons(us: seq<User>)
    requires us != []
    ensures forall x :: x in us <==> x == us[0] || x in us[1..]
    ensures (set x | x in us :: x.id) == {us[0].id} + (set x | x in us[1..] :: x.id)
    ensures DistinctIds(us) <==> DistinctIds(us[1..]) && forall x :: x in us[1..] ==> x.id != us[0].id
  {
    assert us == [us[0]] + us[1..];
    var tail := us[1..];
    if DistinctIds(tail) && forall x :: x in tail ==> x.id != us[0].id {
      forall i, j | 0 <= i < j < |us| ensures us[i].id != us[j].id {
        assert us[j] == tail[j - 1];
        if i > 0 {
          assert us[i] == tail[i - 1];
        }
      }
    }
    if DistinctIds(us) {
      forall x | x in tail ensures x.id != us[0].id {
        var j :| 0 <= j < |tail| && tail[j] == x;
        assert us[j + 1] == x;
      }
      forall i, j | 0 <= i < j < |tail| ensures tail[i].id != tail[j].id {
        assert tail[i] == us[i + 1] && tail[j] == us[j + 1];
      }
    }
  }

  /** The response entries: each post with its author's DTO, or no author
      when the author was not resolved. */
  function Entries(posts: seq<Post>, authors: map<UserId, User>): (es: seq<PostWithUserDto>)
    ensures |es| == |posts|
    ensures forall i :: 0 <= i < |posts| ==>
      && es[i].id == posts[i].id && es[i].content == posts[i].content
      && es[i].mediaUrls == posts[i].mediaUrls && es[i].createdAt == posts[i].createdAt
      && (es[i].user.Some? <==> posts[i].author in authors)
      && (es[i].user.Some? ==> es[i].user.value == ToUserDto(authors[posts[i].author]))
  {
    seq(|posts|, i requires 0 <= i < |posts| =>
      var p := posts[i];
      PostWithUserDto(p.id, if p.author in authors then Some(ToUserDto(authors[p.author])) else None,
                      p.content, p.mediaUrls, p.createdAt))
  }

  /** The page entries describe the posts one for one, in order. */
  predicate Mirrors(es: seq<PostWithUserDto>, posts: seq<Post>) {
    && |es| == |posts|
    && forall i :: 0 <= i < |posts| ==>
      && es[i].id == posts[i].id && es[i].content == posts[i].content
      && es[i].mediaUrls == posts[i].mediaUrls && es[i].createdAt == posts[i].createdAt
  }

  /** The part of getNewsFeedWithUserInfo after the feed ids are known:
      hydrate the posts, resolve their authors, build the page. A page is
      reported as having more exactly when it holds `size` posts; the next
      cursor is then the id of its last post. */
  function AssembleResponse(db: Db, r: Redis, ids: seq<PostId>, size: int)
    : (res: Result<(Redis, NewsFeedResponse), Error>)
    requires db.Valid()
    ensures res.Err? ==> res.error == DuplicateKey
    ensures res.Ok? ==> res.value.0.feeds == r.feeds && res.value.0.faulty == r.faulty
    ensures res.Ok? ==> Mirrors(res.value.1.posts, GetPostsFromCacheOrDatabaseBatch(db, r, ids).1)
    ensures res.Ok? ==>
      var resp := res.value.1;
      && |resp.posts| <= |ids|
      && (resp.hasMore <==> |resp.posts| == size)
      && (resp.nextCursor.Some? <==> resp.hasMore && resp.posts != [])
      && (resp.nextCursor.Some? ==> resp.nextCursor.value == resp.posts[|resp.posts| - 1].id)
  {
    var hydrated := GetPostsFromCacheOrDatabaseBatch(db, r, ids);
    var posts := hydrated.1;
    var authorIds := set p | p in posts :: p.author;
    var resolved := GetUsersFromCacheOrDatabaseBatch(db, hydrated.0, authorIds);
    var userMap :- ToMap(resolved.1);
    var hasMore := |posts| == size;
    var nextCursor := if hasMore && posts != [] then Some(posts[|posts| - 1].id) else None;
    Ok((resolved.0, NewsFeedResponse(Entries(posts, userMap), nextCursor, hasMore)))
  }

  /** getNewsFeedWithUserInfo(userId, cursor, size). */
  function GetNewsFeedWithUserInfo(db: Db, r: Redis, u: UserId, cursor: Option<int>, size: int, now: int)
    : (res: Result<(Redis, NewsFeedResponse), Error>)
    requires db.Valid() && Wf(r)
    ensures u !in db.users ==> res == Err(UserNotFound)
    ensures res.Err? ==>
      || res.error == UserNotFound
      || (size < 1 && res.error == InvalidPageSize)
      || res.error == DuplicateKey
    ensures u in db.users && size >= 1 && res.Err? ==> res.error == DuplicateKey
    ensures res.Ok? ==>
      && GetNewsFeedFromCacheOrDatabase(db, r, u, cursor, size, now).Ok?
      && var feed := GetNewsFeedFromCacheOrDatabase(db, r, u, cursor, size, now).value;
         Mirrors(res.value.1.posts, GetPostsFromCacheOrDatabaseBatch(db, feed.0, feed.1).1)
    ensures res.Ok? ==> Wf(res.value.0) && FeedsAgreeExcept(r, res.value.0, u) && res.value.0.faulty == r.faulty
    ensures res.Ok? ==>
      var resp := res.value.1;
      && (resp.hasMore <==> |resp.posts| == size)
      && (resp.nextCursor.Some? <==> resp.hasMore && resp.posts != [])
      && (resp.nextCursor.Some? ==> resp.nextCursor.value == resp.posts[|resp.posts| - 1].id)
    ensures res.Ok? && size >= 1 ==> |res.value.1.posts| <= size
  {
    var user :- FindUserById(db, u);
    var feed :- GetNewsFeedFromCacheOrDatabase(db, r, u, cursor, size, now);
    AssembleResponse(db, feed.0, feed.1, size)
  }

  /** With caches that agree with the store, assembling a page never fails,
      returns only stored posts, and resolves the author of every post. */
  lemma AssembleResolvesAuthors(db: Db, r: Redis, ids: seq<PostId>, size: int)
    requires db.Valid() && PostCacheAgrees(db, r) && UserCacheAgrees(db, r)
    ensures var res := AssembleResponse(db, r, ids, size);
      && res.Ok?
      && (forall e :: e in res.value.1.posts ==> e.user.Some?)
      && (forall e :: e in res.value.1.posts ==> exists p :: p in db.posts && p.id == e.id && p.id in ids)
  {
    var hydrated := GetPostsFromCacheOrDatabaseBatch(db, r, ids);
    HydrationMatchesStore(db, r, ids);
    var posts := hydrated.1;
    AuthorsInMap(db, hydrated.0, posts);
    var resolved := GetUsersFromCacheOrDatabaseBatch(db, hydrated.0, set p | p in posts :: p.author);
    var m := ToMap(resolved.1);
    var es := Entries(posts, m.value);
    var hasMore := |posts| == size;
    var nextCursor := if hasMore && posts != [] then Some(posts[|posts| - 1].id) else None;
    assert AssembleResponse(db, r, ids, size) == Ok((resolved.0, NewsFeedResponse(es, nextCursor, hasMore)));
    EntriesResolved(posts, m.value);
  }

  /** When every author is in the map, every entry carries its author and
      comes from one of the posts. */
  lemma EntriesResolved(posts: seq<Post>, authors: map<UserId, User>)
    requires forall p :: p in posts ==> p.author in authors
    ensures forall e :: e in Entries(posts, authors) ==>
      e.user.Some? && exists p :: p in posts && p.id == e.id
  {
    var es := Entries(posts, authors);
    forall e | e in es ensures e.user.Some? && exists p :: p in posts && p.id == e.id {
      var i :| 0 <= i < |es| && es[i] == e;
      assert posts[i] in posts;
    }
  }

  /** The authors of stored posts all land in the user map. */
  lemma AuthorsInMap(db: Db, r: Redis, posts: seq<Post>)
    requires db.Valid() && UserCacheAgrees(db, r)
    requires forall p :: p in posts ==> p in db.posts
    ensures var resolved := GetUsersFromCacheOrDatabaseBatch(db, r, set p | p in posts :: p.author);
      var m := ToMap(resolved.1);
      m.Ok? && forall p :: p in posts ==> p.author in m.value
  {
    var authorIds := set p | p in posts :: p.author;
    var resolved := GetUsersFromCacheOrDatabaseBatch(db, r, authorIds);
    UserBatchMatchesStore(db, r, authorIds);
    var m := ToMap(resolved.1);
    forall p | p in posts ensures p.author in m.value {
      assert p.author in authorIds;
      assert db.users[p.author] in resolved.1;
    }
  }

  /** With caches that agree with the store, a read by an existing user with
      a valid size succeeds, returns only stored posts, and resolves the
      author of every post. */
  lemma AuthorsResolved(db: Db, r: Redis, u: UserId, cursor: Option<int>, size: int, now: int)
    requires db.Valid() && Wf(r) && PostCacheAgrees(db, r) && UserCacheAgrees(db, r)
    requires u in db.users && size >= 1
    ensures GetNewsFeedFromCacheOrDatabase(db, r, u, cursor, size, now).Ok?
    ensures var res := GetNewsFeedWithUserInfo(db, r, u, cursor, size, now);
      var ids := GetNewsFeedFromCacheOrDatabase(db, r, u, cursor, size, now).value.1;
      && res.Ok?
      && (forall e :: e in res.value.1.posts ==> e.user.Some?)
      && (forall e :: e in res.value.1.posts ==> exists p :: p in db.posts && p.id == e.id && p.id in ids)
  {
    var feed := GetNewsFeedFromCacheOrDatabase(db, r, u, cursor, size, now);
    AssembleResolvesAuthors(db, feed.value.0, feed.value.1, size);
  }
}
