/** The feed index cache (`NewsFeedCacheService`): per user, a sorted set
    of post ids under `newsfeed:user:<userId>`, scored by the time the id
    was added, capped at 1000 entries and expiring an hour after the last
    insertion. Every failure is caught: writes become no-ops, reads become
    empty or "miss". The clock is the explicit argument `now`. */
module NewsFeedCache {
  import opened Wrappers
  import opened Domain
  import opened SortedSet
  import opened Keyspace

  const NEWS_FEED_CACHE_TTL := 3600
  const MAX_FEED_SIZE := 1000
  const CACHE_MISS_THRESHOLD := 100

  function Min(a: int, b: int): int {
    if a <= b then a else b
  }

  /** The size cap after an insertion: when the set holds more than
      MAX_FEED_SIZE entries, ZREMRANGEBYRANK 0 (size - MAX_FEED_SIZE - 1)
      drops the lowest-ranked excess. */
  function Trim(a: seq<Entry>): seq<Entry> {
    if |a| > MAX_FEED_SIZE then RemoveRangeByRank(a, 0, |a| - MAX_FEED_SIZE - 1) else a
  }

  lemma TrimIsSuffix(a: seq<Entry>)
    ensures |a| > MAX_FEED_SIZE ==> Trim(a) == a[|a| - MAX_FEED_SIZE..]
    ensures |a| <= MAX_FEED_SIZE ==> Trim(a) == a
  {
    if |a| > MAX_FEED_SIZE {
      assert RankSpan(|a|, 0, |a| - MAX_FEED_SIZE - 1) == Span(0, |a| - MAX_FEED_SIZE - 1);
      assert a[..0] + a[|a| - MAX_FEED_SIZE..] == a[|a| - MAX_FEED_SIZE..];
    }
  }

  /** A user's entries after `addToUserFeed(userId, p)` at time `now`:
      ZADD, then the size cap. */
  function AddFeed(z: seq<Entry>, p: PostId, now: int): (t: seq<Entry>)
    requires Valid(z)
    ensures Valid(t) && t != [] && |t| <= MAX_FEED_SIZE
  {
    var a := ZAdd(z, p, now);
    assert Entry(p, now) in a;
    TrimValid(a);
    Trim(a)
  }

  /** The cap keeps a sorted set valid and non-empty, within MAX_FEED_SIZE. */
  lemma TrimValid(a: seq<Entry>)
    requires Valid(a) && a != []
    ensures Valid(Trim(a)) && Trim(a) != [] && |Trim(a)| <= MAX_FEED_SIZE
  {
    TrimIsSuffix(a);
    if |a| > MAX_FEED_SIZE {
      SuffixValid(a, |a| - MAX_FEED_SIZE);
    }
  }

  lemma SuffixValid(a: seq<Entry>, d: nat)
    requires Valid(a) && d <= |a|
    ensures Valid(a[d..])
  {
    var t := a[d..];
    forall i, j | 0 <= i < j < |t| ensures Below(t[i], t[j]) && t[i].member != t[j].member {
      assert t[i] == a[d + i] && t[j] == a[d + j];
    }
  }

  /** The cap removes exactly the `|a| - MAX_FEED_SIZE` lowest-ranked entries
      of the set after ZADD, and nothing when the set fits. */
  lemma AddFeedEvictsLowest(z: seq<Entry>, p: PostId, now: int)
    requires Valid(z)
    ensures var a := ZAdd(z, p, now); var t := AddFeed(z, p, now);
      && |t| == Min(MAX_FEED_SIZE, |a|)
      && t == a[|a| - |t|..]
      && (forall x, y :: x in a && x !in t && y in t ==> Below(x, y))
  {
    var a := ZAdd(z, p, now);
    var t := Trim(a);
    assert AddFeed(z, p, now) == t;
    TrimIsSuffix(a);
    assert t == a[|a| - |t|..];
    SuffixKeepsTop(a, |a| - |t|);
  }

  /** The feed after an insertion holds only the new entry and entries it
      held before, with their old scores. */
  lemma AddFeedContents(z: seq<Entry>, p: PostId, now: int)
    requires Valid(z)
    ensures forall x :: x in AddFeed(z, p, now) ==> x == Entry(p, now) || (x in z && x.member != p)
    ensures Members(AddFeed(z, p, now)) <= Members(z) + {p}
  {
    var a := ZAdd(z, p, now);
    TrimIsSuffix(a);
  }

  /** With a clock ahead of every other entry, the post just added is the
      top-ranked entry and survives the cap. */
  lemma AddFeedKeepsNewest(z: seq<Entry>, p: PostId, now: int)
    requires Valid(z)
    requires forall x :: x in z && x.member != p ==> x.score < now
    ensures var t := AddFeed(z, p, now); t[|t| - 1] == Entry(p, now) && p in Members(t)
  {
    var a := ZAdd(z, p, now);
    TrimIsSuffix(a);
    RemoveValid(z, p);
    InsertTop(Remove(z, p), Entry(p, now));
    var t := AddFeed(z, p, now);
    assert t[|t| - 1] in t;
  }

  /** Re-adding with the same score is a no-op: delivering the same post
      twice at the same instant leaves the feed as delivering it once. */
  lemma AddFeedIdempotent(z: seq<Entry>, p: PostId, now: int)
    requires Valid(z)
    ensures AddFeed(AddFeed(z, p, now), p, now) == AddFeed(z, p, now)
  {
    var a := ZAdd(z, p, now);
    var t := AddFeed(z, p, now);
    var e := Entry(p, now);
    AddFeedEvictsLowest(z, p, now);
    if e in t {
      ZAddPresent(t, e);
      TrimIsSuffix(t);
    } else {
      // e was evicted: it ranks below everything kept, so it is evicted again
      assert e in a;
      RemoveAbsent(t, p);
      assert Remove(t, p) == t;
      InsertBottom(t, e);
      var b := ZAdd(t, p, now);
      assert b == [e] + t;
      TrimIsSuffix(b);
      assert b[1..] == t;
    }
  }

  /** Re-adding a post that the feed already holds, at any later time, keeps
      the member set: only its score moves. */
  lemma ReAddKeepsMembers(z: seq<Entry>, p: PostId, now: int)
    requires Valid(z) && p in Members(z) && |z| <= MAX_FEED_SIZE
    ensures Members(AddFeed(z, p, now)) == Members(z)
    ensures |AddFeed(z, p, now)| == |z|
  {
    var a := ZAdd(z, p, now);
    TrimIsSuffix(a);
  }

  /** Dropping a prefix of a sorted set drops its lowest entries. */
  lemma SuffixKeepsTop(a: seq<Entry>, d: nat)
    requires Valid(a) && d <= |a|
    ensures Valid(a[d..])
    ensures forall x, y :: x in a && x !in a[d..] && y in a[d..] ==> Below(x, y)
  {
    var t := a[d..];
    assert forall k :: d <= k < |a| ==> a[k] == t[k - d];
    forall x, y | x in a && x !in t && y in t ensures Below(x, y) {
      var i :| 0 <= i < |a| && a[i] == x;
      var j :| 0 <= j < |t| && t[j] == y;
      assert a[d + j] == y;
      assert i < d;
    }
  }

  /** addToUserFeed(userId, postId): only `newsfeed:user:<userId>` changes;
      it ends with at most MAX_FEED_SIZE entries and a fresh hour to live. */
  function AddToUserFeed(r: Redis, u: UserId, p: PostId, now: int): (r': Redis)
    requires Wf(r)
    ensures Wf(r')
    ensures FeedKey(u) in r.faulty ==> r' == r
    ensures FeedKey(u) !in r.faulty ==>
      && u in r'.feeds
      && r'.feeds[u] == Feed(AddFeed(FeedOf(r, u), p, now), ExpiresIn(NEWS_FEED_CACHE_TTL))
      && |FeedOf(r', u)| <= MAX_FEED_SIZE
    ensures FeedsAgreeExcept(r, r', u) && OnlyFeedsChanged(r, r')
  {
    if FeedKey(u) in r.faulty then r
    else r.(feeds := r.feeds[u := Feed(AddFeed(FeedOf(r, u), p, now), ExpiresIn(NEWS_FEED_CACHE_TTL))])
  }

  /** With a never-decreasing clock strictly ahead of the other entries, the
      post just fanned out is in the user's feed afterwards. */
  lemma AddedPostSurvives(r: Redis, u: UserId, p: PostId, now: int)
    requires Wf(r) && FeedKey(u) !in r.faulty
    requires forall x :: x in FeedOf(r, u) && x.member != p ==> x.score < now
    ensures p in Members(FeedOf(AddToUserFeed(r, u, p, now), u))
  {
    AddFeedKeepsNewest(FeedOf(r, u), p, now);
  }

  /** removeFromUserFeed(userId, postId): ZREM; a set left empty disappears
      with its expiry. */
  function RemoveFromUserFeed(r: Redis, u: UserId, p: PostId): (r': Redis)
    requires Wf(r)
    ensures Wf(r')
    ensures FeedKey(u) in r.faulty ==> r' == r
    ensures FeedKey(u) !in r.faulty ==>
      && (forall x :: x in FeedOf(r', u) <==> x in FeedOf(r, u) && x.member != p)
      && Members(FeedOf(r', u)) == Members(FeedOf(r, u)) - {p}
      && (u in r'.feeds ==> u in r.feeds && r'.feeds[u].expiry == r.feeds[u].expiry)
    ensures FeedsAgreeExcept(r, r', u) && OnlyFeedsChanged(r, r')
  {
    if FeedKey(u) in r.faulty then r
    else
      var z := FeedOf(r, u);
      RemoveValid(z, p);
      var z' := Remove(z, p);
      if z' == [] then r.(feeds := r.feeds - {u})
      else r.(feeds := r.feeds[u := Feed(z', r.feeds[u].expiry)])
  }

  /** The list a read returns: the members of the window, top first. */
  lemma TopWindow(z: seq<Entry>, f: seq<Entry>, k: nat)
    requires Valid(z) && Descending(f) && k <= |f|
    requires forall x :: x in f ==> x in z
    ensures var ids := MemberList(f[..k]);
      && |ids| == k
      && (forall i :: 0 <= i < k ==> ids[i] in Members(z) && ScoreOf(z, ids[i]) == f[i].score)
      && Distinct(ids)
      && (forall x, i :: x in f && x.member !in ids && 0 <= i < k ==> Below(x, f[i]))
      && (k == |f| ==> forall x :: x in f ==> x.member in ids)
  {
    var w := f[..k];
    var ids := MemberList(w);
    forall i | 0 <= i < k ensures ids[i] in Members(z) && ScoreOf(z, ids[i]) == f[i].score {
      assert f[i] in f;
      ScoreOfEntry(z, f[i]);
    }
    DescendingDistinct(f);
    SubsetDistinctMembers(z, f);
    PrefixIsTop(f, k);
    forall x, i | x in f && x.member !in ids && 0 <= i < k ensures Below(x, f[i]) {
      assert forall j :: 0 <= j < |w| ==> ids[j] == w[j].member;
      assert x !in w;
    }
    if k == |f| {
      forall x | x in f ensures x.member in ids {
        var j :| 0 <= j < |f| && f[j] == x;
        assert ids[j] == x.member;
      }
    }
  }

  /** Whether `m` is eligible for a read with the given cursor: with a
      cursor, only scores in [0, cursor - 1] are. */
  predicate InWindow(z: seq<Entry>, m: PostId, cursor: Option<int>)
    requires m in Members(z)
  {
    cursor.None? || 0 <= ScoreOf(z, m) <= cursor.value - 1
  }

  /** The entries a read reports: without a cursor ZREVRANGE 0 (size - 1);
      with one ZREVRANGEBYSCORE 0 (cursor - 1) LIMIT 0 size. */
  function ReadWindow(z: seq<Entry>, cursor: Option<int>, size: int): seq<Entry> {
    match cursor
    case Some(c) => RevRangeByScore(z, 0, c - 1, size)
    case None => RevRange(z, 0, size - 1)
  }

  /** The contract of a read, stated on one sorted set. */
  predicate ReadContract(z: seq<Entry>, cursor: Option<int>, size: int, ids: seq<PostId>)
  {
    && (forall i :: 0 <= i < |ids| ==> ids[i] in Members(z))
    && (forall i :: 0 <= i < |ids| ==> InWindow(z, ids[i], cursor))
    && Distinct(ids)
    && (forall i, j :: 0 <= i < j < |ids| ==> ScoreOf(z, ids[j]) <= ScoreOf(z, ids[i]))
    && (forall m, i ::
         (m in Members(z) && m !in ids && InWindow(z, m, cursor) && 0 <= i < |ids|
          ==> ScoreOf(z, m) <= ScoreOf(z, ids[i])))
    && (size >= 1 ==> |ids| <= size)
    && (((cursor.Some? && size < 0) || (1 <= size && |ids| < size)) ==>
         forall m :: m in Members(z) && InWindow(z, m, cursor) ==> m in ids)
    && (cursor.Some? && size == 0 ==> ids == [])
    && (cursor.None? && size <= 0 ==> |ids| == if |z| + size < 0 then 0 else |z| + size)
  }

  /** The entries a read may report, top first: the whole set, or with a
      cursor those scored in [0, cursor - 1]. */
  function Candidates(z: seq<Entry>, cursor: Option<int>): (f: seq<Entry>)
    requires Valid(z)
    ensures Descending(f)
    ensures forall x :: x in f ==> x in z
    ensures forall x :: x in f ==> InWindow(z, x.member, cursor)
    ensures forall m :: m in Members(z) && InWindow(z, m, cursor) ==> exists x :: x in f && x.member == m
  {
    CandidatesFacts(z, cursor);
    match cursor
    case Some(c) => ScoreFilter(Reverse(z), 0, c - 1)
    case None => Reverse(z)
  }

  lemma CandidatesFacts(z: seq<Entry>, cursor: Option<int>)
    requires Valid(z)
    ensures var f := match cursor
        case Some(c) => ScoreFilter(Reverse(z), 0, c - 1)
        case None => Reverse(z);
      && Descending(f)
      && (forall x :: x in f ==> x in z && x.member in Members(z) && InWindow(z, x.member, cursor))
      && (forall m :: m in Members(z) && InWindow(z, m, cursor) ==> exists x :: x in f && x.member == m)
  {
    var d := Reverse(z);
    ReverseDescending(z);
    forall x | x in d ensures x.member in Members(z) && ScoreOf(z, x.member) == x.score {
      ScoreOfEntry(z, x);
    }
    forall m | m in Members(z) && InWindow(z, m, cursor) ensures exists x :: x in d && x.member == m && InWindow(z, m, cursor) && x.score == ScoreOf(z, m) {
      var x :| x in z && x.member == m;
      ScoreOfEntry(z, x);
      assert x in d;
    }
  }

  /** A read reports a prefix of the candidates; how long a prefix depends
      on `size` as ZREVRANGE and LIMIT interpret it. */
  lemma WindowIsPrefix(z: seq<Entry>, cursor: Option<int>, size: int)
    requires Valid(z)
    ensures var f := Candidates(z, cursor); var w := ReadWindow(z, cursor, size);
      && |w| <= |f| && w == f[..|w|]
      && (size >= 1 ==> |w| <= size)
      && (((cursor.Some? && size < 0) || (1 <= size && |w| < size)) ==> |w| == |f|)
      && (cursor.Some? && size == 0 ==> w == [])
      && (cursor.None? && size <= 0 ==> |w| == if |z| + size < 0 then 0 else |z| + size)
  {
    var w := ReadWindow(z, cursor, size);
    if cursor.None? {
      var d := Reverse(z);
      match RankSpan(|d|, 0, size - 1)
      case NoSpan => assert w == [] == d[..0];
      case Span(lo, hi) => assert lo == 0;
    }
  }

  lemma ReadWindowFacts(z: seq<Entry>, cursor: Option<int>, size: int)
    requires Valid(z)
    ensures ReadContract(z, cursor, size, MemberList(ReadWindow(z, cursor, size)))
  {
    var f := Candidates(z, cursor);
    var w := ReadWindow(z, cursor, size);
    WindowIsPrefix(z, cursor, size);
    var k := |w|;
    var ids := MemberList(f[..k]);
    assert MemberList(w) == ids;
    TopWindow(z, f, k);
    PrefixInWindow(z, cursor, f, k);
    PrefixOutranks(z, cursor, f, k);
    PrefixOrdered(z, f, k);
    if k == |f| {
      PrefixCovers(z, cursor);
    }
  }

  /** The ids of a top-k prefix of a descending list of entries of `z` come
      in non-increasing score order. */
  lemma PrefixOrdered(z: seq<Entry>, f: seq<Entry>, k: nat)
    requires Valid(z) && Descending(f) && k <= |f|
    requires forall x :: x in f ==> x in z
    ensures var ids := MemberList(f[..k]);
      && (forall i :: 0 <= i < |ids| ==> ids[i] in Members(z))
      && forall i, j :: 0 <= i < j < |ids| ==> ScoreOf(z, ids[j]) <= ScoreOf(z, ids[i])
  {
    TopWindow(z, f, k);
  }

  /** Reporting every candidate reports every window member. */
  lemma PrefixCovers(z: seq<Entry>, cursor: Option<int>)
    requires Valid(z)
    ensures var f := Candidates(z, cursor);
      forall m :: m in Members(z) && InWindow(z, m, cursor) ==> m in MemberList(f[..|f|])
  {
    var f := Candidates(z, cursor);
    TopWindow(z, f, |f|);
  }

  /** Every id of a top-k prefix of a list of window entries lies in the
      window. */
  lemma PrefixInWindow(z: seq<Entry>, cursor: Option<int>, f: seq<Entry>, k: nat)
    requires Valid(z) && Descending(f) && k <= |f|
    requires forall x :: x in f ==> x in z
    requires forall x :: x in f ==> InWindow(z, x.member, cursor)
    ensures var ids := MemberList(f[..k]);
      forall i :: 0 <= i < |ids| ==> InWindow(z, ids[i], cursor)
  {
    TopWindow(z, f, k);
    var ids := MemberList(f[..k]);
    forall i | 0 <= i < |ids| ensures InWindow(z, ids[i], cursor) {
      assert f[i] in f;
    }
  }

  /** When `f` lists every window member, a window member left out of a
      top-k prefix scores no higher than any id the prefix reports. */
  lemma PrefixOutranks(z: seq<Entry>, cursor: Option<int>, f: seq<Entry>, k: nat)
    requires Valid(z) && Descending(f) && k <= |f|
    requires forall x :: x in f ==> x in z
    requires forall m :: m in Members(z) && InWindow(z, m, cursor) ==> exists x :: x in f && x.member == m
    ensures var ids := MemberList(f[..k]);
      && (forall i :: 0 <= i < |ids| ==> ids[i] in Members(z))
      && (forall m, i :: m in Members(z) && m !in ids && InWindow(z, m, cursor) && 0 <= i < |ids|
           ==> ScoreOf(z, m) <= ScoreOf(z, ids[i]))
  {
    TopWindow(z, f, k);
    var ids := MemberList(f[..k]);
    forall m, i | m in Members(z) && m !in ids && InWindow(z, m, cursor) && 0 <= i < |ids|
      ensures ScoreOf(z, m) <= ScoreOf(z, ids[i])
    {
      var x :| x in f && x.member == m;
      ScoreOfEntry(z, x);
      assert Below(x, f[i]);
    }
  }

  /** getUserFeed(userId, cursor, size). The cursor is compared with scores
      (insertion times), not with post ids. An error reads as empty. */
  function GetUserFeed(r: Redis, u: UserId, cursor: Option<int>, size: int): (ids: seq<PostId>)
    requires Wf(r)
    ensures FeedKey(u) in r.faulty ==> ids == []
    ensures FeedKey(u) !in r.faulty ==> ReadContract(FeedOf(r, u), cursor, size, ids)
  {
    if FeedKey(u) in r.faulty then []
    else
      ReadWindowFacts(FeedOf(r, u), cursor, size);
      MemberList(ReadWindow(FeedOf(r, u), cursor, size))
  }

  /** isCacheMiss(userId, requestedSize): fewer cached ids than both the
      threshold and the request; true whenever the size cannot be read. */
  function IsCacheMiss(r: Redis, u: UserId, requestedSize: int): (miss: bool)
    ensures miss <==> FeedKey(u) in r.faulty || |FeedOf(r, u)| < Min(CACHE_MISS_THRESHOLD, requestedSize)
  {
    var n := |FeedOf(r, u)|;
    FeedKey(u) in r.faulty || (n < CACHE_MISS_THRESHOLD && n < requestedSize)
  }

  /** invalidateUserFeed(userId): DEL of the whole key. */
  function InvalidateUserFeed(r: Redis, u: UserId): (r': Redis)
    requires Wf(r)
    ensures Wf(r')
    ensures FeedKey(u) in r.faulty ==> r' == r
    ensures FeedKey(u) !in r.faulty ==> u !in r'.feeds && FeedOf(r', u) == []
    ensures FeedsAgreeExcept(r, r', u) && OnlyFeedsChanged(r, r')
  {
    if FeedKey(u) in r.faulty then r else r.(feeds := r.feeds - {u})
  }

  /** After an invalidation that went through, every read of at least one
      id is a miss. */
  lemma InvalidateThenMiss(r: Redis, u: UserId, n: int)
    requires Wf(r) && n >= 1
    requires FeedKey(u) !in r.faulty
    ensures IsCacheMiss(InvalidateUserFeed(r, u), u, n)
  {
  }

  /** With a clock ahead of every other entry, the post just added ranks
      first in the feed: it is the head of the next uncursored read. */
  lemma AddedPostReadFirst(r: Redis, u: UserId, p: PostId, now: int, size: int)
    requires Wf(r) && FeedKey(u) !in r.faulty && size >= 1
    requires forall x :: x in FeedOf(r, u) && x.member != p ==> x.score < now
    ensures var ids := GetUserFeed(AddToUserFeed(r, u, p, now), u, None, size);
      |ids| >= 1 && ids[0] == p
  {
    var t := FeedOf(AddToUserFeed(r, u, p, now), u);
    AddFeedKeepsNewest(FeedOf(r, u), p, now);
    assert t[|t| - 1] == Entry(p, now);
    var d := Reverse(t);
    assert d[0] == Entry(p, now);
    match RankSpan(|d|, 0, size - 1)
    case NoSpan =>
    case Span(lo, hi) =>
      assert lo == 0 && RevRange(t, 0, size - 1)[0] == d[0];
  }

  /** A cursor below every score reads nothing, which the read path then
      treats as a miss: with millisecond scores and post-id cursors this
      is the usual outcome of a cursored cache read. */
  lemma CursorBelowScores(r: Redis, u: UserId, c: int, size: int)
    requires Wf(r)
    requires forall x :: x in FeedOf(r, u) ==> x.score >= c
    ensures GetUserFeed(r, u, Some(c), size) == []
  {
    var ids := GetUserFeed(r, u, Some(c), size);
    if ids != [] {
      var z := FeedOf(r, u);
      assert ids[0] in Members(z);
      var x :| x in z && x.member == ids[0];
      ScoreOfEntry(z, x);
    }
  }
}
