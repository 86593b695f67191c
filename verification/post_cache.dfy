/** The post content cache (`PostCacheService`): `post:<id>` keys holding a
    serialised post for two hours, an approximate counter
    `post_cache:count`, and a clean-up sweep that runs once the counter
    reaches MAX_CACHED_POSTS. Every failure is caught inside the service. */
module PostCache {
  import opened Wrappers
  import opened Domain
  import opened Keyspace

  const POST_CACHE_TTL := 7200
  const MAX_CACHED_POSTS := 100000
  /** The sweep deletes only when more than 80% of MAX_CACHED_POSTS post
      keys exist (`keys.size() > MAX_CACHED_POSTS * 0.8`). */
  const CLEANUP_TRIGGER := 80000
  /** ... and deletes at most down to 70% (`limit(keys.size() - MAX_CACHED_POSTS * 0.7)`). */
  const CLEANUP_TARGET := 70000
  /** A key is old when its remaining TTL is under half of POST_CACHE_TTL. */
  const SHORT_TTL := 3600

  /** The reading of TTL on `post:<k>`: -2 for a missing key, -1 for a key
      without expiry, the remaining seconds otherwise. */
  function TtlOf(r: Redis, k: PostId): int {
    if k in r.posts then TtlReading(r.posts[k].expiry) else -2
  }

  /** Every cached post value sits under its own id. */
  predicate Coherent(r: Redis) {
    forall k :: k in r.posts && r.posts[k].value.PostValue? ==> r.posts[k].value.post.id == k
  }

  /** Nothing outside the post keys and the counter differs. */
  predicate OnlyPostsChanged(r: Redis, r': Redis) {
    r'.feeds == r.feeds && r'.users == r.users && r'.faulty == r.faulty
  }

  /** The sweep of `cleanupOldPosts` over the scanned ids `ks`, lazily as the
      stream runs: read the TTL of each key in turn; a key under SHORT_TTL is
      deleted and the counter decremented; the stream ends after `budget`
      deletions. The first failing command ends the whole sweep. */
  function Sweep(r: Redis, ks: seq<PostId>, budget: nat): (r': Redis)
    ensures OnlyPostsChanged(r, r')
    ensures r'.posts.Keys <= r.posts.Keys
    ensures forall k :: k in r'.posts ==> r'.posts[k] == r.posts[k]
    ensures forall k :: k in r.posts && k !in r'.posts ==> k in ks && TtlOf(r, k) < SHORT_TTL
    ensures r'.count <= r.count
    decreases |ks|
  {
    if budget == 0 || ks == [] then r
    else
      var k := ks[0];
      if PostKey(k) in r.faulty then r
      else if TtlOf(r, k) < SHORT_TTL then
        var deleted := r.(posts := r.posts - {k});
        if CountKey in r.faulty then deleted
        else Sweep(deleted.(count := r.count - 1), ks[1..], budget - 1)
      else Sweep(r, ks[1..], budget)
  }

  /** The number of keys a sweep deletes, over a scan that lists distinct
      existing keys: at most the budget, and (with a working counter) exactly
      what the counter drops by. */
  lemma {:induction false} SweepCounts(r: Redis, ks: seq<PostId>, budget: nat)
    requires Distinct(ks) && forall i :: 0 <= i < |ks| ==> ks[i] in r.posts
    ensures var r' := Sweep(r, ks, budget);
      && |r.posts.Keys| - |r'.posts.Keys| <= budget
      && (CountKey !in r.faulty ==> r'.count == r.count - (|r.posts.Keys| - |r'.posts.Keys|))
    decreases |ks|, 1
  {
    if budget == 0 || ks == [] {
    } else {
      var k := ks[0];
      if PostKey(k) in r.faulty {
      } else if TtlOf(r, k) < SHORT_TTL {
        if CountKey !in r.faulty {
          SweepDeletes(r, ks, budget);
        } else {
          DeleteOneKey(r, k);
          assert Sweep(r, ks, budget) == r.(posts := r.posts - {k});
        }
      } else {
        assert Sweep(r, ks, budget) == Sweep(r, ks[1..], budget);
        TailListed(r, r, ks);
        SweepCounts(r, ks[1..], budget);
      }
    }
  }

  /** The step of SweepCounts that deletes the first key and decrements a
      working counter. */
  lemma {:induction false} SweepDeletes(r: Redis, ks: seq<PostId>, budget: nat)
    requires Distinct(ks) && forall i :: 0 <= i < |ks| ==> ks[i] in r.posts
    requires budget > 0 && ks != [] && PostKey(ks[0]) !in r.faulty && TtlOf(r, ks[0]) < SHORT_TTL
    requires CountKey !in r.faulty
    ensures var r' := Sweep(r, ks, budget);
      && |r.posts.Keys| - |r'.posts.Keys| <= budget
      && r'.count == r.count - (|r.posts.Keys| - |r'.posts.Keys|)
    decreases |ks|, 0
  {
    var k := ks[0];
    var next := r.(posts := r.posts - {k}).(count := r.count - 1);
    var r' := Sweep(next, ks[1..], budget - 1);
    assert Sweep(r, ks, budget) == r';
    assert |next.posts.Keys| == |r.posts.Keys| - 1 by {
      DeleteOneKey(r, k);
    }
    assert |next.posts.Keys| - |r'.posts.Keys| <= budget - 1
      && r'.count == next.count - (|next.posts.Keys| - |r'.posts.Keys|) by {
      TailListed(r, next, ks);
      SweepCounts(next, ks[1..], budget - 1);
    }
  }

  /** Deleting an existing post key takes one key away. */
  lemma DeleteOneKey(r: Redis, k: PostId)
    requires k in r.posts
    ensures (r.posts - {k}).Keys == r.posts.Keys - {k}
    ensures |(r.posts - {k}).Keys| == |r.posts.Keys| - 1
  {
  }

  /** The rest of a scan of distinct keys still lists distinct keys that
      exist once at most the first key is gone. */
  lemma TailListed(r: Redis, r': Redis, ks: seq<PostId>)
    requires ks != [] && Distinct(ks) && forall i :: 0 <= i < |ks| ==> ks[i] in r.posts
    requires r.posts.Keys - {ks[0]} <= r'.posts.Keys
    ensures Distinct(ks[1..]) && forall i :: 0 <= i < |ks[1..]| ==> ks[1..][i] in r'.posts
  {
    var t := ks[1..];
    forall i | 0 <= i < |t| ensures t[i] in r'.posts {
      assert t[i] == ks[i + 1] != ks[0];
    }
    forall i, j | 0 <= i < j < |t| ensures t[i] != t[j] {
      assert t[i] == ks[i + 1] && t[j] == ks[j + 1];
    }
  }

  /** cleanupOldPosts(): KEYS post:*, then the bounded sweep. */
  function CleanupOldPosts(r: Redis): (r': Redis)
    ensures OnlyPostsChanged(r, r')
    ensures |r.posts.Keys| <= CLEANUP_TRIGGER ==> r' == r
    ensures forall k :: k in r'.posts ==> k in r.posts && r'.posts[k] == r.posts[k]
    ensures forall k :: k in r.posts && k !in r'.posts ==> TtlOf(r, k) < SHORT_TTL
  {
    SweepScanned(r, SortedIds(r.posts.Keys))
  }

  /** The sweep over a scan `ks`, entered only when it lists more than
      CLEANUP_TRIGGER keys and bounded so that CLEANUP_TARGET of them stay. */
  function SweepScanned(r: Redis, ks: seq<PostId>): (r': Redis)
    ensures OnlyPostsChanged(r, r')
    ensures |ks| <= CLEANUP_TRIGGER ==> r' == r
    ensures forall k :: k in r'.posts ==> k in r.posts && r'.posts[k] == r.posts[k]
    ensures forall k :: k in r.posts && k !in r'.posts ==> TtlOf(r, k) < SHORT_TTL
  {
    if |ks| > CLEANUP_TRIGGER then Sweep(r, ks, |ks| - CLEANUP_TARGET) else r
  }

  /** A sweep never takes the cache below CLEANUP_TARGET keys, and a working
      counter drops by exactly the number of keys deleted. */
  lemma CleanupBounds(r: Redis)
    ensures var r' := CleanupOldPosts(r);
      && |r'.posts.Keys| >= (if |r.posts.Keys| > CLEANUP_TRIGGER then CLEANUP_TARGET else |r.posts.Keys|)
      && (CountKey !in r.faulty ==> r'.count == r.count - (|r.posts.Keys| - |r'.posts.Keys|))
  {
    ScanListsKeys(r);
    SweepScannedBounds(r, SortedIds(r.posts.Keys));
  }

  lemma SweepScannedBounds(r: Redis, ks: seq<PostId>)
    requires |ks| == |r.posts.Keys|
    requires Distinct(ks) && forall i :: 0 <= i < |ks| ==> ks[i] in r.posts
    ensures var r' := SweepScanned(r, ks);
      && |r'.posts.Keys| >= (if |ks| > CLEANUP_TRIGGER then CLEANUP_TARGET else |ks|)
      && (CountKey !in r.faulty ==> r'.count == r.count - (|r.posts.Keys| - |r'.posts.Keys|))
  {
    if |ks| > CLEANUP_TRIGGER {
      SweepCounts(r, ks, |ks| - CLEANUP_TARGET);
    }
  }

  /** The KEYS scan lists every post key once. */
  lemma ScanListsKeys(r: Redis)
    ensures var ks := SortedIds(r.posts.Keys);
      && |ks| == |r.posts.Keys|
      && Distinct(ks) && forall i :: 0 <= i < |ks| ==> ks[i] in r.posts
  {
    var ks := SortedIds(r.posts.Keys);
    forall i | 0 <= i < |ks| ensures ks[i] in r.posts {
      assert ks[i] in ks;
    }
  }

  /** cachePost(postId, value): read the counter (INCRBY 0), sweep when it
      has reached MAX_CACHED_POSTS, SET the key with a two-hour TTL, then
      increment only when the key is absent, which it never is right after
      the SET. */
  function CachePost(r: Redis, id: PostId, v: Cached): (r': Redis)
    ensures OnlyPostsChanged(r, r')
    ensures CountKey in r.faulty ==> r' == r
    ensures CountKey !in r.faulty && PostKey(id) !in r.faulty ==>
      id in r'.posts && r'.posts[id] == Slot(v, ExpiresIn(POST_CACHE_TTL))
    ensures forall k :: k in r'.posts ==>
      || (k in r.posts && r'.posts[k] == r.posts[k])
      || (k == id && r'.posts[k] == Slot(v, ExpiresIn(POST_CACHE_TTL)))
    ensures forall k :: k in r.posts && k !in r'.posts ==> TtlOf(r, k) < SHORT_TTL
    ensures r.count < MAX_CACHED_POSTS || |r.posts.Keys| <= CLEANUP_TRIGGER ==>
      && r'.count == r.count
      && r'.posts == (if CountKey in r.faulty || PostKey(id) in r.faulty then r.posts
                      else r.posts[id := Slot(v, ExpiresIn(POST_CACHE_TTL))])
  {
    if CountKey in r.faulty then r
    else
      var swept := if r.count >= MAX_CACHED_POSTS then CleanupOldPosts(r) else r;
      if PostKey(id) in swept.faulty then swept
      else
        var stored := swept.(posts := swept.posts[id := Slot(v, ExpiresIn(POST_CACHE_TTL))]);
        if id in stored.posts then stored
        else stored.(count := stored.count + 1)
  }

  /** The counter is never incremented by cachePost: the presence test runs
      after the SET, so the increment branch is unreachable. */
  lemma CachePostNeverIncrements(r: Redis, id: PostId, v: Cached)
    ensures CachePost(r, id, v).count <= r.count
    ensures id !in r.posts && r.count < MAX_CACHED_POSTS ==> CachePost(r, id, v).count == r.count
  {
    if CountKey !in r.faulty && r.count >= MAX_CACHED_POSTS {
      CleanupBounds(r);
    }
  }

  /** getCachedPost(postId): the stored value, or null on absence or error. */
  function GetCachedPost(r: Redis, id: PostId): (v: Option<Cached>)
    ensures v.None? <==> PostKey(id) in r.faulty || id !in r.posts
    ensures v.Some? ==> v.value == r.posts[id].value
  {
    if PostKey(id) in r.faulty || id !in r.posts then None else Some(r.posts[id].value)
  }

  /** invalidatePost(postId): DEL, then DECR of the counter whether or not a
      key was deleted. */
  function InvalidatePost(r: Redis, id: PostId): (r': Redis)
    ensures OnlyPostsChanged(r, r')
    ensures PostKey(id) in r.faulty ==> r' == r
    ensures PostKey(id) !in r.faulty ==> r'.posts == r.posts - {id}
    ensures PostKey(id) !in r.faulty && CountKey !in r.faulty ==> r'.count == r.count - 1
    ensures PostKey(id) !in r.faulty && CountKey in r.faulty ==> r'.count == r.count
  {
    if PostKey(id) in r.faulty then r
    else
      var deleted := r.(posts := r.posts - {id});
      if CountKey in r.faulty then deleted else deleted.(count := deleted.count - 1)
  }

  /** A value written by cachePost reads back, whatever the sweep did. */
  lemma CacheThenGet(r: Redis, id: PostId, v: Cached)
    requires CountKey !in r.faulty && PostKey(id) !in r.faulty
    ensures GetCachedPost(CachePost(r, id, v), id) == Some(v)
  {
  }

  /** Writing or invalidating one post id never changes what another id
      reads, except that a sweep may drop an old key. */
  lemma OtherPostsKeep(r: Redis, id: PostId, other: PostId, v: Cached)
    requires other != id
    ensures GetCachedPost(InvalidatePost(r, id), other) == GetCachedPost(r, other)
    ensures var g := GetCachedPost(CachePost(r, id, v), other);
      g == GetCachedPost(r, other) || (g.None? && TtlOf(r, other) < SHORT_TTL)
  {
  }

  /** After an invalidation that went through, the id reads as absent. */
  lemma InvalidateThenGet(r: Redis, id: PostId)
    requires PostKey(id) !in r.faulty
    ensures GetCachedPost(InvalidatePost(r, id), id).None?
  {
  }

  /** Invalidating an id that is not cached still decrements the counter,
      which therefore drifts below the number of post keys. */
  lemma InvalidateAbsentDecrements(r: Redis, id: PostId)
    requires id !in r.posts && PostKey(id) !in r.faulty && CountKey !in r.faulty
    ensures InvalidatePost(r, id).posts == r.posts
    ensures InvalidatePost(r, id).count == r.count - 1
  {
  }

  /** Caching a post under its own id keeps the cache coherent. */
  lemma CachePostCoherent(r: Redis, p: Post)
    requires Coherent(r)
    ensures Coherent(CachePost(r, p.id, PostValue(p)))
  {
  }

  /** A post just written by cachePost is never old enough for a later
      sweep, so it survives any further cachePost. */
  lemma FreshPostSurvives(r: Redis, id: PostId, other: PostId, v: Cached, w: Cached)
    requires CountKey !in r.faulty && PostKey(id) !in r.faulty && other != id
    ensures GetCachedPost(CachePost(CachePost(r, id, v), other, w), id) == Some(v)
  {
    var r1 := CachePost(r, id, v);
    assert TtlOf(r1, id) == POST_CACHE_TTL;
  }
}
