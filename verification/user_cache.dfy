/** The user content cache (`UserCacheService`): `user:<id>` keys holding a
    serialised user for thirty minutes. Every failure is caught: writes
    become no-ops and reads become null. */
module UserCache {
  import opened Wrappers
  import opened Domain
  import opened Keyspace

  const USER_CACHE_TTL := 1800

  /** Nothing outside the user keys differs. */
  predicate OnlyUsersChanged(r: Redis, r': Redis) {
    r'.feeds == r.feeds && r'.posts == r.posts && r'.count == r.count && r'.faulty == r.faulty
  }

  /** Every cached user value sits under its own id. */
  predicate Coherent(r: Redis) {
    forall k :: k in r.users && r.users[k].value.UserValue? ==> r.users[k].value.user.id == k
  }

  /** cacheUser(userId, value): SET with a thirty-minute TTL. */
  function CacheUser(r: Redis, id: UserId, v: Cached): (r': Redis)
    ensures OnlyUsersChanged(r, r')
    ensures UserKey(id) in r.faulty ==> r' == r
    ensures UserKey(id) !in r.faulty ==>
      id in r'.users && r'.users[id] == Slot(v, ExpiresIn(USER_CACHE_TTL))
    ensures forall k :: k != id ==> (k in r'.users <==> k in r.users)
    ensures forall k :: k != id && k in r.users ==> r'.users[k] == r.users[k]
  {
    if UserKey(id) in r.faulty then r
    else r.(users := r.users[id := Slot(v, ExpiresIn(USER_CACHE_TTL))])
  }

  /** getCachedUser(userId): the stored value, or null on absence or error. */
  function GetCachedUser(r: Redis, id: UserId): (v: Option<Cached>)
    ensures v.None? <==> UserKey(id) in r.faulty || id !in r.users
    ensures v.Some? ==> v.value == r.users[id].value
  {
    if UserKey(id) in r.faulty || id !in r.users then None else Some(r.users[id].value)
  }

  /** invalidateUser(userId): DEL. */
  function InvalidateUser(r: Redis, id: UserId): (r': Redis)
    ensures OnlyUsersChanged(r, r')
    ensures UserKey(id) in r.faulty ==> r' == r
    ensures UserKey(id) !in r.faulty ==> id !in r'.users
    ensures forall k :: k != id ==> (k in r'.users <==> k in r.users)
    ensures forall k :: k != id && k in r.users ==> r'.users[k] == r.users[k]
  {
    if UserKey(id) in r.faulty then r else r.(users := r.users - {id})
  }

  /** A value written reads back, and a second write replaces the first. */
  lemma CacheThenGetUser(r: Redis, id: UserId, v: Cached, w: Cached)
    requires UserKey(id) !in r.faulty
    ensures GetCachedUser(CacheUser(r, id, v), id) == Some(v)
    ensures GetCachedUser(CacheUser(CacheUser(r, id, v), id, w), id) == Some(w)
  {
  }

  /** After an invalidation that went through, the id reads as absent. */
  lemma InvalidateThenGetUser(r: Redis, id: UserId)
    requires UserKey(id) !in r.faulty
    ensures GetCachedUser(InvalidateUser(r, id), id) == None
  {
  }

  /** Operations on one id leave what every other id reads unchanged. */
  lemma OtherUsersKeep(r: Redis, id: UserId, other: UserId, v: Cached)
    requires other != id
    ensures GetCachedUser(CacheUser(r, id, v), other) == GetCachedUser(r, other)
    ensures GetCachedUser(InvalidateUser(r, id), other) == GetCachedUser(r, other)
  {
  }

  /** With a failing key every operation is swallowed: the keyspace is
      unchanged and the read is null. */
  lemma FaultsSwallowed(r: Redis, id: UserId, v: Cached)
    requires UserKey(id) in r.faulty
    ensures CacheUser(r, id, v) == r && InvalidateUser(r, id) == r
    ensures GetCachedUser(r, id) == None
  {
  }

  /** Caching a user under its own id keeps the cache coherent. */
  lemma CacheUserCoherent(r: Redis, u: User)
    requires Coherent(r)
    ensures Coherent(CacheUser(r, u.id, UserValue(u)))
  {
  }
}
