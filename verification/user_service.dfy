/** The follow graph and account operations (`UserService`): each write is
    one transaction on the store, and a follow or unfollow then invalidates
    the feed cache of the follower only. Lookups that fail raise before any
    change, so an `Err` result means nothing changed. */
module UserService {
  import opened Wrappers
  import opened Domain
  import opened Keyspace
  import opened NewsFeedCache
  import opened Store

  /** findById(id).orElseThrow(...) with the given failure. */
  function FindUser(db: Db, id: UserId, e: Error): (r: Result<User, Error>)
    requires db.Valid()
    ensures r.Ok? <==> id in db.users
    ensures r.Ok? ==> r.value == db.users[id] && r.value.id == id
    ensures r.Err? ==> r.error == e
  {
    if id in db.users then Ok(db.users[id]) else Err(e)
  }

  /** createUser(dto): saves a new user and reports it with zero counts. */
  function CreateUser(db: Db, dto: UserDto, now: int): (r: (Db, UserDto))
    requires db.Valid()
    ensures r.0.Valid()
    ensures r.1.id !in db.users && r.1.id in r.0.users
    ensures r.0.users[r.1.id] == User(r.1.id, dto.username, dto.email, now)
    ensures r.1.followingCount == 0 && r.1.followersCount == 0
    ensures r.0.follows == db.follows && r.0.posts == db.posts
    ensures forall k :: k in db.users ==> k in r.0.users && r.0.users[k] == db.users[k]
  {
    var (db', u) := SaveUser(db, dto.username, dto.email, now);
    (db', ToUserDto(u))
  }

  /** getUserById(id): the user with its numbers of outgoing and incoming
      follow rows. */
  function GetUserById(db: Db, id: UserId): (r: Result<UserDto, Error>)
    requires db.Valid()
    ensures r.Err? <==> id !in db.users
    ensures r.Err? ==> r.error == UserNotFound
    ensures r.Ok? ==>
      && r.value.id == id && r.value.username == db.users[id].username
      && r.value.followingCount == |set f | f in db.follows && f.follower == id :: f.following|
      && r.value.followersCount == |set f | f in db.follows && f.following == id :: f.follower|
  {
    var u :- FindUser(db, id, UserNotFound);
    CountsAreDegrees(db.follows, id);
    Ok(UserDto(u.id, u.username, u.email, u.createdAt,
               CountByFollower(db.follows, id), CountByFollowing(db.follows, id)))
  }

  /** The simple DTOs (zero counts) of a list of existing user ids. */
  function ToDtos(db: Db, ids: seq<UserId>): (ds: seq<UserDto>)
    requires db.Valid()
    requires forall i :: 0 <= i < |ids| ==> ids[i] in db.users
    ensures |ds| == |ids|
    ensures forall i :: 0 <= i < |ids| ==> ds[i] == ToUserDto(db.users[ids[i]]) && ds[i].id == ids[i]
  {
    if ids == [] then [] else [ToUserDto(db.users[ids[0]])] + ToDtos(db, ids[1..])
  }

  /** getFollowingList(id): the users `id` follows, each once. */
  function GetFollowingList(db: Db, id: UserId): (r: Result<seq<UserDto>, Error>)
    requires db.Valid()
    ensures r.Err? <==> id !in db.users
    ensures r.Ok? ==>
      && (forall i :: 0 <= i < |r.value| ==> Follow(id, r.value[i].id) in db.follows)
      && (forall x :: Follow(id, x) in db.follows ==> exists i :: 0 <= i < |r.value| && r.value[i].id == x)
      && (forall i, j :: 0 <= i < j < |r.value| ==> r.value[i].id != r.value[j].id)
  {
    var _ :- FindUser(db, id, UserNotFound);
    var ids := FindFollowingByFollower(db.follows, id);
    assert forall i :: 0 <= i < |ids| ==> ids[i] in db.users by {
      forall i | 0 <= i < |ids| ensures ids[i] in db.users {
        assert ids[i] in ids;
        var k :| 0 <= k < |db.follows| && db.follows[k] == Follow(id, ids[i]);
      }
    }
    var ds := ToDtos(db, ids);
    assert forall i :: 0 <= i < |ds| ==> ds[i].id in ids by {
      forall i | 0 <= i < |ds| ensures ds[i].id in ids {
        assert ds[i].id == ids[i];
      }
    }
    assert forall x :: x in ids ==> exists i :: 0 <= i < |ds| && ds[i].id == x by {
      forall x | x in ids ensures exists i :: 0 <= i < |ds| && ds[i].id == x {
        var i :| 0 <= i < |ids| && ids[i] == x;
        assert ds[i].id == x;
      }
    }
    Ok(ds)
  }

  /** getFollowersList(id): the users following `id`, each once. */
  function GetFollowersList(db: Db, id: UserId): (r: Result<seq<UserDto>, Error>)
    requires db.Valid()
    ensures r.Err? <==> id !in db.users
    ensures r.Ok? ==>
      && (forall i :: 0 <= i < |r.value| ==> Follow(r.value[i].id, id) in db.follows)
      && (forall x :: Follow(x, id) in db.follows ==> exists i :: 0 <= i < |r.value| && r.value[i].id == x)
      && (forall i, j :: 0 <= i < j < |r.value| ==> r.value[i].id != r.value[j].id)
  {
    var _ :- FindUser(db, id, UserNotFound);
    var ids := FindFollowersByFollowing(db.follows, id);
    assert forall i :: 0 <= i < |ids| ==> ids[i] in db.users by {
      forall i | 0 <= i < |ids| ensures ids[i] in db.users {
        assert ids[i] in ids;
        var k :| 0 <= k < |db.follows| && db.follows[k] == Follow(ids[i], id);
      }
    }
    var ds := ToDtos(db, ids);
    assert forall i :: 0 <= i < |ds| ==> ds[i].id in ids by {
      forall i | 0 <= i < |ds| ensures ds[i].id in ids {
        assert ds[i].id == ids[i];
      }
    }
    assert forall x :: x in ids ==> exists i :: 0 <= i < |ds| && ds[i].id == x by {
      forall x | x in ids ensures exists i :: 0 <= i < |ds| && ds[i].id == x {
        var i :| 0 <= i < |ids| && ids[i] == x;
        assert ds[i].id == x;
      }
    }
    Ok(ds)
  }

  /** The reasons a follow is refused, in the order they are checked. */
  function FollowRefusal(db: Db, follower: UserId, target: UserId): Option<Error> {
    if follower !in db.users then Some(FollowerNotFound)
    else if target !in db.users then Some(TargetNotFound)
    else if follower == target then Some(SelfFollow)
    else if Follow(follower, target) in db.follows then Some(AlreadyFollowing)
    else None
  }

  /** followUser(followerId, userId). */
  function FollowUser(db: Db, r: Redis, follower: UserId, target: UserId): (res: Result<(Db, Redis), Error>)
    requires db.Valid() && Wf(r)
    ensures res.Err? <==> FollowRefusal(db, follower, target).Some?
    ensures res.Err? ==> res.error == FollowRefusal(db, follower, target).value
    ensures res.Ok? ==>
      && res.value.0.Valid() && Wf(res.value.1)
      && res.value.0 == db.(follows := db.follows + [Follow(follower, target)])
      && FeedsAgreeExcept(r, res.value.1, follower) && OnlyFeedsChanged(r, res.value.1)
      && (FeedKey(follower) !in r.faulty ==> follower !in res.value.1.feeds)
  {
    var f :- FindUser(db, follower, FollowerNotFound);
    var t :- FindUser(db, target, TargetNotFound);
    if follower == target then Err(SelfFollow)
    else if ExistsByFollowerAndFollowing(db.follows, f.id, t.id) then Err(AlreadyFollowing)
    else
      var db' := db.(follows := db.follows + [Follow(f.id, t.id)]);
      assert Distinct(db'.follows) by {
        forall i, j | 0 <= i < j < |db'.follows| ensures db'.follows[i] != db'.follows[j] {
          if j == |db.follows| {
            assert db'.follows[i] == db.follows[i] && db.follows[i] in db.follows;
          }
        }
      }
      Ok((db', InvalidateUserFeed(r, follower)))
  }

  /** unfollowUser(followerId, userId). */
  function UnfollowUser(db: Db, r: Redis, follower: UserId, target: UserId): (res: Result<(Db, Redis), Error>)
    requires db.Valid() && Wf(r)
    ensures res.Err? <==> follower !in db.users || target !in db.users || Follow(follower, target) !in db.follows
    ensures res.Err? ==>
      res.error == (if follower !in db.users then FollowerNotFound
                    else if target !in db.users then TargetNotFound
                    else FollowNotFound)
    ensures res.Ok? ==>
      && res.value.0.Valid() && Wf(res.value.1)
      && res.value.0.users == db.users && res.value.0.posts == db.posts
      && Follow(follower, target) !in res.value.0.follows
      && (forall x :: x != Follow(follower, target) ==> (x in res.value.0.follows <==> x in db.follows))
      && |res.value.0.follows| == |db.follows| - 1
      && FeedsAgreeExcept(r, res.value.1, follower) && OnlyFeedsChanged(r, res.value.1)
      && (FeedKey(follower) !in r.faulty ==> follower !in res.value.1.feeds)
  {
    var f :- FindUser(db, follower, FollowerNotFound);
    var t :- FindUser(db, target, TargetNotFound);
    match FindByFollowerAndFollowing(db.follows, f.id, t.id)
    case None => Err(FollowNotFound)
    case Some(i) =>
      var db' := db.(follows := DeleteRow(db.follows, i));
      Ok((db', InvalidateUserFeed(r, follower)))
  }

  /** delete(follow): the table without the row at position `i`. */
  function DeleteRow(fs: seq<Follow>, i: nat): (fs': seq<Follow>)
    requires i < |fs| && Distinct(fs)
    ensures Distinct(fs') && |fs'| == |fs| - 1
    ensures fs[i] !in fs'
    ensures forall x :: x != fs[i] ==> (x in fs' <==> x in fs)
    ensures forall x :: x in fs' ==> x in fs
  {
    var fs' := fs[..i] + fs[i + 1..];
    assert forall k :: 0 <= k < |fs'| ==> fs'[k] == (if k < i then fs[k] else fs[k + 1]);
    assert forall x :: x in fs ==> x in fs' || x == fs[i] by {
      forall x | x in fs ensures x in fs' || x == fs[i] {
        var k :| 0 <= k < |fs| && fs[k] == x;
        if k < i {
          assert fs'[k] == x;
        } else if k > i {
          assert fs'[k - 1] == x;
        }
      }
    }
    fs'
  }

  /** isFollowing(followerId, userId). */
  function IsFollowing(db: Db, follower: UserId, target: UserId): (r: Result<bool, Error>)
    requires db.Valid()
    ensures r.Err? <==> follower !in db.users || target !in db.users
    ensures r.Err? ==> r.error == (if follower !in db.users then FollowerNotFound else TargetNotFound)
    ensures r.Ok? ==> (r.value <==> Follow(follower, target) in db.follows)
  {
    var f :- FindUser(db, follower, FollowerNotFound);
    var t :- FindUser(db, target, TargetNotFound);
    Ok(ExistsByFollowerAndFollowing(db.follows, f.id, t.id))
  }

  /** A follow that went through is reported by isFollowing, and the
      follower's next feed read is a miss. */
  lemma FollowThenIsFollowing(db: Db, r: Redis, follower: UserId, target: UserId, n: int)
    requires db.Valid() && Wf(r)
    requires FollowUser(db, r, follower, target).Ok?
    requires FeedKey(follower) !in r.faulty && n >= 1
    ensures var (db', r') := FollowUser(db, r, follower, target).value;
      IsFollowing(db', follower, target) == Ok(true) && IsCacheMiss(r', follower, n)
  {
  }

  /** Following and then unfollowing restores the follow table. */
  lemma FollowUnfollowRoundTrip(db: Db, r: Redis, follower: UserId, target: UserId)
    requires db.Valid() && Wf(r)
    requires FollowUser(db, r, follower, target).Ok?
    ensures var (db', r') := FollowUser(db, r, follower, target).value;
      UnfollowUser(db', r', follower, target).Ok? && UnfollowUser(db', r', follower, target).value.0 == db
  {
    var (db', r') := FollowUser(db, r, follower, target).value;
    var row := Follow(follower, target);
    FindsAppended(db.follows, row);
    assert DeleteRow(db'.follows, |db.follows|) == db.follows by {
      assert db'.follows[..|db.follows|] == db.follows;
    }
  }

  /** The lookup of a row appended to a table that lacked it finds the
      appended position. */
  lemma {:induction false} FindsAppended(fs: seq<Follow>, row: Follow)
    requires row !in fs
    ensures FindByFollowerAndFollowing(fs + [row], row.follower, row.following) == Some(|fs|)
  {
    if fs != [] {
      FindsAppended(fs[1..], row);
      assert (fs + [row])[1..] == fs[1..] + [row];
    }
  }

  /** A follow adds one to the follower's following count and to the
      target's followers count. */
  lemma FollowCounts(db: Db, r: Redis, follower: UserId, target: UserId)
    requires db.Valid() && Wf(r)
    requires FollowUser(db, r, follower, target).Ok?
    ensures var db' := FollowUser(db, r, follower, target).value.0;
      && GetUserById(db', follower).value.followingCount == GetUserById(db, follower).value.followingCount + 1
      && GetUserById(db', target).value.followersCount == GetUserById(db, target).value.followersCount + 1
  {
    var row := Follow(follower, target);
    CountAppend(db.follows, row, follower);
    CountAppend(db.follows, row, target);
  }

  lemma {:induction false} CountAppend(fs: seq<Follow>, row: Follow, u: UserId)
    ensures CountByFollower(fs + [row], u) == CountByFollower(fs, u) + (if row.follower == u then 1 else 0)
    ensures CountByFollowing(fs + [row], u) == CountByFollowing(fs, u) + (if row.following == u then 1 else 0)
  {
    if fs != [] {
      CountAppend(fs[1..], row, u);
      assert (fs + [row])[1..] == fs[1..] + [row];
    }
  }

  /** A refused follow or unfollow changes nothing: the result carries no
      state, so the caller keeps the old store and cache. A self-follow is
      always refused. */
  lemma SelfFollowRefused(db: Db, r: Redis, u: UserId)
    requires db.Valid() && Wf(r) && u in db.users
    ensures FollowUser(db, r, u, u) == Err(SelfFollow)
  {
  }
}
