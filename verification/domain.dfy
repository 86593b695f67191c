/** Entities and transfer objects of the news-feed service, and the failure
    reasons its services raise. Identifiers are Java `Long`s, modelled as
    unbounded integers. */
module Domain {

  type UserId = int
  type PostId = int

  /** A registered account (`User` entity). */
  datatype User = User(id: UserId, username: string, email: string, createdAt: int)

  /** A post; `author` is the id of the owning `User` (the JPA `user` association). */
  datatype Post = Post(id: PostId, author: UserId, content: string, mediaUrls: seq<string>, createdAt: int)

  /** One row of the `follows` table: `follower` follows `following`. */
  datatype Follow = Follow(follower: UserId, following: UserId)

  datatype UserDto = UserDto(
    id: UserId, username: string, email: string, createdAt: int,
    followingCount: int, followersCount: int)

  datatype PostDto = PostDto(id: PostId, user: UserDto, content: string, mediaUrls: seq<string>, createdAt: int)

  /** The distinct `RuntimeException`s (by message) and framework exceptions
      that escape the services. */
  datatype Error =
    | UserNotFound        // findUserById in FeedService
    | FollowerNotFound    // the acting follower does not exist
    | TargetNotFound      // the user to (un)follow or check does not exist
    | SelfFollow
    | AlreadyFollowing
    | FollowNotFound      // unfollow of an edge that does not exist
    | InvalidPageSize     // PageRequest.of(0, size) with size < 1
    | DuplicateKey        // Collectors.toMap saw the same user id twice

  /** Entity-to-DTO conversion without follow counts (`convertToUserDto`,
      `convertToSimpleDto`: the counts keep their default 0). */
  function ToUserDto(u: User): (d: UserDto)
    ensures d.id == u.id && d.followingCount == 0 && d.followersCount == 0
  {
    UserDto(u.id, u.username, u.email, u.createdAt, 0, 0)
  }

  /** The ids of a list of posts, in order. */
  function PostIds(ps: seq<Post>): (ids: seq<PostId>)
    ensures |ids| == |ps|
    ensures forall i :: 0 <= i < |ps| ==> ids[i] == ps[i].id
  {
    if ps == [] then [] else [ps[0].id] + PostIds(ps[1..])
  }

  /** No value occurs twice in `s`. */
  predicate Distinct<T(==)>(s: seq<T>) {
    forall i, j :: 0 <= i < j < |s| ==> s[i] != s[j]
  }
  /** The elements of a finite set of ids, in ascending order. */
  function SortedIds(s: set<int>): (r: seq<int>)
    ensures |r| == |s|
    ensures forall x :: x in r <==> x in s
    ensures forall i, j :: 0 <= i < j < |r| ==> r[i] < r[j]
    decreases |s|
  {
    if s == {} then []
    else
      var m := Least(s);
      var rest := SortedIds(s - {m});
      ConsAscending(m, rest);
      [m] + rest
  }

  /** Prepending an id below every element keeps a list ascending. */
  lemma ConsAscending(m: int, rest: seq<int>)
    requires forall x :: x in rest ==> m < x
    requires forall i, j :: 0 <= i < j < |rest| ==> rest[i] < rest[j]
    ensures forall x :: x in [m] + rest <==> x == m || x in rest
    ensures forall i, j :: 0 <= i < j < |[m] + rest| ==> ([m] + rest)[i] < ([m] + rest)[j]
  {
    var r := [m] + rest;
    forall i, j | 0 <= i < j < |r| ensures r[i] < r[j] {
      assert r[j] == rest[j - 1];
      if i > 0 {
        assert r[i] == rest[i - 1];
      } else {
        assert rest[j - 1] in rest;
      }
    }
  }

  /** The smallest element of a non-empty finite set. */
  function Least(s: set<int>): (m: int)
    requires s != {}
    ensures m in s && forall x :: x in s ==> m <= x
  {
    LeastExists(s);
    var m :| m in s && forall x :: x in s ==> m <= x;
    m
  }

  lemma LeastExists(s: set<int>)
    requires s != {}
    ensures exists m :: m in s && forall x :: x in s ==> m <= x
  {
    var m := LeastOf(s);
  }

  lemma {:induction false} LeastOf(s: set<int>) returns (m: int)
    requires s != {}
    ensures m in s && forall x :: x in s ==> m <= x
    decreases |s|
  {
    var y := Pick(s);
    var rest := s - {y};
    if rest == {} {
      m := y;
      forall x | x in s ensures m <= x {
        assert x !in rest;
      }
    } else {
      var least := LeastOf(rest);
      m := if y < least then y else least;
      forall x | x in s ensures m <= x {
        if x != y {
          assert x in rest;
        }
      }
    }
  }

  /** Some element of a non-empty set. */
  lemma Pick(s: set<int>) returns (y: int)
    requires s != {}
    ensures y in s
  {
    if forall x :: x !in s {
      assert false;
    }
    y :| y in s;
  }

  /** A subset is no larger than its superset. */
  lemma SubsetCard<T>(a: set<T>, b: set<T>)
    requires a <= b
    ensures |a| <= |b|
  {
    assert b == a + (b - a);
  }

  /** A list has at least as many elements as its set. */
  lemma {:induction false} SetOfSeqCard<T>(s: seq<T>)
    ensures |set x | x in s| <= |s|
  {
    if s != [] {
      SetOfSeqCard(s[1..]);
      assert (set x | x in s) == (set x | x in s[1..]) + {s[0]};
    }
  }
}
