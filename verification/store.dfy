/** The relational store behind the JPA repositories: the `users` table
    (keyed by id), the `posts` table in insertion order (ids come from an
    IDENTITY column, so they ascend), and the `follows` table with its
    unique (follower_id, following_id) constraint. Repository queries are
    pure functions over this state. */
module Store {
  import opened Wrappers
  import opened Domain

  /** A page size that `PageRequest.of(0, size)` accepts. */
  type PageSize = n: int | n >= 1 witness 1

  datatype Db = Db(
    users: map<UserId, User>,
    posts: seq<Post>,
    follows: seq<Follow>,
    nextUserId: int,
    nextPostId: int)
  {
    /** The table constraints: primary keys, the IDENTITY sequences, the
        foreign keys of posts and follows, and the unique follow pair. */
    predicate Valid() {
      && (forall k :: k in users ==> users[k].id == k && k < nextUserId)
      && IdsAscending(posts)
      && (forall i :: 0 <= i < |posts| ==> posts[i].id < nextPostId && posts[i].author in users)
      && Distinct(follows)
      && (forall i :: 0 <= i < |follows| ==> follows[i].follower in users && follows[i].following in users)
    }
  }

  predicate IdsAscending(ps: seq<Post>) {
    forall i, j :: 0 <= i < j < |ps| ==> ps[i].id < ps[j].id
  }

  predicate IdsDescending(ps: seq<Post>) {
    forall i, j :: 0 <= i < j < |ps| ==> ps[i].id > ps[j].id
  }

  /** The WHERE clause of the two feed queries: author among `authors`
      and, for the cursor variant, id below the cursor. */
  predicate Matches(p: Post, authors: seq<UserId>, cursor: Option<int>) {
    p.author in authors && (cursor.None? || p.id < cursor.value)
  }

  // ---------------------------------------------------------------------
  // PostRepository
  // ---------------------------------------------------------------------

  /** The matching posts, newest (largest id) first. */
  function NewestFirst(ps: seq<Post>, authors: seq<UserId>, cursor: Option<int>): (m: seq<Post>)
    ensures forall p :: p in m <==> p in ps && Matches(p, authors, cursor)
    ensures IdsAscending(ps) ==> IdsDescending(m)
    decreases |ps|
  {
    if ps == [] then []
    else
      var last := ps[|ps| - 1];
      var older := NewestFirst(ps[..|ps| - 1], authors, cursor);
      assert forall p :: p in ps <==> p in ps[..|ps| - 1] || p == last;
      if Matches(last, authors, cursor) then
        assert IdsAscending(ps) ==> forall p :: p in older ==> p.id < last.id;
        [last] + older
      else older
  }

  function Take(ps: seq<Post>, n: PageSize): (t: seq<Post>)
    ensures |t| <= n && |t| <= |ps| && t == ps[..|t|]
    ensures |t| == n || t == ps
  {
    if |ps| <= n then ps else ps[..n]
  }

  /** The first page of `... WHERE p.user IN :users [AND p.id < :cursor]
      ORDER BY p.id DESC`: the `size` largest-id matching posts, or all of
      them when fewer match. */
  function NewestPage(db: Db, authors: seq<UserId>, cursor: Option<int>, size: PageSize): (r: seq<Post>)
    requires db.Valid()
    ensures |r| <= size
    ensures IdsDescending(r)
    ensures forall p :: p in r ==> p in db.posts && Matches(p, authors, cursor)
    ensures forall p :: p in db.posts && Matches(p, authors, cursor) && p !in r ==>
      |r| == size && forall q :: q in r ==> p.id < q.id
  {
    var m := NewestFirst(db.posts, authors, cursor);
    var t := Take(m, size);
    forall p | p in m && p !in t ensures |t| == size && forall q :: q in t ==> p.id < q.id {
      var i :| 0 <= i < |m| && m[i] == p;
      assert i >= |t|;
      forall q | q in t ensures p.id < q.id {
        var j :| 0 <= j < |t| && t[j] == q;
        assert m[j] == q;
      }
    }
    t
  }

  /** findByUserInOrderByIdDesc(users, PageRequest.of(0, size)). */
  function FindByUserInOrderByIdDesc(db: Db, authors: seq<UserId>, size: PageSize): seq<Post>
    requires db.Valid()
  {
    NewestPage(db, authors, None, size)
  }

  /** findByUserInAndIdLessThanOrderByIdDesc(users, cursor, PageRequest.of(0, size)). */
  function FindByUserInAndIdLessThanOrderByIdDesc(db: Db, authors: seq<UserId>, cursor: int, size: PageSize): seq<Post>
    requires db.Valid()
  {
    NewestPage(db, authors, Some(cursor), size)
  }

  /** Two id-descending lists with the same elements are the same list. */
  lemma {:induction false} DescendingUnique(a: seq<Post>, b: seq<Post>)
    requires IdsDescending(a) && IdsDescending(b)
    requires forall p :: p in a <==> p in b
    ensures a == b
    decreases |a|
  {
    if a != [] && b != [] {
      SplitDescending(a);
      SplitDescending(b);
      assert a[0] in b && b[0] in a;
      assert a[0] == b[0];
      DescendingUnique(a[1..], b[1..]);
    } else if a != [] {
      HeadIn(a);
      assert false;
    } else if b != [] {
      HeadIn(b);
      assert false;
    }
  }

  lemma HeadIn(a: seq<Post>)
    requires a != []
    ensures a[0] in a
  {
  }

  /** The head of an id-descending list has the largest id; the rest is
      id-descending and holds everything else. */
  lemma SplitDescending(a: seq<Post>)
    requires IdsDescending(a) && a != []
    ensures a == [a[0]] + a[1..]
    ensures IdsDescending(a[1..])
    ensures forall p :: p in a[1..] ==> p.id < a[0].id
    ensures forall p :: p in a[1..] <==> p in a && p != a[0]
  {
    var t := a[1..];
    assert a == [a[0]] + t;
    forall p | p in t ensures p.id < a[0].id {
      var j :| 0 <= j < |t| && t[j] == p;
      assert a[j + 1] == p;
    }
    forall i, j | 0 <= i < j < |t| ensures t[i].id > t[j].id {
      assert t[i] == a[i + 1] && t[j] == a[j + 1];
    }
  }

  /** Keyset pagination over the store is seamless: when a page is full,
      asking for the posts below its last id gives exactly the continuation
      of one larger page, so no post is repeated or skipped. */
  lemma NextPageContinues(db: Db, authors: seq<UserId>, cursor: Option<int>, n: PageSize, m: PageSize)
    requires db.Valid()
    requires |NewestPage(db, authors, cursor, n)| == n
    ensures var page := NewestPage(db, authors, cursor, n);
      page + NewestPage(db, authors, Some(page[n - 1].id), m) == NewestPage(db, authors, cursor, n + m)
  {
    var all := NewestFirst(db.posts, authors, cursor);
    assert NewestPage(db, authors, cursor, n) == Take(all, n) == all[..n];
    TailBelowLast(db.posts, authors, cursor, n);
    assert NewestPage(db, authors, Some(all[n - 1].id), m) == Take(all[n..], m);
    assert NewestPage(db, authors, cursor, n + m) == Take(all, n + m);
    TakeSplit(all, n, m);
  }

  /** The matching posts below the n-th newest match are the matches after it. */
  lemma TailBelowLast(ps: seq<Post>, authors: seq<UserId>, cursor: Option<int>, n: PageSize)
    requires IdsAscending(ps)
    requires |NewestFirst(ps, authors, cursor)| >= n
    ensures var all := NewestFirst(ps, authors, cursor);
      NewestFirst(ps, authors, Some(all[n - 1].id)) == all[n..]
  {
    var all := NewestFirst(ps, authors, cursor);
    var c := all[n - 1].id;
    var rest := NewestFirst(ps, authors, Some(c));
    var tail := all[n..];
    assert all[n - 1] in all;
    forall p | p in rest ensures p in tail {
      assert Matches(p, authors, cursor);
      var i :| 0 <= i < |all| && all[i] == p;
      assert i >= n;
      assert tail[i - n] == p;
    }
    forall p | p in tail ensures p in rest {
      var i :| 0 <= i < |tail| && tail[i] == p;
      assert all[n + i] == p && p in all;
      assert all[n - 1].id > all[n + i].id;
    }
    assert IdsDescending(tail) by {
      forall i, j | 0 <= i < j < |tail| ensures tail[i].id > tail[j].id {
        assert tail[i] == all[n + i] && tail[j] == all[n + j];
      }
    }
    DescendingUnique(rest, tail);
  }

  lemma TakeSplit(all: seq<Post>, n: PageSize, m: PageSize)
    requires |all| >= n
    ensures all[..n] + Take(all[n..], m) == Take(all, n + m)
  {
    if |all| <= n + m {
      assert all[..n] + all[n..] == all;
    } else {
      assert all[..n] + all[n..][..m] == all[..n + m];
    }
  }

  /** findAllById(ids): the rows whose id is requested, in table order;
      an unknown id contributes nothing and each row appears once. */
  function FindAllById(ps: seq<Post>, ids: seq<PostId>): (r: seq<Post>)
    ensures forall p :: p in r <==> p in ps && p.id in ids
    ensures IdsAscending(ps) ==> IdsAscending(r)
    ensures |r| <= |ps|
  {
    if ps == [] then []
    else
      var rest := FindAllById(ps[1..], ids);
      assert forall p :: p in ps <==> p == ps[0] || p in ps[1..];
      if ps[0].id in ids then
        assert IdsAscending(ps) ==> forall p :: p in rest ==> ps[0].id < p.id;
        [ps[0]] + rest
      else rest
  }

  /** Each requested id matches at most one row, so the answer is never
      longer than the request. */
  lemma FindAllByIdBound(ps: seq<Post>, ids: seq<PostId>)
    requires IdsAscending(ps)
    ensures |FindAllById(ps, ids)| <= |ids|
  {
    var r := FindAllById(ps, ids);
    var rids := PostIds(r);
    assert Distinct(rids);
    DistinctCard(rids);
    assert (set x | x in rids) <= (set x | x in ids) by {
      forall x | x in rids ensures x in ids {
        var i :| 0 <= i < |rids| && rids[i] == x;
        assert r[i] in r;
      }
    }
    SubsetCard(set x | x in rids, set x | x in ids);
    SetOfSeqCard(ids);
  }

  // ---------------------------------------------------------------------
  // UserRepository
  // ---------------------------------------------------------------------

  /** findAllById(ids) on the users table: the rows whose id is requested,
      in primary-key order, each once. */
  function FindUsersById(users: map<UserId, User>, ids: seq<UserId>): (r: seq<User>)
    ensures forall x :: x in r <==> exists k :: k in ids && k in users && users[k] == x
    ensures (forall k :: k in users ==> users[k].id == k) ==>
      forall i, j :: 0 <= i < j < |r| ==> r[i].id < r[j].id
  {
    var ks := SortedIds(set k | k in users && k in ids);
    UsersAtMembers(users, ids, ks);
    UsersAtAscending(users, ks);
    UsersAt(users, ks)
  }

  function UsersAt(users: map<UserId, User>, ks: seq<UserId>): (r: seq<User>)
    requires forall i :: 0 <= i < |ks| ==> ks[i] in users
    ensures |r| == |ks| && forall i :: 0 <= i < |ks| ==> r[i] == users[ks[i]]
  {
    seq(|ks|, i requires 0 <= i < |ks| => users[ks[i]])
  }

  lemma UsersAtMembers(users: map<UserId, User>, ids: seq<UserId>, ks: seq<UserId>)
    requires forall k :: k in ks ==> k in users && k in ids
    requires forall k :: k in users && k in ids ==> k in ks
    ensures forall i :: 0 <= i < |ks| ==> ks[i] in users
    ensures var r := UsersAt(users, ks);
      forall x :: x in r <==> exists k :: k in ids && k in users && users[k] == x
  {
    forall i | 0 <= i < |ks| ensures ks[i] in users {
      var k := ks[i];
      assert k in ks;
      assert k in users && k in ids;
    }
    var r := UsersAt(users, ks);
    forall x | x in r ensures exists k :: k in ids && k in users && users[k] == x {
      var i :| 0 <= i < |r| && r[i] == x;
      var k := ks[i];
      assert k in ks;
      assert k in ids && k in users && users[k] == x;
    }
    forall k | k in ids && k in users ensures users[k] in r {
      var i :| 0 <= i < |ks| && ks[i] == k;
      assert r[i] == users[k];
    }
  }

  lemma UsersAtAscending(users: map<UserId, User>, ks: seq<UserId>)
    requires forall i :: 0 <= i < |ks| ==> ks[i] in users
    requires forall i, j :: 0 <= i < j < |ks| ==> ks[i] < ks[j]
    ensures (forall k :: k in users ==> users[k].id == k) ==>
      var r := UsersAt(users, ks);
      forall i, j :: 0 <= i < j < |r| ==> r[i].id < r[j].id
  {
  }

  // ---------------------------------------------------------------------
  // FollowRepository
  // ---------------------------------------------------------------------

  /** `SELECT f.following FROM Follow f WHERE f.follower = :follower`, in
      table order. */
  function FindFollowingByFollower(fs: seq<Follow>, follower: UserId): (r: seq<UserId>)
    ensures forall x :: x in r <==> Follow(follower, x) in fs
    ensures Distinct(fs) ==> Distinct(r)
    ensures |r| <= |fs|
  {
    if fs == [] then []
    else
      var rest := FindFollowingByFollower(fs[1..], follower);
      assert forall f :: f in fs <==> f == fs[0] || f in fs[1..];
      if fs[0].follower == follower then
        assert Distinct(fs) ==> fs[0] !in fs[1..];
        [fs[0].following] + rest
      else rest
  }

  /** `SELECT f.follower FROM Follow f WHERE f.following = :following`, in
      table order. */
  function FindFollowersByFollowing(fs: seq<Follow>, following: UserId): (r: seq<UserId>)
    ensures forall x :: x in r <==> Follow(x, following) in fs
    ensures Distinct(fs) ==> Distinct(r)
    ensures |r| <= |fs|
  {
    if fs == [] then []
    else
      var rest := FindFollowersByFollowing(fs[1..], following);
      assert forall f :: f in fs <==> f == fs[0] || f in fs[1..];
      if fs[0].following == following then
        assert Distinct(fs) ==> fs[0] !in fs[1..];
        [fs[0].follower] + rest
      else rest
  }

  /** findByFollowerAndFollowing: the position of the row, if any. */
  function FindByFollowerAndFollowing(fs: seq<Follow>, follower: UserId, following: UserId): (i: Option<nat>)
    ensures i.Some? ==> i.value < |fs| && fs[i.value] == Follow(follower, following)
    ensures i.None? ==> Follow(follower, following) !in fs
  {
    if fs == [] then None
    else if fs[0] == Follow(follower, following) then Some(0)
    else
      match FindByFollowerAndFollowing(fs[1..], follower, following)
      case None => None
      case Some(j) => Some(j + 1)
  }

  /** existsByFollowerAndFollowing. */
  function ExistsByFollowerAndFollowing(fs: seq<Follow>, follower: UserId, following: UserId): (b: bool)
    ensures b <==> Follow(follower, following) in fs
  {
    if fs == [] then false
    else fs[0] == Follow(follower, following) || ExistsByFollowerAndFollowing(fs[1..], follower, following)
  }

  /** countByFollower: rows whose follower is `follower`. */
  function CountByFollower(fs: seq<Follow>, follower: UserId): nat {
    if fs == [] then 0
    else (if fs[0].follower == follower then 1 else 0) + CountByFollower(fs[1..], follower)
  }

  /** countByFollowing: rows whose target is `following`. */
  function CountByFollowing(fs: seq<Follow>, following: UserId): nat {
    if fs == [] then 0
    else (if fs[0].following == following then 1 else 0) + CountByFollowing(fs[1..], following)
  }

  /** The existence test and the row lookup agree. */
  lemma ExistsIffFound(fs: seq<Follow>, follower: UserId, following: UserId)
    ensures ExistsByFollowerAndFollowing(fs, follower, following)
      <==> FindByFollowerAndFollowing(fs, follower, following).Some?
  {
  }

  /** The counts are the lengths of the matching lists. */
  lemma {:induction false} CountsMatchLists(fs: seq<Follow>, u: UserId)
    ensures CountByFollower(fs, u) == |FindFollowingByFollower(fs, u)|
    ensures CountByFollowing(fs, u) == |FindFollowersByFollowing(fs, u)|
  {
    if fs != [] {
      CountsMatchLists(fs[1..], u);
    }
  }

  /** Under the unique-pair constraint the counts are the numbers of
      distinct users followed and following. */
  lemma CountsAreDegrees(fs: seq<Follow>, u: UserId)
    requires Distinct(fs)
    ensures CountByFollower(fs, u) == |set f | f in fs && f.follower == u :: f.following|
    ensures CountByFollowing(fs, u) == |set f | f in fs && f.following == u :: f.follower|
  {
    CountsMatchLists(fs, u);
    var out := FindFollowingByFollower(fs, u);
    var inc := FindFollowersByFollowing(fs, u);
    DistinctCard(out);
    DistinctCard(inc);
    forall x ensures x in out <==> x in (set f | f in fs && f.follower == u :: f.following) {
      if x in out {
        assert Follow(u, x) in fs;
      }
    }
    forall x ensures x in inc <==> x in (set f | f in fs && f.following == u :: f.follower) {
      if x in inc {
        assert Follow(x, u) in fs;
      }
    }
    assert (set x | x in out) == (set f | f in fs && f.follower == u :: f.following);
    assert (set x | x in inc) == (set f | f in fs && f.following == u :: f.follower);
  }

  /** A list without repetitions has as many elements as its set. */
  lemma {:induction false} DistinctCard(s: seq<UserId>)
    requires Distinct(s)
    ensures |set x | x in s| == |s|
  {
    if s != [] {
      assert Distinct(s[1..]) by {
        forall i, j | 0 <= i < j < |s[1..]| ensures s[1..][i] != s[1..][j] {
          assert s[1..][i] == s[i + 1] && s[1..][j] == s[j + 1];
        }
      }
      DistinctCard(s[1..]);
      assert s[0] !in s[1..];
      assert (set x | x in s) == (set x | x in s[1..]) + {s[0]};
    }
  }

  // ---------------------------------------------------------------------
  // Writes
  // ---------------------------------------------------------------------

  /** save(new User): the next IDENTITY id. */
  function SaveUser(db: Db, username: string, email: string, now: int): (r: (Db, User))
    requires db.Valid()
    ensures r.0.Valid()
    ensures r.1.id !in db.users && r.1 == User(r.1.id, username, email, now)
    ensures r.0 == db.(users := db.users[r.1.id := r.1], nextUserId := r.1.id + 1)
  {
    var u := User(db.nextUserId, username, email, now);
    (db.(users := db.users[u.id := u], nextUserId := u.id + 1), u)
  }

  /** save(new Post): appended with the next IDENTITY id. */
  function SavePost(db: Db, author: UserId, content: string, media: seq<string>, now: int): (r: (Db, Post))
    requires db.Valid() && author in db.users
    ensures r.0.Valid()
    ensures r.1 == Post(r.1.id, author, content, media, now)
    ensures forall p :: p in db.posts ==> p.id < r.1.id
    ensures r.0 == db.(posts := db.posts + [r.1], nextPostId := r.1.id + 1)
  {
    var p := Post(db.nextPostId, author, content, media, now);
    (db.(posts := db.posts + [p], nextPostId := p.id + 1), p)
  }
}
