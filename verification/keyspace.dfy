/** The Redis keyspace the caches share, as one immutable value.

    Key families: `newsfeed:user:<id>` (a sorted set of post ids per user),
    `post:<id>` and `user:<id>` (serialised entities with an expiry), and
    the counter `post_cache:count`. The families do not overlap, so each one
    is its own map. A key in `faulty` stands for a key whose commands fail
    (connection loss, timeout, serialisation error): every command touching
    it throws. */
module Keyspace {
  import opened Domain
  import opened SortedSet

  datatype Key = FeedKey(user: UserId) | PostKey(post: PostId) | UserKey(user: UserId) | CountKey

  /** Remaining time to live of a key, in seconds, as the TTL command
      reports it; a key without expiry reports -1. */
  datatype Expiry = Persistent | ExpiresIn(seconds: int)

  function TtlReading(x: Expiry): int {
    match x
    case Persistent => -1
    case ExpiresIn(s) => s
  }

  /** What a value key reads back as after deserialisation: a `Post`, a
      `User`, or anything else (which `instanceof` rejects). */
  datatype Cached = PostValue(post: Post) | UserValue(user: User) | OtherValue

  datatype Slot = Slot(value: Cached, expiry: Expiry)

  datatype Feed = Feed(entries: seq<Entry>, expiry: Expiry)

  datatype Redis = Redis(
    feeds: map<UserId, Feed>,
    posts: map<PostId, Slot>,
    users: map<UserId, Slot>,
    count: int,
    faulty: set<Key>)

  /** Every stored sorted set is valid and non-empty (Redis deletes a sorted
      set whose last member is removed). */
  predicate Wf(r: Redis) {
    forall u :: u in r.feeds ==> Valid(r.feeds[u].entries) && r.feeds[u].entries != []
  }

  /** The entries under `newsfeed:user:<u>`; an absent key reads as empty. */
  function FeedOf(r: Redis, u: UserId): (z: seq<Entry>)
    ensures u !in r.feeds ==> z == []
    ensures Wf(r) ==> Valid(z)
  {
    if u in r.feeds then r.feeds[u].entries else []
  }

  /** Only the feed of `u` may differ between `r` and `r'`. */
  ghost predicate FeedsAgreeExcept(r: Redis, r': Redis, u: UserId) {
    && (forall v :: v != u ==> (v in r'.feeds <==> v in r.feeds))
    && (forall v :: v != u && v in r.feeds ==> r'.feeds[v] == r.feeds[v])
  }

  /** Nothing outside the feed index family differs between `r` and `r'`. */
  predicate OnlyFeedsChanged(r: Redis, r': Redis) {
    r'.posts == r.posts && r'.users == r.users && r'.count == r.count && r'.faulty == r.faulty
  }
}
