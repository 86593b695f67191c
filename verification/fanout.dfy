/** The fan-out pipeline: `FanoutService` snapshots the author's follower
    ids into one `FanoutMessage` and publishes it; `FanoutWorkerService`
    consumes a message by adding the post id to each listed follower's
    feed. The broker is an append-only queue of envelopes; the worker reads
    the clock once per message. */
module Fanout {
  import opened Domain
  import opened SortedSet
  import opened Keyspace
  import opened NewsFeedCache
  import Store

  const FANOUT_EXCHANGE := "fanout.exchange"
  const FANOUT_ROUTING_KEY := "fanout.routing.key"

  datatype FanoutMessage = FanoutMessage(authorId: UserId, postId: PostId, followerIds: seq<UserId>)

  datatype Envelope = Envelope(exchange: string, routingKey: string, message: FanoutMessage)

  /** Which step of a publication throws, if any: the follower query or
      the send to the broker. */
  datatype FanoutFault = NoFault | LookupFails | SendFails

  /** fanoutToFollowers(author, post): on success exactly one envelope is
      appended, even when nobody follows the author; any failure is caught
      and nothing is published. */
  function FanoutToFollowers(fs: seq<Follow>, queue: seq<Envelope>, author: User, post: Post, fault: FanoutFault)
    : (q': seq<Envelope>)
    ensures fault != NoFault ==> q' == queue
    ensures fault == NoFault ==>
      && |q'| == |queue| + 1 && q'[..|queue|] == queue
      && q'[|queue|].exchange == FANOUT_EXCHANGE
      && q'[|queue|].routingKey == FANOUT_ROUTING_KEY
      && q'[|queue|].message.authorId == author.id
      && q'[|queue|].message.postId == post.id
      && (forall x :: x in q'[|queue|].message.followerIds <==> Follow(x, author.id) in fs)
      && (Distinct(fs) ==> Distinct(q'[|queue|].message.followerIds))
  {
    if fault.LookupFails? then queue
    else
      var followerIds := Store.FindFollowersByFollowing(fs, author.id);
      if fault.SendFails? then queue
      else queue + [Envelope(FANOUT_EXCHANGE, FANOUT_ROUTING_KEY, FanoutMessage(author.id, post.id, followerIds))]
  }

  /** The message body is the follower query's answer, in its order. */
  lemma MessageIsLookup(fs: seq<Follow>, queue: seq<Envelope>, author: User, post: Post)
    ensures var q' := FanoutToFollowers(fs, queue, author, post, NoFault);
      q'[|queue|].message.followerIds == Store.FindFollowersByFollowing(fs, author.id)
  {
  }

  /** The worker loop: addToUserFeed for each follower id in turn. A
      failure for one follower is swallowed and the loop goes on. */
  function Deliver(r: Redis, followers: seq<UserId>, p: PostId, now: int): (r': Redis)
    requires Wf(r)
    ensures Wf(r') && OnlyFeedsChanged(r, r')
    ensures forall v :: v !in followers ==> (v in r'.feeds <==> v in r.feeds)
    ensures forall v :: v !in followers && v in r.feeds ==> r'.feeds[v] == r.feeds[v]
    decreases |followers|
  {
    if followers == [] then r
    else Deliver(AddToUserFeed(r, followers[0], p, now), followers[1..], p, now)
  }

  /** processFanoutMessage(message) at clock `now`. */
  function ProcessFanoutMessage(r: Redis, m: FanoutMessage, now: int): (r': Redis)
    requires Wf(r)
    ensures Wf(r') && OnlyFeedsChanged(r, r')
    ensures forall v :: v !in m.followerIds ==> (v in r'.feeds <==> v in r.feeds)
    ensures forall v :: v !in m.followerIds && v in r.feeds ==> r'.feeds[v] == r.feeds[v]
  {
    Deliver(r, m.followerIds, m.postId, now)
  }

  /** What a delivery does to one listed follower: a working key ends up as
      one addToUserFeed of the post (even when listed twice), a failing key
      is left alone. */
  lemma {:induction false} DeliverEffect(r: Redis, followers: seq<UserId>, p: PostId, now: int, f: UserId)
    requires Wf(r) && f in followers
    ensures var r' := Deliver(r, followers, p, now);
      && (FeedKey(f) !in r.faulty ==>
           f in r'.feeds && r'.feeds[f] == Feed(AddFeed(FeedOf(r, f), p, now), ExpiresIn(NEWS_FEED_CACHE_TTL)))
      && (FeedKey(f) in r.faulty ==> (f in r'.feeds <==> f in r.feeds) && FeedOf(r', f) == FeedOf(r, f))
      && (FeedKey(f) in r.faulty && f in r.feeds ==> r'.feeds[f] == r.feeds[f])
    decreases |followers|
  {
    var r1 := AddToUserFeed(r, followers[0], p, now);
    var rest := followers[1..];
    if f == followers[0] {
      if f in rest {
        DeliverEffect(r1, rest, p, now, f);
        if FeedKey(f) !in r.faulty {
          AddFeedIdempotent(FeedOf(r, f), p, now);
        }
      }
    } else {
      assert f in rest;
      DeliverEffect(r1, rest, p, now, f);
    }
  }

  /** Every listed follower with a working key and a clock ahead of its
      feed's other scores holds the post afterwards. */
  lemma DeliveredToFollowers(r: Redis, m: FanoutMessage, now: int)
    requires Wf(r)
    requires forall f, x :: f in m.followerIds && x in FeedOf(r, f) && x.member != m.postId ==> x.score < now
    ensures forall f :: f in m.followerIds && FeedKey(f) !in r.faulty ==>
      m.postId in Members(FeedOf(ProcessFanoutMessage(r, m, now), f))
  {
    forall f | f in m.followerIds && FeedKey(f) !in r.faulty
      ensures m.postId in Members(FeedOf(ProcessFanoutMessage(r, m, now), f))
    {
      DeliverEffect(r, m.followerIds, m.postId, now, f);
      AddFeedKeepsNewest(FeedOf(r, f), m.postId, now);
    }
  }

  /** Redelivery at the same instant changes nothing. */
  lemma ProcessTwiceSameClock(r: Redis, m: FanoutMessage, now: int)
    requires Wf(r)
    ensures var r1 := ProcessFanoutMessage(r, m, now);
      ProcessFanoutMessage(r1, m, now) == r1
  {
    var r1 := ProcessFanoutMessage(r, m, now);
    var r2 := ProcessFanoutMessage(r1, m, now);
    forall v | v in m.followerIds ensures (v in r2.feeds <==> v in r1.feeds) && (v in r1.feeds ==> r2.feeds[v] == r1.feeds[v]) {
      SameClockFollower(r, m, now, v);
    }
    assert forall v :: v in r2.feeds <==> v in r1.feeds;
    assert forall v :: v in r1.feeds ==> r2.feeds[v] == r1.feeds[v];
    assert r2.feeds == r1.feeds;
    assert OnlyFeedsChanged(r1, r2);
  }

  /** One listed follower's feed after a same-instant redelivery. */
  lemma SameClockFollower(r: Redis, m: FanoutMessage, now: int, v: UserId)
    requires Wf(r) && v in m.followerIds
    ensures var r1 := ProcessFanoutMessage(r, m, now);
      var r2 := ProcessFanoutMessage(r1, m, now);
      (v in r2.feeds <==> v in r1.feeds) && (v in r1.feeds ==> r2.feeds[v] == r1.feeds[v])
  {
    var r1 := ProcessFanoutMessage(r, m, now);
    DeliverEffect(r, m.followerIds, m.postId, now, v);
    DeliverEffect(r1, m.followerIds, m.postId, now, v);
    if FeedKey(v) !in r.faulty {
      AddFeedIdempotent(FeedOf(r, v), m.postId, now);
    }
  }

  /** Redelivery at a later instant keeps every follower's set of post ids;
      only the post's score moves. */
  lemma ProcessTwiceSameMembers(r: Redis, m: FanoutMessage, now: int, later: int)
    requires Wf(r)
    requires forall f, x :: f in m.followerIds && x in FeedOf(r, f) && x.member != m.postId ==> x.score < now
    ensures var r1 := ProcessFanoutMessage(r, m, now);
      forall v :: Members(FeedOf(ProcessFanoutMessage(r1, m, later), v)) == Members(FeedOf(r1, v))
  {
    var r1 := ProcessFanoutMessage(r, m, now);
    var r2 := ProcessFanoutMessage(r1, m, later);
    forall v ensures Members(FeedOf(r2, v)) == Members(FeedOf(r1, v)) {
      if v in m.followerIds {
        DeliverEffect(r, m.followerIds, m.postId, now, v);
        DeliverEffect(r1, m.followerIds, m.postId, later, v);
        if FeedKey(v) !in r.faulty {
          AddFeedKeepsNewest(FeedOf(r, v), m.postId, now);
          ReAddKeepsMembers(FeedOf(r1, v), m.postId, later);
        }
      }
    }
  }

  /** Publish then consume: every follower of the author in the store, with
      a working feed key and a clock ahead of its feed, receives the post. */
  lemma PublishThenConsume(r: Redis, fs: seq<Follow>, queue: seq<Envelope>, author: User, post: Post, now: int)
    requires Wf(r)
    requires forall f, x :: Follow(f, author.id) in fs && x in FeedOf(r, f) && x.member != post.id ==> x.score < now
    ensures var q' := FanoutToFollowers(fs, queue, author, post, NoFault);
      var r' := ProcessFanoutMessage(r, q'[|queue|].message, now);
      forall f :: Follow(f, author.id) in fs && FeedKey(f) !in r.faulty ==> post.id in Members(FeedOf(r', f))
  {
    var q' := FanoutToFollowers(fs, queue, author, post, NoFault);
    DeliveredToFollowers(r, q'[|queue|].message, now);
  }
}
