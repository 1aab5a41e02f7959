/**
  A discussion topic (app/models/topic.rb): its follower list, its
  denormalised pointer to the last reply, its engagement logging and two
  small derived values.

  The database, the clock and Redis are replaced by parameters: `now` is
  `Time.now.to_i`, `monthAgo` is `1.month.ago`, a `Stamp` gives the period
  strings of a moment, `saveSucceeds` is the outcome of Mongoid's `save`,
  and the Redis hashes live in a `CounterStore`.
*/
module Topics {
  import opened Wrappers
  import opened Engagement
  import opened Followers
  import opened Replies

  /**
    The `excellent` scope, `where(:excellent.gte => 1)`, over the
    `excellent` flags of a list of topics: the positions it selects, in
    list order.
  */
  function ExcellentScope(flags: seq<int>): (r: seq<nat>)
    ensures forall k: nat :: k in r <==> k < |flags| && flags[k] >= 1
    ensures forall a, b :: 0 <= a < b < |r| ==> r[a] < r[b]
  {
    if flags == [] then []
    else
      var last := |flags| - 1;
      var front := ExcellentScope(flags[..last]);
      assert forall a :: 0 <= a < |front| ==> front[a] < last by {
        forall a | 0 <= a < |front| ensures front[a] < last {
          assert front[a] in front;
        }
      }
      front + (if flags[last] >= 1 then [last] else [])
  }

  /** The scope selects a topic exactly when `excellent?` holds of it. */
  lemma ExcellentScopeAgrees(ts: seq<Topic>, flags: seq<int>, i: nat)
    requires |flags| == |ts| && forall j :: 0 <= j < |ts| ==> flags[j] == ts[j].excellent
    requires i < |ts|
    ensures i in ExcellentScope(flags) <==> ts[i].IsExcellent()
  {
  }

  class Topic {
    const id: nat
    /** The author (`user_id`). */
    const userId: int
    /** `created_at`, in epoch seconds. */
    const createdAt: int

    var repliesCount: int
    /** 0 for an ordinary topic, 1 for an excellent one. */
    var excellent: int
    var followerIds: seq<int>
    /** The sort key of the topic list; nil until the topic is created. */
    var lastActiveMark: Option<int>

    // The last-reply pointer, written as one unit.
    var repliedAt: Option<int>
    var lastReplyId: Option<int>
    var lastReplyUserId: Option<int>
    var lastReplyUserLogin: Option<string>

    /** The pointer holds the attributes of reply `r`, or all nil when `r` is none. */
    predicate PointerFrom(r: Option<Reply>)
      reads this
    {
      match r
      case None =>
        repliedAt.None? && lastReplyId.None? && lastReplyUserId.None? && lastReplyUserLogin.None?
      case Some(reply) =>
        && repliedAt == Some(reply.createdAt)
        && lastReplyId == Some(reply.id)
        && lastReplyUserId == Some(reply.userId)
        && lastReplyUserLogin == reply.userLogin
    }

    /**
      The pointer is all set or all nil: the time, id and author are nil
      together, and the cached login is nil when they are.
    */
    predicate PointerConsistent()
      reads this
    {
      && repliedAt.None? == lastReplyId.None?
      && lastReplyId.None? == lastReplyUserId.None?
      && (lastReplyId.None? ==> lastReplyUserLogin.None?)
    }

    /** The author never follows their own topic, and nobody follows it twice. */
    predicate FollowersValid()
      reads this
    {
      userId !in followerIds && NoDuplicates(followerIds)
    }

    /** `Topic.new`: defaults of every field, nothing persisted yet. */
    constructor (id: nat, userId: int, createdAt: int)
      ensures this.id == id && this.userId == userId && this.createdAt == createdAt
      ensures repliesCount == 0 && excellent == 0 && followerIds == []
      ensures lastActiveMark == None && PointerFrom(None)
      ensures FollowersValid() && PointerConsistent()
    {
      this.id := id;
      this.userId := userId;
      this.createdAt := createdAt;
      repliesCount := 0;
      excellent := 0;
      followerIds := [];
      lastActiveMark := None;
      repliedAt := None;
      lastReplyId := None;
      lastReplyUserId := None;
      lastReplyUserLogin := None;
    }

    /** The `before_create` hook: a new topic is marked active now. */
    method InitLastActiveMarkOnCreate(now: int)
      modifies this`lastActiveMark
      ensures lastActiveMark == Some(now)
    {
      lastActiveMark := Some(now);
    }

    /**
      Refused (false, nothing changes) for the author and for a user already
      in the list; otherwise `uid` is appended and the answer is true.
    */
    method PushFollower(uid: int) returns (pushed: bool)
      modifies this`followerIds
      ensures pushed <==> uid != userId && uid !in old(followerIds)
      ensures followerIds == if pushed then old(followerIds) + [uid] else old(followerIds)
      ensures uid != userId ==> uid in followerIds
      ensures old(FollowersValid()) ==> FollowersValid()
    {
      if uid == userId {
        return false;
      }
      if uid in followerIds {
        return false;
      }
      assert userId !in [uid];
      followerIds := followerIds + [uid];
      pushed := true;
    }

    /**
      Refused (false, nothing changes) for the author; otherwise every
      occurrence of `uid` is removed and the answer is true, whether or not
      `uid` was there.
    */
    method PullFollower(uid: int) returns (pulled: bool)
      modifies this`followerIds
      ensures pulled <==> uid != userId
      ensures followerIds == if pulled then Without(old(followerIds), uid) else old(followerIds)
      ensures pulled ==> uid !in followerIds
      ensures old(FollowersValid()) ==> FollowersValid()
    {
      if uid == userId {
        return false;
      }
      if FollowersValid() {
        WithoutKeepsNoDuplicates(followerIds, uid);
        assert multiset(Without(followerIds, uid))[userId] == multiset(followerIds)[userId] == 0;
      }
      followerIds := Without(followerIds, uid);
      pulled := true;
    }

    /**
      With no reply and no `force`: false, nothing changes. Otherwise the
      pointer is copied from `reply` (all nil when there is none), the
      active mark moves to `now` only for a topic younger than a month, and
      the answer is the outcome of `save`.
    */
    method UpdateLastReply(reply: Option<Reply>, force: bool, now: int, monthAgo: int, saveSucceeds: bool)
      returns (ok: bool)
      modifies this`lastActiveMark, this`repliedAt, this`lastReplyId, this`lastReplyUserId,
        this`lastReplyUserLogin
      ensures reply.None? && !force ==> !ok && unchanged(this)
      ensures reply.Some? || force ==>
        && ok == saveSucceeds
        && PointerFrom(reply)
        && lastActiveMark == (if createdAt > monthAgo then Some(now) else old(lastActiveMark))
      ensures old(PointerConsistent()) ==> PointerConsistent()
      ensures old(lastActiveMark).Some? ==> lastActiveMark.Some?
      ensures old(lastActiveMark).Some? && old(lastActiveMark).value <= now ==>
        old(lastActiveMark).value <= lastActiveMark.value
    {
      if reply.None? && !force {
        return false;
      }
      if createdAt > monthAgo {
        lastActiveMark := Some(now);
      }
      match reply {
        case None =>
          repliedAt, lastReplyId, lastReplyUserId, lastReplyUserLogin := None, None, None, None;
        case Some(r) =>
          repliedAt, lastReplyId, lastReplyUserId, lastReplyUserLogin :=
            Some(r.createdAt), Some(r.id), Some(r.userId), r.userLogin;
      }
      ok := saveSucceeds;
    }

    /**
      After `deleted` is removed from the topic's replies `replies` (newest
      first). Nothing happens (false) when there is no deleted reply or
      when its author is not the last replier; otherwise the pointer moves,
      forced, to the newest reply other than `deleted`, or to all nil.
    */
    method UpdateDeletedLastReply(deleted: Option<Reply>, replies: seq<Reply>, now: int, monthAgo: int,
      saveSucceeds: bool) returns (ok: bool)
      modifies this`lastActiveMark, this`repliedAt, this`lastReplyId, this`lastReplyUserId,
        this`lastReplyUserLogin
      ensures deleted.None? || old(lastReplyUserId) != Some(deleted.value.userId) ==>
        !ok && unchanged(this)
      ensures deleted.Some? && old(lastReplyUserId) == Some(deleted.value.userId) ==>
        && ok == saveSucceeds
        && PointerFrom(PreviousReply(replies, deleted.value.id))
        && lastActiveMark == (if createdAt > monthAgo then Some(now) else old(lastActiveMark))
      ensures deleted.Some? && old(lastReplyUserId) == Some(deleted.value.userId) && RecentFirst(replies) ==>
        forall q :: q in replies && q.id != deleted.value.id ==> repliedAt.Some? && q.createdAt <= repliedAt.value
      ensures old(PointerConsistent()) ==> PointerConsistent()
      ensures old(lastActiveMark).Some? ==> lastActiveMark.Some?
    {
      if deleted.None? {
        return false;
      }
      if lastReplyUserId != Some(deleted.value.userId) {
        return false;
      }
      var previous := PreviousReply(replies, deleted.value.id);
      if RecentFirst(replies) {
        forall q | q in replies && q.id != deleted.value.id
          ensures previous.Some? && q.createdAt <= previous.value.createdAt
        {
          PreviousReplyIsMostRecent(replies, deleted.value.id, q);
        }
      }
      ok := UpdateLastReply(previous, true, now, monthAgo, saveSucceeds);
    }

    /**
      The last page number for `perPage` replies a page: the number of
      pages when there is more than one, nil otherwise.
    */
    function LastPageWithPerPage(perPage: int): (page: Option<int>)
      reads this
      requires perPage > 0
      ensures page.Some? <==> repliesCount > perPage
      ensures page.Some? ==> 1 < page.value && (page.value - 1) * perPage < repliesCount <= page.value * perPage
    {
      var pages := -((-repliesCount) / perPage);
      if pages > 1 then Some(pages) else None
    }

    /** `excellent?`: the flag marks the topic excellent from 1 up. */
    function IsExcellent(): (b: bool)
      reads this
      ensures b <==> excellent >= 1
    {
      excellent >= 1
    }

    /** `log_viewed`: the view day and hour buckets of `now` count one more view. */
    method LogViewed(store: CounterStore, now: Stamp)
      modifies store
      ensures store.hashes == Viewed(old(store.hashes), id, now)
    {
      var day := store.HIncrBy(DayKey(TopicView, now), FieldName(id), 1);
      var hour := store.HIncrBy(HourKey(TopicView, now), FieldName(id), 1);
    }

    /** `log_replyed`: the reply day bucket and the view hour bucket of `now` count one more. */
    method LogReplyed(store: CounterStore, now: Stamp)
      modifies store
      ensures store.hashes == Replied(old(store.hashes), id, now)
    {
      var day := store.HIncrBy(DayKey(TopicReply, now), FieldName(id), 1);
      var hour := store.HIncrBy(HourKey(TopicView, now), FieldName(id), 1);
    }

    /** `log_reply_deleted(repliedAt)`: the reply buckets of the reply's own time count one less. */
    method LogReplyDeleted(store: CounterStore, replyedAt: Stamp)
      modifies store
      ensures store.hashes == ReplyDeleted(old(store.hashes), id, replyedAt)
    {
      var day := store.HIncrBy(DayKey(TopicReply, replyedAt), FieldName(id), -1);
      var hour := store.HIncrBy(HourKey(TopicReply, replyedAt), FieldName(id), -1);
    }
  }
}
