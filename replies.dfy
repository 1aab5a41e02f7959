/**
  The replies a topic's last-reply pointer is computed from. Only the
  attributes the pointer copies are modelled.
*/
module Replies {
  import opened Wrappers

  /**
    A reply: its id, its author's id, its author's login (`user_login`,
    nil when the author is gone) and its creation time in epoch seconds.
  */
  datatype Reply = Reply(id: int, userId: int, userLogin: Option<string>, createdAt: int)

  /** The order of the `recent` scope: newest first. */
  predicate RecentFirst(rs: seq<Reply>)
  {
    forall i, j :: 0 <= i < j < |rs| ==> rs[j].createdAt <= rs[i].createdAt
  }

  /** Every reply of `rs` has id `excludedId`: the query leaves none of them. */
  predicate AllExcluded(rs: seq<Reply>, excludedId: int)
  {
    forall q :: q in rs ==> q.id == excludedId
  }

  /**
    `replies.where(:_id.nin => [excludedId]).recent.first` over the topic's
    replies `rs`, given newest first: the first reply whose id is not
    `excludedId`, or none when every reply has that id.
  */
  function PreviousReply(rs: seq<Reply>, excludedId: int): (r: Option<Reply>)
    ensures r.None? <==> AllExcluded(rs, excludedId)
    ensures forall i {:trigger AllExcluded(rs[..i], excludedId)} ::
      0 <= i < |rs| && rs[i].id != excludedId && AllExcluded(rs[..i], excludedId) ==>
      r == Some(rs[i])
    ensures r.Some? ==> r.value in rs && r.value.id != excludedId
  {
    if rs == [] then None
    else if rs[0].id != excludedId then Some(rs[0])
    else
      assert forall q :: q in rs ==> q == rs[0] || q in rs[1..];
      assert forall i {:trigger AllExcluded(rs[..i], excludedId)} ::
        1 <= i <= |rs| && AllExcluded(rs[..i], excludedId) ==> AllExcluded(rs[1..][..i - 1], excludedId)
      by {
        forall i | 1 <= i <= |rs| ensures rs[1..][..i - 1] == rs[..i][1..] { }
      }
      PreviousReply(rs[1..], excludedId)
  }

  /**
    On replies given newest first, the replacement is the most recent of
    the remaining replies.
  */
  lemma {:induction false} PreviousReplyIsMostRecent(rs: seq<Reply>, excludedId: int, q: Reply)
    requires RecentFirst(rs)
    requires q in rs && q.id != excludedId
    ensures PreviousReply(rs, excludedId).Some?
    ensures q.createdAt <= PreviousReply(rs, excludedId).value.createdAt
  {
    if rs[0].id == excludedId {
      assert q in rs[1..];
      PreviousReplyIsMostRecent(rs[1..], excludedId, q);
    } else {
      var k :| 0 <= k < |rs| && rs[k] == q;
      assert k == 0 || rs[k].createdAt <= rs[0].createdAt;
    }
  }
}
