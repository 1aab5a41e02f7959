# Topic engagement and last-reply model

A Dafny model of the stateful core of the `Topic` model of Ruby China, a
Rails/Mongoid forum (`app/models/topic.rb`). It covers four mechanisms:

- **The follower list.** `push_follower` and `pull_follower` keep the
  `follower_ids` array. The author is refused, and a push never adds a
  duplicate.
- **The last-reply pointer.** Four fields (`replied_at`, `last_reply_id`,
  `last_reply_user_id`, `last_reply_user_login`) are written together from
  one reply, or all set to nil under `force`.
  - `update_last_reply` sets the pointer.
  - `update_deleted_last_reply` repoints it when the last replier's reply
    is deleted.
  - `last_active_mark` is the list's sort key. It is set at creation and
    moved to "now" only while the topic is less than a month old.
- **Engagement counters.** Redis hashes `topic_view:<period>` and
  `topic_reply:<period>`, one per day (`YYYYMMDD`) and one per hour
  (`YYYYMMDDHH`), with field `topic:<id>`, are bumped by `HINCRBY`.
- **Two derived values.** The last page number (`last_page_with_per_page`)
  and the `excellent?` flag.

Modules:

- `Wrappers` (wrappers.dfy): `Option`, standing for Ruby's `nil`.
- `Engagement` (engagement.dfy):
  - the hash keys as (kind, granularity, period) triples, with their Redis
    names;
  - the store as `map<Key, map<string, int>>`, where a missing field counts
    as 0, as `HINCRBY` treats it;
  - `IncrBy`, one `HINCRBY`;
  - the store after each log call (`Viewed`, `Replied`, `ReplyDeleted`),
    with lemmas about them;
  - the `CounterStore` class, which holds the mutable map.
- `Followers` (followers.dfy): MongoDB's `$pull` as `Without`, and the
  no-duplicates predicate.
- `Replies` (replies.dfy): the reply attributes the pointer copies, and the
  query for the newest remaining reply.
- `Topics` (topic.dfy): the `Topic` class, holding only the fields the
  modelled methods read or write, and the `excellent` scope as a filter
  over topics' flags.

Injected collaborators:

- The clock becomes parameters: `now` is `Time.now.to_i`; `monthAgo` is
  `1.month.ago`, in epoch seconds; a `Stamp` carries the strings
  `strftime('%Y%m%d')` and `strftime('%Y%m%d%H')` render for a moment.
  Its type requires 8 digits for the day, and for the hour the day's 8
  digits plus 2 more.
- Mongoid's `save` becomes a boolean parameter, `saveSucceeds`. The
  fields are assigned in memory whatever `save` answers, as in Mongoid.
- The topic's replies are a parameter, given newest first. The Reply model
  and its `recent` scope are not part of this model.

## Notes on the code's behaviour

- `pull_follower` answers true for any user other than the author,
  whether or not `uid` was in the list.
- The log keys are `topic_view:<period>` and `topic_reply:<period>`. The
  field is `topic:<id>`.
- `log_reply_deleted` on a missing field leaves the field at -1, because
  `HINCRBY` creates it (`ReplyDeletedOnMissingField`). The example in
  spec/models/topic_spec.rb:239-244 expects an empty hash instead. The
  model follows the code.
- The last-reply pointer has four fields: `replied_at`, `last_reply_id`,
  `last_reply_user_id` and the cached `last_reply_user_login`.
- `last_active_mark` is overwritten with the current time, so it only
  increases if the clock does (see `UpdateLastReply`).
- `update_deleted_last_reply` compares the deleted reply's *author* with
  `last_reply_user_id`. Deleting an older reply by the last replier
  therefore also recomputes the pointer and may bump `last_active_mark`.

## Model

| member | source | states |
|---|---|---|
| Engagement.KeyNameInjective | app/models/topic.rb:165-166 | two well-formed keys (8-digit day, 10-digit hour period) with the same Redis key string are the same (kind, granularity, period) triple, so the triple stands in for the string |
| Engagement.DayAndHourNamesDiffer | app/models/topic.rb:165-166 | for any two moments, a day bucket and an hour bucket built by the log calls never share a Redis key name, so the two increments of one call always land in two distinct Redis hashes |
| Engagement.FieldNameInjective | app/models/topic.rb:165 | the field `topic:<id>` determines the topic id: distinct topics write distinct fields |
| Engagement.DecimalInjective | app/models/topic.rb:165 | the decimal rendering of an id determines the id |
| Engagement.IncrBy | app/models/topic.rb:165 | `HINCRBY` moves exactly the one field by delta from its value (0 when missing), creates the key and field, and leaves every other counter and key as it was |
| Engagement.ViewedCounts | app/models/topic.rb:164-167 | log_viewed adds exactly 1 to the topic's field in the view day bucket and the view hour bucket of now, adds only those two keys, and changes no other counter |
| Engagement.RepliedCounts | app/models/topic.rb:169-172 | log_replyed adds exactly 1 in the reply day bucket and in the view (not reply) hour bucket of now; no other counter changes, the reply hour bucket included |
| Engagement.ReplyDeletedCounts | app/models/topic.rb:174-178 | log_reply_deleted(t) takes exactly 1 from the topic's field in the reply day and reply hour buckets of t (a missing field counts as 0 first); nothing else changes |
| Engagement.ViewedTwice | app/models/topic.rb:164-167 | repeated views accumulate: two calls add 2 to each view bucket |
| Engagement.OtherTopicsUntouched | app/models/topic.rb:164-178 | no log call on one topic changes a counter of another topic |
| Engagement.ReplyThenDeleteAsymmetry | app/models/topic.rb:169-178 | a reply followed by its deletion at the same moment restores the reply day bucket but leaves the view hour bucket at +1 and the reply hour bucket at -1 |
| Engagement.ReplyDeletedKeyedByReplyTime | app/models/topic.rb:174-178 | the deletion is booked on the reply's own hour and day: the reply hour bucket of any other hour, now's included, keeps its value, and so does the reply day bucket of any other day |
| Engagement.ReplyDeletedOnMissingField | app/models/topic.rb:176-177 | on a flushed store both reply buckets of t end up holding exactly `topic:<id>` => -1 |
| Engagement.CounterStore.HIncrBy | app/models/topic.rb:165 | the store becomes IncrBy of the old store and the answer is the old value (0 when missing) plus delta |
| Followers.Without | app/models/topic.rb:111 | `$pull` leaves no occurrence of the id, keeps every other id's number of occurrences, and shortens the list by the removed occurrences |
| Followers.WithoutConcat | app/models/topic.rb:111 | `$pull` keeps the order of the remaining ids: it distributes over concatenation |
| Followers.WithoutKeepsNoDuplicates | app/models/topic.rb:109-113 | pulling from a duplicate-free list leaves it duplicate-free |
| Replies.PreviousReply | app/models/topic.rb:132 | the answer is none exactly when every reply has the deleted id; otherwise it is the first reply in the given order whose id is not the deleted one |
| Replies.PreviousReplyIsMostRecent | app/models/topic.rb:132 | on replies ordered newest first, the replacement is at least as recent as every remaining reply |
| Topics.Topic.constructor | app/models/topic.rb:17-36 | a new topic has no followers, no replies counted, excellent 0, no active mark and an all-nil pointer |
| Topics.Topic.InitLastActiveMarkOnCreate | app/models/topic.rb:97-100 | on create the active mark is set to now, so it is never nil afterwards |
| Topics.Topic.PushFollower | app/models/topic.rb:102-107 | answers true exactly when uid is not the author and not yet listed; then uid is appended, otherwise nothing changes; a non-author is listed afterwards; author-free and duplicate-free lists stay so |
| Topics.Topic.PullFollower | app/models/topic.rb:109-113 | answers true exactly when uid is not the author, even if uid was absent; then every occurrence is removed, otherwise nothing changes; author-free and duplicate-free lists stay so |
| Topics.Topic.UpdateLastReply | app/models/topic.rb:115-125 | with no reply and no force: false and no change. Otherwise all four pointer fields come from the one reply (all nil without one), the mark becomes now only when created_at > one month ago (else unchanged), and the answer is the save outcome. The pointer stays all-set or all-nil, the mark is never set to nil, and it does not decrease when the clock does not go back |
| Topics.Topic.UpdateDeletedLastReply | app/models/topic.rb:127-134 | false and no change for a nil deleted reply or one whose author is not last_reply_user_id. Otherwise a forced update to the first remaining reply other than the deleted id, or to all nil, with the same mark rule and the save outcome. On newest-first replies, replied_at is at least every remaining reply's time |
| Topics.Topic.LastPageWithPerPage | app/models/topic.rb:148-151 | for perPage > 0 the answer is non-nil exactly when replies_count > perPage, and then it is the ceiling of replies_count / perPage, which is greater than 1 |
| Topics.Topic.IsExcellent | app/models/topic.rb:160-162 | true exactly when the excellent flag is at least 1; `ExcellentScopeAgrees` ties it to the `excellent` scope |
| Topics.ExcellentScope | app/models/topic.rb:73 | the scope `where(:excellent.gte => 1)` over a list of flags selects exactly the positions whose flag is at least 1, in increasing order |
| Topics.ExcellentScopeAgrees | app/models/topic.rb:73 | a topic in a list is selected by the `excellent` scope exactly when its `excellent?` holds, so the query and the predicate agree |
| Topics.Topic.LogViewed | app/models/topic.rb:164-167 | the store becomes Viewed(old store, id, now) |
| Topics.Topic.LogReplyed | app/models/topic.rb:169-172 | the store becomes Replied(old store, id, now) |
| Topics.Topic.LogReplyDeleted | app/models/topic.rb:174-178 | the store becomes ReplyDeleted(old store, id, replyed_at), keyed by the given time |

## Left out

- Mongoid persistence is left out: `save` internals, validations, indexes,
  `before_save` callbacks (`store_cache_fields`, `auto_space_with_title`),
  markdown rendering. These are library behaviour; `save` is reduced to
  its boolean outcome.
- `destroy_by`, `destroy` and the mention notifications are left out:
  soft delete and notification fan-out live in other modules.
- The scopes other than `excellent` (lines 64-72), `find_by_message_id`, `without_hide_nodes`,
  `topic_index_hide_node_ids` and `reply_ids` are left out: they are
  database queries, site configuration or Rails cache reads.
- The Reply model's `recent` ordering is not modelled. The replies are
  passed in, and the "most recent" result assumes they are given newest
  first (`RecentFirst`).
- The `hits` counter (a Redis::Objects wrapper) is left out.
- Redis atomicity and concurrent writers are not modelled: the store is
  a single-threaded map.
- The clock is injected: `Time.now`, the time zone, `strftime` and the
  calendar arithmetic of `1.month.ago` are parameters.
- The hot-score aggregation is left out: in this file it exists only as
  commented-out code (app/models/topic.rb:180-214).
- Topics.Topic.LastPageWithPerPage: computed with exact integer ceiling
  division. Ruby's `to_f` loses precision above 2^53 replies, and a
  per-page of 0 (an exception in Ruby) is excluded by `perPage > 0`.
- Engagement.IncrBy: unbounded and total. Redis refuses an `HINCRBY`
  whose result would leave the signed 64-bit range, and the client raises
  when the server cannot be reached; neither error is modelled.
- Engagement.CounterStore.HIncrBy: never fails, for the same reason.
- Topics.Topic.LogViewed: always performs both increments. In Ruby,
  lines 164-167 rescue nothing. If the second `HINCRBY` raises, the day
  bucket stays incremented and the exception reaches the caller. That
  partial update is not modelled. Both increments are also taken at one
  moment (one `Stamp`), although lines 165 and 166 each read `Time.now`.
  Across a midnight or an hour boundary, Ruby can write the day bucket of
  one day and the hour bucket of the next; the model cannot.
- Topics.Topic.LogReplyed: the same partial update after the first
  increment (lines 169-172) is not modelled. Both increments are taken at
  one moment, although lines 170 and 171 each read `Time.now`, so the
  boundary case of `LogViewed` is not modelled here either.
- Topics.Topic.LogReplyDeleted: the same partial update after the first
  decrement (lines 174-178) is not modelled.
- Topics.Topic.constructor: always takes a `createdAt`. On a topic not yet
  saved, `created_at` is nil and line 119 raises; the model has no such
  topic.
- Topics.Topic.UpdateLastReply: the nil `created_at` raise of line 119 is
  not modelled, for the same reason.
- The `Topic` class keeps only the fields the modelled methods use.
  `title`, `body`, `body_html`, `source`, `message_id`, `suggested_at`,
  `node_name`, `who_deleted`, `lock_node` and the associations are left out.
- Reply ids and user ids are integers. A reply's author id is never nil;
  its login may be.
