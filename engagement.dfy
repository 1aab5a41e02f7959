/**
  Time-bucketed engagement counters (app/models/topic.rb, log_viewed,
  log_replyed, log_reply_deleted).

  The Redis server is a map from hash key to a hash of field -> integer.
  A key is the triple (kind, granularity, period): `topic_view:20240105` is
  Key(TopicView, Daily, "20240105"). `HINCRBY` on a missing key or field starts
  from 0, which `Count` captures.
*/
module Engagement {

  /** The two hash families: `topic_view` and `topic_reply`. */
  datatype Kind = TopicView | TopicReply

  /** `%Y%m%d` buckets and `%Y%m%d%H` buckets. */
  datatype Granularity = Daily | Hourly

  /**
    A moment as the two period identifiers Ruby renders for it:
    `t.strftime('%Y%m%d')` and `t.strftime('%Y%m%d%H')`.
  */
  datatype Periods = Periods(day: string, hour: string)

  predicate AllDigits(s: string)
  {
    forall i :: 0 <= i < |s| ==> IsDigit(s[i])
  }

  /**
    The period strings strftime can render: 8 digits for the day, and the
    same 8 digits followed by the 2-digit hour.
  */
  type Stamp = p: Periods | |p.day| == 8 && |p.hour| == 10 && p.hour[..8] == p.day && AllDigits(p.hour)
    witness Periods("00000000", "0000000000")

  datatype Key = Key(kind: Kind, granularity: Granularity, period: string)

  /** The whole counter store: hash key -> (field -> value). */
  type Hashes = map<Key, map<string, int>>

  function DayKey(kind: Kind, t: Stamp): (k: Key)
    ensures WellFormedKey(k)
  {
    assert forall i :: 0 <= i < 8 ==> t.day[i] == t.hour[i];
    Key(kind, Daily, t.day)
  }

  function HourKey(kind: Kind, t: Stamp): (k: Key)
    ensures WellFormedKey(k)
  {
    Key(kind, Hourly, t.hour)
  }

  function Prefix(kind: Kind): string
  {
    match kind
    case TopicView => "topic_view"
    case TopicReply => "topic_reply"
  }

  /** The Redis key string, e.g. "topic_reply:2024010513". */
  function KeyName(k: Key): string
  {
    Prefix(k.kind) + ":" + k.period
  }

  predicate IsDigit(c: char)
  {
    '0' <= c <= '9'
  }

  /** A period as strftime renders it: 8 digits for a day, 10 for an hour. */
  predicate WellFormedKey(k: Key)
  {
    && |k.period| == (if k.granularity == Daily then 8 else 10)
    && AllDigits(k.period)
  }

  /**
    The key triple is a faithful stand-in for the key string: two
    well-formed keys with the same Redis name are the same key.
  */
  lemma KeyNameInjective(a: Key, b: Key)
    requires WellFormedKey(a) && WellFormedKey(b)
    requires KeyName(a) == KeyName(b)
    ensures a == b
  {
    var na, nb := KeyName(a), KeyName(b);
    assert na[6] == (if a.kind == TopicView then 'v' else 'r');
    assert nb[6] == (if b.kind == TopicView then 'v' else 'r');
    assert a.kind == b.kind;
    var n := |Prefix(a.kind)| + 1;
    assert a.period == na[n..];
    assert b.period == nb[n..];
  }

  /**
    Every key the log calls build is well formed, so a day bucket and an
    hour bucket never share a Redis name, whatever the two moments.
  */
  lemma DayAndHourNamesDiffer(kind: Kind, t: Stamp, kind': Kind, t': Stamp)
    ensures KeyName(DayKey(kind, t)) != KeyName(HourKey(kind', t'))
  {
    if KeyName(DayKey(kind, t)) == KeyName(HourKey(kind', t')) {
      KeyNameInjective(DayKey(kind, t), HourKey(kind', t'));
    }
  }

  /** The decimal rendering of a natural number, as Ruby's `Integer#to_s`. */
  function Decimal(n: nat): (s: string)
    ensures 1 <= |s|
    ensures n < 10 <==> |s| == 1
    ensures AllDigits(s)
  {
    if n < 10 then ["0123456789"[n]] else Decimal(n / 10) + ["0123456789"[n % 10]]
  }

  lemma {:induction false} DecimalInjective(m: nat, n: nat)
    requires Decimal(m) == Decimal(n)
    ensures m == n
  {
    if m >= 10 && n >= 10 {
      var sm, sn := Decimal(m), Decimal(n);
      assert sm[..|sm| - 1] == Decimal(m / 10);
      assert sn[..|sn| - 1] == Decimal(n / 10);
      DecimalInjective(m / 10, n / 10);
      assert "0123456789"[m % 10] == sm[|sm| - 1] == "0123456789"[n % 10];
    }
  }

  /** The hash field of a topic: "topic:<id>". */
  function FieldName(id: nat): string
  {
    "topic:" + Decimal(id)
  }

  /** Distinct topics write distinct fields. */
  lemma FieldNameInjective(m: nat, n: nat)
    requires FieldName(m) == FieldName(n)
    ensures m == n
  {
    assert Decimal(m) == FieldName(m)[6..];
    assert Decimal(n) == FieldName(n)[6..];
    DecimalInjective(m, n);
  }

  /** `HGET` read as a number: a missing key or field counts as 0. */
  function Count(h: Hashes, k: Key, f: string): int
  {
    if k in h && f in h[k] then h[k][f] else 0
  }

  /**
    `HINCRBY k f delta`: the one field moves by `delta` from its value
    (0 when missing); the key and the field are created when missing, and
    every other counter keeps its value.
  */
  function IncrBy(h: Hashes, k: Key, f: string, delta: int): (h': Hashes)
    ensures h'.Keys == h.Keys + {k}
    ensures h'[k].Keys == (if k in h then h[k].Keys else {}) + {f}
    ensures forall k' :: k' in h && k' != k ==> h'[k'] == h[k']
    ensures Count(h', k, f) == Count(h, k, f) + delta
    ensures forall k', f' :: k' != k || f' != f ==> Count(h', k', f') == Count(h, k', f')
  {
    var fields := if k in h then h[k] else map[];
    h[k := fields[f := Count(h, k, f) + delta]]
  }

  /** The store after `log_viewed` of topic `id` at `now`. */
  function Viewed(h: Hashes, id: nat, now: Stamp): Hashes
  {
    IncrBy(IncrBy(h, DayKey(TopicView, now), FieldName(id), 1), HourKey(TopicView, now), FieldName(id), 1)
  }

  /** The store after `log_replyed` of topic `id` at `now`. */
  function Replied(h: Hashes, id: nat, now: Stamp): Hashes
  {
    IncrBy(IncrBy(h, DayKey(TopicReply, now), FieldName(id), 1), HourKey(TopicView, now), FieldName(id), 1)
  }

  /** The store after `log_reply_deleted(t)` of topic `id`. */
  function ReplyDeleted(h: Hashes, id: nat, t: Stamp): Hashes
  {
    IncrBy(IncrBy(h, DayKey(TopicReply, t), FieldName(id), -1), HourKey(TopicReply, t), FieldName(id), -1)
  }

  /**
    log_viewed adds exactly 1 to the topic's field in the view day bucket
    and in the view hour bucket of `now`, and nothing else changes.
  */
  lemma ViewedCounts(h: Hashes, id: nat, now: Stamp, k: Key, f: string)
    ensures Viewed(h, id, now).Keys == h.Keys + {DayKey(TopicView, now), HourKey(TopicView, now)}
    ensures Count(Viewed(h, id, now), k, f) ==
      Count(h, k, f) + (if f == FieldName(id) && k in {DayKey(TopicView, now), HourKey(TopicView, now)} then 1 else 0)
  {
  }

  /**
    log_replyed adds exactly 1 to the topic's field in the reply day bucket
    and in the view (not reply) hour bucket of `now`; nothing else changes.
  */
  lemma RepliedCounts(h: Hashes, id: nat, now: Stamp, k: Key, f: string)
    ensures Replied(h, id, now).Keys == h.Keys + {DayKey(TopicReply, now), HourKey(TopicView, now)}
    ensures Count(Replied(h, id, now), k, f) ==
      Count(h, k, f) + (if f == FieldName(id) && k in {DayKey(TopicReply, now), HourKey(TopicView, now)} then 1 else 0)
    ensures Count(Replied(h, id, now), HourKey(TopicReply, now), f) == Count(h, HourKey(TopicReply, now), f)
  {
  }

  /**
    log_reply_deleted(t) takes exactly 1 from the topic's field in the
    reply day bucket and the reply hour bucket of `t` (a missing field
    counts as 0 first, so it becomes -1); nothing else changes.
  */
  lemma ReplyDeletedCounts(h: Hashes, id: nat, t: Stamp, k: Key, f: string)
    ensures ReplyDeleted(h, id, t).Keys == h.Keys + {DayKey(TopicReply, t), HourKey(TopicReply, t)}
    ensures Count(ReplyDeleted(h, id, t), k, f) ==
      Count(h, k, f) - (if f == FieldName(id) && k in {DayKey(TopicReply, t), HourKey(TopicReply, t)} then 1 else 0)
  {
  }

  /** Repeated views accumulate: two views add 2 to both view buckets. */
  lemma ViewedTwice(h: Hashes, id: nat, now: Stamp)
    ensures Count(Viewed(Viewed(h, id, now), id, now), DayKey(TopicView, now), FieldName(id)) ==
      Count(h, DayKey(TopicView, now), FieldName(id)) + 2
    ensures Count(Viewed(Viewed(h, id, now), id, now), HourKey(TopicView, now), FieldName(id)) ==
      Count(h, HourKey(TopicView, now), FieldName(id)) + 2
  {
  }

  /** Logging one topic never touches another topic's counters. */
  lemma OtherTopicsUntouched(h: Hashes, id: nat, other: nat, t: Stamp, k: Key)
    requires other != id
    ensures Count(Viewed(h, id, t), k, FieldName(other)) == Count(h, k, FieldName(other))
    ensures Count(Replied(h, id, t), k, FieldName(other)) == Count(h, k, FieldName(other))
    ensures Count(ReplyDeleted(h, id, t), k, FieldName(other)) == Count(h, k, FieldName(other))
  {
    if FieldName(other) == FieldName(id) {
      FieldNameInjective(other, id);
    }
  }

  /**
    A reply and its deletion at the same moment do not cancel out: the
    reply day bucket is restored, but the view hour bucket keeps the +1 and
    the reply hour bucket is left at -1.
  */
  lemma ReplyThenDeleteAsymmetry(h: Hashes, id: nat, t: Stamp)
    ensures Count(ReplyDeleted(Replied(h, id, t), id, t), DayKey(TopicReply, t), FieldName(id)) ==
      Count(h, DayKey(TopicReply, t), FieldName(id))
    ensures Count(ReplyDeleted(Replied(h, id, t), id, t), HourKey(TopicView, t), FieldName(id)) ==
      Count(h, HourKey(TopicView, t), FieldName(id)) + 1
    ensures Count(ReplyDeleted(Replied(h, id, t), id, t), HourKey(TopicReply, t), FieldName(id)) ==
      Count(h, HourKey(TopicReply, t), FieldName(id)) - 1
  {
  }

  /**
    The deletion is booked against the buckets of the reply's own time:
    the reply hour bucket of any other hour, `now`'s included, keeps its
    value, and so does the reply day bucket of any other day.
  */
  lemma ReplyDeletedKeyedByReplyTime(h: Hashes, id: nat, t: Stamp, now: Stamp, f: string)
    requires now.hour != t.hour
    ensures now.day != t.day ==>
      Count(ReplyDeleted(h, id, t), DayKey(TopicReply, now), f) == Count(h, DayKey(TopicReply, now), f)
    ensures Count(ReplyDeleted(h, id, t), HourKey(TopicReply, now), f) == Count(h, HourKey(TopicReply, now), f)
  {
  }

  /**
    On a flushed store, deleting a reply leaves the field at -1 in both
    reply buckets: `HINCRBY` creates the key, it does not skip it.
  */
  lemma ReplyDeletedOnMissingField(id: nat, t: Stamp)
    ensures ReplyDeleted(map[], id, t)[DayKey(TopicReply, t)] == map[FieldName(id) := -1]
    ensures ReplyDeleted(map[], id, t)[HourKey(TopicReply, t)] == map[FieldName(id) := -1]
  {
  }

  /** The Redis server's hash store, shared by all topics. */
  class CounterStore {
    var hashes: Hashes

    /** A flushed store: every counter reads 0. */
    constructor ()
      ensures hashes == map[]
    {
      hashes := map[];
    }

    /** `HINCRBY key field delta`, answering the new value. */
    method HIncrBy(key: Key, field: string, delta: int) returns (value: int)
      modifies this
      ensures hashes == IncrBy(old(hashes), key, field, delta)
      ensures value == Count(old(hashes), key, field) + delta
    {
      hashes := IncrBy(hashes, key, field, delta);
      value := Count(hashes, key, field);
    }
  }
}
