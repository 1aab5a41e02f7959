/**
  The follower list of a topic (app/models/topic.rb, follower_ids): an
  array of user ids that MongoDB's `$push` appends to and `$pull` removes
  every occurrence of a value from.
*/
module Followers {

  /** No user id occurs twice. */
  predicate NoDuplicates(s: seq<int>)
  {
    forall i, j :: 0 <= i < j < |s| ==> s[i] != s[j]
  }

  /**
    `$pull`: `s` with every occurrence of `x` removed; the other ids keep
    their number of occurrences.
  */
  function Without(s: seq<int>, x: int): (r: seq<int>)
    ensures x !in r
    ensures forall y :: y != x ==> multiset(r)[y] == multiset(s)[y]
    ensures |r| == |s| - multiset(s)[x]
  {
    if s == [] then []
    else
      assert s == [s[0]] + s[1..];
      if s[0] == x then Without(s[1..], x) else [s[0]] + Without(s[1..], x)
  }

  /** `$pull` keeps the remaining ids in their order: it distributes over concatenation. */
  lemma {:induction false} WithoutConcat(s: seq<int>, t: seq<int>, x: int)
    ensures Without(s + t, x) == Without(s, x) + Without(t, x)
  {
    if s != [] {
      var st := s + t;
      assert st[0] == s[0] && st[1..] == s[1..] + t;
      WithoutConcat(s[1..], t, x);
      if s[0] == x {
        assert Without(st, x) == Without(st[1..], x);
      } else {
        assert Without(st, x) == [s[0]] + Without(st[1..], x);
        assert Without(s, x) == [s[0]] + Without(s[1..], x);
      }
    } else {
      assert s + t == t;
    }
  }

  /** Every id of the pulled list was in the list, at no more positions. */
  lemma {:induction false} WithoutKeepsNoDuplicates(s: seq<int>, x: int)
    requires NoDuplicates(s)
    ensures NoDuplicates(Without(s, x))
  {
    if s != [] {
      WithoutKeepsNoDuplicates(s[1..], x);
      if s[0] != x {
        var r := Without(s[1..], x);
        assert s[0] !in s[1..];
        assert multiset(r)[s[0]] == 0;
        assert s[0] !in r;
      }
    }
  }
}
