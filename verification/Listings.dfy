/** How long a list is beside the set of what it lists. */
module Listings {

  function ToSet<T>(list: seq<T>): set<T> { set x | x in list }

  predicate NoRepeats<T(==)>(list: seq<T>) {
    forall i, j :: 0 <= i < j < |list| ==> list[i] != list[j]
  }

  lemma {:induction false} SetIsNoLonger<T>(list: seq<T>)
    ensures |ToSet(list)| <= |list|
  {
    if list == [] {
      assert ToSet(list) == {};
    } else {
      SetIsNoLonger(list[1..]);
      assert ToSet(list) == {list[0]} + ToSet(list[1..]);
    }
  }

  /** A list is as long as its set exactly when it lists nothing twice. */
  lemma {:induction false} AsLongAsItsSet<T>(list: seq<T>)
    ensures |ToSet(list)| == |list| <==> NoRepeats(list)
  {
    if list == [] {
      assert ToSet(list) == {};
    } else {
      var first, rest := list[0], list[1..];
      AsLongAsItsSet(rest);
      SetIsNoLonger(rest);
      assert ToSet(list) == {first} + ToSet(rest);
      if first in rest {
        var j :| 0 <= j < |rest| && rest[j] == first;
        assert list[j + 1] == list[0];
        assert ToSet(list) == ToSet(rest);
      } else {
        assert forall i, j :: 0 <= i < j < |rest| ==> list[i + 1] == rest[i] && list[j + 1] == rest[j];
      }
    }
  }

  lemma SubsetIsSmaller<T>(a: set<T>, b: set<T>)
    requires a <= b
    ensures |a| <= |b|
  {
    assert b == a + (b - a);
  }
}
