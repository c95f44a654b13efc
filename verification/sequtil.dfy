/** Python list operations the modelled code shares: membership without
    repeats and `list.remove`, which deletes the first occurrence. */
module SeqUtil {

  /** No element occurs twice. */
  predicate Distinct<T(==)>(s: seq<T>)
  {
    forall i, j :: 0 <= i < j < |s| ==> s[i] != s[j]
  }

  /** The position of the first occurrence of `x`. */
  function FirstIndex<T(==)>(s: seq<T>, x: T): (i: nat)
    requires x in s
    ensures i < |s| && s[i] == x && x !in s[..i]
  {
    if s[0] == x then 0
    else
      var j := FirstIndex(s[1..], x);
      assert s[..j + 1] == [s[0]] + s[1..][..j];
      j + 1
  }

  /** `r` is `s` with the first occurrence of `x` taken out and every other
      element kept, in its original order. */
  predicate DropsFirst<T(==)>(s: seq<T>, x: T, r: seq<T>)
  {
    x in s && |r| == |s| - 1 &&
    forall k :: 0 <= k < |r| ==> r[k] == (if k < FirstIndex(s, x) then s[k] else s[k + 1])
  }

  /** `list.remove(x)` for an `x` in the list: its first occurrence is
      dropped and the rest keeps its order. */
  function RemoveFirst<T(==)>(s: seq<T>, x: T): (r: seq<T>)
    requires x in s
    ensures DropsFirst(s, x, r)
    ensures multiset(r) == multiset(s) - multiset{x}
  {
    var i := FirstIndex(s, x);
    assert s == s[..i] + [x] + s[i + 1..];
    s[..i] + s[i + 1..]
  }

  /** In a list without repeats, removing `x` leaves no `x` behind. */
  lemma RemoveFirstOfDistinct<T>(s: seq<T>, x: T)
    requires x in s && Distinct(s)
    ensures x !in RemoveFirst(s, x)
  {
    var i := FirstIndex(s, x);
    var r := RemoveFirst(s, x);
    assert r == s[..i] + s[i + 1..];
    forall k | 0 <= k < |r| ensures r[k] != x {
      if k < i {
        assert r[k] == s[k];
      } else {
        assert r[k] == s[k + 1];
      }
    }
  }

  /** Removing an element just appended to a list that did not hold it
      gives the list back. */
  lemma RemoveAppended<T>(s: seq<T>, x: T)
    requires x !in s
    ensures RemoveFirst(s + [x], x) == s
  {
    var i := FirstIndex(s + [x], x);
    assert i == |s|;
    assert (s + [x])[..i] == s;
  }
}
