/** `RO.Alg.ListPlus`: a list with the dict-style accessors `get`, `has_key`,
    `keys`, `values` and `iteritems`, keyed by position. */
module ListPlus {

  /** A subscript: an integer, or a value of another type (indexing a list
      with it raises TypeError). */
  datatype Key = IntKey(i: int) | OtherKey

  /** Python's indexing rule: `-len <= i < len`, negative indices counting
      from the end. */
  predicate InRange<T>(s: seq<T>, i: int)
  {
    -|s| <= i < |s|
  }

  function At<T>(s: seq<T>, i: int): T
    requires InRange(s, i)
  {
    if i < 0 then s[|s| + i] else s[i]
  }

  /** `has_key`: true iff `self[key]` does not raise. */
  function HasKey<T>(s: seq<T>, key: Key): (r: bool)
    ensures r <==> key.IntKey? && -|s| <= key.i < |s|
  {
    match key
    case IntKey(i) => InRange(s, i)
    case OtherKey => false
  }

  /** `get`: `self[key]`, or the default when indexing raises LookupError or
      TypeError. */
  function Get<T>(s: seq<T>, key: Key, default: T): (r: T)
    ensures !HasKey(s, key) ==> r == default
    ensures key.IntKey? && 0 <= key.i < |s| ==> r == s[key.i]
    ensures key.IntKey? && -|s| <= key.i < 0 ==> r == s[|s| + key.i]
  {
    if HasKey(s, key) then At(s, key.i) else default
  }

  /** `keys()`: `[0, 1, ..., len - 1]`. */
  function Keys<T>(s: seq<T>): (r: seq<int>)
    ensures |r| == |s|
    ensures forall i :: 0 <= i < |r| ==> r[i] == i
  {
    seq(|s|, i => i)
  }

  /** `values()`: a copy of the list. */
  function Values<T>(s: seq<T>): (r: seq<T>)
    ensures r == s
  {
    s[..]
  }

  /** `iteritems()`: `(key, self[key])` for each key of `keys()`, in order. */
  function Items<T>(s: seq<T>): (r: seq<(int, T)>)
    ensures |r| == |s|
    ensures forall i :: 0 <= i < |r| ==> r[i] == (Keys(s)[i], s[i])
  {
    seq(|s|, i requires 0 <= i < |s| => (i, s[i]))
  }

  /** Every key of `keys()` is accepted by `has_key`, and `get` of it is the
      corresponding value; so the items pair each key with its value. */
  lemma KeysAreKeys<T>(s: seq<T>, default: T)
    ensures forall j :: 0 <= j < |s| ==> HasKey(s, IntKey(Keys(s)[j])) && Get(s, IntKey(Keys(s)[j]), default) == Values(s)[j]
    ensures forall j :: 0 <= j < |s| ==> Items(s)[j] == (Keys(s)[j], Get(s, IntKey(Keys(s)[j]), default))
  {
  }
}
