/** `RO.Alg.MultiDict`: dictionaries whose values are lists (`ListDict`) or
    sets (`SetDict`) of items. */
module MultiDict {
  import opened Wrappers
  import opened SeqUtil

  type ListDict<K, V> = map<K, seq<V>>
  type SetDict<K, V> = map<K, set<V>>

  /** The values of `key`, or the empty list when the key is absent. */
  function Values<K, V>(d: ListDict<K, V>, key: K): seq<V>
  {
    if key in d then d[key] else []
  }

  /** `ListDict.__setitem__`: append `val` to the key's list, creating `[val]`
      for a new key; duplicates are kept. */
  function Add<K, V>(d: ListDict<K, V>, key: K, val: V): (r: ListDict<K, V>)
    ensures r.Keys == d.Keys + {key}
    ensures Values(r, key) == Values(d, key) + [val]
    ensures forall k :: k in d && k != key ==> r[k] == d[k]
  {
    if key in d then d[key := d[key] + [val]] else d[key := [val]]
  }

  /** `ListDict.addList`: append all values in order, creating the entry if needed
      (even for an empty list). */
  function AddList<K, V>(d: ListDict<K, V>, key: K, vals: seq<V>): (r: ListDict<K, V>)
    ensures r.Keys == d.Keys + {key}
    ensures Values(r, key) == Values(d, key) + vals
    ensures forall k :: k in d && k != key ==> r[k] == d[k]
  {
    if key in d then d[key := d[key] + vals] else d[key := vals]
  }

  /** Appending a list is appending its values one at a time, for a key that
      already exists or a non-empty list. */
  lemma {:induction false} AddListIsRepeatedAdd<K, V>(d: ListDict<K, V>, key: K, vals: seq<V>)
    requires key in d || vals != []
    ensures AddList(d, key, vals) == AddEach(d, key, vals)
    decreases |vals|
  {
    var v := Values(d, key);
    if vals == [] {
      assert d[key] + vals == d[key];
    } else {
      var front := vals[..|vals| - 1];
      var last := vals[|vals| - 1];
      assert v + vals == (v + front) + [last];
      if key in d || front != [] {
        AddListIsRepeatedAdd(d, key, front);
        UpdateTwice(d, key, v + front, v + vals);
      } else {
        assert v + vals == [last];
      }
    }
  }

  lemma UpdateTwice<K, V>(d: map<K, V>, key: K, a: V, b: V)
    ensures d[key := a][key := b] == d[key := b]
  {
  }

  /** Reference definition: `d[key] = v` for each `v` of `vals` in turn. */
  function AddEach<K, V>(d: ListDict<K, V>, key: K, vals: seq<V>): ListDict<K, V>
    decreases |vals|
  {
    if vals == [] then d else Add(AddEach(d, key, vals[..|vals| - 1]), key, vals[|vals| - 1])
  }

  /** `ListDict.remove`: a missing key fails with AttributeError (the code calls
      `.remove` on the `None` that `dict.get` returns), a missing value with
      ValueError. An emptied list stays in the dictionary. */
  function Remove<K, V(==)>(d: ListDict<K, V>, key: K, val: V): (r: Result<ListDict<K, V>>)
    ensures key !in d ==> r == Err(AttributeError)
    ensures key in d && val !in d[key] ==> r == Err(ValueError)
    ensures r.Ok? ==> r.value.Keys == d.Keys &&
                      multiset(r.value[key]) == multiset(d[key]) - multiset{val} &&
                      DropsFirst(d[key], val, r.value[key]) &&
                      forall k :: k in d && k != key ==> r.value[k] == d[k]
  {
    if key !in d then Err(AttributeError)
    else if val !in d[key] then Err(ValueError)
    else Ok(d[key := RemoveFirst(d[key], val)])
  }

  /** Removing a value just added to a key that did not hold it restores the
      dictionary, except that a newly created key stays with an empty list. */
  lemma AddThenRemove<K, V>(d: ListDict<K, V>, key: K, val: V)
    requires val !in Values(d, key)
    ensures Remove(Add(d, key, val), key, val) == Ok(d[key := Values(d, key)])
  {
    var s := Values(d, key);
    var a := Add(d, key, val);
    assert a[key] == s + [val];
    RemoveAppended(s, val);
    assert a[key := s] == d[key := s];
  }

  /** The values of `key` in a set dictionary, or the empty set. */
  function Members<K, V>(d: SetDict<K, V>, key: K): set<V>
  {
    if key in d then d[key] else {}
  }

  /** `SetDict.__setitem__`: add `val` to the key's set; duplicates are ignored. */
  function SetAdd<K, V>(d: SetDict<K, V>, key: K, val: V): (r: SetDict<K, V>)
    ensures r.Keys == d.Keys + {key}
    ensures Members(r, key) == Members(d, key) + {val}
    ensures forall k :: k in d && k != key ==> r[k] == d[k]
  {
    if key !in d then d[key := {val}] else d[key := d[key] + {val}]
  }

  /** `SetDict.addList`: union the values into the key's set, creating the entry
      if needed (even for an empty list). */
  function SetAddList<K, V>(d: SetDict<K, V>, key: K, vals: seq<V>): (r: SetDict<K, V>)
    ensures r.Keys == d.Keys + {key}
    ensures Members(r, key) == Members(d, key) + (set v | v in vals)
    ensures forall k :: k in d && k != key ==> r[k] == d[k]
  {
    if key !in d then d[key := set v | v in vals] else d[key := d[key] + set v | v in vals]
  }

  /** Adding a value already present changes nothing. */
  lemma SetAddIdempotent<K, V>(d: SetDict<K, V>, key: K, val: V)
    ensures SetAdd(SetAdd(d, key, val), key, val) == SetAdd(d, key, val)
  {
  }

  /** `SetDict.remove` (inherited from `ListDict`): a missing key fails with
      AttributeError and a missing value with KeyError (`set.remove`). */
  function SetRemove<K, V>(d: SetDict<K, V>, key: K, val: V): (r: Result<SetDict<K, V>>)
    ensures key !in d ==> r == Err(AttributeError)
    ensures key in d && val !in d[key] ==> r == Err(KeyError)
    ensures r.Ok? ==> r.value.Keys == d.Keys && r.value[key] == d[key] - {val} &&
                      val in d[key] &&
                      forall k :: k in d && k != key ==> r.value[k] == d[k]
  {
    if key !in d then Err(AttributeError)
    else if val !in d[key] then Err(KeyError)
    else Ok(d[key := d[key] - {val}])
  }
}
