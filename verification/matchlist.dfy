/** `RO.Alg.MatchList`: finds the entries of a list of strings that match a
    query, optionally as an abbreviation (prefix) and optionally ignoring case. */
module MatchList {
  import opened Wrappers
  import opened StrUtil
  import opened Sorting
  import opened SeqUtil

  /** An element of the list handed to `setList`; only string-like elements
      (those with a `lower` method) are kept. */
  datatype Item = Str(s: string) | NonString

  /** A stored entry: the key compared with the query and the original value.
      Without `ignoreCase` the source stores a 1-tuple `(val,)`; here that is an
      entry whose key is the value itself, which sorts and matches the same way. */
  type Entry = (string, string)

  datatype Matcher = Matcher(abbrevOK: bool, ignoreCase: bool, valueList: seq<Entry>)
  {
    /** The query as it is compared with the keys. */
    function Query(prefix: string): string
    {
      if ignoreCase then Lower(prefix) else prefix
    }

    predicate Hits(key: string, prefix: string)
    {
      if abbrevOK then StartsWith(key, Query(prefix)) else key == Query(prefix)
    }

    /** `getAllMatches`: the original values of the matching entries, in list order. */
    function GetAllMatches(prefix: string): (r: seq<string>)
      ensures |r| <= |valueList|
    {
      MatchesIn(valueList, prefix)
    }

    function MatchesIn(entries: seq<Entry>, prefix: string): (r: seq<string>)
      ensures |r| <= |entries|
      ensures forall x :: x in r <==> exists e :: e in entries && e.1 == x && Hits(e.0, prefix)
    {
      if entries == [] then []
      else
        var rest := MatchesIn(entries[1..], prefix);
        assert forall e :: e in entries <==> e == entries[0] || e in entries[1..];
        if Hits(entries[0].0, prefix) then [entries[0].1] + rest else rest
    }

    /** `getUniqueMatch`: the match if there is exactly one, else ValueError. */
    function GetUniqueMatch(prefix: string): (r: Result<string>)
      ensures r.Ok? <==> |GetAllMatches(prefix)| == 1
      ensures r.Ok? ==> r.value == GetAllMatches(prefix)[0]
      ensures r.Err? ==> r.error == ValueError
    {
      var ms := GetAllMatches(prefix);
      if |ms| == 1 then Ok(ms[0]) else Err(ValueError)
    }

    /** `setList`: keep the string-like items and store them sorted. */
    function SetList(items: seq<Item>): (m: Matcher)
      ensures m.abbrevOK == abbrevOK && m.ignoreCase == ignoreCase
      ensures SortedBy(m.valueList, PairLessEq)
      ensures multiset(m.valueList) == multiset(EntriesOf(items, ignoreCase))
    {
      Matcher(abbrevOK, ignoreCase, SortPairs(EntriesOf(items, ignoreCase)))
    }
  }

  /** The entries `setList` builds from a list, before sorting. */
  function EntriesOf(items: seq<Item>, ignoreCase: bool): (r: seq<Entry>)
    ensures forall e :: e in r <==> Str(e.1) in items && e.0 == (if ignoreCase then Lower(e.1) else e.1)
  {
    if items == [] then []
    else
      var rest := EntriesOf(items[1..], ignoreCase);
      assert forall it :: it in items <==> it == items[0] || it in items[1..];
      match items[0]
      case Str(s) => [(if ignoreCase then Lower(s) else s, s)] + rest
      case NonString => rest
  }

  /** The constructor; the source's defaults are abbrevOK = True, ignoreCase = True. */
  function New(items: seq<Item>, abbrevOK: bool, ignoreCase: bool): (m: Matcher)
    ensures m.abbrevOK == abbrevOK && m.ignoreCase == ignoreCase
    ensures multiset(m.valueList) == multiset(EntriesOf(items, ignoreCase))
  {
    Matcher(abbrevOK, ignoreCase, []).SetList(items)
  }

  /** What a query matches, stated directly on the list given to `setList`:
      a value is returned iff it was a string in the list and (case-folded when
      ignoreCase) it starts with the (case-folded) query, or equals it when
      abbreviations are not allowed. */
  lemma MatchesOfSetList(m: Matcher, items: seq<Item>, prefix: string, x: string)
    ensures var k := if m.ignoreCase then Lower(x) else x;
            var q := if m.ignoreCase then Lower(prefix) else prefix;
            x in m.SetList(items).GetAllMatches(prefix) <==>
              Str(x) in items && (if m.abbrevOK then StartsWith(k, q) else k == q)
  {
    var m' := m.SetList(items);
    var es := EntriesOf(items, m.ignoreCase);
    var k := if m.ignoreCase then Lower(x) else x;
    if Str(x) in items && m'.Hits(k, prefix) {
      var e := (k, x);
      assert e in es;
      assert e in multiset(es);
      assert e in m'.valueList;
    }
    if x in m'.GetAllMatches(prefix) {
      var e :| e in m'.valueList && e.1 == x && m'.Hits(e.0, prefix);
      assert e in multiset(m'.valueList);
      assert e in es;
    }
  }

  // ---------------------------------------------------------------------
  // matchKeys
  //
  // The loop of `matchKeys` is stated for any key lookup that either finds a
  // key's unique match or fails; `MatchKeys` instantiates it with
  // `getUniqueMatch`.

  /** Every key in `keys` has a match and no two keys share it. */
  predicate MatchableKeys(lookup: string -> Result<string>, keys: set<string>)
  {
    (forall k :: k in keys ==> lookup(k).Ok?) &&
    (forall a, b :: a in keys && b in keys && a != b ==> lookup(a).value != lookup(b).value)
  }

  /** The condition under which the loop over the keys still to do succeeds. */
  predicate CanFinish(lookup: string -> Result<string>, keys: set<string>, done: set<string>)
  {
    MatchableKeys(lookup, keys) && forall k :: k in keys ==> lookup(k).value !in done
  }

  lemma CanFinishStep(lookup: string -> Result<string>, k0: string, rest: set<string>, done: set<string>)
    requires k0 !in rest
    ensures CanFinish(lookup, {k0} + rest, done) <==>
            lookup(k0).Ok? && lookup(k0).value !in done &&
            CanFinish(lookup, rest, done + {lookup(k0).value})
  {
  }

  function MatchKeysFrom<V>(lookup: string -> Result<string>, order: seq<string>, fromDict: map<string, V>, toDict: map<string, V>): Result<map<string, V>>
    requires forall k :: k in order ==> k in fromDict
  {
    if order == [] then Ok(toDict)
    else
      match lookup(order[0])
      case Err(e) => Err(e)
      case Ok(toKey) =>
        if toKey in toDict then Err(ValueError)
        else MatchKeysFrom(lookup, order[1..], fromDict, toDict[toKey := fromDict[order[0]]])
  }

  lemma {:induction false} MatchKeysFromOk<V>(lookup: string -> Result<string>, order: seq<string>, fromDict: map<string, V>, toDict: map<string, V>)
    requires Distinct(order) && forall k :: k in order ==> k in fromDict
    ensures MatchKeysFrom(lookup, order, fromDict, toDict).Ok? <==> CanFinish(lookup, (set k | k in order), toDict.Keys)
    decreases |order|
  {
    if order == [] {
      assert (set k | k in order) == {};
    } else {
      var k0 := order[0];
      var rest := order[1..];
      assert Distinct(rest);
      assert (set k | k in order) == {k0} + (set k | k in rest);
      CanFinishStep(lookup, k0, (set k | k in rest), toDict.Keys);
      if lookup(k0).Ok? && lookup(k0).value !in toDict {
        var toDict' := toDict[lookup(k0).value := fromDict[k0]];
        MatchKeysFromOk(lookup, rest, fromDict, toDict');
        assert toDict'.Keys == toDict.Keys + {lookup(k0).value};
      }
    }
  }

  lemma {:induction false} MatchKeysFromError<V>(lookup: string -> Result<string>, order: seq<string>, fromDict: map<string, V>, toDict: map<string, V>)
    requires forall k :: k in order ==> k in fromDict
    requires forall k :: k in order && lookup(k).Err? ==> lookup(k).error == ValueError
    ensures var r := MatchKeysFrom(lookup, order, fromDict, toDict);
            r.Err? ==> r.error == ValueError
    decreases |order|
  {
    if order != [] && lookup(order[0]).Ok? && lookup(order[0]).value !in toDict {
      MatchKeysFromError(lookup, order[1..], fromDict, toDict[lookup(order[0]).value := fromDict[order[0]]]);
    }
  }

  lemma {:induction false} MatchKeysFromContents<V>(lookup: string -> Result<string>, order: seq<string>, fromDict: map<string, V>, toDict: map<string, V>)
    requires Distinct(order) && forall k :: k in order ==> k in fromDict
    requires MatchKeysFrom(lookup, order, fromDict, toDict).Ok?
    ensures var r := MatchKeysFrom(lookup, order, fromDict, toDict).value;
            (forall k :: k in order ==> lookup(k).Ok?) &&
            r.Keys == toDict.Keys + (set k | k in order :: lookup(k).value) &&
            (forall x :: x in toDict ==> r[x] == toDict[x]) &&
            (forall k :: k in order ==> r[lookup(k).value] == fromDict[k])
    decreases |order|
  {
    if order != [] {
      var k0 := order[0];
      var rest := order[1..];
      assert Distinct(rest);
      var t := lookup(k0).value;
      var toDict' := toDict[t := fromDict[k0]];
      MatchKeysFromContents(lookup, rest, fromDict, toDict');
      var r := MatchKeysFrom(lookup, rest, fromDict, toDict').value;
      assert forall k :: k in order <==> k == k0 || k in rest;
      assert (set k | k in order :: lookup(k).value) == {t} + (set k | k in rest :: lookup(k).value);
      forall k | k in order ensures r[lookup(k).value] == fromDict[k] {
        if k != k0 {
          assert k in rest;
        }
      }
    }
  }

  /** `matchKeys`: a copy of `fromDict` with every key replaced by its unique
      match. `order` is the dict's (unspecified) iteration order. */
  function MatchKeys<V>(m: Matcher, fromDict: map<string, V>, order: seq<string>): (r: Result<map<string, V>>)
    requires Distinct(order) && (forall k :: k in order <==> k in fromDict)
    ensures r.Err? ==> r.error == ValueError
  {
    MatchKeysFromError(k => m.GetUniqueMatch(k), order, fromDict, map[]);
    MatchKeysFrom(k => m.GetUniqueMatch(k), order, fromDict, map[])
  }

  /** matchKeys succeeds iff every key has a unique match and no two keys share
      one, whatever the iteration order; on success each match carries its
      key's value and nothing else is in the result. */
  lemma MatchKeysCorrect<V>(m: Matcher, fromDict: map<string, V>, order: seq<string>)
    requires Distinct(order) && (forall k :: k in order <==> k in fromDict)
    ensures var r := MatchKeys(m, fromDict, order);
            var lookup := k => m.GetUniqueMatch(k);
            (r.Ok? <==> MatchableKeys(lookup, fromDict.Keys)) &&
            (r.Ok? ==> r.value.Keys == (set k | k in fromDict :: lookup(k).value) &&
                       forall k :: k in fromDict ==> r.value[lookup(k).value] == fromDict[k])
  {
    var lookup := k => m.GetUniqueMatch(k);
    MatchKeysFromOk(lookup, order, fromDict, map[]);
    assert (set k | k in order) == fromDict.Keys;
    if MatchKeys(m, fromDict, order).Ok? {
      MatchKeysFromContents(lookup, order, fromDict, map[]);
      assert (set k | k in order :: lookup(k).value) == (set k | k in fromDict :: lookup(k).value);
    }
  }
}
