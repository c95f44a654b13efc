/** `RO.Wdg.StateTracker`: named items, each with a function that reads its
    state and one that sets it. The functions are values of `G` and `S`; what
    a getter returns is the parameter `get`, whether a setter raises is the
    parameter `fails`, and Python's dict order is the parameter `order`. */
module StateTracker {
  import opened Wrappers
  import opened Sorting
  import opened SeqUtil

  datatype ItemState<G, S> = ItemState(getFunc: Option<G>, setFunc: Option<S>)

  type Tracker<G, S> = map<string, ItemState<G, S>>

  /** `trackItem`: RuntimeError if the name is already tracked; otherwise
      exactly that name is added. */
  function TrackItem<G, S>(t: Tracker<G, S>, name: string, getFunc: Option<G>, setFunc: Option<S>): (r: Result<Tracker<G, S>>)
    ensures r.Err? <==> name in t
    ensures r.Err? ==> r.error == RuntimeError
    ensures r.Ok? ==> r.value.Keys == t.Keys + {name} && r.value[name] == ItemState(getFunc, setFunc)
    ensures r.Ok? ==> forall n :: n in t ==> r.value[n] == t[n]
  {
    if name in t then Err(RuntimeError) else Ok(t[name := ItemState(getFunc, setFunc)])
  }

  /** `getState`: every tracked name mapped to what its getter returns; a
      missing getter is called as None, which raises TypeError. */
  function GetState<G, S, V>(t: Tracker<G, S>, get: G -> V): (r: Result<map<string, V>>)
    ensures r.Err? <==> exists n :: n in t && t[n].getFunc.None?
    ensures r.Err? ==> r.error == TypeError
    ensures r.Ok? ==> r.value.Keys == t.Keys && forall n :: n in t ==> r.value[n] == get(t[n].getFunc.value)
  {
    if exists n :: n in t && t[n].getFunc.None? then Err(TypeError)
    else Ok(map n | n in t :: get(t[n].getFunc.value))
  }

  /** A warning logged by `setState`: the item could not be set to the value. */
  datatype Warning<V> = Warning(name: string, val: V)

  /** `setState` over the keys in dict order: each tracked name's setter is
      called with its value, unknown names are skipped, and a setter that
      raises is reported as a warning while the rest are still set. Returns
      the setter calls and the warnings. */
  function SetStateFrom<G, S, V(!new)>(t: Tracker<G, S>, stateDict: map<string, V>, order: seq<string>, fails: (S, V) -> bool): (r: (seq<(string, V)>, seq<Warning<V>>))
    requires forall n :: n in order ==> n in stateDict
    ensures forall c :: c in r.0 <==> c.0 in order && c.0 in t && c.1 == stateDict[c.0]
    ensures forall w :: w in r.1 ==> (w.name, w.val) in r.0
    ensures forall c :: c in r.0 ==> (Warning(c.0, c.1) in r.1 <==> t[c.0].setFunc.None? || fails(t[c.0].setFunc.value, c.1))
    ensures |r.0| <= |order|
  {
    if order == [] then ([], [])
    else
      var (calls, warnings) := SetStateFrom(t, stateDict, order[1..], fails);
      var n := order[0];
      if n !in t then (calls, warnings)
      else
        var v := stateDict[n];
        var failed := t[n].setFunc.None? || fails(t[n].setFunc.value, v);
        ([(n, v)] + calls, (if failed then [Warning(n, v)] else []) + warnings)
  }

  /** `setState`: `order` is the dict's iteration order. */
  function SetState<G, S, V(!new)>(t: Tracker<G, S>, stateDict: map<string, V>, order: seq<string>, fails: (S, V) -> bool): (r: (seq<(string, V)>, seq<Warning<V>>))
    requires Distinct(order) && forall n :: n in order <==> n in stateDict
    ensures forall c :: c in r.0 <==> c.0 in stateDict && c.0 in t && c.1 == stateDict[c.0]
    ensures forall w :: w in r.1 ==> (w.name, w.val) in r.0
    ensures forall c :: c in r.0 ==> (Warning(c.0, c.1) in r.1 <==> t[c.0].setFunc.None? || fails(t[c.0].setFunc.value, c.1))
  {
    SetStateFrom(t, stateDict, order, fails)
  }

  /** Which setters are called does not depend on which of them raise. */
  lemma {:induction false} SetCallsIgnoreFailures<G, S, V(!new)>(t: Tracker<G, S>, stateDict: map<string, V>, order: seq<string>, fails1: (S, V) -> bool, fails2: (S, V) -> bool)
    requires forall n :: n in order ==> n in stateDict
    ensures SetStateFrom(t, stateDict, order, fails1).0 == SetStateFrom(t, stateDict, order, fails2).0
  {
    if order != [] {
      SetCallsIgnoreFailures(t, stateDict, order[1..], fails1, fails2);
    }
  }

  /** Setting the state just read calls every tracked setter with the value
      its getter returned, and calls no setter of an untracked name. */
  lemma SetWhatWasGot<G, S, V(!new)>(t: Tracker<G, S>, get: G -> V, order: seq<string>, fails: (S, V) -> bool)
    requires GetState(t, get).Ok?
    requires Distinct(order) && forall n :: n in order <==> n in t
    ensures var got := GetState(t, get).value;
            var calls := SetState(t, got, order, fails).0;
            (forall n :: n in t ==> (n, get(t[n].getFunc.value)) in calls) && (forall c :: c in calls ==> c.0 in t)
  {
  }
}
