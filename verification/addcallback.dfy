/** `RO.AddCallback`: a list of callback functions with no duplicates, a
    guard that makes running the callbacks non-reentrant, and failure
    isolation (`safeCall2`).

    Callback functions are values of the type parameter `F`. Running a
    callback is recorded in a trace; whether it raises is the parameter
    `fails`, and the edit it makes to the callback list while running (by
    calling `addCallback` or `removeCallback`) is the parameter `edit`. */
module AddCallback {
  import opened Wrappers
  import opened SeqUtil

  /** The argument given as `callFunc`: `None`, something not callable, or a function. */
  datatype CallArg<F> = NoFunc | NotCallable | Func(f: F)

  /** One call made by `safeCall2`: the function and whether it raised (in
      which case a traceback went to stderr and execution continued). */
  datatype CallRecord<F> = Called(f: F, failed: bool)

  /** `BaseMixin` state: `_callbacks`, `_enableCallbacks`, `_defCallNow`. */
  datatype Registry<F> = Registry(callbacks: seq<F>, enabled: bool, defCallNow: bool)

  function Functions<F>(trace: seq<CallRecord<F>>): (r: seq<F>)
    ensures |r| == |trace|
    ensures forall i :: 0 <= i < |trace| ==> r[i] == trace[i].f
  {
    if trace == [] then [] else [trace[0].f] + Functions(trace[1..])
  }

  /** `safeCall2`: call `f`; if it raises, report and carry on. */
  function SafeCall2<F>(f: F, fails: F -> bool): (r: CallRecord<F>)
    ensures r.f == f && r.failed == fails(f)
  {
    Called(f, fails(f))
  }

  /** The loop of `_basicDoCallbacks` over a snapshot of the list; `current` is
      the live list, which the callbacks may edit. */
  function RunSnapshot<F>(snapshot: seq<F>, current: seq<F>, fails: F -> bool, edit: F -> seq<F> -> seq<F>): (r: (seq<F>, seq<CallRecord<F>>))
    ensures Functions(r.1) == snapshot
    ensures forall i :: 0 <= i < |r.1| ==> r.1[i].failed == fails(snapshot[i])
  {
    if snapshot == [] then (current, [])
    else
      var f := snapshot[0];
      var rest := RunSnapshot(snapshot[1..], edit(f)(current), fails, edit);
      assert Functions([SafeCall2(f, fails)] + rest.1) == [f] + Functions(rest.1);
      (rest.0, [SafeCall2(f, fails)] + rest.1)
  }

  function New<F(==)>(defCallNow: bool): (r: Registry<F>)
    ensures r.callbacks == [] && r.enabled && r.defCallNow == defCallNow
  {
    Registry([], true, defCallNow)
  }

  /** `_basicDoCallbacks`: a no-op while callbacks are disabled; otherwise every
      function of the list as it was on entry is called once, in order, one
      failure not stopping the others, and callbacks are enabled on exit. */
  function BasicDoCallbacks<F>(reg: Registry<F>, fails: F -> bool, edit: F -> seq<F> -> seq<F>): (r: (Registry<F>, seq<CallRecord<F>>))
    ensures !reg.enabled ==> r == (reg, [])
    ensures reg.enabled ==> r.0.enabled && r.0.defCallNow == reg.defCallNow
    ensures reg.enabled ==> Functions(r.1) == reg.callbacks
    ensures forall i :: 0 <= i < |r.1| ==> r.1[i].failed == fails(r.1[i].f)
  {
    if !reg.enabled then (reg, [])
    else
      var (cbs, trace) := RunSnapshot(reg.callbacks, reg.callbacks, fails, edit);
      (Registry(cbs, true, reg.defCallNow), trace)
  }

  /** While the callbacks are running `_enableCallbacks` is False, so a callback
      that triggers the callbacks again causes no further calls. */
  lemma RunningCallbacksAreNotReentered<F>(reg: Registry<F>, fails: F -> bool, edit: F -> seq<F> -> seq<F>, during: seq<F>)
    requires reg.enabled
    ensures BasicDoCallbacks(Registry(during, false, reg.defCallNow), fails, edit).1 == []
  {
  }

  /** The callbacks a run makes do not depend on the edits the callbacks make
      to the list: they are the snapshot taken on entry. */
  lemma RunUsesSnapshot<F>(reg: Registry<F>, fails: F -> bool, edit1: F -> seq<F> -> seq<F>, edit2: F -> seq<F> -> seq<F>)
    ensures BasicDoCallbacks(reg, fails, edit1).1 == BasicDoCallbacks(reg, fails, edit2).1
  {
    if reg.enabled {
      RunSnapshotTrace(reg.callbacks, reg.callbacks, reg.callbacks, fails, edit1, edit2);
    }
  }

  lemma {:induction false} RunSnapshotTrace<F>(snapshot: seq<F>, c1: seq<F>, c2: seq<F>, fails: F -> bool, edit1: F -> seq<F> -> seq<F>, edit2: F -> seq<F> -> seq<F>)
    ensures RunSnapshot(snapshot, c1, fails, edit1).1 == RunSnapshot(snapshot, c2, fails, edit2).1
    decreases |snapshot|
  {
    if snapshot != [] {
      RunSnapshotTrace(snapshot[1..], edit1(snapshot[0])(c1), edit2(snapshot[0])(c2), fails, edit1, edit2);
    }
  }

  /** `addCallback`: `None` is ignored, a non-callable raises ValueError, a
      function already present is not added again; with `callNow` (or, when it
      is omitted, the default) only the new function is called, through
      `_doCallbacks`, and the list is restored afterwards. */
  function AddCallback<F(==)>(reg: Registry<F>, callFunc: CallArg<F>, callNow: Option<bool>, fails: F -> bool): (r: Result<(Registry<F>, seq<CallRecord<F>>)>)
    ensures callFunc.NoFunc? ==> r == Ok((reg, []))
    ensures callFunc.NotCallable? ==> r == Err(ValueError)
    ensures callFunc.Func? ==> r.Ok?
    ensures callFunc.Func? ==>
              (var (reg', trace) := r.value;
               var f := callFunc.f;
               f in reg'.callbacks && reg'.enabled == reg.enabled && reg'.defCallNow == reg.defCallNow &&
               reg'.callbacks == (if f in reg.callbacks then reg.callbacks else reg.callbacks + [f]) &&
               (Distinct(reg.callbacks) ==> Distinct(reg'.callbacks)) &&
               trace == (if reg.enabled && callNow.GetOr(reg.defCallNow) then [Called(f, fails(f))] else []))
  {
    match callFunc
    case NoFunc => Ok((reg, []))
    case NotCallable => Err(ValueError)
    case Func(f) =>
      var cbs := if f in reg.callbacks then reg.callbacks else reg.callbacks + [f];
      if callNow.GetOr(reg.defCallNow) then
        var (during, trace) := BasicDoCallbacks(Registry([f], reg.enabled, reg.defCallNow), fails, _ => cbs => cbs);
        assert reg.enabled ==> trace == [trace[0]];
        Ok((Registry(cbs, during.enabled, reg.defCallNow), trace))
      else
        Ok((Registry(cbs, reg.enabled, reg.defCallNow), []))
  }

  /** `removeCallback`: True when the function was in the list (and is then
      removed); otherwise ValueError if `doRaise` (the default), else False. */
  function RemoveCallback<F(==)>(reg: Registry<F>, f: F, doRaise: bool): (r: Result<(Registry<F>, bool)>)
    ensures f in reg.callbacks ==> r.Ok? && r.value.1
    ensures f in reg.callbacks ==> DropsFirst(reg.callbacks, f, r.value.0.callbacks)
    ensures f in reg.callbacks && Distinct(reg.callbacks) ==> f !in r.value.0.callbacks
    ensures f !in reg.callbacks ==> r == (if doRaise then Err(ValueError) else Ok((reg, false)))
    ensures r.Ok? ==> r.value.0.enabled == reg.enabled && r.value.0.defCallNow == reg.defCallNow &&
                      multiset(r.value.0.callbacks) == multiset(reg.callbacks) - multiset{f}
  {
    if f in reg.callbacks then
      var cbs := RemoveFirst(reg.callbacks, f);
      assert Distinct(reg.callbacks) ==> f !in cbs by {
        if Distinct(reg.callbacks) {
          RemoveFirstOfDistinct(reg.callbacks, f);
        }
      }
      Ok((Registry(cbs, reg.enabled, reg.defCallNow), true))
    else if doRaise then Err(ValueError)
    else Ok((reg, false))
  }

  /** Adding a function that was not registered, without calling it, and then
      removing it gives back the original list. */
  lemma AddThenRemove<F>(reg: Registry<F>, f: F, doRaise: bool, fails: F -> bool)
    requires f !in reg.callbacks
    ensures var added := AddCallback(reg, Func(f), Some(false), fails).value.0;
            RemoveCallback(added, f, doRaise) == Ok((reg, true))
  {
    var added := AddCallback(reg, Func(f), Some(false), fails).value.0;
    assert added.callbacks == reg.callbacks + [f];
    RemoveAppended(reg.callbacks, f);
  }

  /** `_removeAllCallbacks` */
  function RemoveAllCallbacks<F>(reg: Registry<F>): (r: Registry<F>)
    ensures r.callbacks == [] && r.enabled == reg.enabled && r.defCallNow == reg.defCallNow
  {
    reg.(callbacks := [])
  }

  /** `_DisableCallbacksContext.__enter__`: remember the flag, then disable. */
  function DisableEnter<F>(reg: Registry<F>): (r: (Registry<F>, bool))
    ensures !r.0.enabled && r.0.callbacks == reg.callbacks && r.1 == reg.enabled
  {
    (reg.(enabled := false), reg.enabled)
  }

  /** `_DisableCallbacksContext.__exit__`: restore the remembered flag. */
  function DisableExit<F>(reg: Registry<F>, saved: bool): (r: Registry<F>)
    ensures r.enabled == saved && r.callbacks == reg.callbacks
  {
    reg.(enabled := saved)
  }

  /** Inside the context no callback runs, and leaving it restores the flag
      the object had on entry, whatever was done to the list meanwhile. */
  lemma DisableContextRestores<F>(reg: Registry<F>, fails: F -> bool, edit: F -> seq<F> -> seq<F>, inside: seq<F>)
    ensures var (disabled, saved) := DisableEnter(reg);
            BasicDoCallbacks(disabled.(callbacks := inside), fails, edit).1 == [] &&
            DisableExit(disabled.(callbacks := inside), saved) == reg.(callbacks := inside)
  {
  }
}
