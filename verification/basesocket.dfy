/** `RO.Comm.BaseSocket`: the state machine shared by sockets (`BaseSocket`)
    and socket servers (`BaseServer`), and the always-closed `NullSocket`.

    Callback functions are values of the type parameter `C`; `None` stands for
    `nullCallback`. Notifying a callback is an entry of the returned trace;
    whether it raises is the parameter `fails`. */
module BaseSocket {
  import opened Wrappers
  import opened AddCallback
  import opened SeqUtil

  datatype Kind = Socket | Server

  /** The state strings of both classes; `Connecting`/`Connected` are socket
      states and `Starting`/`Listening` server states. */
  datatype State = Connecting | Connected | Starting | Listening | Closing | Failing | Closed | Failed

  datatype Base<C> = Base(
    kind: Kind,
    state: State,
    reason: string,
    stateCallbacks: seq<C>,
    readCallback: Option<C>,        // socket only
    connCallback: Option<C>,        // server only
    sockReadCallback: Option<C>,    // server only
    sockStateCallback: Option<C>)   // server only
  {
    /** `isDone`: state in `_DoneStates`. */
    predicate IsDone()
    {
      state == Closed || state == Failed
    }

    /** `isReady`: state in `_ReadyStates`, which differs by class. */
    predicate IsReady()
    {
      if kind == Socket then state == Connected else state == Listening
    }

    /** `didFail`: state in `_FailedStates`. */
    predicate DidFail()
    {
      state == Failed
    }

    /** `fullState` */
    function FullState(): (State, string)
    {
      (state, reason)
    }
  }

  /** The status flags, stated from the state sets of each class. */
  lemma StatusFlags<C>(b: Base<C>)
    ensures b.IsDone() <==> b.state in {Closed, Failed}
    ensures b.kind == Socket ==> (b.IsReady() <==> b.state in {Connected})
    ensures b.kind == Server ==> (b.IsReady() <==> b.state in {Listening})
    ensures b.DidFail() <==> b.state in {Failed}
    ensures b.DidFail() ==> b.IsDone() && !b.IsReady()
  {
  }

  /** `Base.__init__`: reason "", one state callback if one is given. */
  function NewBase<C>(kind: Kind, state: State, stateCallback: Option<C>): (b: Base<C>)
    ensures b.kind == kind && b.state == state && b.reason == ""
    ensures b.stateCallbacks == (if stateCallback.Some? then [stateCallback.value] else [])
    ensures b.readCallback.None? && b.connCallback.None? && b.sockReadCallback.None? && b.sockStateCallback.None?
  {
    Base(kind, state, "", if stateCallback.Some? then [stateCallback.value] else [], None, None, None, None)
  }

  /** `BaseSocket.__init__`; the source's default state is Connected. */
  function NewSocket<C>(state: State, readCallback: Option<C>, stateCallback: Option<C>): (b: Base<C>)
    ensures b.kind == Socket && b.state == state && b.reason == "" && b.readCallback == readCallback
  {
    NewBase(Socket, state, stateCallback).(readCallback := readCallback)
  }

  /** `BaseServer.__init__`; the source's default state is Starting. */
  function NewServer<C>(connCallback: Option<C>, state: State, stateCallback: Option<C>, sockReadCallback: Option<C>, sockStateCallback: Option<C>): (b: Base<C>)
    ensures b.kind == Server && b.state == state && b.reason == ""
    ensures b.connCallback == connCallback && b.sockReadCallback == sockReadCallback && b.sockStateCallback == sockStateCallback
  {
    NewBase(Server, state, stateCallback).(connCallback := connCallback, sockReadCallback := sockReadCallback, sockStateCallback := sockStateCallback)
  }

  /** `_clearCallbacks` of the object's class: the state callbacks, and the
      read callback of a socket or the three callbacks of a server. */
  function ClearCallbacks<C>(b: Base<C>): (r: Base<C>)
    ensures r.kind == b.kind && r.state == b.state && r.reason == b.reason
    ensures r.stateCallbacks == []
    ensures r.readCallback == (if b.kind == Socket then None else b.readCallback)
    ensures b.kind == Server ==> r.connCallback.None? && r.sockReadCallback.None? && r.sockStateCallback.None?
  {
    if b.kind == Socket then b.(stateCallbacks := [], readCallback := None)
    else b.(stateCallbacks := [], connCallback := None, sockReadCallback := None, sockStateCallback := None)
  }

  /** Notify every callback of `cbs`, in order; one raising does not stop the rest. */
  function Notify<C>(cbs: seq<C>, fails: C -> bool): (trace: seq<CallRecord<C>>)
    ensures |trace| == |cbs|
    ensures forall i :: 0 <= i < |cbs| ==> trace[i] == Called(cbs[i], fails(cbs[i]))
  {
    if cbs == [] then [] else [SafeCall2(cbs[0], fails)] + Notify(cbs[1..], fails)
  }

  /** `_setState`: RuntimeError once done. Otherwise the state changes, the
      reason changes only if one is given, every state callback is notified
      (with the new state visible), and if the new state is a done state the
      callbacks are cleared afterwards. */
  function SetState<C>(b: Base<C>, newState: State, reason: Option<string>, fails: C -> bool): (r: Result<(Base<C>, seq<CallRecord<C>>)>)
    ensures b.IsDone() <==> r.Err?
    ensures r.Err? ==> r.error == RuntimeError
    ensures r.Ok? ==> var (b', trace) := r.value;
              b'.kind == b.kind && b'.state == newState &&
              b'.reason == (if reason.Some? then reason.value else b.reason) &&
              trace == Notify(b.stateCallbacks, fails) &&
              (b'.IsDone() ==> b'.stateCallbacks == [] && (b.kind == Socket ==> b'.readCallback.None?)) &&
              (!b'.IsDone() ==> b'.stateCallbacks == b.stateCallbacks && b'.readCallback == b.readCallback)
    ensures r.Ok? && b.kind == Server && r.value.0.IsDone() ==>
              r.value.0.connCallback.None? && r.value.0.sockReadCallback.None? && r.value.0.sockStateCallback.None?
    ensures r.Ok? && (b.kind == Socket || !r.value.0.IsDone()) ==>
              r.value.0.connCallback == b.connCallback && r.value.0.sockReadCallback == b.sockReadCallback &&
              r.value.0.sockStateCallback == b.sockStateCallback
    ensures r.Ok? && b.kind == Server ==> r.value.0.readCallback == b.readCallback
  {
    if b.IsDone() then Err(RuntimeError)
    else
      var b1 := b.(state := newState, reason := if reason.Some? then reason.value else b.reason);
      var trace := Notify(b1.stateCallbacks, fails);
      Ok((if b1.IsDone() then ClearCallbacks(b1) else b1, trace))
  }

  /** A done object is a sink: no state change is accepted. */
  lemma DoneIsFinal<C>(b: Base<C>, newState: State, reason: Option<string>, fails: C -> bool)
    requires b.IsDone()
    ensures SetState(b, newState, reason, fails) == Err(RuntimeError)
  {
  }

  /** `close` up to the call of `_basicClose`: nothing when done; otherwise
      Closing (isOK) or Failing, with the given reason. The class-specific
      `_basicClose` that follows is modelled with each transport. */
  function StartClose<C>(b: Base<C>, isOK: bool, reason: Option<string>, fails: C -> bool): (r: (Base<C>, seq<CallRecord<C>>))
    ensures b.IsDone() ==> r == (b, [])
    ensures !b.IsDone() ==> r.0.state == (if isOK then Closing else Failing) && !r.0.IsDone()
    ensures !b.IsDone() ==> r.0.reason == (if reason.Some? then reason.value else b.reason) && r.0.kind == b.kind
    ensures !b.IsDone() ==> r.1 == Notify(b.stateCallbacks, fails) && r.0.stateCallbacks == b.stateCallbacks
  {
    if b.IsDone() then (b, [])
    else SetState(b, if isOK then Closing else Failing, reason, fails).value
  }

  /** `addStateCallback`: appended; the list may hold duplicates. */
  function AddStateCallback<C>(b: Base<C>, f: C): (r: Base<C>)
    ensures r.stateCallbacks == b.stateCallbacks + [f]
    ensures r == b.(stateCallbacks := r.stateCallbacks)
  {
    b.(stateCallbacks := b.stateCallbacks + [f])
  }

  /** `removeStateCallback`: True if the callback was found (its first
      occurrence is removed); otherwise ValueError if `doRaise`, else False.
      The source's default for `doRaise` is False. */
  function RemoveStateCallback<C(==)>(b: Base<C>, f: C, doRaise: bool): (r: Result<(Base<C>, bool)>)
    ensures f in b.stateCallbacks ==> r.Ok? && r.value.1
    ensures r.Ok? && r.value.1 ==> multiset(r.value.0.stateCallbacks) == multiset(b.stateCallbacks) - multiset{f}
    ensures r.Ok? && r.value.1 ==> DropsFirst(b.stateCallbacks, f, r.value.0.stateCallbacks)
    ensures f !in b.stateCallbacks ==> r == (if doRaise then Err(ValueError) else Ok((b, false)))
    ensures r.Ok? ==> r.value.0 == b.(stateCallbacks := r.value.0.stateCallbacks)
  {
    if f in b.stateCallbacks then
      Ok((b.(stateCallbacks := RemoveFirst(b.stateCallbacks, f)), true))
    else if doRaise then Err(ValueError)
    else Ok((b, false))
  }

  /** Adding a callback and removing it again restores the list. */
  lemma AddThenRemoveState<C>(b: Base<C>, f: C, doRaise: bool)
    requires f !in b.stateCallbacks
    ensures RemoveStateCallback(AddStateCallback(b, f), f, doRaise) == Ok((b, true))
  {
    assert AddStateCallback(b, f).stateCallbacks == b.stateCallbacks + [f];
    RemoveAppended(b.stateCallbacks, f);
  }

  /** `setStateCallback`: replace all state callbacks by the one given, or by
      none for `None`. */
  function SetStateCallback<C>(b: Base<C>, f: Option<C>): (r: Base<C>)
    ensures f.None? ==> r.stateCallbacks == []
    ensures f.Some? ==> r.stateCallbacks == [f.value]
    ensures r == b.(stateCallbacks := r.stateCallbacks)
  {
    b.(stateCallbacks := if f.Some? then [f.value] else [])
  }

  /** `setReadCallback`: `None` means `nullCallback`. */
  function SetReadCallback<C>(b: Base<C>, f: Option<C>): (r: Base<C>)
    ensures r == b.(readCallback := f)
  {
    b.(readCallback := f)
  }

  // ---------------------------------------------------------------------
  // NullSocket

  const NullSocketReason: string := "This is an instance of NullSocket"

  /** `NullSocket.__init__`: a socket that is Closed from the start. */
  function NullSocket<C>(): (b: Base<C>)
    ensures b.kind == Socket && b.state == Closed && b.IsDone() && !b.IsReady() && !b.DidFail()
    ensures b.reason == NullSocketReason && b.stateCallbacks == []
  {
    NewSocket(Closed, None, None).(reason := NullSocketReason)
  }

  /** The I/O calls of a null socket; each raises RuntimeError. */
  datatype NullCall = Read | ReadLine | Write(data: string) | WriteLine(data: string)

  function NullSocketCall(call: NullCall): (r: Result<Option<string>>)
    ensures r == Err(RuntimeError)
  {
    match call
    case Read => Err(RuntimeError)
    case ReadLine => Err(RuntimeError)
    case Write(_) => Err(RuntimeError)
    case WriteLine(_) => Err(RuntimeError)
  }

  /** A null socket stays Closed: closing it is a no-op and no state can be set. */
  lemma NullSocketStaysClosed<C>(isOK: bool, reason: Option<string>, s: State, fails: C -> bool)
    ensures StartClose(NullSocket<C>(), isOK, reason, fails) == (NullSocket<C>(), [])
    ensures SetState(NullSocket<C>(), s, reason, fails) == Err(RuntimeError)
  {
  }
}
