/** `RO.Comm.TCPConnection`: a reconnectable connection built on a
    `TkSocket.TCPSocket`. It translates the socket's states into its own
    through a table, fires its state callbacks only when (state, reason)
    changes, and routes received data to the authorization callback or to the
    user read callbacks, as raw data or as lines.

    Callback functions of the connection's users are values of `F`. The
    socket's callbacks are the connection's own methods, named by `SockCb`. */
module TCPConnection {
  import opened Wrappers
  import opened AddCallback
  import opened SeqUtil
  import BaseSocket
  import TkSocket

  /** The seven connection states. */
  datatype ConnState = Connecting | Authorizing | Connected | Disconnecting | Failing | Disconnected | Failed
  {
    /** The state string. */
    function Name(): string
    {
      match this
      case Connecting => "Connecting"
      case Authorizing => "Authorizing"
      case Connected => "Connected"
      case Disconnecting => "Disconnecting"
      case Failing => "Failing"
      case Disconnected => "Disconnected"
      case Failed => "Failed"
    }

    /** `isConnected`: state in `_ConnectedStates`. */
    predicate IsConnected()
    {
      this == Connected
    }

    /** `isDisconnected`: state in `_DisconnectedStates`. */
    predicate IsDisconnected()
    {
      this == Disconnected || this == Failed
    }

    /** `isDone`: state in `_DoneStates`. */
    predicate IsDone()
    {
      this == Connected || this == Disconnected || this == Failed
    }

    /** `didFail`: state in `_FailedStates`. */
    predicate DidFail()
    {
      this == Failed
    }

    /** `mayConnect` */
    predicate MayConnect()
    {
      this != Connected && this != Connecting && this != Authorizing
    }
  }

  /** How the status flags relate: done means connected or disconnected; one
      may connect exactly when not connected and not on the way there. */
  lemma StatusFlags(st: ConnState)
    ensures st.IsDone() <==> st.IsConnected() || st.IsDisconnected()
    ensures st.DidFail() ==> st.IsDisconnected()
    ensures st.MayConnect() <==> st.IsDisconnected() || st in {Disconnecting, Failing}
  {
  }

  /** The state named by a string, if it is one of `_AllStates`. */
  function StateNamed(name: string): (r: Option<ConnState>)
    ensures r.Some? ==> r.value.Name() == name
    ensures forall st: ConnState :: st.Name() == name ==> r == Some(st)
  {
    if name == "Connecting" then Some(Connecting)
    else if name == "Authorizing" then Some(Authorizing)
    else if name == "Connected" then Some(Connected)
    else if name == "Disconnecting" then Some(Disconnecting)
    else if name == "Failing" then Some(Failing)
    else if name == "Disconnected" then Some(Disconnected)
    else if name == "Failed" then Some(Failed)
    else None
  }

  /** The connection's methods that it installs as socket callbacks:
      `_sockStateCallback`, `_sockReadCallback`, `_sockReadLineCallback`. */
  datatype SockCb = StateCb | RawReadCb | LineReadCb

  /** What `_currReadCallbacks` is: the empty list set by the constructor,
      the user list itself (an alias, so later additions are seen), or the
      one-element list holding the authorization callback. */
  datatype ReadTarget<F> = NoTarget | UserTarget | AuthTarget(f: F)

  type Socket = TkSocket.TcpSocket<SockCb>

  datatype Connection<F> = Connection(
    host: Option<string>,
    port: int,
    readLines: bool,
    userReadCallbacks: seq<F>,
    stateCallbacks: seq<F>,
    authReadLines: bool,
    authReadCallback: Option<F>,
    state: ConnState,
    reason: string,
    readTarget: ReadTarget<F>,
    connectedMapsTo: ConnState,     // the table's entry for the socket's Connected
    sock: Socket)
  {
    /** `fullState` */
    function FullState(): (ConnState, string)
    {
      (state, reason)
    }

    /** `_currReadCallbacks` */
    function CurrReadCallbacks(): seq<F>
    {
      match readTarget
      case NoTarget => []
      case UserTarget => userReadCallbacks
      case AuthTarget(f) => [f]
    }
  }

  /** `NullTCPSocket`: closed, with no callbacks. */
  function NullSock(): (s: Socket)
    ensures s.base.IsDone() && s.base.stateCallbacks == [] && s.base.readCallback.None?
  {
    TkSocket.TcpSocket(BaseSocket.NullSocket(), [], [])
  }

  function ListOf<F>(f: Option<F>): seq<F>
  {
    if f.Some? then [f.value] else []
  }

  /** The constructor: Disconnected with reason "", the table's Connected
      entry chosen by whether there is an authorization callback, and a null
      socket. */
  function New<F>(host: Option<string>, port: int, readCallback: Option<F>, readLines: bool,
                  stateCallback: Option<F>, authReadCallback: Option<F>, authReadLines: bool): (c: Connection<F>)
    ensures c.state == Disconnected && c.reason == "" && c.state.MayConnect()
    ensures c.host == host && c.port == port
    ensures c.userReadCallbacks == ListOf(readCallback) && c.stateCallbacks == ListOf(stateCallback)
    ensures c.connectedMapsTo == (if authReadCallback.Some? then Authorizing else Connected)
    ensures c.CurrReadCallbacks() == [] && c.sock.base.IsDone()
  {
    Connection(host, port, readLines, ListOf(readCallback), ListOf(stateCallback), authReadLines, authReadCallback,
               Disconnected, "", NoTarget, if authReadCallback.Some? then Authorizing else Connected, NullSock())
  }

  /** `_localSocketStateDict[sockState]`: None for a socket state the table
      lacks (the server states). */
  function LocalState<F>(c: Connection<F>, sockState: BaseSocket.State): (r: Option<ConnState>)
    ensures sockState == BaseSocket.Connecting ==> r == Some(Connecting)
    ensures sockState == BaseSocket.Connected ==> r == Some(c.connectedMapsTo)
    ensures sockState == BaseSocket.Closing ==> r == Some(Disconnecting)
    ensures sockState == BaseSocket.Failing ==> r == Some(Failing)
    ensures sockState == BaseSocket.Closed ==> r == Some(Disconnected)
    ensures sockState == BaseSocket.Failed ==> r == Some(Failed)
    ensures r.None? <==> sockState in {BaseSocket.Starting, BaseSocket.Listening}
  {
    match sockState
    case Connecting => Some(Connecting)
    case Connected => Some(c.connectedMapsTo)
    case Closing => Some(Disconnecting)
    case Failing => Some(Failing)
    case Closed => Some(Disconnected)
    case Failed => Some(Failed)
    case Starting => None
    case Listening => None
  }

  /** `_setState` for a known state: the reason changes only if one is given,
      and the state callbacks are all notified, in order and isolated from one
      another's failures, exactly when (state, reason) changed. */
  function SetStateTo<F>(c: Connection<F>, st: ConnState, reason: Option<string>, fails: F -> bool): (r: (Connection<F>, seq<CallRecord<F>>))
    ensures r.0 == c.(state := st, reason := r.0.reason)
    ensures r.0.reason == (if reason.Some? then reason.value else c.reason)
    ensures r.0.FullState() == c.FullState() ==> r.1 == []
    ensures r.0.FullState() != c.FullState() ==> Functions(r.1) == c.stateCallbacks
    ensures forall i :: 0 <= i < |r.1| ==> r.1[i].failed == fails(r.1[i].f)
  {
    var c' := c.(state := st, reason := if reason.Some? then reason.value else c.reason);
    var trace := if c'.FullState() != c.FullState() then BaseSocket.Notify(c.stateCallbacks, fails) else [];
    FunctionsOfNotify(c.stateCallbacks, fails);
    (c', trace)
  }

  lemma FunctionsOfNotify<F>(cbs: seq<F>, fails: F -> bool)
    ensures Functions(BaseSocket.Notify(cbs, fails)) == cbs
  {
    var trace := BaseSocket.Notify(cbs, fails);
    assert |Functions(trace)| == |cbs|;
  }

  /** `_setState`: RuntimeError for a string that names none of the seven
      states, otherwise as `SetStateTo`. */
  function SetState<F>(c: Connection<F>, newState: string, reason: Option<string>, fails: F -> bool): (r: Result<(Connection<F>, seq<CallRecord<F>>)>)
    ensures r.Err? <==> forall st: ConnState :: st.Name() != newState
    ensures r.Err? ==> r.error == RuntimeError
    ensures r.Ok? ==> r.value.0.state.Name() == newState && r.value == SetStateTo(c, r.value.0.state, reason, fails)
  {
    match StateNamed(newState)
    case None => Err(RuntimeError)
    case Some(st) => Ok(SetStateTo(c, st, reason, fails))
  }

  /** Setting the same state and reason again notifies nobody. */
  lemma SetStateTwiceIsSilent<F>(c: Connection<F>, st: ConnState, reason: Option<string>, fails: F -> bool)
    ensures var (c1, _) := SetStateTo(c, st, reason, fails);
            SetStateTo(c1, st, reason, fails) == (c1, [])
  {
  }

  /** `_sockStateCallback`: the socket's state, translated by the table, and
      its reason become the connection's; an unknown socket state is ignored. */
  function SockStateCallback<F>(c: Connection<F>, sockState: BaseSocket.State, sockReason: string, fails: F -> bool): (r: (Connection<F>, seq<CallRecord<F>>))
    ensures LocalState(c, sockState).None? ==> r == (c, [])
    ensures LocalState(c, sockState).Some? ==>
              r == SetStateTo(c, LocalState(c, sockState).value, Some(sockReason), fails) &&
              r.0.FullState() == (LocalState(c, sockState).value, sockReason)
  {
    match LocalState(c, sockState)
    case None => (c, [])
    case Some(st) => SetStateTo(c, st, Some(sockReason), fails)
  }

  /** `_setRead`: the socket's read callback is the line-mode reader when the
      chosen mode reads lines, the raw reader otherwise; the current read
      callbacks are the authorization callback alone, or the user list. */
  function SetRead<F>(c: Connection<F>, forAuth: bool): (r: Connection<F>)
    requires forAuth ==> c.authReadCallback.Some?
    ensures r == c.(sock := r.sock, readTarget := r.readTarget)
    ensures r.sock == c.sock.(base := r.sock.base) && r.sock.base == c.sock.base.(readCallback := r.sock.base.readCallback)
    ensures r.sock.base.readCallback == Some(if (forAuth && c.authReadLines) || (!forAuth && c.readLines) then LineReadCb else RawReadCb)
    ensures r.CurrReadCallbacks() == (if forAuth then [c.authReadCallback.value] else c.userReadCallbacks)
  {
    var reader := if (forAuth && c.authReadLines) || (!forAuth && c.readLines) then LineReadCb else RawReadCb;
    c.(sock := c.sock.(base := BaseSocket.SetReadCallback(c.sock.base, Some(reader))),
       readTarget := if forAuth then AuthTarget(c.authReadCallback.value) else UserTarget)
  }

  /** Python truth of an optional string: present and non-empty. */
  predicate Truthy(s: Option<string>)
  {
    s.Some? && s.value != []
  }

  /** `connect`: RuntimeError unless `mayConnect` and some host is given or
      stored. An omitted (falsy) host or port keeps the stored one. The old
      socket loses its state callback before it is closed, so its closing
      is not seen. The new socket starts Connecting, which the connection
      takes on with reason ""; the socket then checks the Tcl socket's
      `(isOK, errStr)` status, passed in as `status`, and an error closes it
      at once, which the connection hears of. The table's Connected entry and
      the reads are set up for authorization when there is an authorization
      callback. */
  function Connect<F>(c: Connection<F>, host: Option<string>, port: Option<int>, status: (bool, string), fails: F -> bool): (r: Result<(Connection<F>, seq<CallRecord<F>>)>)
    ensures r.Err? <==> !c.state.MayConnect() || (!Truthy(host) && !Truthy(c.host))
    ensures r.Err? ==> r.error == RuntimeError
    ensures r.Ok? ==> r.value.0.host == (if Truthy(host) then host else c.host)
    ensures r.Ok? ==> r.value.0.port == (if port.Some? && port.value != 0 then port.value else c.port)
    ensures r.Ok? ==> r.value.0.connectedMapsTo == (if c.authReadCallback.Some? then Authorizing else Connected)
    ensures r.Ok? ==> r.value.0.CurrReadCallbacks() == (if c.authReadCallback.Some? then [c.authReadCallback.value] else c.userReadCallbacks)
    ensures r.Ok? && status.1 == [] ==> r.value.0.FullState() == (Connecting, "")
    ensures r.Ok? && status.1 == [] ==> r.value.0.sock.base.state == BaseSocket.Connecting && r.value.0.sock.base.stateCallbacks == [StateCb]
    ensures r.Ok? ==> r.value.0.sock.buffer == []
    ensures r.Ok? && status.1 == [] && c.FullState() == (Connecting, "") ==> r.value.1 == []
    ensures r.Ok? && status.1 == [] && c.FullState() != (Connecting, "") ==> Functions(r.value.1) == c.stateCallbacks
    ensures r.Ok? && status.1 != [] ==>
              r.value.0.FullState() == (if status.0 then Disconnected else Failed, status.1) &&
              r.value.0.sock.base.state == (if status.0 then BaseSocket.Closed else BaseSocket.Failed)
  {
    if !c.state.MayConnect() then Err(RuntimeError)
    else if !Truthy(host) && !Truthy(c.host) then Err(RuntimeError)
    else
      Ok(StartConnecting(c, if Truthy(host) then host else c.host,
                         if port.Some? && port.value != 0 then port.value else c.port, status, fails))
  }

  /** The socket `connect` opens: Connecting, with the connection's state
      callback and nothing read yet. */
  function ConnectingSocket(): Socket
  {
    TkSocket.TcpSocket(BaseSocket.NewSocket(BaseSocket.Connecting, None, Some(StateCb)), [], [])
  }

  /** The steps of `connect` once the host and port are chosen: a new
      socket is put in place and the connection takes on its Connecting
      state with reason ""; a bad status then closes the socket, leaving the
      connection Disconnected (or Failed) with the error as reason. The
      table's Connected entry and the reads follow from whether there is an
      authorization callback. */
  function StartConnecting<F>(c: Connection<F>, host: Option<string>, port: int, status: (bool, string), fails: F -> bool): (r: (Connection<F>, seq<CallRecord<F>>))
    ensures r.0.host == host && r.0.port == port
    ensures r.0.connectedMapsTo == (if c.authReadCallback.Some? then Authorizing else Connected)
    ensures r.0.CurrReadCallbacks() == (if c.authReadCallback.Some? then [c.authReadCallback.value] else c.userReadCallbacks)
    ensures r.0.sock.buffer == []
    ensures status.1 == [] ==> r.0.FullState() == (Connecting, "")
    ensures status.1 == [] ==> r.0.sock.base.state == BaseSocket.Connecting && r.0.sock.base.stateCallbacks == [StateCb]
    ensures status.1 == [] && c.FullState() == (Connecting, "") ==> r.1 == []
    ensures status.1 == [] && c.FullState() != (Connecting, "") ==> Functions(r.1) == c.stateCallbacks
    ensures status.1 != [] ==> r.0.FullState() == (if status.0 then Disconnected else Failed, status.1)
    ensures status.1 != [] ==> r.0.sock.base.state == (if status.0 then BaseSocket.Closed else BaseSocket.Failed)
  {
    var c1 := c.(host := host, port := port, sock := ConnectingSocket());
    var (c2, t1) := SockStateCallback(c1, BaseSocket.Connecting, "", fails);
    var (c3, t2) := CheckNewSocket(c2, status, fails);
    var c4 := c3.(connectedMapsTo := if c.authReadCallback.Some? then Authorizing else Connected);
    (SetRead(c4, c.authReadCallback.Some?), t1 + t2)
  }

  /** `_checkSocket` run by the new socket's constructor: an error status
      closes the (not yet done) socket, which reports to the connection. */
  function CheckNewSocket<F>(c: Connection<F>, status: (bool, string), fails: F -> bool): (r: (Connection<F>, seq<CallRecord<F>>))
    requires !c.sock.base.IsDone() && StateCb in c.sock.base.stateCallbacks
    ensures status.1 == [] ==> r == (c, [])
    ensures status.1 != [] ==> r.0.FullState() == (if status.0 then Disconnected else Failed, status.1)
    ensures status.1 != [] ==> r.0.sock.base.state == (if status.0 then BaseSocket.Closed else BaseSocket.Failed)
    ensures r.0.host == c.host && r.0.port == c.port && r.0.sock.buffer == c.sock.buffer && r.0.readTarget == c.readTarget
  {
    var (s', ok, _) := TkSocket.CheckSocket(c.sock, status, _ => false);
    if ok then (c, [])
    else SockCloses(c.(sock := s'), true, status.0, status.1, fails)
  }

  /** The connection's view of its socket closing: the socket passes through
      Closing (or Failing) to Closed (or Failed) with the given reason, and
      the connection hears of both if its state callback is still installed. */
  function SockCloses<F>(c: Connection<F>, heard: bool, isOK: bool, reason: string, fails: F -> bool): (r: (Connection<F>, seq<CallRecord<F>>))
    ensures heard ==> r.0.FullState() == (if isOK then Disconnected else Failed, reason)
    ensures !heard ==> r == (c, [])
    ensures r.0 == c.(state := r.0.state, reason := r.0.reason)
  {
    if !heard then (c, [])
    else
      var (c1, t1) := SockStateCallback(c, if isOK then BaseSocket.Closing else BaseSocket.Failing, reason, fails);
      var (c2, t2) := SockStateCallback(c1, if isOK then BaseSocket.Closed else BaseSocket.Failed, reason, fails);
      (c2, t1 + t2)
  }

  /** `disconnect`: closes the socket; a no-op when the socket is already
      closed or failed. Otherwise the connection ends Disconnected (or Failed
      when not `isOK`), with the given reason or else the socket's. */
  function Disconnect<F>(c: Connection<F>, isOK: bool, reason: Option<string>, fails: F -> bool): (r: (Connection<F>, seq<CallRecord<F>>))
    ensures c.sock.base.IsDone() ==> r == (c, [])
    ensures !c.sock.base.IsDone() ==> r.0.sock.base.IsDone() && r.0.sock.base.state == (if isOK then BaseSocket.Closed else BaseSocket.Failed)
    ensures !c.sock.base.IsDone() && StateCb in c.sock.base.stateCallbacks ==>
              r.0.FullState() == (if isOK then Disconnected else Failed, if reason.Some? then reason.value else c.sock.base.reason)
  {
    if c.sock.base.IsDone() then (c, [])
    else
      var sock := TkSocket.Close(c.sock, isOK, reason, _ => false).0;
      SockCloses(c.(sock := sock), StateCb in c.sock.base.stateCallbacks, isOK,
                 if reason.Some? then reason.value else c.sock.base.reason, fails)
  }

  /** A `connect` whose new socket reports an error at once leaves the
      connection Disconnected or Failed, so it may connect again to the same
      host. */
  lemma FailedConnectMayRetry<F>(c: Connection<F>, host: Option<string>, port: Option<int>, status: (bool, string), fails: F -> bool, status2: (bool, string))
    requires Connect(c, host, port, status, fails).Ok? && status.1 != []
    ensures var c' := Connect(c, host, port, status, fails).value.0;
            c'.state.IsDisconnected() && c'.state.DidFail() == !status.0 &&
            Connect(c', None, None, status2, fails).Ok? &&
            Connect(c', None, None, status2, fails).value.0.host == c'.host
  {
    var c' := Connect(c, host, port, status, fails).value.0;
    assert Truthy(c'.host);
  }

  /** A connection that connected without error and is then disconnected
      ends Disconnected (or Failed) with the given reason, or with reason ""
      when none is given: the socket's reason is still the one it started
      with. */
  lemma ConnectThenDisconnect<F>(c: Connection<F>, host: Option<string>, port: Option<int>, status: (bool, string), fails: F -> bool, isOK: bool, reason: Option<string>)
    requires Connect(c, host, port, status, fails).Ok? && status.1 == []
    ensures var c' := Connect(c, host, port, status, fails).value.0;
            Disconnect(c', isOK, reason, fails).0.FullState() ==
              (if isOK then Disconnected else Failed, if reason.Some? then reason.value else "")
  {
    var c' := Connect(c, host, port, status, fails).value.0;
    assert c'.sock.base.reason == "" by {
      var h := if Truthy(host) then host else c.host;
      var p := if port.Some? && port.value != 0 then port.value else c.port;
      assert c'.sock == StartConnecting(c, h, p, status, fails).0.sock;
    }
  }

  /** `write`: the socket's `write`. RuntimeError unless the socket is
      Connecting or Connected; a bad socket status closes the socket (which
      the connection hears of) and raises RuntimeError. */
  function Write<F>(c: Connection<F>, data: string, status: (bool, string), fails: F -> bool): (r: Outcome<(Connection<F>, seq<CallRecord<F>>)>)
    ensures c.sock.base.state !in {BaseSocket.Connected, BaseSocket.Connecting} ==> r == Outcome((c, []), Some(RuntimeError))
    ensures c.sock.base.state in {BaseSocket.Connected, BaseSocket.Connecting} ==>
              r.value.0.sock.sent == c.sock.sent + data && (r.raised.None? <==> status.1 == [])
    ensures c.sock.base.state in {BaseSocket.Connected, BaseSocket.Connecting} && status.1 == [] ==>
              r.value == (c.(sock := c.sock.(sent := c.sock.sent + data)), [])
    ensures c.sock.base.state in {BaseSocket.Connected, BaseSocket.Connecting} && status.1 != [] &&
            StateCb in c.sock.base.stateCallbacks ==>
              r.value.0.FullState() == (if status.0 then Disconnected else Failed, status.1)
  {
    var o := TkSocket.Write(c.sock, data, status, _ => false);
    if c.sock.base.state !in {BaseSocket.Connected, BaseSocket.Connecting} then Outcome((c, []), Some(RuntimeError))
    else if status.1 == [] then Outcome((c.(sock := o.value.0), []), None)
    else
      var (c', trace) := SockCloses(c.(sock := o.value.0), StateCb in c.sock.base.stateCallbacks, status.0, status.1, fails);
      Outcome((c', trace), Some(RuntimeError))
  }

  /** `writeLine`: `write` with "\r\n" appended by the socket. */
  function WriteLine<F>(c: Connection<F>, data: string, status: (bool, string), fails: F -> bool): (r: Outcome<(Connection<F>, seq<CallRecord<F>>)>)
    ensures c.sock.base.state in {BaseSocket.Connected, BaseSocket.Connecting} ==>
              r.value.0.sock.sent == c.sock.sent + data + [TkSocket.CR, TkSocket.LF]
    ensures r == Write(c, data + [TkSocket.CR, TkSocket.LF], status, fails)
  {
    Write(c, data + [TkSocket.CR, TkSocket.LF], status, fails)
  }

  /** `_authDone`: the user read callbacks become current, then the state
      becomes Connected with the given message as reason. */
  function AuthDone<F>(c: Connection<F>, msg: string, fails: F -> bool): (r: (Connection<F>, seq<CallRecord<F>>))
    ensures r.0.FullState() == (Connected, msg) && r.0.state.IsConnected()
    ensures r.0.CurrReadCallbacks() == c.userReadCallbacks
    ensures r.0.sock.base.readCallback == Some(if c.readLines then LineReadCb else RawReadCb)
  {
    SetStateTo(SetRead(c, false), Connected, Some(msg), fails)
  }

  /** `addReadCallback`: the function must be callable (an assertion). */
  function AddReadCallback<F>(c: Connection<F>, f: CallArg<F>): (r: Result<Connection<F>>)
    ensures !f.Func? <==> r.Err?
    ensures r.Err? ==> r.error == AssertionError
    ensures r.Ok? ==> r.value == c.(userReadCallbacks := c.userReadCallbacks + [f.f])
  {
    if f.Func? then Ok(c.(userReadCallbacks := c.userReadCallbacks + [f.f])) else Err(AssertionError)
  }

  /** `addStateCallback`: the function must be callable; it is appended
      (duplicates allowed) and, with `callNow`, called at once. */
  function AddStateCallback<F>(c: Connection<F>, f: CallArg<F>, callNow: bool): (r: Result<(Connection<F>, seq<F>)>)
    ensures !f.Func? <==> r.Err?
    ensures r.Err? ==> r.error == AssertionError
    ensures r.Ok? ==> r.value.0 == c.(stateCallbacks := c.stateCallbacks + [f.f])
    ensures r.Ok? ==> r.value.1 == (if callNow then [f.f] else [])
  {
    if f.Func? then Ok((c.(stateCallbacks := c.stateCallbacks + [f.f]), if callNow then [f.f] else []))
    else Err(AssertionError)
  }

  /** `list.remove` behind `removeReadCallback`/`removeStateCallback`: True
      iff the function was present, and then its first occurrence is gone. */
  function RemoveIfPresent<F(==)>(s: seq<F>, f: F): (r: (seq<F>, bool))
    ensures r.1 <==> f in s
    ensures r.1 ==> DropsFirst(s, f, r.0) && multiset(r.0) == multiset(s) - multiset{f}
    ensures !r.1 ==> r.0 == s
  {
    if f in s then (RemoveFirst(s, f), true) else (s, false)
  }

  /** `removeReadCallback` */
  function RemoveReadCallback<F(==)>(c: Connection<F>, f: F): (r: (Connection<F>, bool))
    ensures r.1 <==> f in c.userReadCallbacks
    ensures multiset(r.0.userReadCallbacks) == multiset(c.userReadCallbacks) - multiset{f}
    ensures r.1 ==> DropsFirst(c.userReadCallbacks, f, r.0.userReadCallbacks)
    ensures !r.1 ==> r.0 == c
    ensures r.0 == c.(userReadCallbacks := r.0.userReadCallbacks)
  {
    var (cbs, found) := RemoveIfPresent(c.userReadCallbacks, f);
    (c.(userReadCallbacks := cbs), found)
  }

  /** `removeStateCallback` */
  function RemoveStateCallback<F(==)>(c: Connection<F>, f: F): (r: (Connection<F>, bool))
    ensures r.1 <==> f in c.stateCallbacks
    ensures multiset(r.0.stateCallbacks) == multiset(c.stateCallbacks) - multiset{f}
    ensures r.1 ==> DropsFirst(c.stateCallbacks, f, r.0.stateCallbacks)
    ensures !r.1 ==> r.0 == c
    ensures r.0 == c.(stateCallbacks := r.0.stateCallbacks)
  {
    var (cbs, found) := RemoveIfPresent(c.stateCallbacks, f);
    (c.(stateCallbacks := cbs), found)
  }

  /** Adding a read callback the connection did not have and removing it
      again gives the connection back. */
  lemma AddThenRemoveReadCallback<F>(c: Connection<F>, f: F)
    requires f !in c.userReadCallbacks
    ensures RemoveReadCallback(AddReadCallback(c, Func(f)).value, f) == (c, true)
  {
    RemoveAppended(c.userReadCallbacks, f);
  }

  /** Calls of every current read callback with the same data, in order. */
  function Deliver<F>(cbs: seq<F>, data: string): (r: seq<(F, string)>)
    ensures |r| == |cbs| && forall i :: 0 <= i < |cbs| ==> r[i] == (cbs[i], data)
  {
    if cbs == [] then [] else [(cbs[0], data)] + Deliver(cbs[1..], data)
  }

  /** The socket calling its read callback: `_sockReadCallback` reads the
      whole buffer and passes it to every current read callback;
      `_sockReadLineCallback` reads one line and passes it on, or does nothing
      when only a partial line is buffered. The flag says whether the socket
      rescheduled the callback. */
  function ReadStep<F>(c: Connection<F>): (r: (Connection<F>, seq<(F, string)>, bool))
    ensures c.sock.base.readCallback == Some(RawReadCb) ==>
              r.0 == c.(sock := c.sock.(buffer := [])) && r.1 == Deliver(c.CurrReadCallbacks(), c.sock.buffer)
    ensures c.sock.base.readCallback == Some(LineReadCb) && TkSocket.NoLineEnd(c.sock.buffer) ==> r == (c, [], false)
    ensures c.sock.base.readCallback == Some(LineReadCb) && !TkSocket.NoLineEnd(c.sock.buffer) ==>
              var (s', line, again) := TkSocket.ReadLine(c.sock, None);
              r == (c.(sock := s'), Deliver(c.CurrReadCallbacks(), line.value), again)
    ensures c.sock.base.readCallback !in {Some(RawReadCb), Some(LineReadCb)} ==> r == (c, [], false)
  {
    match c.sock.base.readCallback
    case Some(RawReadCb) =>
      var (s', data, again) := TkSocket.Read(c.sock);
      (c.(sock := s'), Deliver(c.CurrReadCallbacks(), data), again)
    case Some(LineReadCb) =>
      var (s', line, again) := TkSocket.ReadLine(c.sock, None);
      if line.None? then (c, [], false) else (c.(sock := s'), Deliver(c.CurrReadCallbacks(), line.value), again)
    case _ => (c, [], false)
  }

  /** Data arriving at the socket: appended to its buffer, then the socket's
      read callback runs once. In raw mode the current read callbacks get
      everything buffered; in line mode they get the first complete line, or
      nothing while no terminator has arrived. */
  function Receive<F>(c: Connection<F>, data: string): (r: (Connection<F>, seq<(F, string)>, bool))
    ensures c.sock.base.readCallback == Some(RawReadCb) ==>
              r == (c.(sock := c.sock.(buffer := [])), Deliver(c.CurrReadCallbacks(), c.sock.buffer + data), false)
    ensures c.sock.base.readCallback == Some(LineReadCb) && TkSocket.NoLineEnd(c.sock.buffer + data) ==>
              r == (c.(sock := c.sock.(buffer := c.sock.buffer + data)), [], false)
    ensures c.sock.base.readCallback == Some(LineReadCb) && !TkSocket.NoLineEnd(c.sock.buffer + data) ==>
              r.0 == c.(sock := c.sock.(buffer := r.0.sock.buffer)) && r.2 == (r.0.sock.buffer != []) &&
              exists line :: TkSocket.NoLineEnd(line) && r.1 == Deliver(c.CurrReadCallbacks(), line) &&
                             TkSocket.LineThenRest(c.sock.buffer + data, line, r.0.sock.buffer)
    ensures c.sock.base.readCallback !in {Some(RawReadCb), Some(LineReadCb)} ==>
              r == (c.(sock := c.sock.(buffer := c.sock.buffer + data)), [], false)
  {
    var c1 := c.(sock := TkSocket.DoRead(c.sock, data).0);
    assert c1.sock.buffer == c.sock.buffer + data;
    assert c1.CurrReadCallbacks() == c.CurrReadCallbacks();
    ReadStep(c1)
  }

  /** In line mode, data that completes no line and the data after it are
      received as if they had arrived together. */
  lemma {:induction false} ReceiveInPieces<F>(c: Connection<F>, a: string, b: string)
    requires c.sock.base.readCallback == Some(LineReadCb)
    requires TkSocket.NoLineEnd(c.sock.buffer + a)
    ensures Receive(Receive(c, a).0, b) == Receive(c, a + b)
  {
    var c1 := Receive(c, a).0;
    assert c1.sock.buffer + b == c.sock.buffer + (a + b);
    assert c1 == c.(sock := c.sock.(buffer := c.sock.buffer + a));
  }

  /** While authorizing, received data goes to the authorization callback
      alone, whatever user read callbacks there are (raw mode). */
  lemma AuthorizingReadsGoToAuth<F>(c: Connection<F>, host: Option<string>, port: Option<int>, status: (bool, string), fails: F -> bool, data: string)
    requires Connect(c, host, port, status, fails).Ok? && status.1 == []
    requires c.authReadCallback.Some? && !c.authReadLines
    ensures var c' := Connect(c, host, port, status, fails).value.0;
            Receive(c', data).1 == [(c.authReadCallback.value, data)]
  {
    var c' := Connect(c, host, port, status, fails).value.0;
    assert c'.sock.base.readCallback == Some(RawReadCb);
    assert TkSocket.DoRead(c'.sock, data).0.buffer == data;
  }

  /** The same in line mode: a complete line goes to the authorization
      callback alone. */
  lemma AuthorizingLinesGoToAuth<F>(c: Connection<F>, host: Option<string>, port: Option<int>, status: (bool, string), fails: F -> bool, line: string)
    requires Connect(c, host, port, status, fails).Ok? && status.1 == []
    requires c.authReadCallback.Some? && c.authReadLines && TkSocket.NoLineEnd(line)
    ensures var c' := Connect(c, host, port, status, fails).value.0;
            Receive(c', line + [TkSocket.CR, TkSocket.LF]).1 == [(c.authReadCallback.value, line)]
  {
    var c' := Connect(c, host, port, status, fails).value.0;
    assert c'.sock.base.readCallback == Some(LineReadCb) && c'.sock.buffer == [];
    assert c'.CurrReadCallbacks() == [c.authReadCallback.value];
    CompleteLineIsDelivered(c', line, [TkSocket.CR, TkSocket.LF], []);
    assert line + [TkSocket.CR, TkSocket.LF] + [] == line + [TkSocket.CR, TkSocket.LF];
  }

  /** After `_authDone`, received data goes to the user read callbacks. */
  lemma AuthDoneRoutesToUser<F>(c: Connection<F>, msg: string, fails: F -> bool, data: string)
    requires !c.readLines
    ensures var c' := AuthDone(c, msg, fails).0;
            Receive(c', data).1 == Deliver(c.userReadCallbacks, c.sock.buffer + data)
  {
  }

  /** In line mode, data that completes no line reaches no callback and stays
      buffered. */
  lemma PartialLineIsSilent<F>(c: Connection<F>, data: string)
    requires c.sock.base.readCallback == Some(LineReadCb)
    requires TkSocket.NoLineEnd(c.sock.buffer + data)
    ensures Receive(c, data).1 == [] && Receive(c, data).0.sock.buffer == c.sock.buffer + data
  {
  }

  /** In line mode, a complete line is passed, without its terminator, to
      every current read callback, and what follows it stays buffered. */
  lemma CompleteLineIsDelivered<F>(c: Connection<F>, line: string, term: string, rest: string)
    requires c.sock.base.readCallback == Some(LineReadCb) && c.sock.buffer == []
    requires TkSocket.NoLineEnd(line) && (term == [TkSocket.LF] || term == [TkSocket.CR, TkSocket.LF])
    ensures Receive(c, line + term + rest).1 == Deliver(c.CurrReadCallbacks(), line)
    ensures Receive(c, line + term + rest).0.sock.buffer == rest
  {
    var data := line + term + rest;
    var s1 := TkSocket.DoRead(c.sock, data).0;
    assert !TkSocket.NoLineEnd(s1.buffer) && TkSocket.ReadLine(s1, None).1 == Some(line) &&
           TkSocket.ReadLine(s1, None).0.buffer == rest by {
      assert s1.buffer == data;
      TkSocket.ReadLineOf(s1, line, term, rest, None);
    }
    ReceiveLine(c, data, line);
  }

  /** In line mode, when the received data completes a line, that line is
      passed to every current read callback and what follows it is kept. */
  lemma ReceiveLine<F>(c: Connection<F>, data: string, line: string)
    requires c.sock.base.readCallback == Some(LineReadCb)
    requires !TkSocket.NoLineEnd(TkSocket.DoRead(c.sock, data).0.buffer)
    requires TkSocket.ReadLine(TkSocket.DoRead(c.sock, data).0, None).1 == Some(line)
    ensures Receive(c, data).1 == Deliver(c.CurrReadCallbacks(), line)
    ensures Receive(c, data).0.sock.buffer == TkSocket.ReadLine(TkSocket.DoRead(c.sock, data).0, None).0.buffer
  {
    var c1 := c.(sock := TkSocket.DoRead(c.sock, data).0);
    assert c1.CurrReadCallbacks() == c.CurrReadCallbacks();
    assert c1.sock.base.readCallback == Some(LineReadCb);
  }

  /** Without authorization the current read callbacks are the user list
      itself, so a read callback added after connecting receives data too. */
  lemma LaterReadCallbackIsCurrent<F>(c: Connection<F>, host: Option<string>, port: Option<int>, status: (bool, string), fails: F -> bool, f: F, data: string)
    requires Connect(c, host, port, status, fails).Ok? && status.1 == []
    requires c.authReadCallback.None? && !c.readLines
    ensures var c' := Connect(c, host, port, status, fails).value.0;
            var c2 := AddReadCallback(c', Func(f)).value;
            Receive(c2, data).1 == Deliver(c.userReadCallbacks + [f], data)
  {
    var c' := Connect(c, host, port, status, fails).value.0;
    var c2 := AddReadCallback(c', Func(f)).value;
    assert c2.CurrReadCallbacks() == c.userReadCallbacks + [f];
    assert c2.sock.base.readCallback == Some(RawReadCb);
    assert TkSocket.DoRead(c2.sock, data).0.buffer == data;
  }

  /** A connection can be reconnected: after a disconnect that it hears of,
      `connect` succeeds whenever a host is known. */
  lemma DisconnectThenConnect<F>(c: Connection<F>, isOK: bool, reason: Option<string>, fails: F -> bool, host: Option<string>, port: Option<int>, status: (bool, string))
    requires !c.sock.base.IsDone() && StateCb in c.sock.base.stateCallbacks
    requires Truthy(host) || Truthy(c.host)
    ensures var c' := Disconnect(c, isOK, reason, fails).0;
            c'.state.IsDisconnected() && c'.state.MayConnect() && Connect(c', host, port, status, fails).Ok?
  {
    var c' := Disconnect(c, isOK, reason, fails).0;
    assert c'.host == c.host by {
      assert c'.host == SockCloses(c.(sock := c'.sock), true, isOK, if reason.Some? then reason.value else c.sock.base.reason, fails).0.host;
    }
  }
}
