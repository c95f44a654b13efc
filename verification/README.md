# RO core logic in Dafny

This project models the discrete core of the RO package of the Apache Point
Observatory (the Python 2 library behind the TUI telescope user interface)
and proves properties of it. Every Dafny module follows one Python module:

- `KeyDispatcher` (`RO.KeyDispatcher`): the keyword dispatcher.
  - It issues hub commands under fresh command IDs drawn from two wrap-around
    ranges: user commands use 1..1000, refresh commands 1001..2000.
  - It routes replies to commands by (commander, command ID) and retires a
    command once a reply leaves it done.
  - It aborts commands and times them out, one per scheduling step.
  - It indexes keyword variables by (actor, lower-case keyword), with
    `keys.<actor>` folded to `<actor>`.
  - It groups refresh commands by (actor, command string) and sends one group
    per step.
- `BaseSocket`, `TkSocket`, `TCPConnection` (`RO.Comm`): the socket and server
  state machine, the line buffer of the Tk socket, and the reconnectable
  connection with its socket-state table and its authorization phase.
- `AddCallback` (`RO.AddCallback`): the callback registry. It has no
  duplicates, a guard against reentry, and calls that survive a failing
  callback.
- `MatchList`, `MultiDict`, `ListPlus` (`RO.Alg`): prefix and
  case-insensitive unique matching, dictionaries of lists or sets, and lists
  with dict-style accessors.
- `OSUtil` (`RO.OS.OSUtil`): `splitPath`, `removeDupPaths` and `_nameMatch`,
  over POSIX paths.
- `TkUtil` (`RO.TkUtil`): the Tk geometry value, which is parsed from a
  string, constrained to the screen and formatted; and the one-shot timer.
- `ToplevelSet` (`RO.Wdg.Toplevel`): default and saved window geometry and
  visibility, and the geometry file format `name = geom, vis[, json]`.
- `StateTracker`, `Presets`, `OptionMenu` (`RO.Wdg`): the name to
  getter/setter map, the stored presets of an input container, and the
  value, default and validity rules of an option menu.

`Wrappers`, `StrUtil`, `SeqUtil` and `Sorting` hold the Python built-ins the
modules share: exceptions as `Result`/`Outcome`, `str` methods, `list.remove`
and `sorted`.

Conventions:
- State is immutable. Each Python method with side effects is a function
  from the old state to the new state and a trace of what it caused: callback
  calls, lines written, log entries.
- A raised exception is `Err(kind)` carrying the kind the source raises. It
  is an `Outcome` with a `raised` field when the source changes state before
  raising.
- Callbacks are values of a type parameter. Whether one raises is a
  predicate parameter `fails`.
- Where the source iterates over a Python dict or set, the order is either a
  parameter (`order`, which enumerates the keys once) or a nondeterministic
  choice inside a method.
- Timers are explicit fields. Each timer firing is a separate step, and the
  clock is a parameter `now`.

## Model

Paths are relative to the repository root.

| member | source | states |
|---|---|---|
| `KeyDispatcher.AheadCountsUp` | python/RO/KeyDispatcher.py:163-164 | an ID counter yields consecutive IDs until it reaches the top of its range |
| `KeyDispatcher.AheadWraps` | python/RO/KeyDispatcher.py:163-164 | after the top of its range the counter starts again at the bottom |
| `KeyDispatcher.ReachesEveryId` | python/RO/KeyDispatcher.py:163-164 | within one cycle the counter yields every ID of its range, so the ID search meets any free ID |
| `KeyDispatcher.AllocId` | python/RO/KeyDispatcher.py:347-353 | the ID search returns the first ID after the counter that is not in the table; every ID it skipped was in use, and the counter ends just past it |
| `KeyDispatcher.AllocCmdId` | python/RO/KeyDispatcher.py:347-353 | a new command ID is never one already in the table; it lies in 1..1000 for a user command and 1001..2000 for a refresh command |
| `KeyDispatcher.Reply` | python/RO/KeyDispatcher.py:626-645 | a reply is recorded on the command; the command becomes done at the first terminal reply and failed if that reply is a failure |
| `KeyDispatcher.New` | python/RO/KeyDispatcher.py:130-169 | a new dispatcher has no commands, keyword variables or refresh commands, and its counters start at 1 and 1001 |
| `KeyDispatcher.MakeMsgDict` | python/RO/KeyDispatcher.py:433-463 | a synthesized message is a failure reply from the dispatcher, to the dispatcher's commander, for the given ID, and its text ends with the given data; the keywords that parsing that text would give are not modelled, so it carries none |
| `KeyDispatcher.MadeMsgEndsCmd` | python/RO/KeyDispatcher.py:433-463 | a synthesized message delivered to a command answers its ID and ends it, as a failure unless it had already ended |
| `KeyDispatcher.ReplyCmdVar` | python/RO/KeyDispatcher.py:626-645 | the reply is delivered and optionally logged; the command's ID leaves the table exactly when the reply made it done; deleting an ID that is already missing writes to stderr and raises nothing; the events are exactly one log entry when logging plus that stderr line |
| `KeyDispatcher.ReplyKeepsValid` | python/RO/KeyDispatcher.py:626-645 | after a reply every ID still in the table names a known command that carries that ID |
| `KeyDispatcher.RejectCmd` | python/RO/KeyDispatcher.py:339-345 | a command rejected before it is issued gets its failure reply and is not entered under any new ID |
| `KeyDispatcher.Started` | python/RO/KeyDispatcher.py:355 | an issued command carries its ID and an end time of now plus its time limit, or no end time when it has no limit |
| `KeyDispatcher.EnterCmd` | python/RO/KeyDispatcher.py:354-355 | the command is entered in the table under its new ID and the counter that produced the ID is advanced; the other counter is untouched |
| `KeyDispatcher.WriteCmd` | python/RO/KeyDispatcher.py:357-372 | a successful write sends the line and changes nothing; a failed write delivers a "WriteFailed" reply, which retires the command, and that logged reply is the only event |
| `KeyDispatcher.IssueCmd` | python/RO/KeyDispatcher.py:347-372 | a connected command gets a fresh ID in its range and is sent as "ID actor cmdStr"; a write failure leaves the table without it, and its logged failure is the only event |
| `KeyDispatcher.ExecuteCmd` | python/RO/KeyDispatcher.py:323-372 | when not connected the command gets a "not connected" failure reply at once and is never entered in the table; otherwise it is issued under a fresh ID in its range, and a write failure is logged as the only event |
| `KeyDispatcher.KeyActor` | python/RO/KeyDispatcher.py:275-278 | an actor `keys.X` is treated as `X`; any other actor is kept |
| `KeyDispatcher.KeysActorIsActor` | python/RO/KeyDispatcher.py:275-278 | folding `keys.` + a gives back a |
| `KeyDispatcher.SetOne` | python/RO/KeyDispatcher.py:282-286 | every keyword variable in the list is set, even if setting another one raises; a failure only writes a traceback to stderr |
| `KeyDispatcher.SetCalls` | python/RO/KeyDispatcher.py:279-286 | every keyword variable registered under (actor, lower-case keyword) of some keyword in the message is set with that keyword's values |
| `KeyDispatcher.SetCallsSound` | python/RO/KeyDispatcher.py:279-286 | every keyword variable that is set is registered under (actor, lower-case keyword) of some keyword of the message and gets that keyword's values |
| `KeyDispatcher.SetCallsCaseBlind` | python/RO/KeyDispatcher.py:280 | keywords that differ only in case set the same variables with the same values |
| `KeyDispatcher.Dispatch` | python/RO/KeyDispatcher.py:250-295 | the keyword variables are set first; the reply goes to a command only when the commander is the dispatcher's and the ID is in the table, and is then exactly the unlogged reply of replyCmdVar, its events following the set calls; otherwise nothing but the variables changes |
| `KeyDispatcher.DispatchFinalReplyOnce` | python/RO/KeyDispatcher.py:287-295 | after a final reply the ID is gone from the table, so dispatching that reply again changes nothing |
| `KeyDispatcher.AbortCmdByID` | python/RO/KeyDispatcher.py:171-205 | nothing happens for None, an unknown ID or a done command; otherwise the abort string, when there is one and the dispatcher is connected, is first sent as a new user command under a fresh ID, which enters the table unless its write fails; then the command gets a logged "Aborted" failure reply, the last event, and leaves the table; no other command changes |
| `KeyDispatcher.AbortIsFinal` | python/RO/KeyDispatcher.py:171-205 | an aborted command can no longer be aborted; aborting it again changes nothing and emits nothing |
| `KeyDispatcher.FirstTimeout` | python/RO/KeyDispatcher.py:549-580 | the scan stops at the first command that is still pending and either the dispatcher is disconnected or its end time has passed; every command before it is skipped |
| `KeyDispatcher.FailTimedOut` | python/RO/KeyDispatcher.py:556-580 | a timed-out command gets a "Timeout" failure reply (and loses its abort string when disconnected), leaves the table and is logged |
| `KeyDispatcher.CheckRemCmdTimeouts` | python/RO/KeyDispatcher.py:537-587 | one scan step fails at most one command and schedules the rest of the same iterator; when none times out the step changes nothing but its own timer, which has fired and is no longer pending, and the periodic check is rescheduled |
| `KeyDispatcher.SeqOfSet` | python/RO/KeyDispatcher.py:246 | a snapshot of a dict's values lists each of them once |
| `KeyDispatcher.CheckCmdTimeouts` | python/RO/KeyDispatcher.py:237-248 | the periodic check cancels both timers and starts a scan over a snapshot of all pending commands |
| `KeyDispatcher.AddKeyVar` | python/RO/KeyDispatcher.py:207-235 | the variable is appended under (actor, keyword); it joins the set of its refresh command; a refresh is scheduled only if it has a refresh command and the dispatcher is connected; no other index entry changes |
| `KeyDispatcher.RemoveKeyVar` | python/RO/KeyDispatcher.py:488-513 | an absent variable gives None and no change; otherwise its first listing is removed and it leaves its refresh set, and a set that becomes empty is deleted |
| `KeyDispatcher.AddThenRemoveRestores` | python/RO/KeyDispatcher.py:488-513 | removing a variable just added restores the index and the refresh commands |
| `KeyDispatcher.GatherKeyVars` | python/RO/KeyDispatcher.py:530-535 | a list's variables with refresh commands are added to the sets keyed by those commands |
| `KeyDispatcher.GatherLists` | python/RO/KeyDispatcher.py:529-535 | all listed variables with refresh commands are added to the sets keyed by those commands |
| `KeyDispatcher.UpdateRefreshCmds` | python/RO/KeyDispatcher.py:523-535 | afterwards a variable is in the set of a refresh command exactly when it is registered and has that refresh command, and no set is empty |
| `KeyDispatcher.ItemsOf` | python/RO/KeyDispatcher.py:661 | the refresh items are the refresh-command dict's entries, each once |
| `KeyDispatcher.FreshRefreshList` | python/RO/KeyDispatcher.py:658-661 | a new refresh pass rebuilds the refresh commands and lists each of them once |
| `KeyDispatcher.IssueRefreshCmd` | python/RO/KeyDispatcher.py:664-682 | one refresh step issues one refresh command with a 20 s limit and an ID in 1001..2000, and schedules the remaining items |
| `KeyDispatcher.SendNextRefreshCmd` | python/RO/KeyDispatcher.py:647-682 | nothing happens when disconnected; otherwise a pass starts from fresh refresh commands or continues the given items, and each step issues at most one refresh command; the step's timer is pending afterwards exactly when it issued one, on the rest of the items |
| `KeyDispatcher.NotCurrentOf` | python/RO/KeyDispatcher.py:483-484 | every variable of a list is marked not current, and only those |
| `KeyDispatcher.NotCurrentAll` | python/RO/KeyDispatcher.py:482-484 | every listed variable is marked not current, and only those |
| `KeyDispatcher.ResetAll` | python/RO/KeyDispatcher.py:478-484 | every registered variable is marked not current, and only registered ones |
| `KeyDispatcher.RefreshAllVar` | python/RO/KeyDispatcher.py:465-486 | both refresh timers are cancelled; with resetAll every registered variable is marked not current; when connected the refresh commands are rebuilt and a refresh command is issued exactly when there is one |
| `KeyDispatcher.ConnStateCallback` | python/RO/KeyDispatcher.py:589-596 | a refresh of all variables is scheduled when the connected flag changes, and only then unless one was already scheduled; nothing else changes |
| `KeyDispatcher.Keywords` | python/RO/KeyDispatcher.py:608-618 | the keywords of the variables, in order |
| `KeyDispatcher.SortedKeywordsOf` | python/RO/KeyDispatcher.py:608-618 | the result is sorted and is a permutation of the keywords of the variables, listing each variable once |
| `KeyDispatcher.RefreshCmdCallback` | python/RO/KeyDispatcher.py:598-624 | a failed refresh command reports its sorted keywords; one with no variables reports that; otherwise it reports the sorted keywords of the variables still not current, exactly when there is one |
| `BaseSocket.StatusFlags` | python/RO/Comm/BaseSocket.py:72-87 | isDone iff Closed or Failed; isReady iff Connected for a socket and Listening for a server; didFail iff Failed |
| `BaseSocket.NewBase` | python/RO/Comm/BaseSocket.py:37-55 | a new object has the given state, an empty reason, and the given state callback as its only one |
| `BaseSocket.NewSocket` | python/RO/Comm/BaseSocket.py:203-222 | a new socket has the given state and read callback |
| `BaseSocket.NewServer` | python/RO/Comm/BaseSocket.py:326-355 | a new server keeps its connection callback and the callbacks it passes to new sockets |
| `BaseSocket.ClearCallbacks` | python/RO/Comm/BaseSocket.py:297-301 | clearing empties the state callbacks, resets a socket's read callback and a server's connection callbacks, and keeps state and reason |
| `BaseSocket.Notify` | python/RO/Comm/BaseSocket.py:153-158 | every state callback is called in order, each whether or not an earlier one raised |
| `BaseSocket.SetState` | python/RO/Comm/BaseSocket.py:138-165 | a done object raises; otherwise the state is set, a None reason keeps the old one, every callback is notified, and the callbacks are cleared only after notification when the new state is done; a server's connection and socket callbacks are cleared only when it is done and its read callback is never touched |
| `BaseSocket.DoneIsFinal` | python/RO/Comm/BaseSocket.py:147-148 | once Closed or Failed, no transition is possible |
| `BaseSocket.StartClose` | python/RO/Comm/BaseSocket.py:269-290 | close of a done object does nothing; otherwise it enters Closing, or Failing when not OK, with the given reason (the old one for None), and notifies the callbacks |
| `BaseSocket.AddStateCallback` | python/RO/Comm/BaseSocket.py:89-92 | the callback is appended and nothing else changes |
| `BaseSocket.RemoveStateCallback` | python/RO/Comm/BaseSocket.py:94-112 | a present callback has its first occurrence removed, the rest keeping their order, and True is returned; otherwise False, or ValueError when doRaise |
| `BaseSocket.AddThenRemoveState` | python/RO/Comm/BaseSocket.py:89-112 | removing a callback just added restores the object |
| `BaseSocket.SetStateCallback` | python/RO/Comm/BaseSocket.py:114-126 | the list becomes the one callback, or empty for None |
| `BaseSocket.SetReadCallback` | python/RO/Comm/BaseSocket.py:240-247 | only the read callback changes |
| `BaseSocket.NullSocket` | python/RO/Comm/BaseSocket.py:395-405 | a null socket is Closed, done, neither ready nor failed |
| `BaseSocket.NullSocketCall` | python/RO/Comm/BaseSocket.py:407-417 | read, readLine, write and writeLine of a null socket raise |
| `BaseSocket.NullSocketStaysClosed` | python/RO/Comm/BaseSocket.py:395-405 | closing a null socket does nothing and no state change is possible |
| `TkSocket.FindLineEnd` | ROPackage/python/RO/Comm/TkSocket.py:339 | finds the first `\r` or `\n`, and counts a `\r\n` as one two-character terminator |
| `TkSocket.SplitLine` | ROPackage/python/RO/Comm/TkSocket.py:339-349 | a buffer with a terminator splits into the line before its first terminator and the text after it, "\r\n" counting as one terminator (a lone "\r" ends a line only when no "\n" follows); a buffer without one does not split |
| `TkSocket.LineThenRestIsUnique` | ROPackage/python/RO/Comm/TkSocket.py:339-349 | a buffer splits into a line and the text after its first terminator in at most one way, so the split the line-end pattern makes is determined |
| `TkSocket.CrLfIsOneTerminator` | ROPackage/python/RO/Comm/TkSocket.py:257 | "a\r\nb" splits into "a" and "b": the alternation takes "\r\n" before "\r" |
| `TkSocket.ReadLine` | ROPackage/python/RO/Comm/TkSocket.py:328-349 | with no terminator the default is returned and the buffer kept; otherwise the text before the first terminator is returned and the buffer becomes the text after it, "\r\n" counting as one terminator |
| `TkSocket.LineRoundTrip` | ROPackage/python/RO/Comm/TkSocket.py:339-349 | a line received with `\r\n` is read back as that line, leaving the rest |
| `TkSocket.FindLineEndAt` | ROPackage/python/RO/Comm/TkSocket.py:339 | the terminator after a terminator-free line is found at its end |
| `TkSocket.ReadLineOf` | ROPackage/python/RO/Comm/TkSocket.py:339-349 | a buffer of line, terminator and rest reads back the line and keeps the rest |
| `TkSocket.Read` | ROPackage/python/RO/Comm/TkSocket.py:310-319 | read() returns the whole buffer and empties it |
| `TkSocket.DoRead` | ROPackage/python/RO/Comm/TkSocket.py:421-425 | received data is appended to the buffer and the read callback is called |
| `TkSocket.BasicClose` | ROPackage/python/RO/Comm/TkSocket.py:382-389 | closing an already done socket raises; otherwise it ends Closed if it was Closing and Failed otherwise, with its callbacks cleared and its buffers kept |
| `TkSocket.Close` | python/RO/Comm/BaseSocket.py:269-290 | closing a live socket ends Closed or Failed with the given reason, the callbacks notified of both transitions and then cleared |
| `TkSocket.CloseIdempotent` | python/RO/Comm/BaseSocket.py:282-283 | a second close does nothing |
| `TkSocket.CheckSocket` | ROPackage/python/RO/Comm/TkSocket.py:391-403 | a done socket reports False; a clean status reports True and changes nothing; an error closes the socket, Closed when the Tcl status says OK and Failed otherwise, with the error as reason, notifying the callbacks of both steps; the buffers are kept |
| `TkSocket.CheckSocketSettles` | ROPackage/python/RO/Comm/TkSocket.py:391-403 | once the check has reported False, checking again reports False and changes nothing |
| `TkSocket.Write` | ROPackage/python/RO/Comm/TkSocket.py:351-368 | write raises unless Connecting or Connected; otherwise the data is sent, and it raises exactly when the socket reports an error |
| `TkSocket.WriteLine` | ROPackage/python/RO/Comm/TkSocket.py:370-374 | writeLine sends the data followed by `\r\n` |
| `TkSocket.EchoSplitsLines` | tests/Comm/testTkSocket.py:132-141 | a line holding a newline, written with writeLine and echoed back, is read as the two lines on either side of it, as the test shows with bar and baz |
| `TkSocket.EchoJoinsWrites` | tests/Comm/testTkSocket.py:132-141 | a raw write followed by a writeLine, echoed back, is read as one line, as the test shows with "two " and "writes" |
| `TCPConnection.StatusFlags` | python/RO/Comm/TCPConnection.py:253-279 | isDone iff Connected, Disconnected or Failed; didFail implies isDisconnected; mayConnect iff not Connected, Connecting or Authorizing |
| `TCPConnection.StateNamed` | python/RO/Comm/TCPConnection.py:356-357 | a state name is accepted exactly when it names one of the seven states |
| `TCPConnection.New` | python/RO/Comm/TCPConnection.py:95-156 | a new connection is Disconnected with reason "" and may connect; a connected socket maps to Authorizing exactly when an authorization callback is given |
| `TCPConnection.LocalState` | python/RO/Comm/TCPConnection.py:143-154 | the socket-state table, including Connected to Authorizing when there is an authorization callback; other socket states have no entry |
| `TCPConnection.SetStateTo` | python/RO/Comm/TCPConnection.py:348-366 | a None reason keeps the old one; the state callbacks fire exactly when (state, reason) changed |
| `TCPConnection.SetStateTwiceIsSilent` | python/RO/Comm/TCPConnection.py:359-366 | setting the same state and reason again fires nothing |
| `TCPConnection.SetState` | python/RO/Comm/TCPConnection.py:348-366 | an unknown state name raises RuntimeError |
| `TCPConnection.SockStateCallback` | python/RO/Comm/TCPConnection.py:391-398 | a socket state with an entry in the table sets the mapped state with the socket's reason; any other is ignored |
| `TCPConnection.SetRead` | python/RO/Comm/TCPConnection.py:336-346 | the socket reads lines or raw data as the current phase asks, and the current read callbacks are the authorization callback or the user callbacks |
| `TCPConnection.Connect` | python/RO/Comm/TCPConnection.py:182-223 | connect raises unless mayConnect and some host is given or stored; an omitted host or port keeps the stored one; with a clean first socket check the connection is Connecting on a Connecting socket that reads for authorization when there is an authorization callback; an error in that check leaves the socket closed and the connection Disconnected or Failed with the error as reason |
| `TCPConnection.FailedConnectMayRetry` | python/RO/Comm/TCPConnection.py:182-223 | a connect whose new socket fails its first check leaves the connection disconnected, failed exactly when the status is not OK, and connecting again to the stored host is allowed |
| `TCPConnection.ConnectThenDisconnect` | python/RO/Comm/TCPConnection.py:182-236 | disconnecting a cleanly started connection leaves it Disconnected, or Failed when not OK, with the given reason or "" for none |
| `TCPConnection.StartConnecting` | python/RO/Comm/TCPConnection.py:205-223 | the new socket is Connecting, reports to the connection, and the state becomes (Connecting, ""); its first status check can close it at once, and the connection follows |
| `TCPConnection.CheckNewSocket` | ROPackage/python/RO/Comm/TkSocket.py:296-300 | the first status check after the socket starts connecting changes nothing on a clean status; on an error the socket closes with the error as reason, and the connection becomes Disconnected when the status is OK and Failed otherwise, keeping host, port and buffer |
| `TCPConnection.SockCloses` | python/RO/Comm/TCPConnection.py:391-398 | a socket that closes and reports to the connection leaves it Disconnected or Failed with the socket's reason; nothing but the state and reason changes |
| `TCPConnection.Disconnect` | python/RO/Comm/TCPConnection.py:225-236 | disconnect closes a live socket, which leaves the connection Disconnected, or Failed when not OK |
| `TCPConnection.DisconnectThenConnect` | python/RO/Comm/TCPConnection.py:182-236 | after a disconnect the connection may connect again |
| `TCPConnection.Write` | python/RO/Comm/TCPConnection.py:303-314 | write passes the data to the socket; a socket error is raised and, when the socket reports to the connection, leaves it Disconnected or Failed with the error as reason |
| `TCPConnection.WriteLine` | python/RO/Comm/TCPConnection.py:316-324 | writeLine sends the data followed by `\r\n` |
| `TCPConnection.AuthDone` | python/RO/Comm/TCPConnection.py:326-334 | after authorization the user read callbacks are current and the state is Connected with the given message |
| `TCPConnection.AddReadCallback` | python/RO/Comm/TCPConnection.py:158-168 | a callable is appended to the user read callbacks; anything else fails an assertion |
| `TCPConnection.AddStateCallback` | python/RO/Comm/TCPConnection.py:170-180 | a callable is appended and, with callNow, called once; anything else fails an assertion |
| `TCPConnection.RemoveIfPresent` | python/RO/Comm/TCPConnection.py:281-301 | reports True exactly when the function was present, and then removes its first occurrence, the rest keeping their order; otherwise the list is unchanged |
| `TCPConnection.RemoveReadCallback` | python/RO/Comm/TCPConnection.py:281-290 | returns True iff the function was a user read callback, whose first occurrence is removed with the others kept in order; nothing else changes |
| `TCPConnection.RemoveStateCallback` | python/RO/Comm/TCPConnection.py:292-301 | returns True iff the function was a state callback, whose first occurrence is removed with the others kept in order; nothing else changes |
| `TCPConnection.AddThenRemoveReadCallback` | python/RO/Comm/TCPConnection.py:281-290 | removing a read callback just added restores the connection and returns True |
| `TCPConnection.Deliver` | python/RO/Comm/TCPConnection.py:374-389 | each current read callback gets the data, in order |
| `TCPConnection.ReadStep` | python/RO/Comm/TCPConnection.py:368-389 | raw mode passes the whole buffer to the current read callbacks; line mode passes one complete line and nothing for a partial one |
| `TCPConnection.Receive` | python/RO/Comm/TCPConnection.py:368-389 | in raw mode everything buffered plus the new data goes to the current read callbacks and the buffer empties; in line mode the first complete line goes to them and the text after its terminator ("\r\n" being one) stays buffered, and data without a terminator is only buffered |
| `TCPConnection.ReceiveInPieces` | python/RO/Comm/TCPConnection.py:378-389 | in line mode, data without a line end followed by more data is handled exactly as if both arrived together |
| `TCPConnection.AuthorizingReadsGoToAuth` | python/RO/Comm/TCPConnection.py:336-346 | after connect with an authorization callback, raw data goes to that callback only |
| `TCPConnection.AuthorizingLinesGoToAuth` | python/RO/Comm/TCPConnection.py:336-346 | after connect with a line-reading authorization callback, a line goes to that callback only |
| `TCPConnection.AuthDoneRoutesToUser` | python/RO/Comm/TCPConnection.py:326-346 | after authorization, data goes to the user read callbacks |
| `TCPConnection.PartialLineIsSilent` | python/RO/Comm/TCPConnection.py:378-389 | in line mode a partial line calls no callback and stays buffered |
| `TCPConnection.CompleteLineIsDelivered` | python/RO/Comm/TCPConnection.py:378-389 | in line mode a complete line goes to every current read callback and the rest stays buffered |
| `TCPConnection.ReceiveLine` | python/RO/Comm/TCPConnection.py:378-389 | in line mode the line the socket reads is what the callbacks get |
| `TCPConnection.LaterReadCallbackIsCurrent` | python/RO/Comm/TCPConnection.py:158-168 | a read callback added while connected receives the data along with the earlier ones |
| `TkUtil.MakeGeometry` | trunk/ROPackage/python/RO/TkUtil.py:262-291 | the constructor raises unless offset and flips have two elements; an extent with a None becomes unknown |
| `TkUtil.LeadingDigitsRun` | trunk/ROPackage/python/RO/TkUtil.py:259 | the digit run at the front of a string is all digits and is followed by a non-digit |
| `TkUtil.ParseSigned` | trunk/ROPackage/python/RO/TkUtil.py:401-404 | what is read as an integer lies within the string and is not empty |
| `TkUtil.ParseSignedOf` | trunk/ROPackage/python/RO/TkUtil.py:401-404 | a written integer followed by a non-digit is read back as that integer, consuming exactly its digits and sign |
| `TkUtil.FlippedFromChar` | trunk/ROPackage/python/RO/TkUtil.py:407-413 | '-' means flipped and '+' unflipped; any other character is rejected |
| `TkUtil.MatchBody` | trunk/ROPackage/python/RO/TkUtil.py:259 | the pattern's `$` also accepts one trailing newline |
| `TkUtil.SplitExtent` | trunk/ROPackage/python/RO/TkUtil.py:259 | the position left after an optional "WxH" prefix is a suffix of the string, and the whole string when there is no prefix |
| `TkUtil.FromTkStr` | trunk/ROPackage/python/RO/TkUtil.py:294-310 | an unparsable string raises RuntimeError |
| `TkUtil.FromTkStrNeedsSign` | trunk/ROPackage/python/RO/TkUtil.py:294-310 | a string with no sign character does not parse |
| `TkUtil.ParsePositionOf` | trunk/ROPackage/python/RO/TkUtil.py:259 | a formatted position parses back to its signs and offsets |
| `TkUtil.FromTkStrOfPosition` | trunk/ROPackage/python/RO/TkUtil.py:294-310 | "±X±Y" parses to that offset with '-' as flipped and an unknown extent |
| `TkUtil.FromTkStrOfSized` | trunk/ROPackage/python/RO/TkUtil.py:294-310 | "WxH±X±Y" parses to that extent and offset |
| `TkUtil.SplitExtentOf` | trunk/ROPackage/python/RO/TkUtil.py:259 | "WxH" followed by a position is split into the two numbers and the position |
| `TkUtil.SignStr` | trunk/ROPackage/python/RO/TkUtil.py:416-420 | the sign written for a flip parses back to that flip |
| `TkUtil.Format` | trunk/ROPackage/python/RO/TkUtil.py:371-392 | includeExtent=True without an extent raises; the size is included exactly when asked or, for None, when known; otherwise only the position |
| `TkUtil.ToTkStr` | trunk/ROPackage/python/RO/TkUtil.py:371-392 | as written, toTkStr formats every geometry as the intended formatter formats it with both offsets unflipped |
| `TkUtil.ToTkStrFixed` | trunk/ROPackage/python/RO/TkUtil.py:371-392 | the intended toTkStr raises exactly when the extent is demanded and unknown; otherwise (for a non-negative extent) its string parses back to the geometry, less the extent when the extent is left out |
| `TkUtil.FromTkStrOfFormat` | trunk/ROPackage/python/RO/TkUtil.py:294-392 | whatever the format writes parses back to the geometry it describes |
| `TkUtil.RoundTripAsWritten` | trunk/ROPackage/python/RO/TkUtil.py:380-420 | as written, parsing the string gives the geometry with both offsets unflipped, less the extent when it is left out |
| `TkUtil.FlippedGeometryIsLost` | trunk/ROPackage/python/RO/TkUtil.py:380-420 | "-10+20" comes back as "+10+20" from the code as written and intact from the corrected one |
| `TkUtil.ConstrainAxis` | trunk/ROPackage/python/RO/TkUtil.py:329-355 | one axis as written: a too-large window goes to the minimum corner, clipped when constrainExtent; otherwise the corner is raised to the minimum or lowered until the window ends within the usable extent |
| `TkUtil.ConstrainAxisFixed` | trunk/ROPackage/python/RO/TkUtil.py:329-355 | one axis against the full screen: an extent that fits keeps its size and then lies between the minimum corner and the screen edge; with constrainExtent so does any window |
| `TkUtil.ConstrainAxisFixedKeepsFitting` | trunk/ROPackage/python/RO/TkUtil.py:349-353 | a window that already fits is left where it is |
| `TkUtil.ConstrainAxisUnderMenuBar` | trunk/ROPackage/python/RO/TkUtil.py:335-353 | on a 22-pixel menu-bar screen of 800 a 770-pixel window at 30 is moved to 8 as written (under the menu bar), and stays at 30 when corrected |
| `TkUtil.Constrained` | trunk/ROPackage/python/RO/TkUtil.py:312-359 | the result is unflipped, constrained per axis, and keeps the extent unknown when it was |
| `TkUtil.ConstrainedFixedIsOnScreen` | trunk/ROPackage/python/RO/TkUtil.py:312-359 | with constrainExtent the corrected result lies between the minimum corner and the screen edge on both axes |
| `TkUtil.DelayMs` | trunk/ROPackage/python/RO/TkUtil.py:447 | the delay in milliseconds is the seconds times 1000, rounded |
| `TkUtil.Cancel` | trunk/ROPackage/python/RO/TkUtil.py:456-465 | cancel returns True exactly when a timer was pending and leaves none |
| `TkUtil.Start` | trunk/ROPackage/python/RO/TkUtil.py:439-454 | start leaves exactly the new call pending |
| `TkUtil.Fire` | trunk/ROPackage/python/RO/TkUtil.py:450-452 | firing runs the pending call once and leaves the timer inactive |
| `TkUtil.StartReplaces` | trunk/ROPackage/python/RO/TkUtil.py:439-465 | starting twice runs only the second call; a second cancel returns False |
| `AddCallback.SafeCall2` | python/RO/AddCallback.py:60-79 | the function is called and its failure is recorded, not raised |
| `AddCallback.RunSnapshot` | python/RO/AddCallback.py:198-203 | every function of the snapshot is called in order, whatever the callbacks do to the list and whichever of them fail |
| `AddCallback.New` | python/RO/AddCallback.py:114-123 | a new registry is empty and enabled |
| `AddCallback.BasicDoCallbacks` | python/RO/AddCallback.py:191-205 | nothing runs while disabled; otherwise every callback in the list runs once and the registry is enabled again |
| `AddCallback.RunningCallbacksAreNotReentered` | python/RO/AddCallback.py:196-205 | a run started from inside a callback does nothing |
| `AddCallback.RunUsesSnapshot` | python/RO/AddCallback.py:198-203 | what the callbacks do to the list does not change which callbacks run |
| `AddCallback.RunSnapshotTrace` | python/RO/AddCallback.py:198-203 | the calls made depend only on the snapshot |
| `AddCallback.AddCallback` | python/RO/AddCallback.py:125-159 | None is a no-op and a non-callable raises ValueError; a function already present is not added again; the new function is called once when callNow (or the registry's default) asks and callbacks are enabled |
| `AddCallback.RemoveCallback` | python/RO/AddCallback.py:168-189 | a present function has its first occurrence removed, the rest kept in order, and True is returned; otherwise ValueError when doRaise, else False |
| `AddCallback.AddThenRemove` | python/RO/AddCallback.py:125-189 | removing a function just added restores the registry |
| `AddCallback.RemoveAllCallbacks` | python/RO/AddCallback.py:225-230 | the list becomes empty |
| `AddCallback.DisableEnter` | python/RO/AddCallback.py:89-92 | entering the context disables callbacks and saves the old flag |
| `AddCallback.DisableExit` | python/RO/AddCallback.py:94-97 | leaving the context restores the saved flag |
| `AddCallback.DisableContextRestores` | python/RO/AddCallback.py:81-97 | nothing runs inside the context and the flag is restored after it |
| `MatchList.MatchesIn` | python/RO/Alg/MatchList.py:37-40 | the matches are the original values of the entries whose key has the query as prefix (abbreviations allowed) or equals it |
| `MatchList.GetAllMatches` | python/RO/Alg/MatchList.py:32-40 | there are no more matches than stored values |
| `MatchList.MatchesOfSetList` | python/RO/Alg/MatchList.py:35-81 | a string matches exactly when it was in the list and, lower-cased when ignoring case, has the query as prefix or equals it |
| `MatchList.GetUniqueMatch` | python/RO/Alg/MatchList.py:42-53 | the match is returned iff there is exactly one, else ValueError |
| `MatchList.EntriesOf` | python/RO/Alg/MatchList.py:73-80 | only string items are kept, keyed by their lower-case form when ignoring case |
| `MatchList.SetList` | python/RO/Alg/MatchList.py:69-81 | the stored entries are those items, sorted |
| `MatchList.New` | python/RO/Alg/MatchList.py:22-30 | a new matcher keeps its flags and holds exactly the string items of the list, keyed as setList keys them |
| `MatchList.CanFinishStep` | python/RO/Alg/MatchList.py:62-66 | the keys can be matched without clash exactly when the first key has a unique match not yet taken and the rest can be matched after it |
| `MatchList.MatchKeysFromOk` | python/RO/Alg/MatchList.py:62-66 | the loop succeeds exactly when the keys can be matched without clash |
| `MatchList.MatchKeysFromError` | python/RO/Alg/MatchList.py:62-66 | the loop only fails with ValueError |
| `MatchList.MatchKeysFromContents` | python/RO/Alg/MatchList.py:62-66 | on success each key's value is stored under its match |
| `MatchList.MatchKeys` | python/RO/Alg/MatchList.py:55-67 | matchKeys only fails with ValueError |
| `MatchList.MatchKeysCorrect` | python/RO/Alg/MatchList.py:55-67 | matchKeys succeeds iff every key has a unique match and no two keys share one; then the keys are the matches and each holds its key's value |
| `MultiDict.Add` | python/RO/Alg/MultiDict.py:23-31 | the value is appended to the key's list, a new key gets [val], duplicates are kept, other keys are unchanged |
| `MultiDict.AddList` | python/RO/Alg/MultiDict.py:33-43 | all values are appended in order |
| `MultiDict.AddListIsRepeatedAdd` | python/RO/Alg/MultiDict.py:23-43 | addList equals adding the values one by one, when the key exists or the list is non-empty |
| `MultiDict.Remove` | python/RO/Alg/MultiDict.py:45-51 | the first occurrence is removed and the other values keep their order; an absent value raises ValueError, and a missing key raises AttributeError because `get` returns None |
| `MultiDict.AddThenRemove` | python/RO/Alg/MultiDict.py:23-51 | removing a value just added restores the key's list |
| `MultiDict.SetAdd` | python/RO/Alg/MultiDict.py:58-69 | the value joins the key's set |
| `MultiDict.SetAddList` | python/RO/Alg/MultiDict.py:71-83 | the values are unioned into the key's set |
| `MultiDict.SetAddIdempotent` | python/RO/Alg/MultiDict.py:58-69 | adding the same value twice is the same as once |
| `MultiDict.SetRemove` | python/RO/Alg/MultiDict.py:45-51 | the inherited remove on a set: the value leaves the set; an absent value raises KeyError and a missing key AttributeError |
| `ListPlus.HasKey` | python/RO/Alg/ListPlus.py:18-23 | has_key holds iff indexing succeeds: an integer with -len <= k < len |
| `ListPlus.Get` | python/RO/Alg/ListPlus.py:12-16 | get returns the indexed element, counting from the end for a negative key, and the default when indexing fails |
| `ListPlus.Keys` | python/RO/Alg/ListPlus.py:35-36 | keys() is 0..len-1 |
| `ListPlus.Values` | python/RO/Alg/ListPlus.py:38-39 | values() is a copy of the list |
| `ListPlus.Items` | python/RO/Alg/ListPlus.py:25-27 | iteritems pairs each key with its element in order |
| `ListPlus.KeysAreKeys` | python/RO/Alg/ListPlus.py:12-39 | every key is valid, get of the j-th key is the j-th value, and the j-th item is (key, get(key)) |
| `OSUtil.RFind` | python/RO/OS/OSUtil.py:265 | the last occurrence of the separator, or -1 |
| `OSUtil.RStripChar` | python/RO/OS/OSUtil.py:265 | trailing separators are removed |
| `OSUtil.PosixSplit` | python/RO/OS/OSUtil.py:265 | `os.path.split` gives a prefix and a separator-free tail |
| `OSUtil.PosixSplitAtLastSep` | python/RO/OS/OSUtil.py:265 | `os.path.split` splits at the last separator |
| `OSUtil.SplitPath` | python/RO/OS/OSUtil.py:253-277 | no component is empty |
| `OSUtil.LastPiece` | python/RO/OS/OSUtil.py:266-272 | the final piece is at most one non-empty component |
| `OSUtil.SplitPathLoop` | python/RO/OS/OSUtil.py:253-277 | the loop that builds the list backwards and reverses it computes the same components as the recursive definition |
| `OSUtil.SplitPathOfJoin` | python/RO/OS/OSUtil.py:253-277 | splitting names joined by '/' gives the names back |
| `OSUtil.SplitPathOfRoot` | python/RO/OS/OSUtil.py:266-272 | "/" splits into no components |
| `OSUtil.SplitPathWithTrailingSep` | python/RO/OS/OSUtil.py:266-272 | as written, a path with a trailing '/' comes back as one component |
| `OSUtil.SplitPathFixed` | python/RO/OS/OSUtil.py:253-277 | the corrected split has no empty component |
| `OSUtil.SplitPathFixedOfJoin` | python/RO/OS/OSUtil.py:253-277 | corrected, "a/b" still splits into [a, b] |
| `OSUtil.SplitPathFixedOfJoinWithSep` | python/RO/OS/OSUtil.py:253-277 | corrected, "a/b/" splits into [a, b] as well |
| `OSUtil.RemoveDupPaths` | python/RO/OS/OSUtil.py:232-251 | the loop keeps the first path of each expandPath class, in input order |
| `OSUtil.FirstOfEachClassFromInput` | python/RO/OS/OSUtil.py:246-250 | every output path is one of the inputs |
| `OSUtil.FirstOfEachClassNoDuplicates` | python/RO/OS/OSUtil.py:246-250 | no two output paths expand to the same path |
| `OSUtil.FirstOfEachClassCovers` | python/RO/OS/OSUtil.py:246-250 | every input's expanded path is represented in the output |
| `OSUtil.NameMatchIff` | python/RO/OS/OSUtil.py:320-339 | the basename matches some include pattern and no exclude pattern; with no include patterns the result is False |
| `OSUtil.NameMatchFromIff` | python/RO/OS/OSUtil.py:333-339 | the pattern loop returns True iff some include and no exclude pattern matches |
| `ToplevelSet.DefGeoms` | python/RO/Wdg/Toplevel.py:377-381 | only truthy default geometries are recorded |
| `ToplevelSet.DefVisAsWritten` | python/RO/Wdg/Toplevel.py:377-383 | as written only a True default visibility is recorded |
| `ToplevelSet.DefVis` | python/RO/Wdg/Toplevel.py:354-357 | corrected, every default visibility that is not None is recorded |
| `ToplevelSet.GetDesGeom` | python/RO/Wdg/Toplevel.py:454-470 | the file's geometry, else the default, else "" |
| `ToplevelSet.GetDesVisible` | python/RO/Wdg/Toplevel.py:472-478 | the file's flag, else the default, else True |
| `ToplevelSet.DefaultsAsWritten` | python/RO/Wdg/Toplevel.py:377-383 | as written a window whose default is hidden is desired visible |
| `ToplevelSet.Defaults` | python/RO/Wdg/Toplevel.py:344-383 | corrected, every window is desired at its default geometry and visibility until a file says otherwise |
| `ToplevelSet.GetToplevel` | python/RO/Wdg/Toplevel.py:480-489 | a live window is returned; a destroyed one is dropped from the set |
| `ToplevelSet.AddToplevel` | python/RO/Wdg/Toplevel.py:389-397 | a name that is live raises RuntimeError; otherwise the window is recorded |
| `ToplevelSet.CreateToplevel` | python/RO/Wdg/Toplevel.py:399-452 | a live name raises; otherwise the window takes the file geometry over the given one over the desired one, the file visibility over the given one over the desired one, and the saved state when it saves state; the given defaults are recorded and the file dictionaries are unchanged |
| `ToplevelSet.CreatedIsDesired` | python/RO/Wdg/Toplevel.py:399-478 | the geometry and visibility createToplevel gives a window are the desired ones of the resulting set, and creating the name again raises while the window lives |
| `ToplevelSet.WithPrefix` | python/RO/Wdg/Toplevel.py:498-502 | the sorted names that start with the prefix |
| `ToplevelSet.GetNames` | python/RO/Wdg/Toplevel.py:491-502 | the window names with the prefix, sorted |
| `ToplevelSet.GetNamesInGeomFile` | python/RO/Wdg/Toplevel.py:504-512 | the names in the file with the prefix, sorted |
| `ToplevelSet.ParseLine` | python/RO/Wdg/Toplevel.py:560-595 | comment lines and lines without '=' are skipped; a parsed line has a non-empty name and no empty geometry |
| `ToplevelSet.CommentIsSkipped` | python/RO/Wdg/Toplevel.py:563-564 | a line starting with "#" is skipped |
| `ToplevelSet.ParseFields` | python/RO/Wdg/Toplevel.py:571-595 | a parsed field list belongs to the given name and never records an empty geometry |
| `ToplevelSet.Apply` | python/RO/Wdg/Toplevel.py:576-595 | a parsed line updates only the dictionaries for which it has a value |
| `ToplevelSet.FileNameFor` | python/RO/Wdg/Toplevel.py:539-618 | a file name is found exactly when the given or the default file name is non-empty, and it is never empty |
| `ToplevelSet.ReadGeomVisFile` | python/RO/Wdg/Toplevel.py:520-601 | no file name raises; a missing file changes nothing; the file dictionaries are replaced only after the whole file has parsed |
| `ToplevelSet.New` | python/RO/Wdg/Toplevel.py:344-387 | as written: without a file the set holds the defaults, with only True visibilities recorded; every name the file does not mention is desired visible, even one whose default is hidden |
| `ToplevelSet.NewFixed` | python/RO/Wdg/Toplevel.py:344-387 | corrected: names the file does not mention are desired at their default geometry and visibility, a hidden default included |
| `ToplevelSet.NewIsFixedWithoutHiddenDefaults` | python/RO/Wdg/Toplevel.py:377-383 | without a default visibility of False the constructor as written and the corrected one build the same set |
| `ToplevelSet.EntryOf` | python/RO/Wdg/Toplevel.py:627-655 | a window written as a comment has the default geometry and visibility; an empty geometry is written only when the default is empty |
| `ToplevelSet.ValuesTextIsJoin` | python/RO/Wdg/Toplevel.py:656-663 | the values are written as "geom, vis[, json]" |
| `ToplevelSet.WriteStep` | python/RO/Wdg/Toplevel.py:627-665 | the window's line is produced and its written values become its file entries; the defaults are unchanged and other windows are kept as they were |
| `ToplevelSet.WriteNames` | python/RO/Wdg/Toplevel.py:627-665 | every name gets its line in order and its file entries |
| `ToplevelSet.WriteGeomVisFile` | python/RO/Wdg/Toplevel.py:603-667 | no file name raises; otherwise one line is written per window |
| `ToplevelSet.ParseLineFor` | python/RO/Wdg/Toplevel.py:560-665 | a written line parses back to its name, geometry, visibility and state, and a commented one is skipped |
| `ToplevelSet.DataLineFields` | python/RO/Wdg/Toplevel.py:568-571 | "name = values" splits at the first '=' and the values into at most three fields |
| `ToplevelSet.ParseFieldsOf` | python/RO/Wdg/Toplevel.py:571-595 | the written values parse back to the entry |
| `ToplevelSet.ReadDistinctLines` | python/RO/Wdg/Toplevel.py:556-599 | reading lines with distinct names records what each line says |
| `ToplevelSet.WrittenLinesParse` | python/RO/Wdg/Toplevel.py:560-665 | every written line parses, under its own name |
| `ToplevelSet.DesiredIsRecorded` | python/RO/Wdg/Toplevel.py:454-478 | what a line records, or the default a commented line stands for, is the desired geometry and visibility |
| `ToplevelSet.ReadBackOfNames` | python/RO/Wdg/Toplevel.py:520-667 | reading the written lines back gives every window its written geometry and visibility |
| `ToplevelSet.WriteThenReadRestoresDesired` | python/RO/Wdg/Toplevel.py:520-667 | writing the file and reading it back gives every window its desired geometry and visibility again |
| `StateTracker.TrackItem` | python/RO/Wdg/StateTracker.py:74-91 | a tracked name raises RuntimeError; otherwise exactly that name is added |
| `StateTracker.GetState` | python/RO/Wdg/StateTracker.py:93-97 | the keys are the tracked names, each mapped to its getter's value; a missing getter raises TypeError |
| `StateTracker.SetStateFrom` | python/RO/Wdg/StateTracker.py:105-111 | setters are called only for tracked names with their values; a failure or a missing setter is logged as a warning |
| `StateTracker.SetState` | python/RO/Wdg/StateTracker.py:99-111 | every tracked name in the dict is set and unknown names are ignored; failures are logged |
| `StateTracker.SetCallsIgnoreFailures` | python/RO/Wdg/StateTracker.py:108-111 | a failing setter does not change which setters are called |
| `StateTracker.SetWhatWasGot` | python/RO/Wdg/StateTracker.py:93-111 | setting the state just got calls every tracked setter with its getter's value, and no setter of an untracked name |
| `Presets.IsSubDict` | python/RO/Wdg/InputContPresetsWdg.py:275-283 | equal sizes compare for equality; otherwise every key must map to the same value, and a key missing from the full dict raises KeyError |
| `Presets.SameSizeSubMap` | python/RO/Wdg/InputContPresetsWdg.py:278-279 | for dicts of equal size, containment is equality |
| `Presets.WithUser` | python/RO/Wdg/InputContPresetsWdg.py:133-139 | this system's user presets become the given ones; the other systems' presets and every other field are kept |
| `Presets.SetStdPresets` | python/RO/Wdg/InputContPresetsWdg.py:117-130 | the standard presets are replaced and a current standard preset that is gone is forgotten |
| `Presets.DoSave` | python/RO/Wdg/InputContPresetsWdg.py:153-164 | an empty name changes nothing; otherwise the current values are stored under the new name, overwriting; other presets and other systems are unchanged |
| `Presets.DoRename` | python/RO/Wdg/InputContPresetsWdg.py:166-182 | a cancelled dialog changes nothing and a missing old name raises KeyError; otherwise the value moves from the old name to the new one and the current name follows; the system name and the other systems' presets are unchanged |
| `Presets.DoDelete` | python/RO/Wdg/InputContPresetsWdg.py:184-197 | an empty name changes nothing and a missing one raises KeyError; otherwise only that preset is removed, and the current name is cleared if it was that one; the system name and the other systems' presets are unchanged |
| `Presets.RenameBack` | python/RO/Wdg/InputContPresetsWdg.py:166-182 | renaming back restores the user presets |
| `Presets.SaveThenDelete` | python/RO/Wdg/InputContPresetsWdg.py:153-197 | deleting a preset just saved under a new name restores the user presets |
| `Presets.FirstUserMatch` | python/RO/Wdg/InputContPresetsWdg.py:220-223 | a user preset matches when it is non-empty and equal to the current values |
| `Presets.FirstStdMatch` | python/RO/Wdg/InputContPresetsWdg.py:225-229 | a standard preset matches when it is a sub-dict of the current values |
| `Presets.CurrentStillMatches` | python/RO/Wdg/InputContPresetsWdg.py:206-218 | the current preset is kept only while it still matches |
| `Presets.GetCurrPreset` | python/RO/Wdg/InputContPresetsWdg.py:199-231 | the current preset while it still matches; any other named result is a non-empty user preset equal to the current values or a standard preset contained in them; (None, True) never occurs; only KeyError is raised |
| `Presets.NoMatchMeansNone` | python/RO/Wdg/InputContPresetsWdg.py:199-231 | (None, False) means no preset matches |
| `Presets.MenuNames` | python/RO/Wdg/InputContPresetsWdg.py:233-242 | the user and standard names, each sorted and listed once |
| `Presets.RenameResult` | python/RO/Wdg/InputContPresetsWdg.py:339-346 | the rename dialog gives a result only for two different non-empty names |
| `OptionMenu.ToItems` | ROPackage/python/RO/Wdg/OptionMenu.py:515-516 | the menu items as given to the matcher, None left out |
| `OptionMenu.HelpDictLastWins` | ROPackage/python/RO/Wdg/OptionMenu.py:482-487 | each item's help text is the one given with its last occurrence |
| `OptionMenu.AsString` | ROPackage/python/RO/Wdg/OptionMenu.py:242-249 | None is shown as noneDisplay |
| `OptionMenu.AsValue` | ROPackage/python/RO/Wdg/OptionMenu.py:251-260 | noneDisplay reads back as None only when it is not an item; asString of the result is the string |
| `OptionMenu.ExpandValue` | ROPackage/python/RO/Wdg/OptionMenu.py:285-303 | None expands to (None, True); a value to its unique match with True, or to itself with False |
| `OptionMenu.ExpandedIsItem` | ROPackage/python/RO/Wdg/OptionMenu.py:285-303 | a value that expands is expanded to an item |
| `OptionMenu.Show` | ROPackage/python/RO/Wdg/OptionMenu.py:537-540 | showing a string updates the help text for it and nothing else |
| `OptionMenu.GetString` | ROPackage/python/RO/Wdg/OptionMenu.py:338-345 | the displayed value when valid, else the default or "" |
| `OptionMenu.RestoreDefault` | ROPackage/python/RO/Wdg/OptionMenu.py:392-396 | the menu then shows its default |
| `OptionMenu.Set` | ROPackage/python/RO/Wdg/OptionMenu.py:398-418 | the temporary value is cleared first; an invalid value becomes the temporary value, shown without change, exactly when forceValid; otherwise it raises ValueError with doCheck and is shown as given without; a valid value is shown expanded |
| `OptionMenu.SetLeavesValid` | ROPackage/python/RO/Wdg/OptionMenu.py:398-418 | a checked or forced set leaves a valid value |
| `OptionMenu.SetDefault` | ROPackage/python/RO/Wdg/OptionMenu.py:420-452 | a checked invalid default raises and changes nothing; otherwise the default is replaced, and shown when showDefault asks or, for None, when tracking and showing the old one |
| `OptionMenu.SetHelp` | ROPackage/python/RO/Wdg/OptionMenu.py:477-493 | help text is none, one text, or one per item; a list of the wrong length raises ValueError |
| `OptionMenu.Relist` | ROPackage/python/RO/Wdg/OptionMenu.py:496-516 | the items and matcher are replaced; checkDef nulls a default that is not an item |
| `OptionMenu.Recheck` | ROPackage/python/RO/Wdg/OptionMenu.py:518-519 | with checkCurrent the temporary value is cleared, a shown value naming exactly one item is shown expanded to it, and any other gives way to the default; without it nothing changes |
| `OptionMenu.SetItems` | ROPackage/python/RO/Wdg/OptionMenu.py:454-521 | a bad help list raises; identical items keep items and default; checkDef nulls a default that is not an item |
| `OptionMenu.SetItemsCheckCurrent` | ROPackage/python/RO/Wdg/OptionMenu.py:496-521 | after new items with checkCurrent the value is valid or the default |
| `OptionMenu.SetItemsKeepsCurrent` | ROPackage/python/RO/Wdg/OptionMenu.py:516-519 | after new items with checkCurrent, a current value naming exactly one new item stays, expanded to that item |
| `OptionMenu.SetItemsRestoresDefault` | ROPackage/python/RO/Wdg/OptionMenu.py:516-521 | after new items with checkCurrent, any other current value gives way to the default |
| `OptionMenu.Empty` | ROPackage/python/RO/Wdg/OptionMenu.py:188-203 | a new menu has no items and the given flags |
| `OptionMenu.New` | ROPackage/python/RO/Wdg/OptionMenu.py:169-240 | the constructor raises for a help list of the wrong length or a default with no unique match; otherwise the menu holds the items and shows the default unless only an initial value is given; trackDefault defaults to autoIsCurrent |

## Left out

- I/O is outside the model: Tcl sockets, Tk widgets, menus and dialogs, file
  access, JSON, logging sinks and stderr. What they report is a parameter;
  what they receive is collected in traces or `Event`s.
- `RO.ParseMsg`, `RO.KeyVariable.CmdVar` and `RO.Alg.IDGen` are not part of
  this model.
  - CmdVar is a record. A reply marks it done for message types ':', 'f' and
    '!', and failed for 'f' and '!'.
  - IDGen is a counter over [lo, hi] that wraps.
  - Setting a keyword variable is an event; whether it raises is a predicate.
- KeyDispatcher.doRead, logMsg, logMsgDict and setLogFunc are left out: they
  parse and log text.
- KeyDispatcher.MakeMsgDict: `%r` is modelled as quoting without escapes, and
  the actor in the "No refresh data" report is omitted.
- KeyDispatcher.MakeMsgDict: the keyword data that `parseHubMsg` reads from
  the message text is not modelled; the message carries none. Synthesized
  messages reach only command replies and the log, never keyword variables.
- KeyDispatcher.SendNextRefreshCmd and IssueRefreshCmd walk a snapshot of the
  refresh commands. The source iterates the live dictionary
  (KeyDispatcher.py:647-682): adding or removing a refresh command during a
  pass (lines 233 and 512) raises RuntimeError there, and keyword variables
  added to an existing command during a pass are seen. Neither is modelled.
- KeyDispatcher: the clock `time.time()` is a float in seconds; the model
  takes it as an integer parameter `now`.
- KeyDispatcher and MatchList fold case with an ASCII `Lower`; Python's
  Unicode `lower()` is not modelled.
- The keyword-variable field is one field `keyword`, where the source reads
  `keyword` when adding and `keywd` when removing.
- The `_refreshCmdCallback` test of `cmdVar.isDone` without a call is
  modelled as no early return.
- The four dispatcher timers are fields that hold their pending argument.
  The constructor's initial refresh and timeout check are separate steps.
- AllocId, AllocCmdId, IssueCmd, ExecuteCmd, AbortCmdByID, SendNextRefreshCmd
  and RefreshAllVar require a free ID in the range. Without one the source
  loops forever.
- TkSocket `read(nChar)` with a count uses an attribute that is never set.
  Only `read()` is modelled.
- `_TkSocketWrapper`, `TCPServer._newConnection` and the Tcl event plumbing
  are left out.
- TCPConnection.Connect: the `timeLim` argument (TCPConnection.py:185, 192
  and 214) is not modelled. `RO.Comm.Generic.TCPSocket` is modelled as the
  Tk socket, whose constructor takes no time limit; the Twisted socket,
  which fails a connection still pending when the limit expires, is not
  part of this model.
- TCPConnection.Connect: a Tcl error while the socket is created (the
  RuntimeError raised by `_TkSocketWrapper`) is not modelled; the socket is
  always created and its first status check is modelled.
- BaseSocket.SetState and TCPConnection.SetStateTo notify a copy of the
  state callbacks taken before the first call. The source loops over the
  live list (BaseSocket.py:153, TCPConnection.py:364): a callback added
  during notification is called in the same pass, and one that removes
  itself makes the loop skip the next one. Neither is modelled.
- TCPConnection.Deliver: every read callback gets the data. In the source an
  exception in one read callback stops the others
  (TCPConnection.py:375-376 and 388-389); callback exceptions on reads are
  not modelled.
- TCPConnection `__str__`, `_getArgStr` and the BaseSocket name and `repr`
  are left out: they are text for display.
- TkUtil.Constrained takes the screen extent and minimum corner as
  parameters in place of `wm_maxsize` and the platform test.
- TkUtil.DelayMs: the conversion of seconds to milliseconds is stated only
  for non-negative delays.
- TkUtil.FromTkStr: only the error kind is stated for all inputs. Parsing is
  stated as round trips (`FromTkStrOfFormat`, `ToTkStrFixed`) over the
  strings the formatter writes, not for every string the pattern accepts.
- TkUtil.ParseSigned states only the bound on what it consumes. Its value is
  stated by ParseSignedOf for formatted integers.
- TkUtil.SplitExtent states only that the rest is a suffix. Its value is
  stated by SplitExtentOf for formatted extents.
- TkUtil: the widget helpers, colour helpers, `TclFunc` and the windowing
  system queries are left out.
- OSUtil: delDir, expandPath, findFiles, getResourceDir and openUniv are left
  out because they touch the file system. `expandPath` and `fnmatch` are
  parameters.
- OSUtil.SplitPath states only that no component is empty. The order and
  contents are stated by SplitPathLoop, SplitPathOfJoin and the
  SplitPathOf* lemmas.
- MultiDict.Remove: the docstring promises KeyError for a missing key, but
  the code calls `remove` on the None that `get` returns, which raises
  AttributeError. The model follows the code.
- KeyDispatcher.RefreshCmdCallback tests the list of missing keywords; the
  source tests their joined string, which differs only for a single missing
  variable with an empty keyword. That variable is reported here and not
  there.
- TkSocket.Reschedules takes None for the null read callback and does not
  reschedule for it. The source's null callback is a function, so the
  source reschedules whenever data is left; the rescheduled call does
  nothing, so no callback of the model sees a difference.
- The `_nameMatch` docstring says no patterns match everything, but the code
  returns False. The model follows the code.
- ToplevelSet: the Tk parts of Toplevel are left out: geometry events, width
  workarounds and the window title taken from the name. The JSON codec and
  `asBool` are parameters.
- ToplevelSet.ParseLine: a bad state JSON is modelled as no state for that
  line. The printed report is left out.
- ToplevelSet.WriteGeomVisFile states only the line count. The line contents
  and the read-back are stated by WriteNames and WriteThenReadRestoresDesired.
- ToplevelSet.WriteThenReadRestoresDesired requires names without '=' or
  surrounding spaces, geometries without ',' or surrounding spaces, and
  states whose JSON has no surrounding spaces. Other names are not read back
  as written.
- ToplevelSet.makeVisible and printInfo are left out: they only call Tk.
- ListPlus: slice keys are left out; only integer keys are modelled.
- ToplevelSet.EntryOf writes a live window's visibility as "True" or "False".
  The source writes `str` of the integer `getVisible` gets from Tk, "1" or
  "0"; the file is read back through `asBool` either way.
- OptionMenu: the Tk menu, the context menu, the callback list, autoIsCurrent,
  severity, getIndex, index and insert_separator are left out.
- OptionMenu.HelpDict states only its keys. Which text an item gets is stated
  by HelpDictLastWins.
- Presets: the dialogs themselves are left out; only their results are
  modelled.
- MatchList.GetAllMatches states only a bound. Which values match is stated
  by MatchesIn and MatchesOfSetList.
- Presets.GetCurrPreset does not state that user presets are tried before
  standard ones, only that any answer matches.
- StateTracker: trackWdg and trackCheckbutton are left out; they only pick a
  widget's getter and setter for trackItem.

## Findings

| source | as written | input that shows it | evidently intended | confidence | as-written member | corrected member |
|---|---|---|---|---|---|---|
| python/RO/OS/OSUtil.py:265-272 | a path with a trailing '/' splits into one component holding the whole path, because `os.path.split` returns an empty tail and the loop stops | `splitPath("a/b/")` gives `["a/b"]` | `["a", "b"]`, the same as for "a/b" | medium, not executed | `OSUtil.SplitPathWithTrailingSep` | `OSUtil.SplitPathFixedOfJoinWithSep` |
| trunk/ROPackage/python/RO/TkUtil.py:380-420 | `toTkStr` always writes '+' signs: `_signStrFromValue` is given the bool offsetFlipped and tests `val < 0`, which never holds | `Geometry((10, 20), (True, False), None).toTkStr()` gives "+10+20", which parses back unflipped | "-10+20", which parses back to the same geometry | high, not executed | `TkUtil.FlippedGeometryIsLost` | `TkUtil.ToTkStrFixed` |
| trunk/ROPackage/python/RO/TkUtil.py:335-353 | a window is lowered until it ends within the usable extent (screen minus menu bar), measured from 0, so a window that fits can be moved under the menu bar | minCorner 22, screen 800, a 770-pixel window at 30: corner 8 | the window is left at 30, which lies within [22, 800] | low, not executed | `TkUtil.ConstrainAxisUnderMenuBar` | `TkUtil.ConstrainedFixedIsOnScreen` |
| python/RO/Wdg/Toplevel.py:377-383 | a default visibility of False is never recorded, because the test is `if vis:` | defaults `{"w": (None, False)}`: `getDesVisible("w")` is True | False, as the docstring says "None for no default" | high, not executed | `ToplevelSet.New` | `ToplevelSet.NewFixed` |
