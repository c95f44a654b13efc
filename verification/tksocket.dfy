/** `RO.Comm.TkSocket.TCPSocket`: the receive buffer with its `read` and
    `readLine`, the state checks of `write`, and `_basicClose`. The Tcl socket
    itself is not modelled: what it reports is passed in (received data, its
    error status) and what is written to it is collected in `sent`. */
module TkSocket {
  import opened Wrappers
  import opened AddCallback
  import opened BaseSocket

  datatype TcpSocket<C> = TcpSocket(base: Base<C>, buffer: string, sent: string)

  const CR: char := '\r'
  const LF: char := '\n'

  predicate IsLineEnd(c: char)
  {
    c == CR || c == LF
  }

  predicate NoLineEnd(s: string)
  {
    forall i :: 0 <= i < |s| ==> !IsLineEnd(s[i])
  }

  /** The first match of the pattern `\r\n|\r|\n`: its position and length. */
  function FindLineEnd(buf: string): (r: Option<(nat, nat)>)
    ensures r.None? <==> NoLineEnd(buf)
    ensures r.Some? ==> var (i, n) := r.value;
              i < |buf| && IsLineEnd(buf[i]) && NoLineEnd(buf[..i]) && i + n <= |buf| &&
              n == (if buf[i] == CR && i + 1 < |buf| && buf[i + 1] == LF then 2 else 1)
  {
    if buf == [] then None
    else if IsLineEnd(buf[0]) then
      Some((0, if buf[0] == CR && 1 < |buf| && buf[1] == LF then 2 else 1))
    else
      match FindLineEnd(buf[1..])
      case None => None
      case Some((i, n)) =>
        assert buf[..i + 1] == [buf[0]] + buf[1..][..i];
        Some((i + 1, n))
  }

  /** `buf` is a terminator-free `line`, then the first match of
      `\r\n|\r|\n`, then `rest`: a "\r" ends the line alone only when no
      "\n" follows it, since the alternation tries "\r\n" first. */
  predicate LineThenRest(buf: string, line: string, rest: string)
  {
    NoLineEnd(line) &&
    (buf == line + [CR, LF] + rest || buf == line + [LF] + rest ||
     (buf == line + [CR] + rest && (rest == [] || rest[0] != LF)))
  }

  /** The split is at the first line end of the buffer. */
  lemma LineEndAfterLine(buf: string, line: string, rest: string)
    requires LineThenRest(buf, line, rest)
    ensures |line| < |buf| && IsLineEnd(buf[|line|]) && buf[..|line|] == line
    ensures forall k :: 0 <= k < |line| ==> !IsLineEnd(buf[k])
  {
    assert buf[..|line|] == line;
  }

  /** A buffer splits into a line and a rest in at most one way. */
  lemma LineThenRestIsUnique(buf: string, line1: string, rest1: string, line2: string, rest2: string)
    requires LineThenRest(buf, line1, rest1) && LineThenRest(buf, line2, rest2)
    ensures line1 == line2 && rest1 == rest2
  {
    LineEndAfterLine(buf, line1, rest1);
    LineEndAfterLine(buf, line2, rest2);
    assert |line1| == |line2|;
    assert line1 == buf[..|line1|] && line2 == buf[..|line2|];
    var i := |line1|;
    if buf[i] == LF {
      assert rest1 == buf[i + 1..] && rest2 == buf[i + 1..];
    } else if i + 1 < |buf| && buf[i + 1] == LF {
      assert rest1 == buf[i + 2..] && rest2 == buf[i + 2..];
    } else {
      assert rest1 == buf[i + 1..] && rest2 == buf[i + 1..];
    }
  }

  /** `lineEndPattern.split(buffer, 1)` when it finds a terminator: the text
      before it and the text after it. */
  function SplitLine(buf: string): (r: Option<(string, string)>)
    ensures r.None? <==> NoLineEnd(buf)
    ensures r.Some? ==> NoLineEnd(r.value.0)
    ensures r.Some? ==> LineThenRest(buf, r.value.0, r.value.1)
  {
    match FindLineEnd(buf)
    case None => None
    case Some((i, n)) =>
      assert buf == buf[..i] + buf[i..i + n] + buf[i + n..];
      assert if n == 2 then buf[i..i + n] == [CR, LF] else buf[i..i + n] == [buf[i]];
      assert n == 1 && buf[i] == CR && i + 1 < |buf| ==> buf[i + n..][0] != LF;
      Some((buf[..i], buf[i + n..]))
  }

  /** "\r\n" is one terminator: "a\r\nb" splits into "a" and "b". */
  lemma CrLfIsOneTerminator()
    ensures SplitLine("a\r\nb") == Some(("a", "b"))
  {
    assert LineThenRest("a\r\nb", "a", "b");
    var r := SplitLine("a\r\nb");
    LineThenRestIsUnique("a\r\nb", r.value.0, r.value.1, "a", "b");
  }

  /** Whether the read callback is rescheduled: data is left and a read
      callback is set. The source checks `_readCallback`, which always holds a
      function (the null callback at the least), so in the source the test
      reduces to data being left; here `None` stands for the null callback. */
  predicate Reschedules<C>(s: TcpSocket<C>)
  {
    s.buffer != [] && s.base.readCallback.Some?
  }

  /** `readLine`: with no terminator in the buffer, the default and an
      unchanged buffer; otherwise the text before the first terminator, the
      buffer keeping the text after it. The flag says whether the read
      callback was rescheduled. */
  function ReadLine<C>(s: TcpSocket<C>, default: Option<string>): (r: (TcpSocket<C>, Option<string>, bool))
    ensures NoLineEnd(s.buffer) ==> r == (s, default, false)
    ensures !NoLineEnd(s.buffer) ==> r.1.Some? && NoLineEnd(r.1.value) && r.0 == s.(buffer := r.0.buffer)
    ensures !NoLineEnd(s.buffer) ==> LineThenRest(s.buffer, r.1.value, r.0.buffer)
    ensures r.2 == (!NoLineEnd(s.buffer) && Reschedules(r.0))
  {
    match SplitLine(s.buffer)
    case None => (s, default, false)
    case Some((line, rest)) =>
      var s' := s.(buffer := rest);
      (s', Some(line), Reschedules(s'))
  }

  /** `read()` with no count: the whole buffer, leaving it empty. */
  function Read<C>(s: TcpSocket<C>): (r: (TcpSocket<C>, string, bool))
    ensures r.1 == s.buffer && r.0 == s.(buffer := []) && !r.2
  {
    var s' := s.(buffer := []);
    (s', s.buffer, Reschedules(s'))
  }

  /** `_doRead`: data the Tcl socket delivers goes to the end of the buffer,
      then the read callback is called (unless it is the null callback). */
  function DoRead<C>(s: TcpSocket<C>, newData: string): (r: (TcpSocket<C>, seq<C>))
    ensures r.0 == s.(buffer := s.buffer + newData)
    ensures r.1 == (if s.base.readCallback.Some? then [s.base.readCallback.value] else [])
  {
    var buf := if s.buffer == [] then newData else s.buffer + newData;
    assert buf == s.buffer + newData;
    (s.(buffer := buf), if s.base.readCallback.Some? then [s.base.readCallback.value] else [])
  }

  /** `_basicClose`: Closed if the socket was Closing, otherwise Failed. */
  function BasicClose<C>(s: TcpSocket<C>, fails: C -> bool): (r: Result<(TcpSocket<C>, seq<CallRecord<C>>)>)
    ensures s.base.IsDone() <==> r.Err?
    ensures r.Ok? ==> r.value.0.base.state == (if s.base.state == Closing then Closed else Failed)
    ensures r.Ok? ==> r.value.0.base.IsDone() && r.value.0.base.stateCallbacks == []
    ensures r.Ok? && s.base.kind == Socket ==> r.value.0.base.readCallback.None?
    ensures r.Ok? ==> r.value.0.buffer == s.buffer && r.value.0.sent == s.sent
  {
    var target := if s.base.state == Closing then Closed else Failed;
    match SetState(s.base, target, None, fails)
    case Err(e) => Err(e)
    case Ok((b, trace)) => Ok((s.(base := b), trace))
  }

  /** `close`: a no-op once done; otherwise Closing (or Failing), then
      `_basicClose` makes it Closed (or Failed). Callbacks are notified of both
      changes and then cleared. */
  function Close<C>(s: TcpSocket<C>, isOK: bool, reason: Option<string>, fails: C -> bool): (r: (TcpSocket<C>, seq<CallRecord<C>>))
    ensures s.base.IsDone() ==> r == (s, [])
    ensures !s.base.IsDone() ==> r.0.base.state == (if isOK then Closed else Failed)
    ensures !s.base.IsDone() ==> r.0.base.reason == (if reason.Some? then reason.value else s.base.reason)
    ensures !s.base.IsDone() ==> r.1 == Notify(s.base.stateCallbacks, fails) + Notify(s.base.stateCallbacks, fails)
    ensures !s.base.IsDone() ==> r.0.base.stateCallbacks == [] && r.0.buffer == s.buffer
  {
    if s.base.IsDone() then (s, [])
    else
      var (b1, t1) := StartClose(s.base, isOK, reason, fails);
      var (s2, t2) := BasicClose(s.(base := b1), fails).value;
      (s2, t1 + t2)
  }

  /** Closing twice is closing once. */
  lemma CloseIdempotent<C>(s: TcpSocket<C>, isOK: bool, reason: Option<string>, isOK2: bool, reason2: Option<string>, fails: C -> bool)
    ensures var (s1, _) := Close(s, isOK, reason, fails);
            s1.base.IsDone() && Close(s1, isOK2, reason2, fails) == (s1, [])
  {
  }

  /** `_checkSocket`, with the Tcl socket's `(isOK, errStr)` status passed in:
      False when done; on an error, close and return False. */
  function CheckSocket<C>(s: TcpSocket<C>, status: (bool, string), fails: C -> bool): (r: (TcpSocket<C>, bool, seq<CallRecord<C>>))
    ensures s.base.IsDone() ==> r == (s, false, [])
    ensures !s.base.IsDone() && status.1 == [] ==> r == (s, true, [])
    ensures !s.base.IsDone() && status.1 != [] ==> !r.1 && r.0.base.IsDone() && r.0.base.reason == status.1
    ensures !s.base.IsDone() && status.1 != [] ==> r.0.base.state == (if status.0 then Closed else Failed)
    ensures !s.base.IsDone() && status.1 != [] ==> r.2 == Notify(s.base.stateCallbacks, fails) + Notify(s.base.stateCallbacks, fails)
    ensures r.0.buffer == s.buffer && r.0.sent == s.sent
  {
    if s.base.IsDone() then (s, false, [])
    else if status.1 != [] then
      var (s', trace) := Close(s, status.0, Some(status.1), fails);
      (s', false, trace)
    else (s, true, [])
  }

  /** Once `_checkSocket` has reported False, checking again reports False
      and changes nothing, whatever the Tcl socket says. */
  lemma CheckSocketSettles<C>(s: TcpSocket<C>, status: (bool, string), status2: (bool, string), fails: C -> bool)
    requires !CheckSocket(s, status, fails).1
    ensures var s1 := CheckSocket(s, status, fails).0;
            CheckSocket(s1, status2, fails) == (s1, false, [])
  {
  }

  /** `write`: RuntimeError unless Connecting or Connected; otherwise the data
      is handed to the Tcl socket, whose status is then checked (a bad status
      closes the socket and raises RuntimeError). */
  function Write<C>(s: TcpSocket<C>, data: string, status: (bool, string), fails: C -> bool): (r: Outcome<(TcpSocket<C>, seq<CallRecord<C>>)>)
    ensures s.base.state !in {Connected, Connecting} ==> r == Outcome((s, []), Some(RuntimeError))
    ensures s.base.state in {Connected, Connecting} ==> r.value.0.sent == s.sent + data
    ensures s.base.state in {Connected, Connecting} ==> (r.raised.None? <==> status.1 == [])
    ensures s.base.state in {Connected, Connecting} && status.1 == [] ==> r.value == (s.(sent := s.sent + data), [])
  {
    if s.base.state !in {Connected, Connecting} then Outcome((s, []), Some(RuntimeError))
    else
      var (s', ok, trace) := CheckSocket(s.(sent := s.sent + data), status, fails);
      Outcome((s', trace), if ok then None else Some(RuntimeError))
  }

  /** `writeLine`: `write(data + "\r\n")`. */
  function WriteLine<C>(s: TcpSocket<C>, data: string, status: (bool, string), fails: C -> bool): (r: Outcome<(TcpSocket<C>, seq<CallRecord<C>>)>)
    ensures s.base.state in {Connected, Connecting} ==> r.value.0.sent == s.sent + data + [CR, LF]
    ensures r == Write(s, data + [CR, LF], status, fails)
  {
    Write(s, data + [CR, LF], status, fails)
  }

  /** A line written with `writeLine` and received into an empty buffer is
      read back by `readLine`, and whatever arrived after it stays buffered. */
  lemma LineRoundTrip<C>(s: TcpSocket<C>, line: string, rest: string, default: Option<string>)
    requires s.buffer == [] && NoLineEnd(line)
    ensures var (s1, _) := DoRead(s, line + [CR, LF] + rest);
            var (s2, got, _) := ReadLine(s1, default);
            got == Some(line) && s2.buffer == rest
  {
    var s1 := DoRead(s, line + [CR, LF] + rest).0;
    assert s1.buffer == line + [CR, LF] + rest;
    ReadLineOf(s1, line, [CR, LF], rest, default);
  }

  lemma FindLineEndAt(line: string, tail: string)
    requires NoLineEnd(line) && tail != [] && IsLineEnd(tail[0])
    ensures FindLineEnd(line + tail) == Some((|line|, if tail[0] == CR && 1 < |tail| && tail[1] == LF then 2 else 1))
    decreases |line|
  {
    if line == [] {
      assert line + tail == tail;
    } else {
      assert (line + tail)[1..] == line[1..] + tail;
      FindLineEndAt(line[1..], tail);
    }
  }

  /** `readLine` on a buffer holding a complete line ended by "\n" or "\r\n". */
  lemma ReadLineOf<C>(s: TcpSocket<C>, line: string, term: string, rest: string, default: Option<string>)
    requires NoLineEnd(line) && (term == [LF] || term == [CR, LF])
    requires s.buffer == line + term + rest
    ensures !NoLineEnd(s.buffer)
    ensures ReadLine(s, default).1 == Some(line) && ReadLine(s, default).0.buffer == rest
  {
    assert s.buffer == line + (term + rest);
    assert IsLineEnd(s.buffer[|line|]);
    FindLineEndAt(line, term + rest);
    assert s.buffer[|line| + |term|..] == rest;
  }

  /** Writing `a + "\n" + b` as one line and receiving it back reads back as
      the two lines `a` and `b`, and leaves the buffer empty. */
  lemma EchoSplitsLines<C>(s: TcpSocket<C>, a: string, b: string, fails: C -> bool)
    requires s.base.state == Connected && s.buffer == [] && s.sent == []
    requires NoLineEnd(a) && NoLineEnd(b)
    ensures var w := WriteLine(s, a + [LF] + b, (true, ""), fails).value.0;
            var r1 := DoRead(w, w.sent).0;
            var (r2, l1, _) := ReadLine(r1, None);
            var (r3, l2, _) := ReadLine(r2, None);
            l1 == Some(a) && l2 == Some(b) && r3.buffer == []
  {
    var w := WriteLine(s, a + [LF] + b, (true, ""), fails).value.0;
    assert w.sent == a + [LF] + b + [CR, LF];
    var r1 := DoRead(w, w.sent).0;
    assert r1.buffer == a + [LF] + (b + [CR, LF]) by {
      assert r1.buffer == [] + w.sent;
    }
    ReadLineOf(r1, a, [LF], b + [CR, LF], None);
    var r2 := ReadLine(r1, None).0;
    assert r2.buffer == b + [CR, LF] + [];
    ReadLineOf(r2, b, [CR, LF], [], None);
  }

  /** Writing `a` and then the line `b` reads back as the single line `a + b`. */
  lemma EchoJoinsWrites<C>(s: TcpSocket<C>, a: string, b: string, fails: C -> bool)
    requires s.base.state == Connected && s.buffer == [] && s.sent == []
    requires NoLineEnd(a) && NoLineEnd(b)
    ensures var w1 := Write(s, a, (true, ""), fails).value.0;
            var w2 := WriteLine(w1, b, (true, ""), fails).value.0;
            var r1 := DoRead(w2, w2.sent).0;
            var (r2, l1, _) := ReadLine(r1, None);
            l1 == Some(a + b) && r2.buffer == []
  {
    var w1 := Write(s, a, (true, ""), fails).value.0;
    var w2 := WriteLine(w1, b, (true, ""), fails).value.0;
    assert w2.sent == a + b + [CR, LF];
    var r1 := DoRead(w2, w2.sent).0;
    assert r1.buffer == a + b + [CR, LF] + [];
    assert NoLineEnd(a + b) by {
      forall i | 0 <= i < |a + b| ensures !IsLineEnd((a + b)[i]) {
        if i >= |a| { assert (a + b)[i] == b[i - |a|]; }
      }
    }
    ReadLineOf(r1, a + b, [CR, LF], [], None);
  }
}
