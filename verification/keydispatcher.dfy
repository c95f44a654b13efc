/** The keyword dispatcher of `RO.KeyDispatcher`: it issues commands to the
    hub under fresh command IDs, routes replies back to their commands,
    retires, aborts and times out commands, and hands the keyword data of
    every message to the keyword variables registered for its
    (actor, keyword). Timers are explicit fields and each timer callback is
    a step; the clock is a parameter. */
module KeyDispatcher {
  import opened Wrappers
  import opened StrUtil
  import opened Sorting
  import opened SeqUtil

  /** User command IDs run 1..CmdNumWrap and refresh command IDs
      CmdNumWrap+1..2*CmdNumWrap; each range wraps around. */
  const CmdNumWrap: int := 1000

  /** Time limit of a refresh command, in seconds. */
  const RefreshTimeLim: nat := 20

  /** The message types that finish a command, and those that fail it. */
  const DoneTypes: set<char> := {':', 'f', '!'}
  const FailTypes: set<char> := {'f', '!'}

  // ---------------------------------------------------------------------
  // Command IDs

  /** `RO.Alg.IDGen`: a counter over [lo, hi] that wraps from hi back to lo. */
  datatype IdGen = IdGen(lo: int, hi: int, cur: int)
  {
    predicate Valid()
    {
      lo <= cur <= hi
    }

    /** The ID after `x`, wrapping. */
    function Succ(x: int): int
    {
      if x == hi then lo else x + 1
    }

    /** The ID `k` calls of `next` from now will return. */
    function Ahead(k: nat): (id: int)
      requires Valid()
      ensures lo <= id <= hi
    {
      if k == 0 then cur else Succ(Ahead(k - 1))
    }

    /** `next()`: the current ID, and the counter moved on by one. */
    function Next(): (r: (int, IdGen))
      requires Valid()
      ensures r.0 == Ahead(0) && r.1.Valid() && r.1.lo == lo && r.1.hi == hi
      ensures r.1.cur == Ahead(1)
    {
      (cur, this.(cur := Succ(cur)))
    }
  }

  /** Below the top of the range the counter simply counts up. */
  lemma {:induction false} AheadCountsUp(g: IdGen, k: nat)
    requires g.Valid() && k <= g.hi - g.cur
    ensures g.Ahead(k) == g.cur + k
  {
    if k > 0 {
      AheadCountsUp(g, k - 1);
    }
  }

  /** After passing the top it continues from the bottom. */
  lemma {:induction false} AheadWraps(g: IdGen, j: nat)
    requires g.Valid() && j <= g.cur - g.lo
    ensures g.Ahead(g.hi - g.cur + 1 + j) == g.lo + j
  {
    if j == 0 {
      AheadCountsUp(g, g.hi - g.cur);
    } else {
      AheadWraps(g, j - 1);
    }
  }

  /** Every ID of the range comes up within one lap. */
  lemma ReachesEveryId(g: IdGen, x: int) returns (n: nat)
    requires g.Valid() && g.lo <= x <= g.hi
    ensures n <= g.hi - g.lo && g.Ahead(n) == x
  {
    if x >= g.cur {
      n := x - g.cur;
      AheadCountsUp(g, n);
    } else {
      n := g.hi - g.cur + 1 + (x - g.lo);
      AheadWraps(g, x - g.lo);
    }
  }

  /** Some ID of the counter's range is not in use. */
  predicate HasFreeId<V>(g: IdGen, table: map<int, V>)
  {
    exists i :: g.lo <= i <= g.hi && i !in table
  }

  /** The loop of `executeCmd` that draws IDs until one is not in use: the
      ID is the first free one in the counter's order, the `skipped` IDs
      before it are all in use, and the counter stops just after it. */
  method AllocId<V>(gen: IdGen, table: map<int, V>) returns (id: int, skipped: nat, gen': IdGen)
    requires gen.Valid() && HasFreeId(gen, table)
    ensures gen.lo <= id <= gen.hi && id !in table
    ensures id == gen.Ahead(skipped)
    ensures forall k :: 0 <= k < skipped ==> gen.Ahead(k) in table
    ensures gen'.Valid() && gen'.lo == gen.lo && gen'.hi == gen.hi && gen'.cur == gen.Ahead(skipped + 1)
  {
    var free :| gen.lo <= free <= gen.hi && free !in table;
    ghost var bound := ReachesEveryId(gen, free);
    skipped := 0;
    var r := gen.Next();
    id, gen' := r.0, r.1;
    while id in table
      invariant gen'.Valid() && gen'.lo == gen.lo && gen'.hi == gen.hi
      invariant id == gen.Ahead(skipped) && gen'.cur == gen.Ahead(skipped + 1)
      invariant forall k :: 0 <= k < skipped ==> gen.Ahead(k) in table
      invariant skipped <= bound
      decreases bound - skipped
    {
      skipped := skipped + 1;
      r := gen'.Next();
      id, gen' := r.0, r.1;
    }
  }

  // ---------------------------------------------------------------------
  // Keyword variables, messages and commands

  /** The (actor, command string) of a refresh command. */
  type RefreshInfo = (string, string)

  /** A keyword variable; `uid` stands for its object identity. */
  datatype KeyVar = KeyVar(uid: nat, actor: string, keyword: string, refreshInfo: Option<RefreshInfo>)
  {
    predicate HasRefreshCmd()
    {
      refreshInfo.Some?
    }
  }

  /** A parsed hub message: the header fields, the keyword data in the order
      the dict yields it, and the full text. */
  datatype Msg = Msg(cmdr: string, cmdID: int, actor: string, msgType: char,
                     data: seq<(string, seq<string>)>, msgStr: string)

  /** A command variable: what to send, when it must end (0 for no limit),
      its ID once issued, and the replies delivered to it. */
  datatype CmdVar = CmdVar(actor: string, cmdStr: string, timeLim: nat, abortCmdStr: string, isRefresh: bool,
                           cmdID: Option<int>, maxEndTime: int, done: bool, failed: bool, replies: seq<Msg>)
  {
    /** `reply`: the message is delivered; the first message of a done
        type makes the command done, and failed if that type fails it. */
    function Reply(msg: Msg): (c: CmdVar)
      ensures c.replies == replies + [msg]
      ensures c.done <==> done || msg.msgType in DoneTypes
      ensures c.failed <==> failed || (!done && msg.msgType in FailTypes)
      ensures c.cmdID == cmdID && c.abortCmdStr == abortCmdStr && c.isRefresh == isRefresh && c.maxEndTime == maxEndTime
    {
      this.(replies := replies + [msg],
            done := done || msg.msgType in DoneTypes,
            failed := failed || (!done && msg.msgType in FailTypes))
    }
  }

  /** A command as its creator builds it, not yet issued. */
  function NewCmd(actor: string, cmdStr: string, timeLim: nat, abortCmdStr: string, isRefresh: bool): CmdVar
  {
    CmdVar(actor, cmdStr, timeLim, abortCmdStr, isRefresh, None, 0, false, false, [])
  }

  /** What the dispatcher does outside its own state. */
  datatype Event =
    | Wrote(line: string)                                   // a line written to the connection
    | Logged(msgStr: string)                                // a message given to the log function
    | StdErr(text: string)                                  // a complaint written to stderr
    | KeyVarSet(keyVar: KeyVar, values: seq<string>, msg: Msg)
    | KeyVarNotCurrent(keyVar: KeyVar)

  /** Events that only reach the connection, the log or stderr, and no
      keyword variable. */
  predicate Outward(events: seq<Event>)
  {
    forall i :: 0 <= i < |events| ==> events[i].Wrote? || events[i].Logged? || events[i].StdErr?
  }

  /** Command objects are identified by a number. */
  type Uid = nat

  /** Every command object (`cmds`), the pending ones by command ID
      (`cmdDict`), and the two ID counters. */
  datatype CmdTable = CmdTable(cmds: map<Uid, CmdVar>, nextUid: Uid, cmdDict: map<int, Uid>,
                               userCmdIDGen: IdGen, refreshCmdIDGen: IdGen)
  {
    /** The counters cover their ranges, every table entry is a known
        command that carries that ID, and new objects get new numbers. */
    predicate Valid()
    {
      userCmdIDGen.Valid() && userCmdIDGen.lo == 1 && userCmdIDGen.hi == CmdNumWrap &&
      refreshCmdIDGen.Valid() && refreshCmdIDGen.lo == CmdNumWrap + 1 && refreshCmdIDGen.hi == 2 * CmdNumWrap &&
      (forall u :: u in cmds ==> u < nextUid) &&
      (forall id :: id in cmdDict ==> cmdDict[id] in cmds && cmds[cmdDict[id]].cmdID == Some(id))
    }

    /** The counter a command draws its ID from. */
    function GenFor(isRefresh: bool): IdGen
    {
      if isRefresh then refreshCmdIDGen else userCmdIDGen
    }

    /** Whether command `u` still counts as pending, judged as the timeout
        scan judges it: by whether its ID is in the table. */
    predicate Pending(u: Uid)
      requires u in cmds
    {
      cmds[u].cmdID.Some? && cmds[u].cmdID.value in cmdDict
    }
  }

  /** The dispatcher: its name and commander, the connection state, the
      keyword-variable index by (actor, lower-case keyword), the refresh
      commands with the variables they refresh, the command table, and the
      four timers (the pending argument of each, or None when it is not
      running). */
  datatype Dispatcher = Dispatcher(
    name: string,
    cmdr: string,
    connected: bool,
    keyVarListDict: map<(string, string), seq<KeyVar>>,
    refreshCmdDict: map<RefreshInfo, set<KeyVar>>,
    table: CmdTable,
    checkCmdTimer: bool,
    checkRemCmdTimer: Option<seq<Uid>>,
    refreshAllTimer: Option<bool>,
    refreshNextTimer: Option<seq<(RefreshInfo, set<KeyVar>)>>)
  {
    predicate Valid()
    {
      table.Valid()
    }
  }

  /** The dispatcher as constructed, before its first refresh and timeout
      passes. */
  function New(name: string, cmdr: string, connected: bool): (d: Dispatcher)
    ensures d.Valid() && d.table.cmdDict == map[] && d.keyVarListDict == map[] && d.refreshCmdDict == map[]
    ensures d.table.userCmdIDGen.cur == 1 && d.table.refreshCmdIDGen.cur == CmdNumWrap + 1
  {
    Dispatcher(name, cmdr, connected, map[], map[],
               CmdTable(map[], 0, map[], IdGen(1, CmdNumWrap, 1), IdGen(CmdNumWrap + 1, 2 * CmdNumWrap, CmdNumWrap + 1)),
               false, None, None, None)
  }

  /** Python's `%r` of a string without quotes or backslashes. */
  function Repr(s: string): string
  {
    "'" + s + "'"
  }

  /** `makeMsgDict`: a failure message from this dispatcher about `cmdID`;
      the data string is kept as text. */
  function MakeMsgDict(d: Dispatcher, cmdID: int, dataStr: string): (m: Msg)
    ensures m.msgType in DoneTypes && m.msgType in FailTypes
    ensures m.cmdr == d.cmdr && m.cmdID == cmdID && m.actor == d.name && m.data == []
    ensures EndsWith(m.msgStr, dataStr)
  {
    var header := d.cmdr + " " + IntToString(cmdID) + " " + d.name + " f";
    var msgStr := header + " " + dataStr;
    assert msgStr[|msgStr| - |dataStr|..] == dataStr;
    Msg(d.cmdr, cmdID, d.name, 'f', [], msgStr)
  }

  /** A message made by `makeMsgDict` ends the command it is delivered to,
      as a failure unless the command had already ended. */
  lemma MadeMsgEndsCmd(d: Dispatcher, c: CmdVar, cmdID: int, dataStr: string)
    ensures c.Reply(MakeMsgDict(d, cmdID, dataStr)).done
    ensures !c.done ==> c.Reply(MakeMsgDict(d, cmdID, dataStr)).failed
    ensures c.Reply(MakeMsgDict(d, cmdID, dataStr)).replies[|c.replies|].cmdID == cmdID
  {
  }

  // ---------------------------------------------------------------------
  // Replies

  /** `_replyCmdVar`: deliver the message (logging it if asked); a command
      the message leaves done is removed from the table under its ID, and a
      missing entry is reported on stderr, never raised. */
  function ReplyCmdVar(t: CmdTable, u: Uid, msg: Msg, doLog: bool): (r: (CmdTable, seq<Event>))
    requires u in t.cmds
    ensures r.0.cmds == t.cmds[u := t.cmds[u].Reply(msg)]
    ensures var c := r.0.cmds[u];
            r.0.cmdDict == if c.done && c.cmdID.Some? then t.cmdDict - {c.cmdID.value} else t.cmdDict
    ensures r.0 == t.(cmds := r.0.cmds, cmdDict := r.0.cmdDict)
    ensures doLog ==> |r.1| >= 1 && r.1[0] == Logged(msg.msgStr)
    ensures forall i :: (if doLog then 1 else 0) <= i < |r.1| ==> r.1[i].StdErr?
    ensures var c := r.0.cmds[u];
            (exists i :: 0 <= i < |r.1| && r.1[i].StdErr?) <==> c.done && c.cmdID.Some? && c.cmdID.value !in t.cmdDict
    ensures var c := r.0.cmds[u];
            |r.1| == (if doLog then 1 else 0) + (if c.done && c.cmdID.Some? && c.cmdID.value !in t.cmdDict then 1 else 0)
  {
    var logs := if doLog then [Logged(msg.msgStr)] else [];
    var c := t.cmds[u].Reply(msg);
    var t1 := t.(cmds := t.cmds[u := c]);
    if c.done && c.cmdID.Some? then
      if c.cmdID.value in t.cmdDict then
        (t1.(cmdDict := t.cmdDict - {c.cmdID.value}), logs)
      else
        var out := logs + [StdErr("KeyDispatcher bug: tried to delete cmd " + IntToString(c.cmdID.value) + " but it was missing")];
        assert out[|out| - 1].StdErr?;
        (t1, out)
    else
      (t1, logs)
  }

  /** A reply keeps the table valid: it only removes entries. */
  lemma ReplyKeepsValid(t: CmdTable, u: Uid, msg: Msg, doLog: bool)
    requires t.Valid() && u in t.cmds
    ensures ReplyCmdVar(t, u, msg, doLog).0.Valid()
  {
    var r := ReplyCmdVar(t, u, msg, doLog).0;
    forall id | id in r.cmdDict
      ensures r.cmdDict[id] in r.cmds && r.cmds[r.cmdDict[id]].cmdID == Some(id)
    {
      assert id in t.cmdDict && r.cmdDict[id] == t.cmdDict[id];
    }
  }

  // ---------------------------------------------------------------------
  // Issuing commands

  /** The line `executeCmd` writes for an issued command. */
  function CmdLine(id: int, c: CmdVar): string
  {
    IntToString(id) + " " + c.actor + " " + c.cmdStr
  }

  /** The failure delivered to a command issued while disconnected. */
  function NotConnectedMsg(d: Dispatcher, c: CmdVar): Msg
  {
    MakeMsgDict(d, 0, "Failed; Actor=" + Repr(c.actor) + "; Cmd=" + Repr(c.cmdStr) + "; Text=\"not connected\"")
  }

  /** The failure delivered to a command whose line could not be written. */
  function WriteFailedMsg(d: Dispatcher, id: int, c: CmdVar, err: string): Msg
  {
    MakeMsgDict(d, id, "WriteFailed; Actor=" + Repr(c.actor) + "; Cmd=" + Repr(c.cmdStr) + "; Text=" + Repr(err))
  }

  /** `executeCmd` while disconnected: the command, a new object, gets an
      immediate "not connected" failure; a command that was never issued
      does not touch the table. */
  function RejectCmd(t: CmdTable, cmd: CmdVar, msg: Msg): (r: (CmdTable, Uid, seq<Event>))
    requires t.Valid() && msg.msgType in DoneTypes
    ensures r.0.Valid() && r.1 == t.nextUid && r.0.nextUid == t.nextUid + 1
    ensures r.0.cmds == t.cmds[r.1 := cmd.Reply(msg)]
    ensures r.0 == t.(cmds := r.0.cmds, nextUid := r.0.nextUid, cmdDict := r.0.cmdDict)
    ensures cmd.cmdID.None? ==> r.0.cmdDict == t.cmdDict && r.2 == [Logged(msg.msgStr)]
    ensures Outward(r.2)
  {
    var uid := t.nextUid;
    var t1 := t.(cmds := t.cmds[uid := cmd], nextUid := uid + 1);
    assert t1.Valid();
    ReplyKeepsValid(t1, uid, msg, true);
    var rr := ReplyCmdVar(t1, uid, msg, true);
    assert cmd.cmdID.None? ==> |rr.1| == 1;
    (rr.0, uid, rr.1)
  }

  /** The command as `_setStartInfo` leaves it: it carries its ID and, if
      it has a time limit, the time by which it must end. */
  function Started(cmd: CmdVar, id: int, now: int): (c: CmdVar)
    ensures c.cmdID == Some(id) && c.replies == cmd.replies && c.done == cmd.done
    ensures c.actor == cmd.actor && c.cmdStr == cmd.cmdStr && c.isRefresh == cmd.isRefresh && c.timeLim == cmd.timeLim
    ensures cmd.timeLim > 0 ==> c.maxEndTime == now + cmd.timeLim
    ensures cmd.timeLim == 0 ==> c.maxEndTime == 0
  {
    cmd.(cmdID := Some(id), maxEndTime := if cmd.timeLim > 0 then now + cmd.timeLim else 0)
  }

  /** The command enters the table under a free `id`, and the counter it
      drew from moves on. */
  function EnterCmd(t: CmdTable, cmd: CmdVar, id: int, gen': IdGen, now: int): (r: (CmdTable, Uid))
    requires t.Valid() && id !in t.cmdDict
    requires gen'.Valid() && gen'.lo == t.GenFor(cmd.isRefresh).lo && gen'.hi == t.GenFor(cmd.isRefresh).hi
    ensures r.0.Valid() && r.1 == t.nextUid && r.0.nextUid == t.nextUid + 1
    ensures r.0.cmds == t.cmds[r.1 := Started(cmd, id, now)]
    ensures r.0.cmdDict == t.cmdDict[id := r.1]
    ensures r.0.GenFor(cmd.isRefresh) == gen' && r.0.GenFor(!cmd.isRefresh) == t.GenFor(!cmd.isRefresh)
  {
    var uid := t.nextUid;
    var t1 := t.(cmds := t.cmds[uid := Started(cmd, id, now)], nextUid := uid + 1, cmdDict := t.cmdDict[id := uid]);
    (if cmd.isRefresh then t1.(refreshCmdIDGen := gen') else t1.(userCmdIDGen := gen'), uid)
  }

  /** A free ID from the range of a user or refresh command. */
  method AllocCmdId(t: CmdTable, isRefresh: bool) returns (id: int, gen': IdGen)
    requires t.Valid() && HasFreeId(t.GenFor(isRefresh), t.cmdDict)
    ensures id !in t.cmdDict
    ensures if isRefresh then CmdNumWrap < id <= 2 * CmdNumWrap else 1 <= id <= CmdNumWrap
    ensures gen'.Valid() && gen'.lo == t.GenFor(isRefresh).lo && gen'.hi == t.GenFor(isRefresh).hi
  {
    var skipped;
    id, skipped, gen' := AllocId(t.GenFor(isRefresh), t.cmdDict);
  }

  /** After the command entered the table as `uid`: its line is written,
      or, if the write fails, it gets a failure reply and leaves the table
      again. */
  function WriteCmd(t: CmdTable, uid: Uid, id: int, line: string, failure: Msg, writeError: Option<string>): (r: (CmdTable, seq<Event>))
    requires t.Valid() && uid in t.cmds && id in t.cmdDict && t.cmdDict[id] == uid
    requires failure.msgType in DoneTypes
    ensures r.0.Valid()
    ensures r.0 == t.(cmds := r.0.cmds, cmdDict := r.0.cmdDict)
    ensures writeError.None? ==> r.0 == t && r.1 == [Wrote(line)]
    ensures Outward(r.1)
    ensures writeError.Some? ==> r.0.cmds == t.cmds[uid := t.cmds[uid].Reply(failure)] &&
                                 r.0.cmdDict == t.cmdDict - {id}
    ensures writeError.Some? ==> r.1 == [Logged(failure.msgStr)]
  {
    if writeError.None? then (t, [Wrote(line)])
    else
      ReplyKeepsValid(t, uid, failure, true);
      ReplyCmdVar(t, uid, failure, true)
  }

  /** `executeCmd` while connected: the command, a new object, gets the
      first free ID of its range (user or refresh), enters the table under
      it and its line is written; if the write fails it gets a failure reply
      and leaves the table again. */
  method IssueCmd(d: Dispatcher, cmd: CmdVar, now: int, writeError: Option<string>) returns (t: CmdTable, uid: Uid, id: int, events: seq<Event>)
    requires d.Valid() && HasFreeId(d.table.GenFor(cmd.isRefresh), d.table.cmdDict)
    ensures t.Valid() && Outward(events)
    ensures uid == d.table.nextUid && t.nextUid == d.table.nextUid + 1
    ensures id !in d.table.cmdDict
    ensures if cmd.isRefresh then CmdNumWrap < id <= 2 * CmdNumWrap else 1 <= id <= CmdNumWrap
    ensures t.GenFor(!cmd.isRefresh) == d.table.GenFor(!cmd.isRefresh)
    ensures writeError.None? ==> t.cmds == d.table.cmds[uid := Started(cmd, id, now)] &&
                                 t.cmdDict == d.table.cmdDict[id := uid] && events == [Wrote(CmdLine(id, cmd))]
    ensures writeError.Some? ==> t.cmds == d.table.cmds[uid := Started(cmd, id, now).Reply(WriteFailedMsg(d, id, cmd, writeError.value))] &&
                                 t.cmdDict == d.table.cmdDict
    ensures writeError.Some? ==> events == [Logged(WriteFailedMsg(d, id, cmd, writeError.value).msgStr)]
  {
    var gen';
    id, gen' := AllocCmdId(d.table, cmd.isRefresh);
    var e := EnterCmd(d.table, cmd, id, gen', now);
    uid := e.1;
    var failure := WriteFailedMsg(d, id, cmd, if writeError.Some? then writeError.value else "");
    var w := WriteCmd(e.0, uid, id, CmdLine(id, cmd), failure, writeError);
    t, events := w.0, w.1;
    if writeError.Some? {
      assert t.cmdDict == d.table.cmdDict by {
        assert e.0.cmdDict - {id} == d.table.cmdDict;
      }
    }
  }

  /** `executeCmd`: rejected while disconnected, issued while connected.
      The ID loop only ends if the command's range has a free ID. */
  method ExecuteCmd(d: Dispatcher, cmd: CmdVar, now: int, writeError: Option<string>) returns (r: Dispatcher, uid: Uid, events: seq<Event>)
    requires d.Valid()
    requires d.connected ==> HasFreeId(d.table.GenFor(cmd.isRefresh), d.table.cmdDict)
    ensures r.Valid() && r == d.(table := r.table) && Outward(events)
    ensures uid == d.table.nextUid && r.table.nextUid == d.table.nextUid + 1
    ensures uid in r.table.cmds && r.table.cmds == d.table.cmds[uid := r.table.cmds[uid]]
    ensures var c := r.table.cmds[uid];
            c.actor == cmd.actor && c.cmdStr == cmd.cmdStr && c.isRefresh == cmd.isRefresh && c.timeLim == cmd.timeLim
    ensures !d.connected ==>
              r.table.cmds[uid] == cmd.Reply(NotConnectedMsg(d, cmd)) &&
              (cmd.cmdID.None? ==> r.table.cmdDict == d.table.cmdDict && events == [Logged(NotConnectedMsg(d, cmd).msgStr)])
    ensures d.connected ==>
              r.table.cmds[uid].cmdID.Some? &&
              var id := r.table.cmds[uid].cmdID.value;
              id !in d.table.cmdDict &&
              (if cmd.isRefresh then CmdNumWrap < id <= 2 * CmdNumWrap else 1 <= id <= CmdNumWrap) &&
              (writeError.None? ==> r.table.cmdDict == d.table.cmdDict[id := uid] && events == [Wrote(CmdLine(id, cmd))]) &&
              (writeError.Some? ==> r.table.cmdDict == d.table.cmdDict && r.table.cmds[uid].done &&
                                    events == [Logged(WriteFailedMsg(d, id, cmd, writeError.value).msgStr)])
  {
    var t;
    if !d.connected {
      var rr := RejectCmd(d.table, cmd, NotConnectedMsg(d, cmd));
      t, uid, events := rr.0, rr.1, rr.2;
    } else {
      var id;
      t, uid, id, events := IssueCmd(d, cmd, now, writeError);
    }
    r := d.(table := t);
  }

  // ---------------------------------------------------------------------
  // Dispatching messages

  /** The key a keyword variable is indexed under. */
  function KeyOf(kv: KeyVar): (string, string)
  {
    (kv.actor, Lower(kv.keyword))
  }

  /** The variables registered under `key`, in the order they were added. */
  function Listed(d: Dispatcher, key: (string, string)): seq<KeyVar>
  {
    if key in d.keyVarListDict then d.keyVarListDict[key] else []
  }

  /** The actor whose keywords a message sets: `keys.X` counts as `X`. */
  function KeyActor(actor: string): (k: string)
    ensures StartsWith(actor, "keys.") ==> actor == "keys." + k
    ensures !StartsWith(actor, "keys.") ==> k == actor
  {
    if StartsWith(actor, "keys.") then actor[5..] else actor
  }

  /** The `set` calls for one keyword: every variable registered under it,
      in order, each followed by a traceback on stderr if its `set` raises. */
  function SetOne(kvs: seq<KeyVar>, values: seq<string>, msg: Msg, setFails: KeyVar -> bool): (r: seq<Event>)
    ensures forall kv :: kv in kvs ==> KeyVarSet(kv, values, msg) in r
    ensures forall i :: 0 <= i < |r| ==> (r[i].KeyVarSet? && r[i].keyVar in kvs && r[i].values == values && r[i].msg == msg) || r[i].StdErr?
    decreases |kvs|
  {
    if kvs == [] then []
    else
      [KeyVarSet(kvs[0], values, msg)] + (if setFails(kvs[0]) then [StdErr("Traceback")] else []) +
      SetOne(kvs[1..], values, msg, setFails)
  }

  /** The `set` calls `dispatch` makes for the keywords of a message, in the
      order of its data. */
  function SetCalls(d: Dispatcher, keyActor: string, data: seq<(string, seq<string>)>, msg: Msg, setFails: KeyVar -> bool): (r: seq<Event>)
    ensures forall j, kv :: 0 <= j < |data| && kv in Listed(d, (keyActor, Lower(data[j].0))) ==> KeyVarSet(kv, data[j].1, msg) in r
    ensures forall i :: 0 <= i < |r| ==> r[i].StdErr? || (r[i].KeyVarSet? && r[i].msg == msg)
    decreases |data|
  {
    if data == [] then []
    else
      var n := |data| - 1;
      var front := SetCalls(d, keyActor, data[..n], msg, setFails);
      var last := SetOne(Listed(d, (keyActor, Lower(data[n].0))), data[n].1, msg, setFails);
      assert forall j :: 0 <= j < n ==> data[..n][j] == data[j];
      front + last
  }

  /** Only registered variables are set, each with the values of a keyword
      of the message it is registered under. */
  lemma {:induction false} SetCallsSound(d: Dispatcher, keyActor: string, data: seq<(string, seq<string>)>, msg: Msg,
                                         setFails: KeyVar -> bool, i: nat)
    requires i < |SetCalls(d, keyActor, data, msg, setFails)|
    requires SetCalls(d, keyActor, data, msg, setFails)[i].KeyVarSet?
    ensures var e := SetCalls(d, keyActor, data, msg, setFails)[i];
            exists j :: 0 <= j < |data| && e.keyVar in Listed(d, (keyActor, Lower(data[j].0))) && e.values == data[j].1
    decreases |data|
  {
    var n := |data| - 1;
    var front := SetCalls(d, keyActor, data[..n], msg, setFails);
    var last := SetOne(Listed(d, (keyActor, Lower(data[n].0))), data[n].1, msg, setFails);
    var e := SetCalls(d, keyActor, data, msg, setFails)[i];
    if i < |front| {
      assert e == front[i];
      SetCallsSound(d, keyActor, data[..n], msg, setFails, i);
      var j :| 0 <= j < n && e.keyVar in Listed(d, (keyActor, Lower(data[..n][j].0))) && e.values == data[..n][j].1;
      assert data[..n][j] == data[j];
    } else {
      assert e == last[i - |front|];
      assert e.keyVar in Listed(d, (keyActor, Lower(data[n].0))) && e.values == data[n].1;
    }
  }

  /** `dispatch`: every variable registered for the message's actor (with
      `keys.` dropped) and a keyword of its data, matched without regard to
      case, is set, even if another one's `set` raises; the message is then
      delivered, without logging, to the command it answers if this
      dispatcher is its commander and the ID is in the table. */
  function Dispatch(d: Dispatcher, msg: Msg, setFails: KeyVar -> bool): (r: (Dispatcher, seq<Event>))
    requires d.Valid()
    ensures r.0.Valid() && r.0 == d.(table := r.0.table)
    ensures var sets := SetCalls(d, KeyActor(msg.actor), msg.data, msg, setFails);
            |sets| <= |r.1| && r.1[..|sets|] == sets
    ensures msg.cmdr == d.cmdr && msg.cmdID in d.table.cmdDict ==>
              var u := d.table.cmdDict[msg.cmdID];
              r.0.table.cmds == d.table.cmds[u := d.table.cmds[u].Reply(msg)] &&
              (r.0.table.cmds[u].done <==> msg.cmdID !in r.0.table.cmdDict)
    ensures msg.cmdr == d.cmdr && msg.cmdID in d.table.cmdDict ==>
              var rr := ReplyCmdVar(d.table, d.table.cmdDict[msg.cmdID], msg, false);
              r.0.table == rr.0 && r.1 == SetCalls(d, KeyActor(msg.actor), msg.data, msg, setFails) + rr.1
    ensures !(msg.cmdr == d.cmdr && msg.cmdID in d.table.cmdDict) ==>
              r.0 == d && r.1 == SetCalls(d, KeyActor(msg.actor), msg.data, msg, setFails)
  {
    var sets := SetCalls(d, KeyActor(msg.actor), msg.data, msg, setFails);
    if msg.cmdr == d.cmdr && msg.cmdID in d.table.cmdDict then
      var u := d.table.cmdDict[msg.cmdID];
      ReplyKeepsValid(d.table, u, msg, false);
      var rr := ReplyCmdVar(d.table, u, msg, false);
      assert (sets + rr.1)[..|sets|] == sets;
      (d.(table := rr.0), sets + rr.1)
    else
      assert sets[..|sets|] == sets;
      (d, sets)
  }

  /** A final reply is delivered once: after it the ID of the command it
      answers has left the table, so the same message dispatched again
      touches no command. */
  lemma DispatchFinalReplyOnce(d: Dispatcher, msg: Msg, setFails: KeyVar -> bool)
    requires d.Valid() && msg.msgType in DoneTypes
    ensures var d1 := Dispatch(d, msg, setFails).0;
            (msg.cmdr == d.cmdr ==> msg.cmdID !in d1.table.cmdDict) && Dispatch(d1, msg, setFails).0 == d1
  {
    var d1 := Dispatch(d, msg, setFails).0;
    if msg.cmdr == d.cmdr && msg.cmdID in d.table.cmdDict {
      var u := d.table.cmdDict[msg.cmdID];
      assert d1.table.cmds[u].done && d1.table.cmds[u].cmdID == Some(msg.cmdID);
    }
  }

  /** Keyword names match without regard to case: two messages whose data
      differ only in the case of their keywords make the same `set` calls. */
  lemma {:induction false} SetCallsCaseBlind(d: Dispatcher, keyActor: string, data: seq<(string, seq<string>)>,
                                             data': seq<(string, seq<string>)>, msg: Msg, setFails: KeyVar -> bool)
    requires |data| == |data'|
    requires forall j :: 0 <= j < |data| ==> Lower(data[j].0) == Lower(data'[j].0) && data[j].1 == data'[j].1
    ensures SetCalls(d, keyActor, data, msg, setFails) == SetCalls(d, keyActor, data', msg, setFails)
    decreases |data|
  {
    if data != [] {
      var n := |data| - 1;
      SetCallsCaseBlind(d, keyActor, data[..n], data'[..n], msg, setFails);
    }
  }

  /** A message from `keys.X` sets the variables of actor X. */
  lemma KeysActorIsActor(a: string)
    ensures KeyActor("keys." + a) == a
  {
    assert ("keys." + a)[..5] == "keys.";
    assert ("keys." + a)[5..] == a;
  }

  // ---------------------------------------------------------------------
  // Aborting commands

  /** The unfinished command in the table under `cmdID`, which
      `abortCmdByID` acts on. */
  predicate Abortable(d: Dispatcher, cmdID: Option<int>)
  {
    cmdID.Some? && cmdID.value in d.table.cmdDict && d.table.cmdDict[cmdID.value] in d.table.cmds &&
    !d.table.cmds[d.table.cmdDict[cmdID.value]].done
  }

  /** Whether aborting also sends the command's abort string. */
  predicate AbortSends(d: Dispatcher, cmdID: Option<int>)
  {
    Abortable(d, cmdID) && d.table.cmds[d.table.cmdDict[cmdID.value]].abortCmdStr != "" && d.connected
  }

  /** The failure delivered to an aborted command. */
  function AbortedMsg(d: Dispatcher, id: int, c: CmdVar): Msg
  {
    MakeMsgDict(d, id, "Aborted; Actor=" + Repr(c.actor) + "; Cmd=" + Repr(c.cmdStr))
  }

  /** `abortCmdByID`: nothing happens for no ID, an ID not in the table or a
      finished command; otherwise the command's abort string, if any, is
      sent as a new user command while connected, and the command gets an
      "Aborted" failure, which removes it from the table. */
  method AbortCmdByID(d: Dispatcher, cmdID: Option<int>, now: int, writeError: Option<string>) returns (r: Dispatcher, events: seq<Event>)
    requires d.Valid()
    requires AbortSends(d, cmdID) ==> HasFreeId(d.table.userCmdIDGen, d.table.cmdDict)
    ensures r.Valid() && r == d.(table := r.table)
    ensures !Abortable(d, cmdID) ==> r == d && events == []
    ensures Abortable(d, cmdID) ==>
              var u := d.table.cmdDict[cmdID.value];
              u in r.table.cmds &&
              r.table.cmds[u] == d.table.cmds[u].Reply(AbortedMsg(d, cmdID.value, d.table.cmds[u])) &&
              r.table.cmds[u].failed && cmdID.value !in r.table.cmdDict
    ensures Abortable(d, cmdID) ==>
              forall v :: v in d.table.cmds && v != d.table.cmdDict[cmdID.value] ==> v in r.table.cmds && r.table.cmds[v] == d.table.cmds[v]
    ensures Abortable(d, cmdID) ==>
              |events| >= 1 && events[|events| - 1] == Logged(AbortedMsg(d, cmdID.value, d.table.cmds[d.table.cmdDict[cmdID.value]]).msgStr)
    ensures Abortable(d, cmdID) && !AbortSends(d, cmdID) ==>
              r.table.nextUid == d.table.nextUid && r.table.cmdDict == d.table.cmdDict - {cmdID.value} &&
              events == [Logged(AbortedMsg(d, cmdID.value, d.table.cmds[d.table.cmdDict[cmdID.value]]).msgStr)]
    ensures AbortSends(d, cmdID) ==>
              var c := d.table.cmds[d.table.cmdDict[cmdID.value]];
              r.table.nextUid == d.table.nextUid + 1 && d.table.nextUid in r.table.cmds &&
              var a := r.table.cmds[d.table.nextUid];
              a.actor == c.actor && a.cmdStr == c.abortCmdStr && !a.isRefresh && a.cmdID.Some? &&
              a.cmdID.value !in d.table.cmdDict && 1 <= a.cmdID.value <= CmdNumWrap &&
              |events| == 2
    ensures AbortSends(d, cmdID) && writeError.None? ==>
              var a := r.table.cmds[d.table.nextUid];
              r.table.cmdDict == (d.table.cmdDict - {cmdID.value})[a.cmdID.value := d.table.nextUid] &&
              events[0] == Wrote(CmdLine(a.cmdID.value, a))
    ensures AbortSends(d, cmdID) && writeError.Some? ==>
              r.table.cmdDict == d.table.cmdDict - {cmdID.value} && r.table.cmds[d.table.nextUid].done && events[0].Logged?
  {
    if !Abortable(d, cmdID) {
      return d, [];
    }
    var id := cmdID.value;
    var u := d.table.cmdDict[id];
    var c := d.table.cmds[u];
    var d1 := d;
    events := [];
    if c.abortCmdStr != "" && d.connected {
      var abortCmd := NewCmd(c.actor, c.abortCmdStr, 0, "", false);
      var a;
      d1, a, events := ExecuteCmd(d, abortCmd, now, writeError);
      assert id in d1.table.cmdDict && d1.table.cmdDict[id] == u;
    }
    assert d1.table.cmds[u] == c;
    var msg := AbortedMsg(d, id, c);
    ReplyKeepsValid(d1.table, u, msg, true);
    var rr := ReplyCmdVar(d1.table, u, msg, true);
    r := d1.(table := rr.0);
    events := events + rr.1;
  }

  /** Aborting is final: aborting the same ID again does nothing. */
  method AbortIsFinal(d: Dispatcher, cmdID: Option<int>, now: int, writeError: Option<string>) returns (r1: Dispatcher, r2: Dispatcher, events2: seq<Event>)
    requires d.Valid()
    requires AbortSends(d, cmdID) ==> HasFreeId(d.table.userCmdIDGen, d.table.cmdDict)
    ensures !Abortable(r1, cmdID) && r2 == r1 && events2 == []
  {
    var e1;
    r1, e1 := AbortCmdByID(d, cmdID, now, writeError);
    r2, events2 := AbortCmdByID(r1, cmdID, now, writeError);
  }

  // ---------------------------------------------------------------------
  // Timeouts

  /** Whether the timeout scan fails command `u`: its ID is in the table
      and either the dispatcher is disconnected or the command's end time
      (0 for none) has passed. */
  predicate TimesOut(d: Dispatcher, u: Uid, now: int)
    requires u in d.table.cmds
  {
    d.table.Pending(u) &&
    (!d.connected || (d.table.cmds[u].maxEndTime != 0 && d.table.cmds[u].maxEndTime < now))
  }

  /** The position of the first command of `iter` that times out. */
  function FirstTimeout(d: Dispatcher, iter: seq<Uid>, now: int): (k: Option<nat>)
    requires forall i :: 0 <= i < |iter| ==> iter[i] in d.table.cmds
    ensures k.None? ==> forall i :: 0 <= i < |iter| ==> !TimesOut(d, iter[i], now)
    ensures k.Some? ==> k.value < |iter| && TimesOut(d, iter[k.value], now) &&
                        forall i :: 0 <= i < k.value ==> !TimesOut(d, iter[i], now)
    decreases |iter|
  {
    if iter == [] then None
    else if TimesOut(d, iter[0], now) then Some(0)
    else match FirstTimeout(d, iter[1..], now)
      case None => None
      case Some(j) => Some(j + 1)
  }

  /** The failure delivered to a command that timed out, or that was
      pending when the connection was lost. */
  function TimeoutMsg(d: Dispatcher, c: CmdVar): Msg
    requires c.cmdID.Some?
  {
    if d.connected then
      MakeMsgDict(d, c.cmdID.value, "Timeout; Actor=" + Repr(c.actor) + "; Cmd=" + Repr(c.cmdStr))
    else
      MakeMsgDict(d, c.cmdID.value, "Aborted; Actor=" + Repr(c.actor) + "; Cmd=" + Repr(c.cmdStr) + "; Text=\"disconnected\"")
  }

  /** One step of `_checkRemCmdTimeouts` over the rest `iter` of a snapshot
      of the table: the first command that times out, if any, gets a
      failure (and loses its abort string when disconnected, as no abort
      can be sent), and the step is scheduled again on the rest of the
      snapshot; at most one command fails per step. The step's own timer has
      fired, so it is pending again only when a command failed. The periodic
      check is always scheduled again. */
  function CheckRemCmdTimeouts(d: Dispatcher, iter: seq<Uid>, now: int): (r: (Dispatcher, seq<Event>))
    requires d.Valid() && forall i :: 0 <= i < |iter| ==> iter[i] in d.table.cmds
    ensures r.0.Valid() && r.0.checkCmdTimer
    ensures r.0 == d.(table := r.0.table, checkCmdTimer := true, checkRemCmdTimer := r.0.checkRemCmdTimer)
    ensures FirstTimeout(d, iter, now).None? ==> r.0 == d.(checkCmdTimer := true, checkRemCmdTimer := None) && r.1 == []
    ensures FirstTimeout(d, iter, now).Some? ==>
              var k := FirstTimeout(d, iter, now).value;
              r.0.checkRemCmdTimer == Some(iter[k + 1..]) && (r.0.table, r.1) == FailTimedOut(d, iter[k])
  {
    match FirstTimeout(d, iter, now)
    case None => (d.(checkCmdTimer := true, checkRemCmdTimer := None), [])
    case Some(k) =>
      var rr := FailTimedOut(d, iter[k]);
      (d.(table := rr.0, checkCmdTimer := true, checkRemCmdTimer := Some(iter[k + 1..])), rr.1)
  }

  /** A pending command that timed out gets its failure: it is done, leaves
      the command dict, and only the failure is logged. When disconnected it
      first loses its abort string, as no abort can be sent. */
  function FailTimedOut(d: Dispatcher, u: Uid): (r: (CmdTable, seq<Event>))
    requires d.Valid() && u in d.table.cmds && d.table.Pending(u)
    ensures r.0.Valid()
    ensures var c := d.table.cmds[u];
            var c' := if d.connected then c else c.(abortCmdStr := "");
            r.0.cmds == d.table.cmds[u := c'.Reply(TimeoutMsg(d, c))] &&
            r.0.cmdDict == d.table.cmdDict - {c.cmdID.value} &&
            r.1 == [Logged(TimeoutMsg(d, c).msgStr)]
    ensures r.0 == d.table.(cmds := r.0.cmds, cmdDict := r.0.cmdDict)
  {
    var c := d.table.cmds[u];
    var c' := if d.connected then c else c.(abortCmdStr := "");
    var t1 := d.table.(cmds := d.table.cmds[u := c']);
    assert c'.cmdID == c.cmdID && c.cmdID.value in t1.cmdDict;
    assert t1.Valid();
    var msg := TimeoutMsg(d, c);
    ReplyKeepsValid(t1, u, msg, true);
    ReplyCmdVar(t1, u, msg, true)
  }

  /** The elements of a set in some order, each once: the order of a
      Python dict or set is not specified. */
  method SeqOfSet<T(==)>(s: set<T>) returns (r: seq<T>)
    ensures |r| == |s| && Distinct(r)
    ensures forall x :: x in s ==> x in r
    ensures forall i :: 0 <= i < |r| ==> r[i] in s
  {
    r := [];
    var rest := s;
    while rest != {}
      invariant rest <= s && |r| + |rest| == |s| && Distinct(r)
      invariant forall x :: x in r <==> x in s && x !in rest
      decreases |rest|
    {
      var x :| x in rest;
      r := r + [x];
      rest := rest - {x};
    }
  }

  /** `checkCmdTimeouts`: both timeout timers are cancelled and the scan
      starts over a snapshot of the table's commands, taken in the order
      the table yields them. */
  method CheckCmdTimeouts(d: Dispatcher, now: int) returns (r: Dispatcher, events: seq<Event>, snapshot: seq<Uid>)
    requires d.Valid()
    ensures |snapshot| == |d.table.cmdDict|
    ensures forall id :: id in d.table.cmdDict ==> d.table.cmdDict[id] in snapshot
    ensures forall i :: 0 <= i < |snapshot| ==> snapshot[i] in d.table.cmds && d.table.Pending(snapshot[i])
    ensures var d1 := d.(checkCmdTimer := false, checkRemCmdTimer := None);
            (r, events) == CheckRemCmdTimeouts(d1, snapshot, now)
  {
    var ids := SeqOfSet(d.table.cmdDict.Keys);
    snapshot := seq(|ids|, i requires 0 <= i < |ids| => d.table.cmdDict[ids[i]]);
    forall id | id in d.table.cmdDict
      ensures d.table.cmdDict[id] in snapshot
    {
      var i :| 0 <= i < |ids| && ids[i] == id;
      assert snapshot[i] == d.table.cmdDict[id];
    }
    forall i | 0 <= i < |snapshot|
      ensures snapshot[i] in d.table.cmds && d.table.Pending(snapshot[i])
    {
      var id := ids[i];
      assert id in d.table.cmdDict && snapshot[i] == d.table.cmdDict[id];
    }
    var d1 := d.(checkCmdTimer := false, checkRemCmdTimer := None);
    var rr := CheckRemCmdTimeouts(d1, snapshot, now);
    r, events := rr.0, rr.1;
  }

  // ---------------------------------------------------------------------
  // Registering keyword variables

  /** The refresh set of a refresh command, empty if it has none. */
  function RefreshSet(d: Dispatcher, info: RefreshInfo): set<KeyVar>
  {
    if info in d.refreshCmdDict then d.refreshCmdDict[info] else {}
  }

  /** `addKeyVar`: the variable is appended to the list of its (actor,
      lower-case keyword), joins the set of its refresh command if it has
      one, and then, while connected, a refresh pass (without resetting the
      variables) is scheduled. */
  function AddKeyVar(d: Dispatcher, kv: KeyVar): (r: Dispatcher)
    ensures Listed(r, KeyOf(kv)) == Listed(d, KeyOf(kv)) + [kv]
    ensures forall key :: key != KeyOf(kv) ==> Listed(r, key) == Listed(d, key)
    ensures kv.HasRefreshCmd() ==>
              r.refreshCmdDict == d.refreshCmdDict[kv.refreshInfo.value := RefreshSet(d, kv.refreshInfo.value) + {kv}]
    ensures !kv.HasRefreshCmd() ==> r.refreshCmdDict == d.refreshCmdDict
    ensures r.refreshAllTimer == if kv.HasRefreshCmd() && d.connected then Some(false) else d.refreshAllTimer
    ensures r == d.(keyVarListDict := r.keyVarListDict, refreshCmdDict := r.refreshCmdDict, refreshAllTimer := r.refreshAllTimer)
  {
    var key := KeyOf(kv);
    var d1 := d.(keyVarListDict := d.keyVarListDict[key := Listed(d, key) + [kv]]);
    if kv.HasRefreshCmd() then
      var info := kv.refreshInfo.value;
      var kvs := if info in d.refreshCmdDict && d.refreshCmdDict[info] != {} then d.refreshCmdDict[info] + {kv} else {kv};
      assert kvs == RefreshSet(d, info) + {kv};
      var d2 := d1.(refreshCmdDict := d.refreshCmdDict[info := kvs]);
      if d.connected then d2.(refreshAllTimer := Some(false)) else d2
    else d1
  }

  /** `removeKeyVar`: a variable that is not registered gives None and
      changes nothing; otherwise its first occurrence leaves the list of its
      key, it leaves the set of its refresh command, a set it leaves empty
      is deleted, and the variable is returned. */
  function RemoveKeyVar(d: Dispatcher, kv: KeyVar): (r: (Dispatcher, Option<KeyVar>))
    ensures r.1.Some? <==> kv in Listed(d, KeyOf(kv))
    ensures r.1.Some? ==> r.1.value == kv
    ensures r.1.None? ==> r.0 == d
    ensures r.1.Some? ==> Listed(r.0, KeyOf(kv)) == RemoveFirst(Listed(d, KeyOf(kv)), kv)
    ensures forall key :: key != KeyOf(kv) ==> Listed(r.0, key) == Listed(d, key)
    ensures r.1.Some? && kv.HasRefreshCmd() && kv in RefreshSet(d, kv.refreshInfo.value) ==>
              var info := kv.refreshInfo.value;
              if RefreshSet(d, info) == {kv} then r.0.refreshCmdDict == d.refreshCmdDict - {info}
              else r.0.refreshCmdDict == d.refreshCmdDict[info := RefreshSet(d, info) - {kv}]
    ensures !(kv.HasRefreshCmd() && kv in RefreshSet(d, kv.refreshInfo.value)) ==> r.0.refreshCmdDict == d.refreshCmdDict
    ensures r.0 == d.(keyVarListDict := r.0.keyVarListDict, refreshCmdDict := r.0.refreshCmdDict)
  {
    var key := KeyOf(kv);
    if kv !in Listed(d, key) then (d, None)
    else
      var d1 := d.(keyVarListDict := d.keyVarListDict[key := RemoveFirst(Listed(d, key), kv)]);
      if kv.HasRefreshCmd() && kv in RefreshSet(d, kv.refreshInfo.value) then
        var info := kv.refreshInfo.value;
        var rest := d.refreshCmdDict[info] - {kv};
        if rest == {} then (d1.(refreshCmdDict := d.refreshCmdDict - {info}), Some(kv))
        else (d1.(refreshCmdDict := d.refreshCmdDict[info := rest]), Some(kv))
      else (d1, Some(kv))
  }

  /** No refresh command has an empty set of variables. */
  predicate NoEmptyRefreshSets(d: Dispatcher)
  {
    forall info :: info in d.refreshCmdDict ==> d.refreshCmdDict[info] != {}
  }

  /** Removing a variable just added restores the index and the refresh
      commands. */
  lemma AddThenRemoveRestores(d: Dispatcher, kv: KeyVar)
    requires NoEmptyRefreshSets(d)
    requires kv !in Listed(d, KeyOf(kv))
    requires kv.HasRefreshCmd() ==> kv !in RefreshSet(d, kv.refreshInfo.value)
    ensures var r := RemoveKeyVar(AddKeyVar(d, kv), kv);
            r.1 == Some(kv) && r.0.refreshCmdDict == d.refreshCmdDict &&
            forall key :: Listed(r.0, key) == Listed(d, key)
  {
    AddThenRemoveListed(d, kv);
    AddThenRemoveRefreshSets(d, kv);
  }

  /** The index part of AddThenRemoveRestores. */
  lemma AddThenRemoveListed(d: Dispatcher, kv: KeyVar)
    requires kv !in Listed(d, KeyOf(kv))
    ensures var r := RemoveKeyVar(AddKeyVar(d, kv), kv);
            r.1 == Some(kv) && forall key :: Listed(r.0, key) == Listed(d, key)
  {
    var a := AddKeyVar(d, kv);
    RemoveAppended(Listed(d, KeyOf(kv)), kv);
    assert kv in Listed(a, KeyOf(kv));
  }

  /** The refresh-command part of AddThenRemoveRestores. */
  lemma AddThenRemoveRefreshSets(d: Dispatcher, kv: KeyVar)
    requires NoEmptyRefreshSets(d)
    requires kv !in Listed(d, KeyOf(kv))
    requires kv.HasRefreshCmd() ==> kv !in RefreshSet(d, kv.refreshInfo.value)
    ensures RemoveKeyVar(AddKeyVar(d, kv), kv).0.refreshCmdDict == d.refreshCmdDict
  {
    var a := AddKeyVar(d, kv);
    var r := RemoveKeyVar(a, kv);
    assert kv in Listed(a, KeyOf(kv));
    if kv.HasRefreshCmd() {
      var info := kv.refreshInfo.value;
      assert RefreshSet(a, info) == RefreshSet(d, info) + {kv};
      if info in d.refreshCmdDict {
        assert RefreshSet(a, info) != {kv};
        assert RefreshSet(a, info) - {kv} == d.refreshCmdDict[info];
        assert r.0.refreshCmdDict == d.refreshCmdDict[info := d.refreshCmdDict[info]];
      } else {
        assert RefreshSet(a, info) == {kv};
      }
    }
  }

  /** The keyword variable is registered under some key. */
  ghost predicate Registered(index: map<(string, string), seq<KeyVar>>, kv: KeyVar)
  {
    exists key :: key in index && kv in index[key]
  }

  /** The refresh commands gathered from `kvs` into `m`, one variable at a
      time, as the loop of `_updateRefreshCmds` does. */
  function GatherKeyVars(m: map<RefreshInfo, set<KeyVar>>, kvs: seq<KeyVar>): (r: map<RefreshInfo, set<KeyVar>>)
    ensures forall info, kv :: info in r && kv in r[info] <==>
              (info in m && kv in m[info]) || (kv in kvs && kv.refreshInfo == Some(info))
    ensures forall info :: info in r ==> r[info] != {} || (info in m && r[info] == m[info])
    decreases |kvs|
  {
    if kvs == [] then m
    else
      var n := |kvs| - 1;
      var m' := GatherKeyVars(m, kvs[..n]);
      var kv := kvs[n];
      assert kvs == kvs[..n] + [kv];
      if kv.HasRefreshCmd() then
        var info := kv.refreshInfo.value;
        m'[info := if info in m' && m'[info] != {} then m'[info] + {kv} else {kv}]
      else m'
  }

  /** The variable is in one of the lists. */
  predicate InSome(kv: KeyVar, lists: seq<seq<KeyVar>>)
  {
    exists j :: 0 <= j < |lists| && kv in lists[j]
  }

  /** Being in one of the lists is being in one of the first ones or in
      the last. */
  lemma InSomeLast(lists: seq<seq<KeyVar>>)
    requires lists != []
    ensures forall kv :: InSome(kv, lists) <==> InSome(kv, lists[..|lists| - 1]) || kv in lists[|lists| - 1]
  {
    var n := |lists| - 1;
    forall kv | InSome(kv, lists[..n])
      ensures InSome(kv, lists)
    {
      var j :| 0 <= j < n && kv in lists[..n][j];
      assert lists[..n][j] == lists[j];
    }
    forall kv | InSome(kv, lists) && kv !in lists[n]
      ensures InSome(kv, lists[..n])
    {
      var j :| 0 <= j < |lists| && kv in lists[j];
      assert lists[..n][j] == lists[j];
    }
  }

  /** The same over a sequence of lists. */
  function GatherLists(m: map<RefreshInfo, set<KeyVar>>, lists: seq<seq<KeyVar>>): (r: map<RefreshInfo, set<KeyVar>>)
    ensures forall info, kv :: info in r && kv in r[info] <==>
              (info in m && kv in m[info]) || (kv.refreshInfo == Some(info) && InSome(kv, lists))
    ensures forall info :: info in r ==> r[info] != {} || (info in m && r[info] == m[info])
    decreases |lists|
  {
    if lists == [] then m
    else
      var n := |lists| - 1;
      InSomeLast(lists);
      GatherKeyVars(GatherLists(m, lists[..n]), lists[n])
  }

  /** `_updateRefreshCmds`, visiting the keys of the index in the order
      `keys`: afterwards a variable is in the set of a refresh command
      exactly when it is registered and that is its refresh command, and no
      set is empty. */
  function UpdateRefreshCmds(d: Dispatcher, keys: seq<(string, string)>): (r: Dispatcher)
    requires forall key :: key in d.keyVarListDict <==> key in keys
    ensures forall info, kv :: info in r.refreshCmdDict && kv in r.refreshCmdDict[info] <==>
              kv.refreshInfo == Some(info) && Registered(d.keyVarListDict, kv)
    ensures NoEmptyRefreshSets(r)
    ensures r == d.(refreshCmdDict := r.refreshCmdDict)
  {
    var lists := seq(|keys|, j requires 0 <= j < |keys| => d.keyVarListDict[keys[j]]);
    var m := GatherLists(map[], lists);
    forall kv | Registered(d.keyVarListDict, kv)
      ensures InSome(kv, lists)
    {
      var key :| key in d.keyVarListDict && kv in d.keyVarListDict[key];
      var j :| 0 <= j < |keys| && keys[j] == key;
      assert kv in lists[j];
    }
    d.(refreshCmdDict := m)
  }

  // ---------------------------------------------------------------------
  // Refreshing keyword variables

  /** A refresh command with the variables it refreshes. */
  type RefreshItem = (RefreshInfo, set<KeyVar>)

  /** `items` lists each refresh command of `m` once, with its set. */
  predicate ListsRefreshCmds(items: seq<RefreshItem>, m: map<RefreshInfo, set<KeyVar>>)
  {
    |items| == |m| &&
    (forall i :: 0 <= i < |items| ==> items[i].0 in m && items[i].1 == m[items[i].0]) &&
    (forall info :: info in m ==> exists i :: 0 <= i < |items| && items[i].0 == info)
  }

  /** The refresh commands of `m`, in the order the dict yields them. */
  method ItemsOf(m: map<RefreshInfo, set<KeyVar>>) returns (items: seq<RefreshItem>)
    ensures ListsRefreshCmds(items, m)
  {
    var infos := SeqOfSet(m.Keys);
    items := seq(|infos|, i requires 0 <= i < |infos| => (infos[i], m[infos[i]]));
    forall info | info in m
      ensures exists i :: 0 <= i < |items| && items[i].0 == info
    {
      var i :| 0 <= i < |infos| && infos[i] == info;
      assert items[i].0 == info;
    }
  }

  /** The refresh commands after `_updateRefreshCmds`: a variable is in the
      set of a refresh command exactly when it is registered and that is
      its refresh command, and no set is empty. */
  ghost predicate Gathered(index: map<(string, string), seq<KeyVar>>, m: map<RefreshInfo, set<KeyVar>>)
  {
    (forall info :: info in m ==> m[info] != {}) &&
    forall info, kv :: info in m && kv in m[info] <==> kv.refreshInfo == Some(info) && Registered(index, kv)
  }

  /** The start of a fresh refresh pass: the refresh commands are
      gathered again and listed in the order the dict yields them. */
  method FreshRefreshList(d: Dispatcher) returns (r: Dispatcher, items: seq<RefreshItem>)
    ensures Gathered(d.keyVarListDict, r.refreshCmdDict) && ListsRefreshCmds(items, r.refreshCmdDict)
    ensures r == d.(refreshCmdDict := r.refreshCmdDict)
  {
    var keys := SeqOfSet(d.keyVarListDict.Keys);
    forall key
      ensures key in d.keyVarListDict <==> key in keys
    {
      if key in d.keyVarListDict {
        assert key in d.keyVarListDict.Keys;
      }
    }
    r := UpdateRefreshCmds(d, keys);
    items := ItemsOf(r.refreshCmdDict);
  }

  /** The first refresh command of the list is issued as a refresh
      command with a 20 s limit, and the step is scheduled again on the
      rest of the list. */
  method IssueRefreshCmd(d: Dispatcher, items: seq<RefreshItem>, now: int, writeError: Option<string>)
    returns (r: Dispatcher, events: seq<Event>)
    requires d.Valid() && d.connected && HasFreeId(d.table.refreshCmdIDGen, d.table.cmdDict) && items != []
    ensures r.Valid() && Outward(events)
    ensures r == d.(table := r.table, refreshNextTimer := Some(items[1..]))
    ensures r.table.nextUid == d.table.nextUid + 1 && d.table.nextUid in r.table.cmds
    ensures r.table.cmds == d.table.cmds[d.table.nextUid := r.table.cmds[d.table.nextUid]]
    ensures var c := r.table.cmds[d.table.nextUid];
            c.isRefresh && c.timeLim == RefreshTimeLim && (c.actor, c.cmdStr) == items[0].0 &&
            c.cmdID.Some? && CmdNumWrap < c.cmdID.value <= 2 * CmdNumWrap
  {
    var cmd := NewCmd(items[0].0.0, items[0].0.1, RefreshTimeLim, "", true);
    var u;
    r, u, events := ExecuteCmd(d, cmd, now, writeError);
    r := r.(refreshNextTimer := Some(items[1..]));
  }

  /** One step of `_sendNextRefreshCmd`: nothing while disconnected;
      otherwise, on a fresh pass (`iter` None) the refresh commands are
      gathered again and listed, and the first refresh command of the list,
      if any, is issued, the step being scheduled again on the rest. The
      step's own timer has fired, so it is pending again only when a refresh
      command was issued. */
  method SendNextRefreshCmd(d: Dispatcher, iter: Option<seq<RefreshItem>>, now: int, writeError: Option<string>)
    returns (r: Dispatcher, events: seq<Event>, items: seq<RefreshItem>)
    requires d.Valid()
    requires d.connected ==> HasFreeId(d.table.refreshCmdIDGen, d.table.cmdDict)
    ensures r.Valid() && Outward(events)
    ensures !d.connected ==> r == d.(refreshNextTimer := None) && events == []
    ensures d.connected && iter.Some? ==> items == iter.value && r.refreshCmdDict == d.refreshCmdDict
    ensures d.connected && iter.None? ==> Gathered(d.keyVarListDict, r.refreshCmdDict) && ListsRefreshCmds(items, r.refreshCmdDict)
    ensures d.connected && items == [] ==> r == d.(refreshCmdDict := r.refreshCmdDict, refreshNextTimer := None) && events == []
    ensures d.connected && items != [] ==>
              r == d.(refreshCmdDict := r.refreshCmdDict, table := r.table, refreshNextTimer := Some(items[1..])) &&
              r.table.nextUid == d.table.nextUid + 1 && d.table.nextUid in r.table.cmds &&
              r.table.cmds == d.table.cmds[d.table.nextUid := r.table.cmds[d.table.nextUid]] &&
              var c := r.table.cmds[d.table.nextUid];
              c.isRefresh && c.timeLim == RefreshTimeLim && (c.actor, c.cmdStr) == items[0].0 &&
              c.cmdID.Some? && CmdNumWrap < c.cmdID.value <= 2 * CmdNumWrap
  {
    var d0 := d.(refreshNextTimer := None);
    if !d.connected {
      return d0, [], [];
    }
    var d1 := d0;
    if iter.None? {
      d1, items := FreshRefreshList(d0);
    } else {
      items := iter.value;
    }
    if items == [] {
      return d1, [], items;
    }
    r, events := IssueRefreshCmd(d1, items, now, writeError);
  }

  /** The "not current" calls for the variables, in order. */
  function NotCurrentOf(kvs: seq<KeyVar>): (r: seq<Event>)
    ensures forall kv :: kv in kvs ==> KeyVarNotCurrent(kv) in r
    ensures forall i :: 0 <= i < |r| ==> r[i].KeyVarNotCurrent? && r[i].keyVar in kvs
  {
    if kvs == [] then [] else [KeyVarNotCurrent(kvs[0])] + NotCurrentOf(kvs[1..])
  }

  /** The "not current" calls for every variable of the lists, in order. */
  function NotCurrentAll(lists: seq<seq<KeyVar>>): (r: seq<Event>)
    ensures forall kv :: InSome(kv, lists) ==> KeyVarNotCurrent(kv) in r
    ensures forall i :: 0 <= i < |r| ==> r[i].KeyVarNotCurrent? && InSome(r[i].keyVar, lists)
    decreases |lists|
  {
    if lists == [] then []
    else
      var n := |lists| - 1;
      InSomeLast(lists);
      var front := NotCurrentAll(lists[..n]);
      front + NotCurrentOf(lists[n])
  }

  /** The "not current" calls for every registered variable, visiting
      the keys in the order the dict yields them. */
  method ResetAll(d: Dispatcher) returns (resets: seq<Event>)
    ensures forall key, kv :: key in d.keyVarListDict && kv in d.keyVarListDict[key] ==> KeyVarNotCurrent(kv) in resets
    ensures forall i :: 0 <= i < |resets| ==> resets[i].KeyVarNotCurrent? && Registered(d.keyVarListDict, resets[i].keyVar)
  {
    var keys := SeqOfSet(d.keyVarListDict.Keys);
    var lists := seq(|keys|, j requires 0 <= j < |keys| => d.keyVarListDict[keys[j]]);
    resets := NotCurrentAll(lists);
    forall key, kv | key in d.keyVarListDict && kv in d.keyVarListDict[key]
      ensures KeyVarNotCurrent(kv) in resets
    {
      var j :| 0 <= j < |keys| && keys[j] == key;
      assert kv in lists[j];
    }
    forall i | 0 <= i < |resets|
      ensures Registered(d.keyVarListDict, resets[i].keyVar)
    {
      var j :| 0 <= j < |lists| && resets[i].keyVar in lists[j];
      assert keys[j] in d.keyVarListDict;
    }
  }

  /** `refreshAllVar`: both refresh timers are cancelled; when asked, every
      registered variable is made not current; then a fresh refresh pass
      starts, which, while connected, sends the first refresh command if
      there is any. */
  method RefreshAllVar(d: Dispatcher, resetAll: bool, now: int, writeError: Option<string>) returns (r: Dispatcher, events: seq<Event>)
    requires d.Valid()
    requires d.connected ==> HasFreeId(d.table.refreshCmdIDGen, d.table.cmdDict)
    ensures r.Valid() && r.refreshAllTimer.None?
    ensures resetAll ==> forall key, kv :: key in d.keyVarListDict && kv in d.keyVarListDict[key] ==> KeyVarNotCurrent(kv) in events
    ensures forall i :: 0 <= i < |events| && events[i].KeyVarNotCurrent? ==> resetAll && Registered(d.keyVarListDict, events[i].keyVar)
    ensures !d.connected ==> r == d.(refreshAllTimer := None, refreshNextTimer := None)
    ensures d.connected ==> Gathered(d.keyVarListDict, r.refreshCmdDict) &&
                            (r.table.nextUid == d.table.nextUid + 1 <==> r.refreshCmdDict != map[])
  {
    var d1 := d.(refreshAllTimer := None, refreshNextTimer := None);
    var resets := [];
    if resetAll {
      resets := ResetAll(d);
    }
    var sent, items;
    r, sent, items := SendNextRefreshCmd(d1, None, now, writeError);
    assert d.connected ==> (items == [] <==> r.refreshCmdDict == map[]);
    events := resets + sent;
    assert forall i :: |resets| <= i < |events| ==> events[i] == sent[i - |resets|];
  }

  /** `_connStateCallback`: the new connection state is recorded, and a
      full refresh pass is scheduled exactly when the state changed. */
  function ConnStateCallback(d: Dispatcher, isConnected: bool): (r: Dispatcher)
    ensures r.connected == isConnected
    ensures r.refreshAllTimer == Some(true) <==> d.connected != isConnected || d.refreshAllTimer == Some(true)
    ensures d.connected == isConnected ==> r == d
    ensures r == d.(connected := isConnected, refreshAllTimer := r.refreshAllTimer)
  {
    var r := d.(connected := isConnected);
    if d.connected != isConnected then r.(refreshAllTimer := Some(true)) else r
  }

  /** What `_refreshCmdCallback` logs about a finished refresh command. */
  datatype RefreshReport =
    | RefreshFailed(actor: string, cmdStr: string, names: seq<string>)   // the command failed; these were not refreshed
    | NotRefreshed(names: seq<string>)                                   // these got no data from it
    | AllRefreshed                                                       // nothing to report
    | NoKeyVars(actor: string, cmdStr: string)                           // no variables use the command

  /** The keywords of the variables, in order. */
  function Keywords(kvs: seq<KeyVar>): (r: seq<string>)
    ensures |r| == |kvs|
    ensures forall i :: 0 <= i < |kvs| ==> r[i] == kvs[i].keyword
  {
    seq(|kvs|, i requires 0 <= i < |kvs| => kvs[i].keyword)
  }

  /** `names` holds the keywords of the variables in `kvs`, one per
      variable, sorted: it is a permutation of the keywords of the set
      listed once each. */
  ghost predicate SortedKeywords(names: seq<string>, kvs: set<KeyVar>)
  {
    Sorted(names) && |names| == |kvs| &&
    (forall n :: n in names <==> exists kv :: kv in kvs && kv.keyword == n) &&
    exists listed :: ListsOnce(listed, kvs) && multiset(names) == multiset(Keywords(listed))
  }

  /** `listed` holds every element of `s` exactly once. */
  predicate ListsOnce(listed: seq<KeyVar>, s: set<KeyVar>)
  {
    Distinct(listed) && (forall i :: 0 <= i < |listed| ==> listed[i] in s) && (forall x :: x in s ==> x in listed)
  }

  /** The sorted keywords of a set of variables. */
  method SortedKeywordsOf(kvs: set<KeyVar>) returns (names: seq<string>)
    ensures SortedKeywords(names, kvs)
  {
    var listed := SeqOfSet(kvs);
    var kws := Keywords(listed);
    names := Sort(kws);
    forall n | n in names
      ensures exists kv :: kv in kvs && kv.keyword == n
    {
      assert n in multiset(kws);
      var i :| 0 <= i < |kws| && kws[i] == n;
      assert listed[i] in kvs;
    }
    forall kv | kv in kvs
      ensures kv.keyword in names
    {
      var i :| 0 <= i < |listed| && listed[i] == kv;
      assert kws[i] == kv.keyword;
      assert kv.keyword in multiset(kws);
    }
    assert ListsOnce(listed, kvs);
  }

  /** `_refreshCmdCallback`: a failed refresh command reports every
      variable it should have refreshed; otherwise the variables of the
      command that are still not current are reported, and a command no
      variable uses is reported as such. The command being finished is
      not checked: the report is made for any call. The source tests the
      joined names rather than the list; the two differ only for a single
      missing variable whose keyword is empty, which is reported here. */
  method RefreshCmdCallback(d: Dispatcher, cmd: CmdVar, isCurrent: KeyVar -> bool) returns (report: RefreshReport)
    ensures var kvs := RefreshSet(d, (cmd.actor, cmd.cmdStr));
            cmd.failed ==> report.RefreshFailed? && report.actor == cmd.actor && report.cmdStr == cmd.cmdStr &&
                           SortedKeywords(report.names, kvs)
    ensures var kvs := RefreshSet(d, (cmd.actor, cmd.cmdStr));
            !cmd.failed && kvs == {} ==> report == NoKeyVars(cmd.actor, cmd.cmdStr)
    ensures var kvs := RefreshSet(d, (cmd.actor, cmd.cmdStr));
            !cmd.failed && kvs != {} ==>
              (report.NotRefreshed? <==> exists kv :: kv in kvs && !isCurrent(kv)) &&
              (report.NotRefreshed? || report.AllRefreshed?) &&
              (report.NotRefreshed? ==> SortedKeywords(report.names, set kv | kv in kvs && !isCurrent(kv)))
  {
    var kvs := RefreshSet(d, (cmd.actor, cmd.cmdStr));
    if cmd.failed {
      var names := SortedKeywordsOf(kvs);
      report := RefreshFailed(cmd.actor, cmd.cmdStr, names);
    } else if kvs != {} {
      var missing := set kv | kv in kvs && !isCurrent(kv);
      var names := SortedKeywordsOf(missing);
      if names != [] {
        var kv :| kv in missing;
        report := NotRefreshed(names);
      } else {
        assert forall kv :: kv in kvs ==> kv in missing || isCurrent(kv);
        report := AllRefreshed;
      }
    } else {
      report := NoKeyVars(cmd.actor, cmd.cmdStr);
    }
  }
}
