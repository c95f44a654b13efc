/** `RO.Wdg.Toplevel.ToplevelSet`, without Tk: the default and file
    dictionaries of window geometry and visibility, the names of the windows,
    and the geometry/visibility file, read and written line by line.

    A file is the sequence of its lines; reading it is `readGeomVisFile` on
    those lines, and a missing file is `None`. `RO.CnvUtil.asBool` and the
    JSON codec of saved window state are parameters. A window is the record
    of what the set asks of it: whether it still exists (`alive`), its geometry,
    visibility and saved state. */
module ToplevelSet {
  import opened Wrappers
  import opened StrUtil
  import opened Sorting
  import opened SeqUtil

  /** What the set asks of one toplevel window. */
  datatype Window<S> = Window(alive: bool, geometry: string, visible: bool,
                              doSaveState: bool, state: S, stateIsDefault: bool)

  datatype TlSet<S> = TlSet(
    defFileName: Option<string>,
    fileGeomDict: map<string, string>,
    fileVisDict: map<string, bool>,
    fileState: map<string, S>,
    defGeomDict: map<string, string>,
    defVisDict: map<string, bool>,
    tlDict: map<string, Window<S>>)

  /** A programmer-supplied default: geometry (None or "" for none) and
      visibility (None for none). */
  type GeomVis = (Option<string>, Option<bool>)

  /** Python truthiness of an optional string. */
  predicate Truthy(s: Option<string>)
  {
    s.Some? && s.value != ""
  }

  // ---------------------------------------------------------------------
  // Defaults and desired values

  /** The default geometry dict the constructor builds: the truthy geometries. */
  function DefGeoms(defs: map<string, GeomVis>): (r: map<string, string>)
    ensures forall n :: n in r <==> n in defs && Truthy(defs[n].0)
    ensures forall n :: n in r ==> n in defs && defs[n].0.Some? && r[n] == defs[n].0.value
  {
    map n | n in defs && Truthy(defs[n].0) :: defs[n].0.value
  }

  /** The default visibility dict as the constructor builds it: it keeps a
      flag only when it is truthy, so a default of False is dropped. */
  function DefVisAsWritten(defs: map<string, GeomVis>): (r: map<string, bool>)
    ensures forall n :: n in r <==> n in defs && defs[n].1 == Some(true)
    ensures forall n :: n in r ==> r[n]
  {
    map n | n in defs && defs[n].1 == Some(true) :: true
  }

  /** The default visibility dict as documented: every flag that is not None. */
  function DefVis(defs: map<string, GeomVis>): (r: map<string, bool>)
    ensures forall n :: n in r <==> n in defs && defs[n].1.Some?
    ensures forall n :: n in r ==> n in defs && defs[n].1.Some? && r[n] == defs[n].1.value
  {
    map n | n in defs && defs[n].1.Some? :: defs[n].1.value
  }

  /** A set with the given defaults and no file data or windows. */
  function Empty<S>(fileName: Option<string>, defGeoms: map<string, string>, defVis: map<string, bool>): TlSet<S>
  {
    TlSet(fileName, map[], map[], map[], defGeoms, defVis, map[])
  }

  /** `getDesGeom`: the file's geometry, else the default, else "". */
  function GetDesGeom<S>(t: TlSet<S>, name: string): (r: string)
    ensures name in t.fileGeomDict ==> r == t.fileGeomDict[name]
    ensures name !in t.fileGeomDict && name in t.defGeomDict ==> r == t.defGeomDict[name]
    ensures name !in t.fileGeomDict && name !in t.defGeomDict ==> r == ""
  {
    if name in t.fileGeomDict then t.fileGeomDict[name]
    else if name in t.defGeomDict then t.defGeomDict[name]
    else ""
  }

  /** `getDesVisible`: the file's flag, else the default, else True. */
  function GetDesVisible<S>(t: TlSet<S>, name: string): (r: bool)
    ensures name in t.fileVisDict ==> r == t.fileVisDict[name]
    ensures name !in t.fileVisDict && name in t.defVisDict ==> r == t.defVisDict[name]
    ensures name !in t.fileVisDict && name !in t.defVisDict ==> r
  {
    if name in t.fileVisDict then t.fileVisDict[name]
    else if name in t.defVisDict then t.defVisDict[name]
    else true
  }

  /** The set as the constructor builds it from the defaults, before any file
      is read: a window whose default is "hidden" is nevertheless desired
      visible, because the dict dropped its flag. */
  function DefaultsAsWritten<S>(fileName: Option<string>, defs: map<string, GeomVis>): (t: TlSet<S>)
    ensures t.defFileName == fileName && t.tlDict == map[]
    ensures forall n :: n in defs && defs[n].1 == Some(false) ==> GetDesVisible(t, n)
  {
    Empty(fileName, DefGeoms(defs), DefVisAsWritten(defs))
  }

  /** The set built from the defaults as documented: until a file says
      otherwise, every window is desired at its default geometry ("" for
      none) and its default visibility (shown for none). */
  function Defaults<S>(fileName: Option<string>, defs: map<string, GeomVis>): (t: TlSet<S>)
    ensures t.defFileName == fileName && t.tlDict == map[]
    ensures forall n :: n in defs ==> GetDesGeom(t, n) == defs[n].0.GetOr("") && GetDesVisible(t, n) == defs[n].1.GetOr(true)
    ensures forall n :: n !in defs ==> GetDesGeom(t, n) == "" && GetDesVisible(t, n)
  {
    Empty(fileName, DefGeoms(defs), DefVis(defs))
  }

  // ---------------------------------------------------------------------
  // Windows and names

  /** `getToplevel`: the named window if it still exists; a destroyed one
      is removed from the set. */
  function GetToplevel<S>(t: TlSet<S>, name: string): (r: (TlSet<S>, Option<Window<S>>))
    ensures r.1.Some? <==> name in t.tlDict && t.tlDict[name].alive
    ensures r.1.Some? ==> r.1.value == t.tlDict[name] && r.0 == t
    ensures r.1.None? ==> r.0 == t.(tlDict := t.tlDict - {name})
  {
    if name in t.tlDict && t.tlDict[name].alive then (t, Some(t.tlDict[name]))
    else (t.(tlDict := t.tlDict - {name}), None)
  }

  /** `addToplevel`: RuntimeError if a live window has the name. */
  function AddToplevel<S>(t: TlSet<S>, win: Window<S>, name: string): (r: Result<TlSet<S>>)
    ensures r.Err? <==> name in t.tlDict && t.tlDict[name].alive
    ensures r.Err? ==> r.error == RuntimeError
    ensures r.Ok? ==> r.value == t.(tlDict := t.tlDict[name := win])
  {
    var (t1, tl) := GetToplevel(t, name);
    if tl.Some? then Err(RuntimeError)
    else Ok(t1.(tlDict := t1.tlDict[name := win]))
  }

  /** `createToplevel`: RuntimeError if a live window has the name; else
      record the defaults given (a visibility given only through the
      window's own `visible` argument counts as one), build the window with
      the desired geometry and visibility, and hand it its saved state.
      The result holds the set, the geometry and visibility the window was
      built with, and the window as registered. */
  function CreateToplevel<S>(t: TlSet<S>, name: string, defGeom: string, defVisible: Option<bool>,
                             visibleArg: Option<bool>, win: Window<S>): (r: Result<(TlSet<S>, string, bool, Window<S>)>)
    ensures r.Err? <==> name in t.tlDict && t.tlDict[name].alive
    ensures r.Ok? ==> name in r.value.0.tlDict && r.value.0.tlDict[name] == r.value.3
    ensures r.Ok? && name in t.fileGeomDict ==> r.value.1 == t.fileGeomDict[name]
    ensures r.Ok? && name !in t.fileGeomDict && defGeom != "" ==> r.value.1 == defGeom
    ensures r.Ok? && name in t.fileVisDict ==> r.value.2 == t.fileVisDict[name]
    ensures r.Ok? && name !in t.fileVisDict && (defVisible.Some? || visibleArg.Some?) ==>
              r.value.2 == (if defVisible.Some? then defVisible.value else visibleArg.value)
    ensures r.Ok? && name !in t.fileGeomDict && defGeom == "" ==> r.value.1 == GetDesGeom(t, name)
    ensures r.Ok? && name !in t.fileVisDict && defVisible.None? && visibleArg.None? ==> r.value.2 == GetDesVisible(t, name)
    ensures r.Ok? && win.doSaveState && name in t.fileState ==> r.value.3 == win.(state := t.fileState[name])
    ensures r.Ok? && !(win.doSaveState && name in t.fileState) ==> r.value.3 == win
    ensures r.Ok? ==> r.value.0.defGeomDict == if defGeom != "" then t.defGeomDict[name := defGeom] else t.defGeomDict
    ensures r.Ok? ==> r.value.0.defVisDict ==
                        if defVisible.Some? then t.defVisDict[name := defVisible.value]
                        else if visibleArg.Some? then t.defVisDict[name := visibleArg.value]
                        else t.defVisDict
    ensures r.Ok? ==> r.value.0.tlDict == t.tlDict[name := r.value.3]
    ensures r.Ok? ==> r.value.0.fileGeomDict == t.fileGeomDict && r.value.0.fileVisDict == t.fileVisDict &&
                      r.value.0.fileState == t.fileState && r.value.0.defFileName == t.defFileName
  {
    var (t1, tl) := GetToplevel(t, name);
    if tl.Some? then Err(RuntimeError)
    else
      var defGeoms := if defGeom != "" then t.defGeomDict[name := defGeom] else t.defGeomDict;
      var dv := if defVisible.None? then visibleArg else defVisible;
      var defVis := if dv.Some? then t.defVisDict[name := dv.value] else t.defVisDict;
      var t2 := t1.(defGeomDict := defGeoms, defVisDict := defVis);
      var geom := GetDesGeom(t2, name);
      var vis := GetDesVisible(t2, name);
      var w := if win.doSaveState && name in t.fileState then win.(state := t.fileState[name]) else win;
      assert t1.tlDict[name := w] == t.tlDict[name := w];
      Ok((t2.(tlDict := t1.tlDict[name := w]), geom, vis, w))
  }

  /** The window is built with what the new set desires for it, and a
      second window of the same name is refused while the first is alive. */
  lemma CreatedIsDesired<S>(t: TlSet<S>, name: string, defGeom: string, defVisible: Option<bool>,
                            visibleArg: Option<bool>, win: Window<S>, win2: Window<S>)
    requires CreateToplevel(t, name, defGeom, defVisible, visibleArg, win).Ok?
    ensures var (t', geom, vis, w) := CreateToplevel(t, name, defGeom, defVisible, visibleArg, win).value;
            geom == GetDesGeom(t', name) && vis == GetDesVisible(t', name) &&
            (w.alive ==> CreateToplevel(t', name, defGeom, defVisible, visibleArg, win2) == Err(RuntimeError))
  {
    var (t', geom, vis, w) := CreateToplevel(t, name, defGeom, defVisible, visibleArg, win).value;
    assert w.alive == win.alive;
  }

  /** The names of a sorted list that start with `prefix`, in order; all of
      them when the prefix is empty. */
  function WithPrefix(names: seq<string>, prefix: string): (r: seq<string>)
    requires Sorted(names) && Distinct(names)
    ensures Sorted(r) && Distinct(r)
    ensures forall x :: x in r <==> x in names && StartsWith(x, prefix)
    ensures prefix == "" ==> r == names
  {
    if names == [] then []
    else
      var rest := WithPrefix(names[1..], prefix);
      assert forall x :: x in names <==> x == names[0] || x in names[1..];
      if StartsWith(names[0], prefix) then
        var r := [names[0]] + rest;
        forall i, j | 0 <= i < j < |r| ensures LessEq(r[i], r[j]) && r[i] != r[j] {
          if i == 0 {
            assert r[j] in names[1..];
            var k :| 0 <= k < |names[1..]| && names[1..][k] == r[j];
            assert names[k + 1] == r[j];
          }
        }
        r
      else rest
  }

  /** `getNames`: the window names (live or destroyed) that start with
      `prefix`, in alphabetical order. */
  function GetNames<S>(t: TlSet<S>, prefix: string): (r: seq<string>)
    ensures Sorted(r) && Distinct(r)
    ensures forall x :: x in r <==> x in t.tlDict && StartsWith(x, prefix)
  {
    WithPrefix(SortedSet(t.tlDict.Keys), prefix)
  }

  /** `getNamesInGeomFile`: the same for the names with a file geometry. */
  function GetNamesInGeomFile<S>(t: TlSet<S>, prefix: string): (r: seq<string>)
    ensures Sorted(r) && Distinct(r)
    ensures forall x :: x in r <==> x in t.fileGeomDict && StartsWith(x, prefix)
  {
    WithPrefix(SortedSet(t.fileGeomDict.Keys), prefix)
  }

  // ---------------------------------------------------------------------
  // Reading the file

  /** What one data line says about one window. */
  datatype LineData<S> = LineData(name: string, geom: Option<string>, vis: Option<bool>, state: Option<S>)

  /** The three dicts a file read builds. */
  datatype FileDicts<S> = FileDicts(geom: map<string, string>, vis: map<string, bool>, state: map<string, S>)

  /** One line of the file: comments and lines without `=` or with an empty
      name say nothing; then the part after the first `=` is split at the
      first two commas into geometry, visibility and JSON state, each
      stripped and ignored when empty. An unreadable flag raises (the
      exception `asBool` raises); unreadable JSON is logged and skipped. */
  function ParseLine<S>(line: string, asBool: string -> Result<bool>, decode: string -> Option<S>): (r: Result<Option<LineData<S>>>)
    ensures StartsWith(line, "#") ==> r == Ok(None)
    ensures NoChar(line, '=') ==> r == Ok(None)
    ensures r.Ok? && r.value.Some? ==> r.value.value.name != [] && (r.value.value.geom.Some? ==> r.value.value.geom.value != [])
  {
    if StartsWith(line, "#") then Ok(None)
    else
      var data := SplitMax(line, '=', 1);
      if |data| < 2 then Ok(None)
      else
        var name := Strip(data[0]);
        if |name| == 0 then Ok(None)
        else ParseFields(name, SplitMax(data[1], ',', 2), asBool, decode)
  }

  /** The fields after the `=` of a data line, already cut at commas. */
  function ParseFields<S>(name: string, gv: seq<string>, asBool: string -> Result<bool>, decode: string -> Option<S>): (r: Result<Option<LineData<S>>>)
    requires 1 <= |gv|
    ensures r.Ok? ==> r.value.Some? && r.value.value.name == name && (r.value.value.geom.Some? ==> r.value.value.geom.value != [])
  {
    var geom := Strip(gv[0]);
    var visStr := if |gv| > 1 then Strip(gv[1]) else "";
    var stateStr := if |gv| > 2 then Strip(gv[2]) else "";
    var vis := if visStr != "" then asBool(visStr) else Ok(false);
    if vis.Err? then Err(vis.error)
    else
      Ok(Some(LineData(name,
                       if geom != "" then Some(geom) else None,
                       if visStr != "" then Some(vis.value) else None,
                       if stateStr != "" then decode(stateStr) else None)))
  }

  /** The dicts after one parsed line. */
  function Apply<S>(d: FileDicts<S>, ld: LineData<S>): (r: FileDicts<S>)
    ensures r.geom == if ld.geom.Some? then d.geom[ld.name := ld.geom.value] else d.geom
    ensures r.vis == if ld.vis.Some? then d.vis[ld.name := ld.vis.value] else d.vis
    ensures r.state == if ld.state.Some? then d.state[ld.name := ld.state.value] else d.state
  {
    FileDicts(if ld.geom.Some? then d.geom[ld.name := ld.geom.value] else d.geom,
              if ld.vis.Some? then d.vis[ld.name := ld.vis.value] else d.vis,
              if ld.state.Some? then d.state[ld.name := ld.state.value] else d.state)
  }

  /** The line parser `readGeomVisFile` uses. */
  function LineParser<S>(asBool: string -> Result<bool>, decode: string -> Option<S>): string -> Result<Option<LineData<S>>>
  {
    line => ParseLine(line, asBool, decode)
  }

  /** The loop of `readGeomVisFile`, line by line, with the line parser a
      parameter; a later line for the same name overrides an earlier one,
      and the first raising line aborts. */
  function ReadLines<S>(lines: seq<string>, parse: string -> Result<Option<LineData<S>>>): (r: Result<FileDicts<S>>)
    decreases |lines|
  {
    if lines == [] then Ok(FileDicts(map[], map[], map[]))
    else
      var n := |lines| - 1;
      var prev := ReadLines(lines[..n], parse);
      if prev.Err? then prev
      else
        match parse(lines[n])
        case Err(e) => Err(e)
        case Ok(None) => prev
        case Ok(Some(ld)) => Ok(Apply(prev.value, ld))
  }

  /** The file to use: the one given if truthy, else the default one. */
  function FileNameFor<S>(t: TlSet<S>, fileName: Option<string>): (r: Option<string>)
    ensures r.Some? <==> Truthy(fileName) || Truthy(t.defFileName)
    ensures r.Some? ==> r.value != ""
  {
    if Truthy(fileName) then fileName else if Truthy(t.defFileName) then t.defFileName else None
  }

  /** `readGeomVisFile`: RuntimeError without a file name; a missing file
      changes nothing; otherwise the file dicts are replaced, but only once
      every line has been read. */
  function ReadGeomVisFile<S>(t: TlSet<S>, fileName: Option<string>, contents: Option<seq<string>>,
                              asBool: string -> Result<bool>, decode: string -> Option<S>): (r: Result<TlSet<S>>)
    ensures FileNameFor(t, fileName).None? ==> r == Err(RuntimeError)
    ensures FileNameFor(t, fileName).Some? && contents.None? ==> r == Ok(t)
    ensures r.Ok? && contents.Some? ==>
              var d := ReadLines(contents.value, LineParser(asBool, decode));
              d.Ok? && r.value == t.(fileGeomDict := d.value.geom, fileVisDict := d.value.vis, fileState := d.value.state)
    ensures r.Err? && FileNameFor(t, fileName).Some? ==> ReadLines(contents.value, LineParser(asBool, decode)).Err?
  {
    if FileNameFor(t, fileName).None? then Err(RuntimeError)
    else if contents.None? then Ok(t)
    else
      match ReadLines(contents.value, LineParser(asBool, decode))
      case Err(e) => Err(e)
      case Ok(d) => Ok(t.(fileGeomDict := d.geom, fileVisDict := d.vis, fileState := d.state))
  }

  /** The constructor: the defaults, then a read of the file when a file
      name is given. As written, a window the file does not mention is
      desired at its default geometry and is always desired visible, since
      a default of False was never recorded. */
  function New<S>(fileName: Option<string>, defs: map<string, GeomVis>, contents: Option<seq<string>>,
                  asBool: string -> Result<bool>, decode: string -> Option<S>): (r: Result<TlSet<S>>)
    ensures !Truthy(fileName) ==> r == Ok(DefaultsAsWritten(fileName, defs))
    ensures r.Ok? ==> r.value.defGeomDict == DefGeoms(defs) && r.value.defVisDict == DefVisAsWritten(defs) && r.value.tlDict == map[]
    ensures r.Ok? ==> forall n :: n in defs && n !in r.value.fileGeomDict ==> GetDesGeom(r.value, n) == defs[n].0.GetOr("")
    ensures r.Ok? ==> forall n :: n !in r.value.fileVisDict ==> GetDesVisible(r.value, n)
  {
    var t: TlSet<S> := DefaultsAsWritten(fileName, defs);
    if Truthy(fileName) then ReadGeomVisFile(t, fileName, contents, asBool, decode) else Ok(t)
  }

  /** The constructor built on the corrected defaults: a window the file
      does not mention is desired at its default geometry and visibility. */
  function NewFixed<S>(fileName: Option<string>, defs: map<string, GeomVis>, contents: Option<seq<string>>,
                       asBool: string -> Result<bool>, decode: string -> Option<S>): (r: Result<TlSet<S>>)
    ensures !Truthy(fileName) ==> r == Ok(Defaults(fileName, defs))
    ensures r.Ok? ==> r.value.defGeomDict == DefGeoms(defs) && r.value.defVisDict == DefVis(defs) && r.value.tlDict == map[]
    ensures r.Ok? ==> forall n :: n in defs && n !in r.value.fileGeomDict ==> GetDesGeom(r.value, n) == defs[n].0.GetOr("")
    ensures r.Ok? ==> forall n :: n in defs && n !in r.value.fileVisDict ==> GetDesVisible(r.value, n) == defs[n].1.GetOr(true)
  {
    var t: TlSet<S> := Defaults(fileName, defs);
    if Truthy(fileName) then ReadGeomVisFile(t, fileName, contents, asBool, decode) else Ok(t)
  }

  /** The two constructors differ only through defaults of False: without
      one they build the same set. */
  lemma NewIsFixedWithoutHiddenDefaults<S>(fileName: Option<string>, defs: map<string, GeomVis>, contents: Option<seq<string>>,
                                           asBool: string -> Result<bool>, decode: string -> Option<S>)
    requires forall n :: n in defs ==> defs[n].1 != Some(false)
    ensures New(fileName, defs, contents, asBool, decode) == NewFixed(fileName, defs, contents, asBool, decode)
  {
    assert DefVisAsWritten(defs) == DefVis(defs);
    assert DefaultsAsWritten<S>(fileName, defs) == Defaults<S>(fileName, defs);
  }

  // ---------------------------------------------------------------------
  // Writing the file

  /** `str(b)` */
  function BoolStr(b: bool): string
  {
    if b then "True" else "False"
  }

  /** What `writeGeomVisFile` records and writes for one window. */
  datatype Entry<S> = Entry(geom: string, vis: bool, saveState: bool, state: S, isDefault: bool)

  /** `defGeomDict.get(name, "")` */
  function DefGeomOf<S>(t: TlSet<S>, name: string): string
  {
    if name in t.defGeomDict then t.defGeomDict[name] else ""
  }

  /** The current values of the named window: a live window's geometry (or
      the default geometry while it has none), visibility and, if it saves
      state, its state; a missing or destroyed window counts as hidden at its
      default geometry. The line is commented out when geometry, visibility
      and state are all the defaults. */
  function EntryOf<S>(t: TlSet<S>, name: string, empty: S): (e: Entry<S>)
    ensures e.isDefault ==> e.geom == DefGeomOf(t, name) &&
                            name in t.defVisDict && t.defVisDict[name] == e.vis
    ensures e.geom == "" ==> DefGeomOf(t, name) == ""
  {
    var defGeom := DefGeomOf(t, name);
    var defVis := if name in t.defVisDict then Some(t.defVisDict[name]) else None;
    if name in t.tlDict && t.tlDict[name].alive then
      var w := t.tlDict[name];
      var geom := if w.geometry != "" then w.geometry else defGeom;
      var (state, isDefState) := if w.doSaveState then (w.state, w.stateIsDefault) else (empty, true);
      Entry(geom, w.visible, w.doSaveState, state, geom == defGeom && defVis == Some(w.visible) && isDefState)
    else
      Entry(defGeom, false, false, empty, defVis == Some(false))
  }

  /** The line written for a window. */
  function LineFor<S>(name: string, e: Entry<S>, encode: S -> string): string
  {
    (if e.isDefault then "# " else "") + name + " = " + ValuesText(e, encode) + "\n"
  }

  /** The values of a line, `", ".join` of the geometry, the flag and, for
      a window that saves state, the encoded state. */
  function ValuesText<S>(e: Entry<S>, encode: S -> string): string
  {
    if e.saveState then Join3(e.geom, BoolStr(e.vis), encode(e.state)) else e.geom + ", " + BoolStr(e.vis)
  }

  /** `ValuesText` is the join of the value list. */
  lemma ValuesTextIsJoin<S>(e: Entry<S>, encode: S -> string)
    ensures ValuesText(e, encode) == Join(", ", [e.geom, BoolStr(e.vis)] + (if e.saveState then [encode(e.state)] else []))
  {
    JoinComma(e.geom, BoolStr(e.vis), encode(e.state));
    assert [e.geom, BoolStr(e.vis)] + [] == [e.geom, BoolStr(e.vis)];
  }

  /** One pass of the loop: look the window up (dropping a destroyed one),
      record its current values in the file dicts and produce its line. */
  function WriteStep<S>(t: TlSet<S>, name: string, empty: S, encode: S -> string): (r: (TlSet<S>, string))
    ensures var e := EntryOf(t, name, empty);
            r.1 == LineFor(name, e, encode) &&
            r.0.fileGeomDict == t.fileGeomDict[name := e.geom] &&
            r.0.fileVisDict == t.fileVisDict[name := e.vis] &&
            r.0.fileState == t.fileState[name := e.state]
    ensures r.0.defGeomDict == t.defGeomDict && r.0.defVisDict == t.defVisDict && r.0.defFileName == t.defFileName
    ensures r.0.tlDict.Keys <= t.tlDict.Keys
    ensures forall n :: n in r.0.tlDict ==> r.0.tlDict[n] == t.tlDict[n]
    ensures forall n :: n in t.tlDict && n != name ==> n in r.0.tlDict
  {
    var e := EntryOf(t, name, empty);
    var (t1, _) := GetToplevel(t, name);
    (t1.(fileGeomDict := t1.fileGeomDict[name := e.geom],
         fileVisDict := t1.fileVisDict[name := e.vis],
         fileState := t1.fileState[name := e.state]),
     LineFor(name, e, encode))
  }

  /** `r` holds, for each of `names` in order, the line of its entry in `t`,
      and its file dicts record that entry's geometry and visibility. */
  predicate WroteAll<S>(t: TlSet<S>, names: seq<string>, empty: S, encode: S -> string, r: (TlSet<S>, seq<string>))
  {
    |r.1| == |names| &&
    (forall i :: 0 <= i < |names| ==> r.1[i] == LineFor(names[i], EntryOf(t, names[i], empty), encode)) &&
    (forall i :: 0 <= i < |names| ==> names[i] in r.0.fileGeomDict && r.0.fileGeomDict[names[i]] == EntryOf(t, names[i], empty).geom) &&
    (forall i :: 0 <= i < |names| ==> names[i] in r.0.fileVisDict && r.0.fileVisDict[names[i]] == EntryOf(t, names[i], empty).vis)
  }

  /** The loop of `writeGeomVisFile` over the given names, in order. */
  function WriteNames<S>(t: TlSet<S>, names: seq<string>, empty: S, encode: S -> string): (r: (TlSet<S>, seq<string>))
    requires Distinct(names)
    ensures WroteAll(t, names, empty, encode, r)
    ensures r.0.defGeomDict == t.defGeomDict && r.0.defVisDict == t.defVisDict && r.0.defFileName == t.defFileName
    ensures r.0.tlDict.Keys <= t.tlDict.Keys
    ensures forall n :: n in r.0.tlDict ==> r.0.tlDict[n] == t.tlDict[n]
    ensures forall n :: n in t.tlDict && n !in names ==> n in r.0.tlDict
    decreases |names|
  {
    if names == [] then (t, [])
    else
      var n := |names| - 1;
      var prefix := names[..n];
      assert Distinct(prefix);
      var (t1, ls) := WriteNames(t, prefix, empty, encode);
      var name := names[n];
      assert name !in prefix;
      EntryFrame(t, t1, name, empty);
      var (t2, line) := WriteStep(t1, name, empty, encode);
      WroteAllStep(t, names, empty, encode, (t1, ls), (t2, line));
      (t2, ls + [line])
  }

  /** One more pass of the loop extends what the earlier passes wrote. */
  lemma WroteAllStep<S>(t: TlSet<S>, names: seq<string>, empty: S, encode: S -> string,
                        prev: (TlSet<S>, seq<string>), step: (TlSet<S>, string))
    requires names != [] && names[|names| - 1] !in names[..|names| - 1]
    requires WroteAll(t, names[..|names| - 1], empty, encode, prev)
    requires var e := EntryOf(t, names[|names| - 1], empty);
             step.1 == LineFor(names[|names| - 1], e, encode) &&
             step.0.fileGeomDict == prev.0.fileGeomDict[names[|names| - 1] := e.geom] &&
             step.0.fileVisDict == prev.0.fileVisDict[names[|names| - 1] := e.vis]
    ensures WroteAll(t, names, empty, encode, (step.0, prev.1 + [step.1]))
  {
    var n := |names| - 1;
    var prefix := names[..n];
    var lines := prev.1 + [step.1];
    forall i | 0 <= i < |names|
      ensures lines[i] == LineFor(names[i], EntryOf(t, names[i], empty), encode)
      ensures names[i] in step.0.fileGeomDict && step.0.fileGeomDict[names[i]] == EntryOf(t, names[i], empty).geom
      ensures names[i] in step.0.fileVisDict && step.0.fileVisDict[names[i]] == EntryOf(t, names[i], empty).vis
    {
      if i < n {
        assert lines[i] == prev.1[i] && names[i] == prefix[i] && names[i] != names[n];
      }
    }
  }

  /** A window's entry depends only on its own window and defaults. */
  lemma EntryFrame<S>(t: TlSet<S>, t': TlSet<S>, name: string, empty: S)
    requires t'.defGeomDict == t.defGeomDict && t'.defVisDict == t.defVisDict
    requires name in t'.tlDict <==> name in t.tlDict
    requires name in t'.tlDict ==> t'.tlDict[name] == t.tlDict[name]
    ensures EntryOf(t', name, empty) == EntryOf(t, name, empty)
  {
  }

  /** `writeGeomVisFile`: RuntimeError without a file name; otherwise
      (after re-reading the file if asked and it exists) one line per window
      name in alphabetical order, recording the values written in the file
      dicts. The result is the set and the lines of the new file. */
  function WriteGeomVisFile<S>(t: TlSet<S>, fileName: Option<string>, readFirst: bool, contents: Option<seq<string>>,
                               asBool: string -> Result<bool>, decode: string -> Option<S>,
                               empty: S, encode: S -> string): (r: Result<(TlSet<S>, seq<string>)>)
    ensures FileNameFor(t, fileName).None? ==> r == Err(RuntimeError)
    ensures r.Ok? ==> |r.value.1| == |t.tlDict|
  {
    var fn := FileNameFor(t, fileName);
    if fn.None? then Err(RuntimeError)
    else
      var t1 := if readFirst && contents.Some? then ReadGeomVisFile(t, fn, contents, asBool, decode) else Ok(t);
      if t1.Err? then Err(t1.error)
      else
        var (t2, lines) := WriteNames(t1.value, SortedSet(t1.value.tlDict.Keys), empty, encode);
        Ok((t2, lines))
  }

  // ---------------------------------------------------------------------
  // Reading back what was written

  /** A window name that survives the line format: non-empty, no
      surrounding whitespace, no `=`, and not starting with `#`. */
  predicate PlainName(n: string)
  {
    n != [] && !IsSpace(n[0]) && !IsSpace(n[|n| - 1]) && NoChar(n, '=') && n[0] != '#'
  }

  /** A geometry that survives the line format (Tk geometry strings are):
      no comma and no surrounding whitespace. */
  predicate PlainGeom(g: string)
  {
    NoChar(g, ',') && (g == [] || (!IsSpace(g[0]) && !IsSpace(g[|g| - 1])))
  }

  /** Encoded state that survives stripping (JSON text from `json.dumps` is). */
  predicate PlainJson(js: string)
  {
    js != [] && !IsSpace(js[0]) && !IsSpace(js[|js| - 1])
  }

  /** `asBool` reads back what `str` writes for a flag. */
  predicate ReadsBools(asBool: string -> Result<bool>)
  {
    asBool("True") == Ok(true) && asBool("False") == Ok(false)
  }

  /** The first occurrence of `c` in `a + [c] + b` when `a` has none. */
  lemma IndexOfFirst(a: string, c: char, b: string)
    requires NoChar(a, c)
    ensures IndexOf(a + [c] + b, c) == Some(|a|)
  {
    assert (a + [c] + b)[|a|] == c;
  }

  /** Splitting `a + [c] + b` at `c` cuts after `a` when `a` has no `c`. */
  lemma SplitFirst(a: string, c: char, b: string, k: nat)
    requires NoChar(a, c)
    ensures SplitMax(a + [c] + b, c, k + 1) == [a] + SplitMax(b, c, k)
  {
    var s := a + [c] + b;
    IndexOfFirst(a, c, b);
    assert s[..|a|] == a && s[|a| + 1..] == b;
  }

  lemma StripSpaces(pre: string, s: string, post: string)
    requires s == [] || (!IsSpace(s[0]) && !IsSpace(s[|s| - 1]))
    requires forall i :: 0 <= i < |pre| ==> IsSpace(pre[i])
    requires forall i :: 0 <= i < |post| ==> IsSpace(post[i])
    ensures Strip(pre + s + post) == s
  {
    if s != [] {
      StripSurrounded(s, pre, post);
    } else {
      AllSpaceStrips(pre + s + post);
    }
  }

  lemma {:induction false} AllSpaceStrips(s: string)
    requires forall i :: 0 <= i < |s| ==> IsSpace(s[i])
    ensures RStrip(s) == [] && Strip(s) == []
    decreases |s|
  {
    if s != [] {
      AllSpaceStrips(s[..|s| - 1]);
    }
  }

  /** `", ".join` of two and of three strings. */
  lemma JoinComma(a: string, b: string, c: string)
    ensures Join(", ", [a, b]) == a + ", " + b
    ensures Join(", ", [a, b, c]) == Join3(a, b, c)
  {
    JoinTwo(a, b);
    JoinTwo(b, c);
    assert [a, b, c][1..] == [b, c];
  }

  lemma JoinTwo(a: string, b: string)
    ensures Join(", ", [a, b]) == a + ", " + b
  {
    assert [a, b][1..] == [b];
  }

  /** `" " + a + ", " + rest` cut at its first comma. */
  lemma SplitAfterSpace(a: string, rest: string, k: nat)
    requires NoChar(a, ',')
    ensures SplitMax(" " + (a + ", " + rest), ',', k + 1) == [" " + a] + SplitMax(" " + rest, ',', k)
  {
    assert " " + (a + ", " + rest) == (" " + a) + [','] + (" " + rest);
    SplitFirst(" " + a, ',', " " + rest, k);
  }

  /** Three values joined with `", "`. */
  function Join3(a: string, b: string, c: string): string
  {
    a + ", " + (b + ", " + c)
  }

  /** The text after `=` on a data line without state, cut at commas. */
  lemma SplitTwoValues(g: string, vs: string)
    requires NoChar(g, ',') && NoChar(vs, ',')
    ensures SplitMax(" " + (g + ", " + vs) + "\n", ',', 2) == [" " + g, " " + (vs + "\n")]
  {
    var tail := vs + "\n";
    var line := " " + (g + ", " + vs) + "\n";
    assert line == " " + (g + ", " + tail);
    var rest := " " + tail;
    assert SplitMax(rest, ',', 1) == [rest] by {
      assert NoChar(rest, ',') by {
        assert forall i :: 0 < i < |rest| ==> rest[i] == tail[i - 1];
      }
      SplitWithoutSep(rest, ',', 1);
    }
    SplitAfterSpace(g, tail, 1);
  }

  /** Text without the separator is not cut. */
  lemma SplitWithoutSep(s: string, c: char, k: nat)
    requires NoChar(s, c)
    ensures SplitMax(s, c, k) == [s]
  {
    if k > 0 {
      assert IndexOf(s, c).None?;
    }
  }

  /** The text after `=` on a data line with state, cut at the first two commas. */
  lemma SplitThreeValues(g: string, vs: string, js: string)
    requires NoChar(g, ',') && NoChar(vs, ',')
    ensures SplitMax(" " + Join3(g, vs, js) + "\n", ',', 2) == [" " + g, " " + vs, " " + (js + "\n")]
  {
    var tail := js + "\n";
    assert " " + Join3(g, vs, js) + "\n" == " " + (g + ", " + (vs + ", " + tail));
    SplitAfterSpace(g, vs + ", " + tail, 1);
    SplitAfterSpace(vs, tail, 0);
  }

  lemma StripBefore(s: string)
    requires s == [] || (!IsSpace(s[0]) && !IsSpace(s[|s| - 1]))
    ensures Strip(" " + s) == s
  {
    StripSpaces(" ", s, "");
    assert " " + s + "" == " " + s;
  }

  lemma StripAfter(s: string)
    requires s == [] || (!IsSpace(s[0]) && !IsSpace(s[|s| - 1]))
    ensures Strip(s + " ") == s
  {
    StripSpaces("", s, " ");
    assert "" + s + " " == s + " ";
  }

  lemma StripAround(s: string)
    requires s == [] || (!IsSpace(s[0]) && !IsSpace(s[|s| - 1]))
    ensures Strip(" " + (s + "\n")) == s
  {
    var t := " " + (s + "\n");
    assert t == " " + s + "\n";
    StripSpaces(" ", s, "\n");
  }

  /** The fields of a written data line read back as written. */
  lemma ParseFieldsOf<S>(name: string, e: Entry<S>, encode: S -> string, asBool: string -> Result<bool>, decode: string -> Option<S>)
    requires PlainGeom(e.geom) && ReadsBools(asBool)
    requires e.saveState ==> PlainJson(encode(e.state))
    ensures ParseFields(name, SplitMax(" " + ValuesText(e, encode) + "\n", ',', 2), asBool, decode) ==
            Ok(Some(LineData(name, if e.geom != "" then Some(e.geom) else None, Some(e.vis),
                             if e.saveState then decode(encode(e.state)) else None)))
  {
    var vs := BoolStr(e.vis);
    assert NoChar(vs, ',') && PlainJson(vs);
    StripBefore(e.geom);
    if e.saveState {
      SplitThreeValues(e.geom, vs, encode(e.state));
      StripBefore(vs);
      StripAround(encode(e.state));
    } else {
      SplitTwoValues(e.geom, vs);
      StripAround(vs);
    }
  }

  /** A line starting with `#` says nothing. */
  lemma CommentIsSkipped<S>(body: string, asBool: string -> Result<bool>, decode: string -> Option<S>)
    ensures ParseLine("# " + body, asBool, decode) == Ok(None)
  {
    assert ("# " + body)[..1] == "#";
  }

  /** What a written line reads back as: nothing for a commented-out line,
      otherwise its name, geometry (unless empty), flag and decoded state. */
  lemma ParseLineFor<S>(name: string, e: Entry<S>, encode: S -> string, asBool: string -> Result<bool>, decode: string -> Option<S>)
    requires PlainName(name) && PlainGeom(e.geom) && ReadsBools(asBool)
    requires e.saveState ==> PlainJson(encode(e.state))
    ensures e.isDefault ==> ParseLine(LineFor(name, e, encode), asBool, decode) == Ok(None)
    ensures !e.isDefault ==>
              ParseLine(LineFor(name, e, encode), asBool, decode) ==
              Ok(Some(LineData(name, if e.geom != "" then Some(e.geom) else None, Some(e.vis),
                               if e.saveState then decode(encode(e.state)) else None)))
  {
    var line := LineFor(name, e, encode);
    if e.isDefault {
      var body := name + " = " + ValuesText(e, encode) + "\n";
      assert line == "# " + body;
      CommentIsSkipped(body, asBool, decode);
    } else {
      var vals := ValuesText(e, encode) + "\n";
      assert line == name + " = " + vals;
      DataLineFields(name, vals, asBool, decode);
      assert " " + vals == " " + ValuesText(e, encode) + "\n";
      ParseFieldsOf(name, e, encode, asBool, decode);
    }
  }

  /** A data line with a plain name: its fields are the text after ` = `. */
  lemma DataLineFields<S>(name: string, vals: string, asBool: string -> Result<bool>, decode: string -> Option<S>)
    requires PlainName(name)
    ensures ParseLine(name + " = " + vals, asBool, decode) == ParseFields(name, SplitMax(" " + vals, ',', 2), asBool, decode)
  {
    var line := name + " = " + vals;
    SplitAtEquals(name, vals);
    StripAfter(name);
    assert !StartsWith(line, "#") by {
      assert line[0] == name[0];
    }
  }

  /** A data line is cut at its `=` into the padded name and the values. */
  lemma SplitAtEquals(name: string, vals: string)
    requires PlainName(name)
    ensures SplitMax(name + " = " + vals, '=', 1) == [name + " ", " " + vals]
  {
    assert name + " = " + vals == (name + " ") + ['='] + (" " + vals);
    assert NoChar(name + " ", '=');
    SplitFirst(name + " ", '=', " " + vals, 0);
  }

  /** Reading lines that each say nothing or speak of their own, distinct
      name: the dicts hold exactly what each line said. */
  lemma {:induction false} ReadDistinctLines<S>(lines: seq<string>, names: seq<string>, parse: string -> Result<Option<LineData<S>>>)
    requires |lines| == |names| && Distinct(names)
    requires forall i :: 0 <= i < |lines| ==> parse(lines[i]).Ok? && (parse(lines[i]).value.Some? ==> parse(lines[i]).value.value.name == names[i])
    ensures ReadLines(lines, parse).Ok?
    ensures forall n :: n in ReadLines(lines, parse).value.geom ==> n in names
    ensures forall n :: n in ReadLines(lines, parse).value.vis ==> n in names
    ensures forall i :: 0 <= i < |lines| ==> Said(ReadLines(lines, parse).value, names[i], parse(lines[i]).value)
    decreases |lines|
  {
    if lines != [] {
      var k := |lines| - 1;
      var ls := lines[..k];
      var ns := names[..k];
      assert Distinct(ns);
      forall i | 0 <= i < k
        ensures parse(ls[i]).Ok? && (parse(ls[i]).value.Some? ==> parse(ls[i]).value.value.name == ns[i])
      {
        assert ls[i] == lines[i] && ns[i] == names[i];
      }
      ReadDistinctLines(ls, ns, parse);
      var prev := ReadLines(ls, parse).value;
      var d := ReadLines(lines, parse).value;
      assert names[k] !in ns;
      forall i | 0 <= i < |lines|
        ensures Said(d, names[i], parse(lines[i]).value)
      {
        if i < k {
          assert ls[i] == lines[i] && ns[i] == names[i] && names[i] != names[k];
          assert Said(prev, ns[i], parse(ls[i]).value);
        }
      }
      forall n | n in d.geom || n in d.vis
        ensures n in names
      {
        if n != names[k] {
          assert n in ns;
        }
      }
    }
  }

  /** The dicts hold what a line said about a name: nothing, or its
      geometry and flag where the line had them. */
  predicate Said<S>(d: FileDicts<S>, n: string, p: Option<LineData<S>>)
  {
    (p.None? ==> n !in d.geom && n !in d.vis) &&
    (p.Some? ==> (p.value.geom.Some? <==> n in d.geom) && (p.value.geom.Some? ==> d.geom[n] == p.value.geom.value) &&
                 (p.value.vis.Some? <==> n in d.vis) && (p.value.vis.Some? ==> d.vis[n] == p.value.vis.value))
  }

  /** The values written for a window with a plain name, geometry and state
      are themselves plain. */
  lemma EntryIsPlain<S>(t: TlSet<S>, n: string, empty: S, encode: S -> string)
    requires n in t.tlDict && PlainGeom(t.tlDict[n].geometry) && PlainGeom(DefGeomOf(t, n))
    requires t.tlDict[n].doSaveState ==> PlainJson(encode(t.tlDict[n].state))
    ensures PlainGeom(EntryOf(t, n, empty).geom)
    ensures EntryOf(t, n, empty).saveState ==> PlainJson(encode(EntryOf(t, n, empty).state))
  {
  }

  /** Each written line parses, as nothing or as a line about its own window. */
  lemma WrittenLinesParse<S>(t: TlSet<S>, names: seq<string>, empty: S, encode: S -> string,
                             asBool: string -> Result<bool>, decode: string -> Option<S>)
    requires Distinct(names) && ReadsBools(asBool)
    requires forall i :: 0 <= i < |names| ==> names[i] in t.tlDict
    requires forall n :: n in t.tlDict ==> PlainName(n) && PlainGeom(t.tlDict[n].geometry) && PlainGeom(DefGeomOf(t, n))
    requires forall n :: n in t.tlDict && t.tlDict[n].doSaveState ==> PlainJson(encode(t.tlDict[n].state))
    ensures var lines := WriteNames(t, names, empty, encode).1;
            var parse := LineParser(asBool, decode);
            forall i :: 0 <= i < |lines| ==> parse(lines[i]).Ok? && (parse(lines[i]).value.Some? ==> parse(lines[i]).value.value.name == names[i])
  {
    var lines := WriteNames(t, names, empty, encode).1;
    forall i | 0 <= i < |lines|
      ensures ParseLine(lines[i], asBool, decode).Ok?
      ensures ParseLine(lines[i], asBool, decode).value.Some? ==> ParseLine(lines[i], asBool, decode).value.value.name == names[i]
    {
      EntryIsPlain(t, names[i], empty, encode);
      ParseLineFor(names[i], EntryOf(t, names[i], empty), encode, asBool, decode);
    }
  }

  /** One window after the read: what its line said, or its defaults when
      the line was commented out, is what the write recorded. */
  lemma DesiredIsRecorded<S>(t: TlSet<S>, r: TlSet<S>, d: FileDicts<S>, n: string, e: Entry<S>, p: Option<LineData<S>>)
    requires e.isDefault ==> e.geom == DefGeomOf(t, n) && n in t.defVisDict && t.defVisDict[n] == e.vis
    requires e.geom == "" ==> DefGeomOf(t, n) == ""
    requires e.isDefault ==> p == None
    requires !e.isDefault ==> p.Some? && p.value.geom == (if e.geom != "" then Some(e.geom) else None) && p.value.vis == Some(e.vis)
    requires Said(d, n, p)
    requires r.fileGeomDict == d.geom && r.fileVisDict == d.vis
    requires r.defGeomDict == t.defGeomDict && r.defVisDict == t.defVisDict
    ensures GetDesGeom(r, n) == e.geom && GetDesVisible(r, n) == e.vis
  {
    if e.isDefault {
      assert n !in d.geom && n !in d.vis;
    } else if e.geom == "" {
      assert n !in d.geom;
    }
  }

  /** After the read `r`, every window of `t` is desired at the geometry and
      visibility that the write `w` recorded for it. */
  predicate Restores<S>(t: TlSet<S>, w: TlSet<S>, r: TlSet<S>)
  {
    forall n :: n in t.tlDict ==>
      n in w.fileGeomDict && GetDesGeom(r, n) == w.fileGeomDict[n] &&
      n in w.fileVisDict && GetDesVisible(r, n) == w.fileVisDict[n]
  }

  /** Reading back the lines written for `names`, the names of all windows:
      every window's desired geometry and visibility are the values the
      write recorded. */
  lemma ReadBackOfNames<S>(t: TlSet<S>, names: seq<string>, empty: S, encode: S -> string,
                           asBool: string -> Result<bool>, decode: string -> Option<S>)
    requires Distinct(names) && ReadsBools(asBool)
    requires forall n :: n in t.tlDict <==> n in names
    requires forall n :: n in t.tlDict ==> PlainName(n) && PlainGeom(t.tlDict[n].geometry) && PlainGeom(DefGeomOf(t, n))
    requires forall n :: n in t.tlDict && t.tlDict[n].doSaveState ==> PlainJson(encode(t.tlDict[n].state))
    ensures var (t', lines) := WriteNames(t, names, empty, encode);
            var d := ReadLines(lines, LineParser(asBool, decode));
            d.Ok? &&
            Restores(t, t', t'.(fileGeomDict := d.value.geom, fileVisDict := d.value.vis, fileState := d.value.state))
  {
    var (t', lines) := WriteNames(t, names, empty, encode);
    var parse := LineParser(asBool, decode);
    WrittenLinesParse(t, names, empty, encode, asBool, decode);
    ReadDistinctLines(lines, names, parse);
    var d := ReadLines(lines, parse).value;
    var r := t'.(fileGeomDict := d.geom, fileVisDict := d.vis, fileState := d.state);
    forall n | n in t.tlDict
      ensures n in t'.fileGeomDict && GetDesGeom(r, n) == t'.fileGeomDict[n]
      ensures n in t'.fileVisDict && GetDesVisible(r, n) == t'.fileVisDict[n]
    {
      var i :| 0 <= i < |names| && names[i] == n;
      var p := ParseLine(lines[i], asBool, decode).value;
      assert Said(d, n, p);
      var e := EntryOf(t, n, empty);
      assert lines[i] == LineFor(n, e, encode);
      EntryIsPlain(t, n, empty, encode);
      ParseLineFor(n, e, encode, asBool, decode);
      DesiredIsRecorded(t, r, d, n, e, p);
    }
  }

  /** Writing the file and reading it back: every window's desired geometry
      and visibility are the values the write recorded, whether its line was
      written out or commented out as all-default. */
  lemma WriteThenReadRestoresDesired<S>(t: TlSet<S>, fileName: Option<string>, empty: S, encode: S -> string,
                                        asBool: string -> Result<bool>, decode: string -> Option<S>)
    requires FileNameFor(t, fileName).Some?
    requires ReadsBools(asBool)
    requires forall n :: n in t.tlDict ==> PlainName(n) && PlainGeom(t.tlDict[n].geometry) && PlainGeom(DefGeomOf(t, n))
    requires forall n :: n in t.tlDict && t.tlDict[n].doSaveState ==> PlainJson(encode(t.tlDict[n].state))
    ensures var w := WriteGeomVisFile(t, fileName, false, None, asBool, decode, empty, encode);
            w.Ok? &&
            var r := ReadGeomVisFile(w.value.0, fileName, Some(w.value.1), asBool, decode);
            r.Ok? && Restores(t, w.value.0, r.value)
  {
    var names := SortedSet(t.tlDict.Keys);
    var (t', lines) := WriteNames(t, names, empty, encode);
    assert WriteGeomVisFile(t, fileName, false, None, asBool, decode, empty, encode) == Ok((t', lines));
    ReadBackOfNames(t, names, empty, encode, asBool, decode);
    var d := ReadLines(lines, LineParser(asBool, decode)).value;
    assert ReadGeomVisFile(t', fileName, Some(lines), asBool, decode) == Ok(t'.(fileGeomDict := d.geom, fileVisDict := d.vis, fileState := d.state));
  }
}
