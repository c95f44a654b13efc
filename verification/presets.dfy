/** `RO.Wdg.InputContPresetsWdg`: named presets of an input container's
    values. User presets live in a dict shared between systems and keyed by
    the system name; standard presets are given. The menu, the dialogs and the
    input container are not modelled: the container's current values and the
    dialogs' answers are parameters, and Python's dict order is the parameter
    `order`. */
module Presets {
  import opened Wrappers
  import opened Sorting
  import opened SeqUtil

  /** A preset: input name to value string. */
  type ValDict = map<string, string>

  /** Every key of `sub` is in `full` with the same value. */
  predicate SubMap(sub: ValDict, full: ValDict)
  {
    forall k :: k in sub ==> k in full && full[k] == sub[k]
  }

  /** `isSubDict`: equality when the sizes are equal; otherwise `subDict`
      rebuilt from `fullDict`'s values, which raises KeyError on a key
      `fullDict` lacks. */
  function IsSubDict(sub: ValDict, full: ValDict): (r: Result<bool>)
    ensures r.Err? <==> |sub| != |full| && exists k :: k in sub && k !in full
    ensures r.Err? ==> r.error == KeyError
    ensures r.Ok? ==> (r.value <==> SubMap(sub, full))
  {
    if |sub| == |full| then
      SameSizeSubMap(sub, full);
      Ok(sub == full)
    else if exists k :: k in sub && k !in full then Err(KeyError)
    else Ok(forall k :: k in sub ==> full[k] == sub[k])
  }

  /** For dicts of equal size, being a sub-dict is being equal. */
  lemma SameSizeSubMap(sub: ValDict, full: ValDict)
    requires |sub| == |full|
    ensures SubMap(sub, full) <==> sub == full
  {
    if SubMap(sub, full) {
      assert sub.Keys <= full.Keys;
      assert |sub.Keys| == |sub| && |full.Keys| == |full|;
      if sub.Keys < full.Keys {
        var k :| k in full.Keys && k !in sub.Keys;
        assert sub.Keys <= full.Keys - {k};
        SubsetSize(sub.Keys, full.Keys - {k});
        assert false;
      }
      assert sub.Keys == full.Keys;
    }
  }

  lemma SubsetSize(a: set<string>, b: set<string>)
    requires a <= b
    ensures |a| <= |b|
  {
    assert b == a + (b - a);
  }

  datatype Presets = Presets(
    userPresetsDict: map<string, map<string, ValDict>>,
    sysName: string,
    stdPresets: map<string, ValDict>,
    currName: string,       // "" for None
    currIsUser: bool)
  {
    /** `_userPresets`: this system's user presets, or none. */
    function UserPresets(): map<string, ValDict>
    {
      if sysName in userPresetsDict then userPresetsDict[sysName] else map[]
    }

    /** This system's user presets replaced by `user`. */
    function WithUser(user: map<string, ValDict>): (r: Presets)
      ensures r.UserPresets() == user
      ensures r == this.(userPresetsDict := r.userPresetsDict) && r.userPresetsDict.Keys == userPresetsDict.Keys + {sysName}
      ensures forall s :: s in userPresetsDict && s != sysName ==> r.userPresetsDict[s] == userPresetsDict[s]
    {
      this.(userPresetsDict := userPresetsDict[sysName := user])
    }
  }

  /** `setStdPresets`: None counts as no presets; a current standard preset
      that is no longer there is forgotten. */
  function SetStdPresets(p: Presets, std: Option<map<string, ValDict>>): (r: Presets)
    ensures r.stdPresets == (if std.Some? then std.value else map[])
    ensures r.userPresetsDict == p.userPresetsDict && r.sysName == p.sysName
    ensures r.currName != "" && !r.currIsUser ==> r.currName in r.stdPresets
    ensures p.currName == "" || p.currIsUser || p.currName in r.stdPresets ==> (r.currName, r.currIsUser) == (p.currName, p.currIsUser)
  {
    var newStd := if std.Some? then std.value else map[];
    if p.currName != "" && !p.currIsUser && p.currName !in newStd then p.(stdPresets := newStd, currName := "", currIsUser := false)
    else p.(stdPresets := newStd)
  }

  /** `_doSave` with the name the dialog returned: nothing for an empty name;
      otherwise the current values are stored under it, replacing a user
      preset of that name. */
  function DoSave(p: Presets, newName: string, currVals: ValDict): (r: Presets)
    ensures newName == "" ==> r == p
    ensures newName != "" ==> r.UserPresets() == p.UserPresets()[newName := currVals]
    ensures r.stdPresets == p.stdPresets && r.currName == p.currName && r.currIsUser == p.currIsUser
    ensures forall s :: s != p.sysName && s in p.userPresetsDict ==> s in r.userPresetsDict && r.userPresetsDict[s] == p.userPresetsDict[s]
  {
    if newName == "" then p else p.WithUser(p.UserPresets()[newName := currVals])
  }

  /** `_doRename` with the dialog's answer: nothing for None; KeyError if the
      old name is not a user preset; otherwise the preset moves to the new
      name, and the current name follows it. */
  function DoRename(p: Presets, oldNew: Option<(string, string)>): (r: Result<Presets>)
    ensures oldNew.None? ==> r == Ok(p)
    ensures oldNew.Some? ==> (r.Err? <==> oldNew.value.0 !in p.UserPresets())
    ensures r.Err? ==> r.error == KeyError
    ensures oldNew.Some? && r.Ok? ==> var (oldName, newName) := oldNew.value;
              r.value.UserPresets() == (p.UserPresets() - {oldName})[newName := p.UserPresets()[oldName]] &&
              r.value.currName == (if p.currName == oldName then newName else p.currName) &&
              r.value.currIsUser == p.currIsUser && r.value.stdPresets == p.stdPresets
    ensures r.Ok? ==> r.value.sysName == p.sysName && r.value.userPresetsDict.Keys <= p.userPresetsDict.Keys + {p.sysName}
    ensures r.Ok? ==> forall s :: s in p.userPresetsDict && s != p.sysName ==> s in r.value.userPresetsDict && r.value.userPresetsDict[s] == p.userPresetsDict[s]
  {
    if oldNew.None? then Ok(p)
    else
      var (oldName, newName) := oldNew.value;
      var user := p.UserPresets();
      if oldName !in user then Err(KeyError)
      else
        var p1 := p.WithUser((user - {oldName})[newName := user[oldName]]);
        Ok(if p.currName == oldName then p1.(currName := newName) else p1)
  }

  /** `_doDelete` with the dialog's answer: nothing for an empty name;
      KeyError if it is not a user preset; otherwise only that preset goes,
      and the current name is cleared if it was that one. */
  function DoDelete(p: Presets, name: string): (r: Result<Presets>)
    ensures name == "" ==> r == Ok(p)
    ensures name != "" ==> (r.Err? <==> name !in p.UserPresets())
    ensures r.Err? ==> r.error == KeyError
    ensures name != "" && r.Ok? ==>
              r.value.UserPresets() == p.UserPresets() - {name} &&
              (r.value.currName, r.value.currIsUser) == (if p.currName == name then ("", false) else (p.currName, p.currIsUser)) &&
              r.value.stdPresets == p.stdPresets
    ensures r.Ok? ==> r.value.sysName == p.sysName && r.value.userPresetsDict.Keys <= p.userPresetsDict.Keys + {p.sysName}
    ensures r.Ok? ==> forall s :: s in p.userPresetsDict && s != p.sysName ==> s in r.value.userPresetsDict && r.value.userPresetsDict[s] == p.userPresetsDict[s]
  {
    if name == "" then Ok(p)
    else if name !in p.UserPresets() then Err(KeyError)
    else
      var p1 := p.WithUser(p.UserPresets() - {name});
      Ok(if p.currName == name then p1.(currName := "", currIsUser := false) else p1)
  }

  /** Renaming a preset and renaming it back gives back the user presets,
      when the new name was free. */
  lemma RenameBack(p: Presets, oldName: string, newName: string)
    requires oldName in p.UserPresets() && newName !in p.UserPresets()
    ensures var r1 := DoRename(p, Some((oldName, newName)));
            r1.Ok? && DoRename(r1.value, Some((newName, oldName))).Ok? &&
            DoRename(r1.value, Some((newName, oldName))).value.UserPresets() == p.UserPresets()
  {
    var user := p.UserPresets();
    var moved := (user - {oldName})[newName := user[oldName]];
    var back := (moved - {newName})[oldName := moved[newName]];
    assert back == user;
  }

  /** Saving under a new name and deleting it gives back the user presets. */
  lemma SaveThenDelete(p: Presets, name: string, currVals: ValDict)
    requires name != "" && name !in p.UserPresets()
    ensures DoDelete(DoSave(p, name, currVals), name).Ok?
    ensures DoDelete(DoSave(p, name, currVals), name).value.UserPresets() == p.UserPresets()
  {
    assert p.UserPresets()[name := currVals] - {name} == p.UserPresets();
  }

  // ---------------------------------------------------------------------
  // _getCurrPreset
  // ---------------------------------------------------------------------

  /** The first user preset, in dict order, that is non-empty and equal to
      the current values. */
  function FirstUserMatch(user: map<string, ValDict>, currVals: ValDict, order: seq<string>): (r: Option<string>)
    requires forall n :: n in order ==> n in user
    ensures r.Some? ==> r.value in order && user[r.value] != map[] && user[r.value] == currVals
    ensures r.None? ==> forall n :: n in order ==> user[n] == map[] || user[n] != currVals
  {
    if order == [] then None
    else if user[order[0]] != map[] && user[order[0]] == currVals then Some(order[0])
    else FirstUserMatch(user, currVals, order[1..])
  }

  /** The first standard preset, in dict order, that is a sub-dict of the
      current values (an empty preset always is); KeyError if `isSubDict`
      raises first. */
  function FirstStdMatch(std: map<string, ValDict>, currVals: ValDict, order: seq<string>): (r: Result<Option<string>>)
    requires forall n :: n in order ==> n in std
    ensures r.Ok? && r.value.Some? ==> r.value.value in order && SubMap(std[r.value.value], currVals)
    ensures r.Ok? && r.value.None? ==> forall n :: n in order ==> IsSubDict(std[n], currVals) == Ok(false)
    ensures r.Err? ==> r.error == KeyError && exists n :: n in order && IsSubDict(std[n], currVals).Err?
  {
    if order == [] then Ok(None)
    else match IsSubDict(std[order[0]], currVals)
      case Err(e) => Err(e)
      case Ok(true) => Ok(Some(order[0]))
      case Ok(false) => FirstStdMatch(std, currVals, order[1..])
  }

  /** Whether the current preset still matches: a user preset exactly, a
      standard one as a sub-dict; either must exist and be non-empty. */
  function CurrentStillMatches(p: Presets, currVals: ValDict): (r: Result<bool>)
    ensures r.Ok? && r.value ==> (p.currName != "" &&
              if p.currIsUser then p.currName in p.UserPresets() && p.UserPresets()[p.currName] == currVals
               else p.currName in p.stdPresets && SubMap(p.stdPresets[p.currName], currVals))
    ensures r.Err? ==> r.error == KeyError
  {
    if p.currName == "" then Ok(false)
    else if p.currIsUser then
      Ok(p.currName in p.UserPresets() && p.UserPresets()[p.currName] != map[] && p.UserPresets()[p.currName] == currVals)
    else if p.currName !in p.stdPresets || p.stdPresets[p.currName] == map[] then Ok(false)
    else IsSubDict(p.stdPresets[p.currName], currVals)
  }

  /** `_getCurrPreset`: the current preset if it still matches, else the
      first matching user preset, else the first matching standard preset,
      else (None, False). `userOrder` and `stdOrder` are the dicts' orders. */
  function GetCurrPreset(p: Presets, currVals: ValDict, userOrder: seq<string>, stdOrder: seq<string>): (r: Result<(Option<string>, bool)>)
    requires Distinct(userOrder) && forall n :: n in userOrder <==> n in p.UserPresets()
    requires Distinct(stdOrder) && forall n :: n in stdOrder <==> n in p.stdPresets
    ensures r.Ok? && r.value.0.Some? && r.value.1 ==> r.value.0.value in p.UserPresets() && p.UserPresets()[r.value.0.value] == currVals
    ensures r.Ok? && r.value.0.Some? && !r.value.1 ==> r.value.0.value in p.stdPresets && SubMap(p.stdPresets[r.value.0.value], currVals)
    ensures r.Ok? && r.value.0.None? ==> !r.value.1
    ensures CurrentStillMatches(p, currVals) == Ok(true) ==> r == Ok((Some(p.currName), p.currIsUser))
    ensures r.Err? ==> r.error == KeyError
  {
    match CurrentStillMatches(p, currVals)
    case Err(e) => Err(e)
    case Ok(true) => Ok((Some(p.currName), p.currIsUser))
    case Ok(false) =>
      match FirstUserMatch(p.UserPresets(), currVals, userOrder)
      case Some(n) => Ok((Some(n), true))
      case None =>
        match FirstStdMatch(p.stdPresets, currVals, stdOrder)
        case Err(e) => Err(e)
        case Ok(Some(n)) => Ok((Some(n), false))
        case Ok(None) => Ok((None, false))
  }

  /** When nothing matches, no non-empty user preset equals the current
      values and no standard preset is a sub-dict of them. */
  lemma NoMatchMeansNone(p: Presets, currVals: ValDict, userOrder: seq<string>, stdOrder: seq<string>)
    requires Distinct(userOrder) && forall n :: n in userOrder <==> n in p.UserPresets()
    requires Distinct(stdOrder) && forall n :: n in stdOrder <==> n in p.stdPresets
    requires GetCurrPreset(p, currVals, userOrder, stdOrder) == Ok((None, false))
    ensures forall n :: n in p.UserPresets() && p.UserPresets()[n] != map[] ==> p.UserPresets()[n] != currVals
    ensures forall n :: n in p.stdPresets ==> !SubMap(p.stdPresets[n], currVals)
  {
  }

  // ---------------------------------------------------------------------
  // Names
  // ---------------------------------------------------------------------

  /** `_getUserPresetNames` and `_getStdPresetNames`: sorted names. The menu
      lists the user names first, then the standard names. */
  function MenuNames(p: Presets): (r: (seq<string>, seq<string>))
    ensures Sorted(r.0) && Distinct(r.0) && forall n :: n in r.0 <==> n in p.UserPresets()
    ensures Sorted(r.1) && Distinct(r.1) && forall n :: n in r.1 <==> n in p.stdPresets
  {
    (SortedSet(p.UserPresets().Keys), SortedSet(p.stdPresets.Keys))
  }

  /** `RenameDialog.setResult`: the pair of names when both are non-empty
      and they differ, else None. */
  function RenameResult(oldName: string, newName: string): (r: Option<(string, string)>)
    ensures r.Some? <==> oldName != "" && newName != "" && oldName != newName
    ensures r.Some? ==> r.value == (oldName, newName)
  {
    if oldName != "" && newName != "" && oldName != newName then Some((oldName, newName)) else None
  }
}
