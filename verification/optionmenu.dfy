/** `RO.Wdg.OptionMenu`: the value, default and validity rules of a Tk option
    menu. The displayed value (the Tk string variable) is a plain string field;
    the Tk menu itself, the callback list and the autoIsCurrent mode are not
    modelled. Every write of the displayed value runs the variable's trace,
    which refreshes the item-specific help text; `Show` models that. */
module OptionMenu {
  import opened Wrappers
  import MatchList

  /** A menu item: a string, or `None` for a separator. */
  type MenuItem = Option<string>

  /** The `helpText` argument of `setItems`: None, one fixed string, or a
      list with one string per item. */
  datatype HelpArg = NoHelp | FixedHelp(text: string) | HelpList(texts: seq<string>)

  /** The items as the match list sees them: separators are not strings. */
  function ToItems(items: seq<MenuItem>): (r: seq<MatchList.Item>)
    ensures |r| == |items|
    ensures forall x :: MatchList.Str(x) in r <==> Some(x) in items
  {
    if items == [] then []
    else
      var rest := ToItems(items[1..]);
      assert forall it :: it in items <==> it == items[0] || it in items[1..];
      [if items[0].Some? then MatchList.Str(items[0].value) else MatchList.NonString] + rest
  }

  /** The help dict built from an item list and an equally long help list. */
  function HelpDict(items: seq<MenuItem>, texts: seq<string>): (r: map<MenuItem, string>)
    requires |texts| == |items|
    ensures r.Keys == set i | 0 <= i < |items| :: items[i]
    decreases |items|
  {
    if items == [] then map[]
    else
      var n := |items| - 1;
      var r := HelpDict(items[..n], texts[..n])[items[n] := texts[n]];
      assert forall i :: 0 <= i < n ==> items[..n][i] == items[i];
      r
  }

  /** No later entry repeats the item at `i`. */
  predicate LastOccurrence(items: seq<MenuItem>, i: nat)
    requires i < |items|
  {
    forall j :: i < j < |items| ==> items[j] != items[i]
  }

  /** A repeated item keeps the help text of its last occurrence. */
  lemma {:induction false} HelpDictLastWins(items: seq<MenuItem>, texts: seq<string>, i: nat)
    requires |texts| == |items| && i < |items| && LastOccurrence(items, i)
    ensures items[i] in HelpDict(items, texts) && HelpDict(items, texts)[items[i]] == texts[i]
    decreases |items|
  {
    var n := |items| - 1;
    if i < n {
      assert LastOccurrence(items[..n], i) by {
        forall j | i < j < n ensures items[..n][j] != items[..n][i] {
          assert items[..n][j] == items[j];
        }
      }
      HelpDictLastWins(items[..n], texts[..n], i);
      assert items[n] != items[i];
    }
  }

  datatype Menu = Menu(
    items: seq<MenuItem>,
    display: string,
    tempValue: Option<string>,
    defValue: Option<string>,
    noneDisplay: string,
    matcher: MatchList.Matcher,
    trackDefault: bool,
    isCurrent: bool,
    helpTextDict: map<MenuItem, string>,
    fixedHelpText: Option<string>,
    helpText: Option<string>)
  {
    /** The match list is the one `setList` builds from the current items. */
    predicate Wf()
    {
      matcher == MatchList.New(ToItems(items), matcher.abbrevOK, matcher.ignoreCase)
    }

    /** `asString`: the display string of a value; None shows as noneDisplay. */
    function AsString(v: Option<string>): (r: string)
      ensures v.Some? ==> r == v.value
      ensures v.None? ==> r == noneDisplay
    {
      if v.Some? then v.value else noneDisplay
    }

    /** `asValue`: the value of a display string; noneDisplay means None
        unless it is itself an item. Showing the result gives the string back,
        and a value shown as `s` is recovered exactly when None is not
        confused with an item equal to noneDisplay. */
    function AsValue(s: string): (r: Option<string>)
      ensures r.None? <==> s == noneDisplay && Some(s) !in items
      ensures r.Some? ==> r.value == s
      ensures AsString(r) == s
      ensures forall v :: AsString(v) == s ==>
                (r == v <==> (v.None? ==> Some(noneDisplay) !in items) && (v == Some(noneDisplay) ==> Some(noneDisplay) in items))
    {
      if s == noneDisplay && Some(s) !in items then None else Some(s)
    }

    /** `expandValue`: None is valid and kept; a string is valid iff it has
        exactly one match, which replaces it; an invalid string is returned
        as given. */
    function ExpandValue(value: Option<string>): (r: (Option<string>, bool))
      ensures value.None? ==> r == (None, true)
      ensures value.Some? ==> (r.1 <==> |matcher.GetAllMatches(value.value)| == 1)
      ensures value.Some? && r.1 ==> r.0 == Some(matcher.GetAllMatches(value.value)[0])
      ensures !r.1 ==> r.0 == value
    {
      match value
      case None => (None, true)
      case Some(s) =>
        match matcher.GetUniqueMatch(s)
        case Ok(x) => (Some(x), true)
        case Err(_) => (value, false)
    }

    /** A write of the displayed value; the variable's trace then looks the
        help text up for the new value when there is item-specific help. */
    function Show(s: string): (r: Menu)
      ensures r.display == s
      ensures r.items == items && r.defValue == defValue && r.tempValue == tempValue && r.matcher == matcher
      ensures r.helpTextDict == helpTextDict && r.fixedHelpText == fixedHelpText && r.isCurrent == isCurrent
      ensures r.noneDisplay == noneDisplay && r.trackDefault == trackDefault
      ensures helpTextDict != map[] ==> r.helpText == (if Some(s) in helpTextDict then Some(helpTextDict[Some(s)]) else None)
      ensures helpTextDict == map[] ==> r.helpText == helpText
    {
      var m := this.(display := s);
      if helpTextDict == map[] then m
      else m.(helpText := if Some(s) in helpTextDict then Some(helpTextDict[Some(s)]) else None)
    }

    /** `isValid`: the displayed value is an item or the forced temporary value. */
    predicate IsValid()
    {
      Some(display) in items || (tempValue.Some? && display == tempValue.value)
    }

    /** `isDefault`: the displayed value is the default's display string. */
    predicate IsDefault()
    {
      display == AsString(defValue)
    }

    /** `getString`: the displayed value when valid, else the default (or ""). */
    function GetString(): (r: string)
      ensures IsValid() ==> r == display
      ensures !IsValid() ==> r == defValue.GetOr("")
    {
      if !IsValid() then defValue.GetOr("") else display
    }

    /** `restoreDefault`: show the default. */
    function RestoreDefault(): (r: Menu)
      ensures r.IsDefault()
      ensures r.items == items && r.defValue == defValue && r.tempValue == tempValue && r.matcher == matcher
      ensures r.noneDisplay == noneDisplay && r.trackDefault == trackDefault && r.isCurrent == isCurrent
    {
      Show(AsString(defValue))
    }
  }

  /** `set`: clears the temporary value, then expands the new value. An
      invalid value is forced valid (as the temporary value) with
      `forceValid`, raises ValueError with `doCheck` (the display unchanged),
      and is shown as given otherwise. */
  function Set(m: Menu, newValue: Option<string>, isCurrent: bool, doCheck: bool, forceValid: bool): (r: Outcome<Menu>)
    ensures var (v, ok) := m.ExpandValue(newValue);
            r.raised.Some? <==> !ok && !forceValid && doCheck
    ensures r.raised.Some? ==> r.raised == Some(ValueError) && r.value == m.(tempValue := None)
    ensures r.value.tempValue.Some? ==> forceValid && newValue.Some? && !m.ExpandValue(newValue).1 && r.value.tempValue == newValue
    ensures forceValid && !m.ExpandValue(newValue).1 ==> r.value.tempValue == newValue && r.raised.None?
    ensures r.raised.None? ==> r.value.display == m.AsString(m.ExpandValue(newValue).0) && r.value.isCurrent == isCurrent
    ensures r.value.items == m.items && r.value.defValue == m.defValue && r.value.matcher == m.matcher
    ensures r.value.noneDisplay == m.noneDisplay && r.value.trackDefault == m.trackDefault
  {
    var m1 := m.(tempValue := None);
    var (v, ok) := m1.ExpandValue(newValue);
    if !ok && !forceValid && doCheck then Outcome(m1, Some(ValueError))
    else
      var m2 := if !ok && forceValid then m1.(tempValue := Some(v.value)) else m1;
      Outcome(m2.(isCurrent := isCurrent).Show(m2.AsString(v)), None)
  }

  /** With a well-formed match list, an expanded value is one of the items. */
  lemma ExpandedIsItem(m: Menu, s: string)
    requires m.Wf()
    ensures m.ExpandValue(Some(s)).1 ==> m.ExpandValue(Some(s)).0.Some? && m.ExpandValue(Some(s)).0 in m.items
  {
    if m.ExpandValue(Some(s)).1 {
      var x := m.matcher.GetAllMatches(s)[0];
      assert x in m.matcher.GetAllMatches(s);
      var base := MatchList.Matcher(m.matcher.abbrevOK, m.matcher.ignoreCase, []);
      MatchList.MatchesOfSetList(base, ToItems(m.items), s, x);
      assert MatchList.Str(x) in ToItems(m.items);
    }
  }

  /** A string that `set` accepts without raising is valid afterwards, unless
      the call asked for neither checking nor forcing. */
  lemma SetLeavesValid(m: Menu, s: string, isCurrent: bool, doCheck: bool, forceValid: bool)
    requires m.Wf()
    requires Set(m, Some(s), isCurrent, doCheck, forceValid).raised.None?
    ensures Set(m, Some(s), isCurrent, doCheck, forceValid).value.IsValid() || (!doCheck && !forceValid)
    ensures doCheck && !forceValid ==> Set(m, Some(s), isCurrent, doCheck, forceValid).value.GetString() == Set(m, Some(s), isCurrent, doCheck, forceValid).value.display
  {
    var r := Set(m, Some(s), isCurrent, doCheck, forceValid).value;
    if m.ExpandValue(Some(s)).1 {
      ExpandedIsItem(m, s);
      assert Some(r.display) == m.ExpandValue(Some(s)).0;
    }
  }

  /** `setDefault`: expands the new default; an invalid one with `doCheck`
      raises ValueError and changes nothing. `showDefault` None means: show
      the new default iff trackDefault is set and the old default is shown. */
  function SetDefault(m: Menu, newDefValue: Option<string>, isCurrent: Option<bool>, doCheck: bool, showDefault: Option<bool>): (r: Outcome<Menu>)
    ensures r.raised.Some? <==> !m.ExpandValue(newDefValue).1 && doCheck
    ensures r.raised.Some? ==> r == Outcome(m, Some(ValueError))
    ensures r.raised.None? ==> r.value.defValue == m.ExpandValue(newDefValue).0
    ensures r.raised.None? && showDefault.GetOr(m.trackDefault && m.IsDefault()) ==> r.value.IsDefault()
    ensures r.raised.None? && !showDefault.GetOr(m.trackDefault && m.IsDefault()) ==> r.value.display == m.display
    ensures r.raised.None? ==> r.value.isCurrent == isCurrent.GetOr(m.isCurrent)
    ensures r.value.items == m.items && r.value.tempValue == m.tempValue && r.value.matcher == m.matcher
    ensures r.value.noneDisplay == m.noneDisplay && r.value.trackDefault == m.trackDefault
  {
    var (v, ok) := m.ExpandValue(newDefValue);
    if !ok && doCheck then Outcome(m, Some(ValueError))
    else
      var show := showDefault.GetOr(m.trackDefault && m.IsDefault());
      var m1 := m.(defValue := v, isCurrent := isCurrent.GetOr(m.isCurrent));
      Outcome(if show then m1.RestoreDefault() else m1.Show(m1.display), None)
  }

  /** The help-text part of `setItems`, done before anything else: it may
      raise ValueError after having cleared the help dict. */
  function SetHelp(m: Menu, items: seq<MenuItem>, help: HelpArg): (r: Outcome<Menu>)
    ensures r.raised.Some? <==> help.HelpList? && |help.texts| != |items|
    ensures r.raised.Some? ==> r.raised == Some(ValueError) && r.value.helpTextDict == map[] && r.value.fixedHelpText == None
    ensures help.NoHelp? ==> r.value.helpText == m.fixedHelpText && r.value.helpTextDict == map[]
    ensures help.FixedHelp? ==> r.value.helpText == r.value.fixedHelpText == Some(help.text) && r.value.helpTextDict == map[]
    ensures help.HelpList? && r.raised.None? ==> r.value.fixedHelpText == None && r.value.helpTextDict.Keys == set i | 0 <= i < |items| :: items[i]
    ensures r.value == m.(helpTextDict := r.value.helpTextDict, fixedHelpText := r.value.fixedHelpText, helpText := r.value.helpText)
  {
    var m1 := m.(helpTextDict := map[]);
    match help
    case NoHelp => Outcome(m1.(helpText := m1.fixedHelpText), None)
    case FixedHelp(t) => Outcome(m1.(helpText := Some(t), fixedHelpText := Some(t)), None)
    case HelpList(ts) =>
      var m2 := m1.(fixedHelpText := None);
      if |ts| != |items| then Outcome(m2, Some(ValueError))
      else Outcome(m2.(helpTextDict := HelpDict(items, ts)), None)
  }

  /** `setItems`: replace the items (only if they differ), rebuild the match
      list, null a default that is not an item (with `checkDef`), and with
      `checkCurrent` re-set the displayed value, restoring the default when
      it is no longer valid. */
  function SetItems(m: Menu, items: seq<MenuItem>, help: HelpArg, checkCurrent: bool, checkDef: bool): (r: Outcome<Menu>)
    requires m.Wf()
    ensures r.raised.Some? <==> help.HelpList? && |help.texts| != |items|
    ensures r.raised.Some? ==> r.raised == Some(ValueError) && r.value.items == m.items && r.value.display == m.display
    ensures r.value.Wf()
    ensures r.raised.None? ==> r.value.items == items
    ensures items == m.items ==> r.value.items == m.items && r.value.defValue == m.defValue && r.value.display == m.display
    ensures r.raised.None? && items != m.items && checkDef && m.defValue !in items ==> r.value.defValue == None
    ensures r.value.defValue != m.defValue ==> r.value.defValue == None && checkDef && m.defValue !in items
    ensures r.value.noneDisplay == m.noneDisplay && r.value.trackDefault == m.trackDefault && r.value.isCurrent == m.isCurrent
  {
    var h := SetHelp(m, items, help);
    if h.raised.Some? || items == m.items then h
    else
      var m3 := Recheck(Relist(h.value, items, checkDef), checkCurrent);
      Outcome(if m3.helpTextDict != map[] then m3.Show(m3.display) else m3, None)
  }

  /** The item part of `setItems`: new items, the match list rebuilt from
      them, and (with `checkDef`) a default that is no item dropped. */
  function Relist(m: Menu, items: seq<MenuItem>, checkDef: bool): (r: Menu)
    ensures r.Wf() && r.items == items
    ensures r.defValue == (if checkDef && m.defValue !in items then None else m.defValue)
    ensures r == m.(matcher := r.matcher, defValue := r.defValue, items := items)
  {
    var matcher := m.matcher.SetList(ToItems(items));
    assert matcher == MatchList.New(ToItems(items), matcher.abbrevOK, matcher.ignoreCase);
    m.(matcher := matcher,
       defValue := if checkDef && m.defValue !in items then None else m.defValue,
       items := items)
  }

  /** The `checkCurrent` part of `setItems`: re-set the displayed value,
      showing the default instead when it is no longer valid. */
  function Recheck(m: Menu, checkCurrent: bool): (r: Menu)
    requires m.Wf()
    ensures r.Wf()
    ensures r.items == m.items && r.defValue == m.defValue && r.matcher == m.matcher
    ensures r.noneDisplay == m.noneDisplay && r.trackDefault == m.trackDefault && r.isCurrent == m.isCurrent
    ensures checkCurrent ==> r.IsValid() || r.IsDefault()
    ensures checkCurrent ==> r.tempValue == None
    ensures checkCurrent && m.ExpandValue(Some(m.display)).1 ==> r.display == m.AsString(m.ExpandValue(Some(m.display)).0)
    ensures checkCurrent && !m.ExpandValue(Some(m.display)).1 ==> r.IsDefault()
    ensures !checkCurrent ==> r == m
  {
    if checkCurrent then
      var s := Set(m, Some(m.display), m.isCurrent, true, false);
      if s.raised.Some? then s.value.RestoreDefault()
      else
        SetLeavesValid(m, m.display, m.isCurrent, true, false);
        s.value
    else m
  }

  /** After `setItems` with `checkCurrent`, the displayed value is valid for
      the new items or is the default. */
  lemma SetItemsCheckCurrent(m: Menu, items: seq<MenuItem>, help: HelpArg, checkDef: bool)
    requires m.Wf()
    ensures var r := SetItems(m, items, help, true, checkDef);
            r.raised.None? && items != m.items ==> r.value.IsValid() || r.value.IsDefault()
  {
    var m3 := Recheck(Relist(SetHelp(m, items, help).value, items, checkDef), true);
    assert m3.IsValid() || m3.IsDefault();
  }

  /** The menu `setItems` re-checks: the new items and match list. */
  function Relisted(m: Menu, items: seq<MenuItem>, help: HelpArg, checkDef: bool): (r: Menu)
    ensures r.Wf() && r.items == items && r.matcher == Relist(m, items, checkDef).matcher
  {
    Relist(SetHelp(m, items, help).value, items, checkDef)
  }

  /** With `checkCurrent`, a displayed value that names exactly one of the
      new items stays, expanded to that item. */
  lemma SetItemsKeepsCurrent(m: Menu, items: seq<MenuItem>, help: HelpArg, checkDef: bool)
    requires m.Wf()
    ensures var r := SetItems(m, items, help, true, checkDef);
            var m2 := Relisted(m, items, help, checkDef);
            r.raised.None? && items != m.items && m2.ExpandValue(Some(m.display)).1 ==>
              Some(r.value.display) == m2.ExpandValue(Some(m.display)).0 && Some(r.value.display) in items
  {
    var m2 := Relisted(m, items, help, checkDef);
    if m2.ExpandValue(Some(m.display)).1 {
      ExpandedIsItem(m2, m.display);
    }
  }

  /** With `checkCurrent`, a displayed value that names no new item, or
      more than one, gives way to the default. */
  lemma SetItemsRestoresDefault(m: Menu, items: seq<MenuItem>, help: HelpArg, checkDef: bool)
    requires m.Wf()
    ensures var r := SetItems(m, items, help, true, checkDef);
            var m2 := Relisted(m, items, help, checkDef);
            r.raised.None? && items != m.items && !m2.ExpandValue(Some(m.display)).1 ==> r.value.IsDefault()
  {
  }

  /** The menu before its items and default are set. */
  function Empty(display: string, noneDisplay: string, abbrevOK: bool, ignoreCase: bool, trackDefault: bool): (m: Menu)
    ensures m.Wf() && m.items == [] && m.display == display && m.noneDisplay == noneDisplay && m.trackDefault == trackDefault
    ensures m.matcher.abbrevOK == abbrevOK && m.matcher.ignoreCase == ignoreCase
  {
    assert ToItems([]) == [];
    Menu([], display, None, None, noneDisplay, MatchList.New([], abbrevOK, ignoreCase), trackDefault, true, map[], None, None)
  }

  /** The constructor: an empty menu with a fresh or given string variable,
      then `setItems` (no checks) and `setDefault` with doCheck. The new
      default is shown unless a variable was given and no default. */
  function New(items: seq<MenuItem>, initial: Option<string>, defValue: Option<string>, noneDisplay: string,
               help: HelpArg, abbrevOK: bool, ignoreCase: bool, autoIsCurrent: bool,
               trackDefault: Option<bool>, isCurrent: bool): (r: Outcome<Menu>)
    ensures r.value.Wf()
    ensures r.raised.Some? <==> (help.HelpList? && |help.texts| != |items|) || (defValue.Some? && |r.value.matcher.GetAllMatches(defValue.value)| != 1)
    ensures r.raised.None? ==> r.value.items == items && r.value.isCurrent == isCurrent && r.value.noneDisplay == noneDisplay
    ensures r.raised.None? && (initial.None? || defValue.Some?) ==> r.value.IsDefault()
    ensures r.value.trackDefault == trackDefault.GetOr(autoIsCurrent)
  {
    var m0 := Empty(initial.GetOr(""), noneDisplay, abbrevOK, ignoreCase, trackDefault.GetOr(autoIsCurrent));
    var showDefault := !(initial.Some? && defValue.None?);
    var s := SetItems(m0, items, help, false, false);
    if s.raised.Some? then s
    else
      var m1 := s.value;
      assert m1.Wf() && m1.items == items && m1.trackDefault == m0.trackDefault && m1.noneDisplay == noneDisplay;
      SetDefault(m1, defValue, Some(isCurrent), true, Some(showDefault))
  }
}
