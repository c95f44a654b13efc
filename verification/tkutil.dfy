/** `RO.TkUtil`: the `Geometry` value (a Tk geometry string parsed,
    constrained to the screen and formatted again) and the one-shot `Timer`.
    The screen extent and the platform's minimum corner are parameters; the
    Tk event loop behind `Timer` is reduced to its pending entry. */
module TkUtil {
  import opened Wrappers
  import opened StrUtil

  /** A window geometry: offset, whether each offset is measured from the
      bottom/right ("flipped"), and the extent, if known. */
  datatype Geometry = Geometry(offset: (int, int), offsetFlipped: (bool, bool), extent: Option<(int, int)>)
  {
    /** `hasExtent` */
    predicate HasExtent()
    {
      extent.Some?
    }
  }

  /** The constructor: RuntimeError unless offset and offsetFlipped have two
      values and the extent is None or has two values; an extent with a None
      in it is unknown. */
  function MakeGeometry(offset: seq<int>, offsetFlipped: seq<bool>, extent: Option<seq<Option<int>>>): (r: Result<Geometry>)
    ensures r.Ok? <==> |offset| == 2 && |offsetFlipped| == 2 && (extent.Some? ==> |extent.value| == 2)
    ensures r.Err? ==> r.error == RuntimeError
    ensures r.Ok? ==> r.value.offset == (offset[0], offset[1]) && r.value.offsetFlipped == (offsetFlipped[0], offsetFlipped[1])
    ensures r.Ok? ==> (r.value.HasExtent() <==> extent.Some? && extent.value[0].Some? && extent.value[1].Some?)
    ensures r.Ok? && r.value.HasExtent() ==> r.value.extent.value == (extent.value[0].value, extent.value[1].value)
  {
    if |offset| != 2 then Err(RuntimeError)
    else if |offsetFlipped| != 2 then Err(RuntimeError)
    else if extent.Some? && |extent.value| != 2 then Err(RuntimeError)
    else
      var ext := if extent.None? || extent.value[0].None? || extent.value[1].None? then None
                 else Some((extent.value[0].value, extent.value[1].value));
      Ok(Geometry((offset[0], offset[1]), (offsetFlipped[0], offsetFlipped[1]), ext))
  }

  // ---------------------------------------------------------------------
  // Parsing: the pattern  ((\d+)x(\d+))?([+-])(-?\d+)([+-])(-?\d+)$
  // matched from the start, ignoring case.
  // ---------------------------------------------------------------------

  /** The length of the run of digits at the start of `s`. */
  function LeadingDigits(s: string): (n: nat)
    ensures n <= |s|
  {
    if s == [] || !IsDigit(s[0]) then 0
    else LeadingDigits(s[1..]) + 1
  }

  /** The run is all digits and ends at a non-digit or the end of `s`. */
  lemma {:induction false} LeadingDigitsRun(s: string)
    ensures AllDigits(s[..LeadingDigits(s)])
    ensures LeadingDigits(s) < |s| ==> !IsDigit(s[LeadingDigits(s)])
  {
    if s != [] && IsDigit(s[0]) {
      var n := LeadingDigits(s[1..]);
      LeadingDigitsRun(s[1..]);
      assert s[..n + 1] == [s[0]] + s[1..][..n];
    }
  }

  /** `-?\d+` at the start of `s`: its value and length. */
  function ParseSigned(s: string): (r: Option<(int, nat)>)
    ensures r.Some? ==> 0 < r.value.1 <= |s|
  {
    if s != [] && s[0] == '-' then
      var n := LeadingDigits(s[1..]);
      LeadingDigitsRun(s[1..]);
      var v: int := 0 - DigitsValue(s[1..][..n]);
      if n == 0 then None else Some((v, n + 1))
    else
      var n := LeadingDigits(s);
      LeadingDigitsRun(s);
      if n == 0 then None else Some((DigitsValue(s[..n]), n))
  }

  /** `_flippedFromChar`: '-' is flipped, '+' is not, anything else fails. */
  function FlippedFromChar(c: char): (r: Option<bool>)
    ensures r.Some? <==> c == '+' || c == '-'
    ensures r == Some(true) <==> c == '-'
  {
    if c == '-' then Some(true) else if c == '+' then Some(false) else None
  }

  /** The position part: sign, offset, sign, offset, to the end of `s`. */
  function ParsePosition(s: string): (r: Option<((bool, bool), (int, int))>)
  {
    if s == [] || FlippedFromChar(s[0]).None? then None
    else match ParseSigned(s[1..])
      case None => None
      case Some((x, k)) =>
        var rest := s[1 + k..];
        if rest == [] || FlippedFromChar(rest[0]).None? then None
        else match ParseSigned(rest[1..])
          case None => None
          case Some((y, k2)) =>
            if 1 + k2 != |rest| then None
            else Some(((FlippedFromChar(s[0]).value, FlippedFromChar(rest[0]).value), (x, y)))
  }

  /** The text the pattern must cover: `$` also matches just before a final
      newline. */
  function MatchBody(s: string): (b: string)
    ensures b == s || b + "\n" == s
  {
    if s != [] && s[|s| - 1] == '\n' then s[..|s| - 1] else s
  }

  /** The optional `(\d+)x(\d+)` group at the start of `body`: the extent
      and the text after it, or no extent and all of `body`. */
  function SplitExtent(body: string): (r: (Option<(int, int)>, string))
    ensures r.0.None? ==> r.1 == body
    ensures |r.1| <= |body| && r.1 == body[|body| - |r.1|..]
  {
    var n := LeadingDigits(body);
    var m := if 0 < n < |body| && body[n] in "xX" then LeadingDigits(body[n + 1..]) else 0;
    if m > 0 then
      LeadingDigitsRun(body);
      LeadingDigitsRun(body[n + 1..]);
      (Some((DigitsValue(body[..n]), DigitsValue(body[n + 1..][..m]))), body[n + 1 + m..])
    else (None, body)
  }

  /** `fromTkStr`: RuntimeError unless the pattern matches. */
  function FromTkStr(s: string): (r: Result<Geometry>)
    ensures r.Err? ==> r.error == RuntimeError
  {
    var (ext, pos) := SplitExtent(MatchBody(s));
    match ParsePosition(pos)
    case None => Err(RuntimeError)
    case Some((flipped, offset)) => Ok(Geometry(offset, flipped, ext))
  }

  // ---------------------------------------------------------------------
  // Formatting
  // ---------------------------------------------------------------------

  /** `_signStrFromValue` as written: it is given the flipped flag, a bool,
      and a bool is never below zero, so the sign is always '+'. */
  function SignStrAsWritten(flipped: bool): char
  {
    '+'
  }

  /** The sign `fromTkStr` reads back as the given flag. */
  function SignStr(flipped: bool): (r: char)
    ensures FlippedFromChar(r) == Some(flipped)
  {
    if flipped then '-' else '+'
  }

  /** The position part, with the given sign convention. */
  function PosStr(g: Geometry, sign: bool -> char): string
  {
    [sign(g.offsetFlipped.0)] + IntToString(g.offset.0) + [sign(g.offsetFlipped.1)] + IntToString(g.offset.1)
  }

  /** `toTkStr` with a given sign convention: RuntimeError if the extent is
      demanded but unknown; the extent is included when demanded, or, when
      `includeExtent` is None, when it is known. */
  function Format(g: Geometry, includeExtent: Option<bool>, sign: bool -> char): (r: Result<string>)
    ensures r.Err? <==> includeExtent == Some(true) && !g.HasExtent()
    ensures r.Err? ==> r.error == RuntimeError
    ensures r.Ok? && includeExtent.GetOr(g.HasExtent()) ==>
              r.value == IntToString(g.extent.value.0) + "x" + IntToString(g.extent.value.1) + PosStr(g, sign)
    ensures r.Ok? && !includeExtent.GetOr(g.HasExtent()) ==> r.value == PosStr(g, sign)
  {
    var withExtent := if includeExtent.None? then g.HasExtent() else includeExtent.value;
    if withExtent && !g.HasExtent() then Err(RuntimeError)
    else if withExtent then Ok(IntToString(g.extent.value.0) + "x" + IntToString(g.extent.value.1) + PosStr(g, sign))
    else Ok(PosStr(g, sign))
  }

  /** `toTkStr` as written: since every sign comes out '+', a geometry is
      formatted as the intended `toTkStr` formats it with neither offset
      flipped. */
  function ToTkStr(g: Geometry, includeExtent: Option<bool>): (r: Result<string>)
    ensures r == ToTkStrFixed(g.(offsetFlipped := (false, false)), includeExtent)
  {
    var g0 := g.(offsetFlipped := (false, false));
    assert PosStr(g, SignStrAsWritten) == PosStr(g0, SignStr);
    Format(g, includeExtent, SignStrAsWritten)
  }

  /** `toTkStr` with the sign taken from the flipped flag, as intended: what
      it writes (with a non-negative extent, when written) `fromTkStr` reads
      back as the geometry, less its extent when that is left out. */
  function ToTkStrFixed(g: Geometry, includeExtent: Option<bool>): (r: Result<string>)
    ensures r.Err? <==> includeExtent == Some(true) && !g.HasExtent()
    ensures r.Ok? && (g.HasExtent() ==> g.extent.value.0 >= 0 && g.extent.value.1 >= 0) ==>
              FromTkStr(r.value) == Ok(if includeExtent.GetOr(g.HasExtent()) then g else g.(extent := None))
  {
    var r := Format(g, includeExtent, SignStr);
    if r.Ok? && (g.HasExtent() ==> g.extent.value.0 >= 0 && g.extent.value.1 >= 0) then
      FromTkStrOfFormat(g, includeExtent, SignStr);
      assert ReadBack(g, includeExtent, SignStr) == (if includeExtent.GetOr(g.HasExtent()) then g else g.(extent := None)) by {
        assert SignStr(g.offsetFlipped.0) == '-' <==> g.offsetFlipped.0;
        assert SignStr(g.offsetFlipped.1) == '-' <==> g.offsetFlipped.1;
      }
      r
    else r
  }

  // ---------------------------------------------------------------------
  // Parsing what was formatted
  // ---------------------------------------------------------------------

  lemma {:induction false} LeadingDigitsOf(d: string, t: string)
    requires AllDigits(d) && (t == [] || !IsDigit(t[0]))
    ensures LeadingDigits(d + t) == |d|
  {
    if d != [] {
      assert (d + t)[1..] == d[1..] + t;
      LeadingDigitsOf(d[1..], t);
    } else {
      assert d + t == t;
    }
  }

  lemma ParseNatOf(n: nat, t: string)
    requires t == [] || !IsDigit(t[0])
    ensures ParseSigned(NatToString(n) + t) == Some((n, |NatToString(n)|))
  {
    var d := NatToString(n);
    var s := d + t;
    assert s[0] != '-' by {
      assert IsDigit(d[0]) && s[0] == d[0];
    }
    LeadingDigitsOf(d, t);
    assert s[..|d|] == d;
    DigitsValueOfNatToString(n);
  }

  lemma ParseNegOf(n: nat, t: string)
    requires n > 0 && (t == [] || !IsDigit(t[0]))
    ensures ParseSigned("-" + NatToString(n) + t) == Some((0 - n, 1 + |NatToString(n)|))
  {
    var d := NatToString(n);
    var s := "-" + d + t;
    assert s[0] == '-';
    assert s[1..] == d + t;
    LeadingDigitsOf(d, t);
    assert s[1..][..|d|] == d;
    DigitsValueOfNatToString(n);
  }

  lemma ParseSignedOf(i: int, t: string)
    requires t == [] || !IsDigit(t[0])
    ensures ParseSigned(IntToString(i) + t) == Some((i, |IntToString(i)|))
  {
    if i < 0 {
      ParseNegOf(-i, t);
    } else {
      ParseNatOf(i, t);
    }
  }

  /** The position part is two signed numbers, each after a sign, that
      together cover the string. */
  lemma ParsePositionParts(s: string, x: int, k: nat, y: int, k2: nat)
    requires s != [] && FlippedFromChar(s[0]).Some?
    requires ParseSigned(s[1..]) == Some((x, k))
    requires 1 + k < |s| && FlippedFromChar(s[1 + k]).Some?
    requires ParseSigned(s[2 + k..]) == Some((y, k2)) && 2 + k + k2 == |s|
    ensures ParsePosition(s) == Some(((FlippedFromChar(s[0]).value, FlippedFromChar(s[1 + k]).value), (x, y)))
  {
    var rest := s[1 + k..];
    assert rest[1..] == s[2 + k..];
  }

  /** The position part reads back as the offsets and the flags its signs stand for. */
  lemma ParsePositionOf(c0: char, x: int, c1: char, y: int)
    requires c0 in "+-" && c1 in "+-"
    ensures ParsePosition([c0] + IntToString(x) + [c1] + IntToString(y)) == Some(((c0 == '-', c1 == '-'), (x, y)))
  {
    var sx, sy := IntToString(x), IntToString(y);
    var s := [c0] + sx + [c1] + sy;
    var k := |sx|;
    assert s[1..] == sx + ([c1] + sy);
    ParseSignedOf(x, [c1] + sy);
    assert s[1 + k] == c1;
    assert s[2 + k..] == sy + [];
    ParseSignedOf(y, []);
    ParsePositionParts(s, x, k, y, |sy|);
  }

  /** A formatting sign convention: one character, '+' or '-'. */
  predicate SignConvention(sign: bool -> char)
  {
    sign(false) in "+-" && sign(true) in "+-"
  }

  /** The geometry a formatted string reads back as: the flags are the ones
      the signs stand for, and the extent is there when it was written. */
  function ReadBack(g: Geometry, includeExtent: Option<bool>, sign: bool -> char): Geometry
  {
    Geometry(g.offset, (sign(g.offsetFlipped.0) == '-', sign(g.offsetFlipped.1) == '-'),
             if includeExtent.GetOr(g.HasExtent()) then g.extent else None)
  }

  /** The position string `fromTkStr` is given when the extent is left out. */
  function Position(c0: char, x: int, c1: char, y: int): string
  {
    [c0] + IntToString(x) + [c1] + IntToString(y)
  }

  lemma EndsInDigit(c0: char, x: int, c1: char, y: int)
    ensures var p := Position(c0, x, c1, y); IsDigit(p[|p| - 1])
  {
    var d := IntToString(y);
    var p := Position(c0, x, c1, y);
    assert p[|p| - 1] == d[|d| - 1];
    if y < 0 {
      assert d[|d| - 1] == NatToString(-y)[|NatToString(-y)| - 1];
    }
  }

  lemma FromTkStrOfPosition(c0: char, x: int, c1: char, y: int)
    requires c0 in "+-" && c1 in "+-"
    ensures FromTkStr(Position(c0, x, c1, y)) == Ok(Geometry((x, y), (c0 == '-', c1 == '-'), None))
  {
    var s := Position(c0, x, c1, y);
    EndsInDigit(c0, x, c1, y);
    assert MatchBody(s) == s;
    assert LeadingDigits(s) == 0;
    ParsePositionOf(c0, x, c1, y);
  }

  lemma SplitExtentOf(wd: string, hd: string, pos: string)
    requires wd != [] && hd != [] && AllDigits(wd) && AllDigits(hd)
    requires pos != [] && !IsDigit(pos[0])
    ensures SplitExtent(wd + "x" + hd + pos) == (Some((DigitsValue(wd), DigitsValue(hd))), pos)
  {
    var s := wd + "x" + hd + pos;
    var n := |wd|;
    var tail := s[n + 1..];
    assert LeadingDigits(s) == n && s[n] == 'x' by {
      assert s == wd + ("x" + (hd + pos));
      LeadingDigitsOf(wd, "x" + (hd + pos));
    }
    assert tail == hd + pos;
    assert LeadingDigits(tail) == |hd| by {
      LeadingDigitsOf(hd, pos);
    }
    assert s[..n] == wd;
    assert tail[..|hd|] == hd;
    assert s[n + 1 + |hd|..] == pos by {
      assert s[n + 1 + |hd|..] == tail[|hd|..];
    }
    SplitExtentParts(s, n, |hd|);
  }

  /** `SplitExtent` unfolded once the two digit runs are known. */
  lemma SplitExtentParts(body: string, n: nat, m: nat)
    requires n == LeadingDigits(body) && 0 < n < |body| && body[n] in "xX"
    requires m == LeadingDigits(body[n + 1..]) && m > 0
    requires AllDigits(body[..n]) && AllDigits(body[n + 1..][..m])
    ensures SplitExtent(body) == (Some((DigitsValue(body[..n]), DigitsValue(body[n + 1..][..m]))), body[n + 1 + m..])
  {
  }

  lemma FromTkStrOfSized(w: nat, h: nat, c0: char, x: int, c1: char, y: int)
    requires c0 in "+-" && c1 in "+-"
    ensures FromTkStr(NatToString(w) + "x" + NatToString(h) + Position(c0, x, c1, y)) ==
            Ok(Geometry((x, y), (c0 == '-', c1 == '-'), Some((w, h))))
  {
    var pos := Position(c0, x, c1, y);
    var s := NatToString(w) + "x" + NatToString(h) + pos;
    EndsInDigit(c0, x, c1, y);
    assert s[|s| - 1] == pos[|pos| - 1];
    assert MatchBody(s) == s;
    SplitExtentOf(NatToString(w), NatToString(h), pos);
    DigitsValueOfNatToString(w);
    DigitsValueOfNatToString(h);
    ParsePositionOf(c0, x, c1, y);
  }

  /** Whatever `Format` writes (with a non-negative extent when the extent is
      written), `fromTkStr` parses. */
  lemma FromTkStrOfFormat(g: Geometry, includeExtent: Option<bool>, sign: bool -> char)
    requires SignConvention(sign)
    requires Format(g, includeExtent, sign).Ok?
    requires g.HasExtent() ==> g.extent.value.0 >= 0 && g.extent.value.1 >= 0
    ensures FromTkStr(Format(g, includeExtent, sign).value) == Ok(ReadBack(g, includeExtent, sign))
  {
    var c0 := sign(g.offsetFlipped.0);
    var c1 := sign(g.offsetFlipped.1);
    assert c0 in "+-" && c1 in "+-" by {
      assert g.offsetFlipped.0 == false || g.offsetFlipped.0 == true;
      assert g.offsetFlipped.1 == false || g.offsetFlipped.1 == true;
    }
    assert PosStr(g, sign) == Position(c0, g.offset.0, c1, g.offset.1);
    if includeExtent.GetOr(g.HasExtent()) {
      FromTkStrOfSized(g.extent.value.0, g.extent.value.1, c0, g.offset.0, c1, g.offset.1);
    } else {
      FromTkStrOfPosition(c0, g.offset.0, c1, g.offset.1);
    }
  }

  /** As written, a formatted geometry reads back unflipped. */
  lemma RoundTripAsWritten(g: Geometry, includeExtent: Option<bool>)
    requires ToTkStr(g, includeExtent).Ok?
    requires g.HasExtent() ==> g.extent.value.0 >= 0 && g.extent.value.1 >= 0
    ensures var g0 := g.(offsetFlipped := (false, false));
            FromTkStr(ToTkStr(g, includeExtent).value) ==
            Ok(if includeExtent.GetOr(g.HasExtent()) then g0 else g0.(extent := None))
  {
  }

  /** So a geometry 10 pixels from the right edge comes back from
      `toTkStr` and `fromTkStr` as one 10 pixels from the left edge, while
      the intended signs keep it. */
  lemma FlippedGeometryIsLost()
    ensures var g := Geometry((10, 20), (true, false), None);
            FromTkStr(ToTkStr(g, None).value) == Ok(Geometry((10, 20), (false, false), None)) &&
            FromTkStr(ToTkStrFixed(g, None).value) == Ok(g)
  {
    var g := Geometry((10, 20), (true, false), None);
    RoundTripAsWritten(g, None);
  }

  /** A string with no sign in it is never a geometry. */
  lemma FromTkStrNeedsSign(s: string)
    requires forall i :: 0 <= i < |s| ==> s[i] != '+' && s[i] != '-'
    ensures FromTkStr(s) == Err(RuntimeError)
  {
    var body := MatchBody(s);
    var (ext, pos) := SplitExtent(body);
    if pos != [] {
      assert pos[0] == body[|body| - |pos|];
      assert body[|body| - |pos|] == s[|body| - |pos|];
    }
  }

  // ---------------------------------------------------------------------
  // Constraining to the screen
  // ---------------------------------------------------------------------

  /** One axis of `constrained`, as written: the extent (or `defExtent` when
      unknown) is clipped to the usable extent `screen - minCorner` when too
      large and `constrainExtent` is set; a flipped offset is turned into a
      corner; a too-large window goes to `minCorner`; otherwise a corner
      below `minCorner` is raised to it, and one that leaves the window past
      the usable extent is lowered until it fits. Result: (corner, extent). */
  function ConstrainAxis(extent: Option<int>, offset: int, flipped: bool, minCorner: int, screen: int,
                         constrainExtent: bool, defExtent: int): (r: (int, int))
    ensures var usable := screen - minCorner;
            var ext := extent.GetOr(defExtent);
            var c := if flipped then usable - (offset + ext) else offset;
            (ext > usable ==> r == (minCorner, if constrainExtent then usable else ext)) &&
            (ext <= usable ==> r.1 == ext) &&
            (ext <= usable && c < minCorner ==> r.0 == minCorner) &&
            (ext <= usable && c >= minCorner ==> r.0 <= c && r.0 + ext <= usable && (r.0 == c || r.0 + ext == usable))
  {
    var usable := screen - minCorner;
    var ext0 := if extent.None? then defExtent else extent.value;
    var tooLarge := ext0 > usable;
    var ext := if tooLarge && constrainExtent then usable else ext0;
    var corner0 := if flipped then usable - (offset + ext) else offset;
    var corner :=
      if tooLarge then minCorner
      else if corner0 < minCorner then minCorner
      else if ext + corner0 > usable then usable - ext
      else corner0;
    (corner, ext)
  }

  /** One axis of `constrained` with the corner compared against the whole
      screen: the usable extent starts at `minCorner`, so a window that fits
      in it must end by `screen`, not by `screen - minCorner`. */
  function ConstrainAxisFixed(extent: Option<int>, offset: int, flipped: bool, minCorner: int, screen: int,
                              constrainExtent: bool, defExtent: int): (r: (int, int))
    ensures var usable := screen - minCorner;
            var ext := extent.GetOr(defExtent);
            (ext > usable ==> r == (minCorner, if constrainExtent then usable else ext)) &&
            (ext <= usable ==> r.1 == ext) &&
            (ext <= usable || constrainExtent ==> minCorner <= r.0 && r.0 + r.1 <= screen)
  {
    var usable := screen - minCorner;
    var ext0 := if extent.None? then defExtent else extent.value;
    var tooLarge := ext0 > usable;
    var ext := if tooLarge && constrainExtent then usable else ext0;
    var corner0 := if flipped then screen - (offset + ext) else offset;
    var corner :=
      if tooLarge then minCorner
      else if corner0 < minCorner then minCorner
      else if ext + corner0 > screen then screen - ext
      else corner0;
    (corner, ext)
  }

  /** The fixed axis leaves a window that already lies between `minCorner`
      and the screen's edge where it is. */
  lemma ConstrainAxisFixedKeepsFitting(extent: Option<int>, offset: int, minCorner: int, screen: int,
                                       constrainExtent: bool, defExtent: int)
    requires var ext := extent.GetOr(defExtent); minCorner <= offset && offset + ext <= screen && ext <= screen - minCorner
    ensures ConstrainAxisFixed(extent, offset, false, minCorner, screen, constrainExtent, defExtent) == (offset, extent.GetOr(defExtent))
  {
  }

  /** As written, a window that fits below a 22-pixel menu bar on an
      800-pixel screen is moved up under it. */
  lemma ConstrainAxisUnderMenuBar()
    ensures ConstrainAxis(Some(770), 30, false, 22, 800, true, 50) == (8, 770)
    ensures ConstrainAxisFixed(Some(770), 30, false, 22, 800, true, 50) == (30, 770)
  {
  }

  /** `constrained`, with the screen extent and the platform's minimum
      corner as parameters: unflipped offsets always, and an unknown extent
      stays unknown. */
  function Constrained(g: Geometry, screen: (int, int), minCorner: (int, int), constrainExtent: bool, defExtent: int,
                       axis: (Option<int>, int, bool, int, int, bool, int) -> (int, int)): (r: Geometry)
    ensures r.offsetFlipped == (false, false)
    ensures r.HasExtent() <==> g.HasExtent()
    ensures var x := axis(if g.HasExtent() then Some(g.extent.value.0) else None, g.offset.0, g.offsetFlipped.0, minCorner.0, screen.0, constrainExtent, defExtent);
            var y := axis(if g.HasExtent() then Some(g.extent.value.1) else None, g.offset.1, g.offsetFlipped.1, minCorner.1, screen.1, constrainExtent, defExtent);
            r.offset == (x.0, y.0) && (g.HasExtent() ==> r.extent == Some((x.1, y.1)))
  {
    var ex := if g.HasExtent() then Some(g.extent.value.0) else None;
    var ey := if g.HasExtent() then Some(g.extent.value.1) else None;
    var x := axis(ex, g.offset.0, g.offsetFlipped.0, minCorner.0, screen.0, constrainExtent, defExtent);
    var y := axis(ey, g.offset.1, g.offsetFlipped.1, minCorner.1, screen.1, constrainExtent, defExtent);
    Geometry((x.0, y.0), (false, false), if g.HasExtent() then Some((x.1, y.1)) else None)
  }

  /** With the fixed axis, a constrained window whose extent is constrained
      lies on the screen, below and right of the minimum corner. */
  lemma ConstrainedFixedIsOnScreen(g: Geometry, screen: (int, int), minCorner: (int, int), defExtent: int)
    requires g.HasExtent()
    ensures var r := Constrained(g, screen, minCorner, true, defExtent, ConstrainAxisFixed);
            minCorner.0 <= r.offset.0 && r.offset.0 + r.extent.value.0 <= screen.0 &&
            minCorner.1 <= r.offset.1 && r.offset.1 + r.extent.value.1 <= screen.1
  {
  }

  // ---------------------------------------------------------------------
  // Timer
  // ---------------------------------------------------------------------

  /** A one-shot timer: the pending Tk `after` entry, if any (its delay in
      milliseconds and the function it will call). */
  datatype Timer<F> = Timer(pending: Option<(int, F)>)
  {
    /** `isActive` */
    predicate IsActive()
    {
      pending.Some?
    }
  }

  /** `int(0.5 + 1000.0 * sec)`: Python's `int` truncates toward zero. */
  function DelayMs(sec: real): (ms: int)
    ensures sec >= 0.0 ==> ms as real <= 0.5 + 1000.0 * sec < ms as real + 1.0
  {
    var x := 0.5 + 1000.0 * sec;
    if x >= 0.0 then x.Floor else -((-x).Floor)
  }

  /** `cancel`: True exactly when a timer was pending; none is pending after. */
  function Cancel<F>(t: Timer<F>): (r: (Timer<F>, bool))
    ensures !r.0.IsActive() && r.1 == t.IsActive()
  {
    (Timer(None), t.pending.Some?)
  }

  /** `start`: cancel any pending timer, then schedule `callFunc`. */
  function Start<F>(t: Timer<F>, sec: real, callFunc: F): (r: Timer<F>)
    ensures r.IsActive() && r.pending.value == (DelayMs(sec), callFunc)
  {
    var (cancelled, _) := Cancel(t);
    cancelled.(pending := Some((DelayMs(sec), callFunc)))
  }

  /** The Tk event loop running the pending entry: the timer becomes
      inactive, then its function is called. */
  function Fire<F>(t: Timer<F>): (r: (Timer<F>, Option<F>))
    ensures !r.0.IsActive()
    ensures t.IsActive() <==> r.1.Some?
    ensures t.IsActive() ==> r.1.value == t.pending.value.1
  {
    (Timer(None), if t.pending.Some? then Some(t.pending.value.1) else None)
  }

  /** Restarting replaces whatever was pending: only the last start fires,
      and a cancel after a start reports a pending timer exactly once. */
  lemma StartReplaces<F>(t: Timer<F>, sec1: real, f1: F, sec2: real, f2: F)
    ensures Start(Start(t, sec1, f1), sec2, f2) == Start(Timer(None), sec2, f2)
    ensures Fire(Start(Start(t, sec1, f1), sec2, f2)).1 == Some(f2)
    ensures var (c1, was1) := Cancel(Start(t, sec1, f1)); was1 && Cancel(c1) == (c1, false)
  {
  }
}
