/** Path helpers of `RO.OS.OSUtil`: `removeDupPaths`, `splitPath` and
    `_nameMatch`, over POSIX paths. `expandPath` and `fnmatch.fnmatch` are
    parameters. */
module OSUtil {
  import opened StrUtil

  const Sep: char := '/'

  predicate AllChar(s: string, c: char)
  {
    forall i :: 0 <= i < |s| ==> s[i] == c
  }

  /** `s.rfind(c)`: the last position of `c`, or -1. */
  function RFind(s: string, c: char): (r: int)
    ensures -1 <= r < |s|
    ensures r >= 0 ==> s[r] == c
    ensures NoChar(s[r + 1..], c)
  {
    var r := RFindBelow(s, c, |s|);
    NoCharAbove(s, c, r);
    r
  }

  lemma NoCharAbove(s: string, c: char, r: int)
    requires -1 <= r < |s|
    requires forall j :: r < j < |s| ==> s[j] != c
    ensures NoChar(s[r + 1..], c)
  {
    var t := s[r + 1..];
    forall i | 0 <= i < |t| ensures t[i] != c {
      assert t[i] == s[r + 1 + i];
    }
  }

  /** The last position of `c` before `n`, or -1. */
  function RFindBelow(s: string, c: char, n: nat): (r: int)
    requires n <= |s|
    ensures -1 <= r < n
    ensures r >= 0 ==> s[r] == c
    ensures forall j :: r < j < n ==> s[j] != c
  {
    if n == 0 then -1
    else if s[n - 1] == c then n - 1
    else RFindBelow(s, c, n - 1)
  }

  /** `s.rstrip(c)` */
  function RStripChar(s: string, c: char): (r: string)
    ensures |r| <= |s| && r == s[..|r|]
    ensures r == [] || r[|r| - 1] != c
    ensures AllChar(s[|r|..], c)
  {
    if s != [] && s[|s| - 1] == c then
      var r := RStripChar(s[..|s| - 1], c);
      assert s[|r|..] == s[..|s| - 1][|r|..] + [c];
      r
    else s
  }

  /** POSIX `os.path.split`: the tail is everything after the last '/'; the
      head is everything up to it, with trailing '/'s removed unless the head
      consists only of '/'s. */
  function PosixSplit(p: string): (r: (string, string))
    ensures |r.0| + |r.1| <= |p|
    ensures NoChar(r.1, Sep)
    ensures r.1 == p[|p| - |r.1|..]
    ensures r.0 == p[..|r.0|]
  {
    var i := RFind(p, Sep) + 1;
    var head := p[..i];
    var tail := p[i..];
    if head != [] && !AllChar(head, Sep) then (RStripChar(head, Sep), tail) else (head, tail)
  }

  /** `os.path.basename` */
  function Basename(p: string): string
  {
    PosixSplit(p).1
  }

  /** The final piece `splitPath` emits once the head or the tail is empty:
      the non-empty one, less one trailing '/', and nothing if that is empty. */
  function LastPiece(head: string, tail: string): (r: seq<string>)
    ensures |r| <= 1 && NonEmptyPieces(r)
  {
    var end := if head != [] then head else tail;
    var end' := if EndsWith(end, [Sep]) then end[..|end| - 1] else end;
    if end' != [] then [end'] else []
  }

  /** `splitPath` as a recursive definition: the pieces in left-to-right order. */
  function SplitPath(path: string): (r: seq<string>)
    ensures NonEmptyPieces(r)
    decreases |path|
  {
    var parts := PosixSplit(path);
    if parts.0 == [] || parts.1 == [] then LastPiece(parts.0, parts.1)
    else
      assert |parts.0| < |path|;
      SplitPath(parts.0) + [parts.1]
  }

  predicate NonEmptyPieces(pieces: seq<string>)
  {
    forall i :: 0 <= i < |pieces| ==> pieces[i] != []
  }

  function Reverse<T>(s: seq<T>): (r: seq<T>)
    ensures |r| == |s|
    ensures forall i :: 0 <= i < |s| ==> r[i] == s[|s| - 1 - i]
  {
    if s == [] then [] else Reverse(s[1..]) + [s[0]]
  }

  lemma ReverseAppend<T>(a: seq<T>, b: seq<T>)
    ensures Reverse(a + b) == Reverse(b) + Reverse(a)
  {
    var l, r := Reverse(a + b), Reverse(b) + Reverse(a);
    assert |l| == |r|;
    forall i | 0 <= i < |l| ensures l[i] == r[i] {
      if i < |b| {
        assert l[i] == (a + b)[|a| + |b| - 1 - i] == b[|b| - 1 - i];
      } else {
        assert l[i] == (a + b)[|a| + |b| - 1 - i] == a[|a| - 1 - (i - |b|)];
      }
    }
  }

  /** `splitPath` as the source computes it: pieces are appended from the
      right end and the list is reversed at the end. */
  method SplitPathLoop(path0: string) returns (pathList: seq<string>)
    ensures pathList == SplitPath(path0)
  {
    var path := path0;
    var backwards: seq<string> := [];
    while true
      invariant SplitPath(path0) == SplitPath(path) + Reverse(backwards)
      decreases |path|
    {
      var parts := PosixSplit(path);
      var head, tail := parts.0, parts.1;
      if head == [] || tail == [] {
        var last := LastPiece(head, tail);
        assert SplitPath(path) == last;
        ReverseAppend(backwards, last);
        assert Reverse(last) == last by {
          assert |last| <= 1;
        }
        backwards := backwards + last;
        break;
      }
      assert SplitPath(path) == SplitPath(head) + [tail];
      ReverseAppend(backwards, [tail]);
      assert Reverse([tail]) == [tail];
      backwards := backwards + [tail];
      path := head;
    }
    pathList := Reverse(backwards);
  }

  /** Non-empty names without a '/'. */
  predicate PlainNames(names: seq<string>)
  {
    forall i :: 0 <= i < |names| ==> names[i] != [] && NoChar(names[i], Sep)
  }

  /** Joining slash-free, non-empty names with '/' and splitting again gives
      the names back. */
  lemma {:induction false} SplitPathOfJoin(names: seq<string>)
    requires names != [] && PlainNames(names)
    ensures SplitPath(Join([Sep], names)) == names
    decreases |names|
  {
    if |names| == 1 {
      var name := names[0];
      assert SplitPath(name) == [name] by {
        PosixSplitOfName(name);
        assert !EndsWith(name, [Sep]) by {
          assert name[|name| - 1] != Sep;
        }
      }
    } else {
      var front := names[..|names| - 1];
      var last := names[|names| - 1];
      assert SplitPath(Join([Sep], front + [last])) == front + [last] by {
        assert PlainNames(front);
        SplitPathOfJoin(front);
        SplitPathJoinStep(front, last);
      }
      assert names == front + [last];
    }
  }

  lemma SplitPathJoinStep(front: seq<string>, last: string)
    requires front != [] && PlainNames(front)
    requires last != [] && NoChar(last, Sep)
    requires SplitPath(Join([Sep], front)) == front
    ensures SplitPath(Join([Sep], front + [last])) == front + [last]
  {
    var h := Join([Sep], front);
    var p := Join([Sep], front + [last]);
    assert p == h + [Sep] + last by {
      JoinSnoc([Sep], front, last);
    }
    assert h != [] && h[|h| - 1] != Sep by {
      JoinEndsWithLast([Sep], front);
      var lastFront := front[|front| - 1];
      assert h[|h| - 1] == lastFront[|lastFront| - 1];
    }
    PosixSplitAtLastSep(h, last);
  }

  /** The root is not a piece: `splitPath("/")` is empty. */
  lemma SplitPathOfRoot()
    ensures SplitPath([Sep]) == []
  {
    var s := [Sep];
    assert |s| == 1 && s[0] == Sep;
    assert RFind(s, Sep) == 0;
    assert s[..1] == s && AllChar(s, Sep);
    assert PosixSplit(s) == (s, []);
  }

  /** A trailing '/' stops the split: the whole path before it comes back as a
      single piece. */
  lemma SplitPathWithTrailingSep(names: seq<string>)
    requires names != [] && PlainNames(names)
    ensures SplitPath(Join([Sep], names) + [Sep]) == [Join([Sep], names)]
  {
    var j := Join([Sep], names);
    var p := j + [Sep];
    JoinEndsWithLast([Sep], names);
    assert RFind(p, Sep) == |j|;
    assert p[..|j| + 1] == p && p[|j| + 1..] == [];
    assert !AllChar(p, Sep) by {
      assert p[|j| - 1] != Sep;
    }
    assert RStripChar(p, Sep) == j by {
      assert p[..|p| - 1] == j;
    }
    assert PosixSplit(p) == (j, []);
  }

  /** `splitPath` with trailing separators removed first, so that a directory
      path written with a final '/' is split into its pieces too. */
  function SplitPathFixed(path: string): (r: seq<string>)
    ensures forall i :: 0 <= i < |r| ==> r[i] != []
  {
    var stripped := RStripChar(path, Sep);
    if stripped != [] then SplitPath(stripped) else SplitPath(path)
  }

  /** The corrected split gives the names back when the path has no
      trailing '/', as `splitPath` does. */
  lemma SplitPathFixedOfJoin(names: seq<string>)
    requires names != [] && PlainNames(names)
    ensures SplitPathFixed(Join([Sep], names)) == names
  {
    var j := Join([Sep], names);
    JoinEndsWithLast([Sep], names);
    SplitPathOfJoin(names);
    assert RStripChar(j, Sep) == j;
  }

  /** ... and also when it has one, where `splitPath` does not. */
  lemma SplitPathFixedOfJoinWithSep(names: seq<string>)
    requires names != [] && PlainNames(names)
    ensures SplitPathFixed(Join([Sep], names) + [Sep]) == names
  {
    var j := Join([Sep], names);
    JoinEndsWithLast([Sep], names);
    SplitPathOfJoin(names);
    assert RStripChar(j, Sep) == j;
    assert RStripChar(j + [Sep], Sep) == j by {
      assert (j + [Sep])[..|j + [Sep]| - 1] == j;
    }
  }


  /** A slash-free name is all tail. */
  lemma PosixSplitOfName(name: string)
    requires NoChar(name, Sep)
    ensures PosixSplit(name) == ([], name)
  {
    assert RFind(name, Sep) == -1;
    assert name[..0] == [] && name[0..] == name;
  }

  lemma PosixSplitAtLastSep(h: string, last: string)
    requires h != [] && h[|h| - 1] != Sep
    requires last != [] && NoChar(last, Sep)
    ensures PosixSplit(h + [Sep] + last) == (h, last)
  {
    var p := h + [Sep] + last;
    RFindPastSlashFree(h + [Sep], last);
    assert p[..|h| + 1] == h + [Sep] && p[|h| + 1..] == last;
    assert !AllChar(h + [Sep], Sep) by {
      assert (h + [Sep])[|h| - 1] != Sep;
    }
    assert RStripChar(h + [Sep], Sep) == h by {
      assert (h + [Sep])[..|h|] == h;
    }
  }

  lemma RFindPastSlashFree(a: string, b: string)
    requires a != [] && a[|a| - 1] == Sep && NoChar(b, Sep)
    ensures RFind(a + b, Sep) == |a| - 1
    decreases |b|
  {
    if b == [] {
      assert a + b == a;
    } else {
      assert (a + b)[..|a + b| - 1] == a + b[..|b| - 1];
      RFindPastSlashFree(a, b[..|b| - 1]);
    }
  }

  lemma JoinSnoc(sep: string, front: seq<string>, last: string)
    requires front != []
    ensures Join(sep, front + [last]) == Join(sep, front) + sep + last
    decreases |front|
  {
    if |front| == 1 {
      assert front + [last] == [front[0], last];
    } else {
      assert (front + [last])[1..] == front[1..] + [last];
      JoinSnoc(sep, front[1..], last);
    }
  }

  lemma JoinEndsWithLast(sep: string, parts: seq<string>)
    requires parts != [] && parts[|parts| - 1] != []
    ensures Join(sep, parts) != [] && Join(sep, parts)[|Join(sep, parts)| - 1] == parts[|parts| - 1][|parts[|parts| - 1]| - 1]
    decreases |parts|
  {
    if |parts| > 1 {
      JoinEndsWithLast(sep, parts[1..]);
    }
  }

  // ---------------------------------------------------------------------
  // removeDupPaths

  /** The path at position `j` is the first one with its expanded form. */
  predicate IsFirstOfClass(paths: seq<string>, expand: string -> string, j: nat)
    requires j < |paths|
  {
    forall k :: 0 <= k < j ==> expand(paths[k]) != expand(paths[j])
  }

  /** Reference definition: the first `n` paths less those whose expanded
      form already occurred, in input order. */
  function FirstOfEachClass(paths: seq<string>, expand: string -> string, n: nat): seq<string>
    requires n <= |paths|
  {
    if n == 0 then []
    else FirstOfEachClass(paths, expand, n - 1) +
         (if IsFirstOfClass(paths, expand, n - 1) then [paths[n - 1]] else [])
  }

  /** `removeDupPaths`, with `expandPath` as the parameter `expand`. */
  method RemoveDupPaths(paths: seq<string>, expand: string -> string) returns (outList: seq<string>)
    ensures outList == FirstOfEachClass(paths, expand, |paths|)
  {
    var expDict: set<string> := {};
    outList := [];
    var i := 0;
    while i < |paths|
      invariant i <= |paths|
      invariant outList == FirstOfEachClass(paths, expand, i)
      invariant expDict == set k | 0 <= k < i :: expand(paths[k])
    {
      var expPath := expand(paths[i]);
      if expPath !in expDict {
        expDict := expDict + {expPath};
        outList := outList + [paths[i]];
      }
      i := i + 1;
    }
  }

  /** Every kept path is one of the inputs. */
  lemma {:induction false} FirstOfEachClassFromInput(paths: seq<string>, expand: string -> string, n: nat)
    requires n <= |paths|
    ensures forall i :: 0 <= i < |FirstOfEachClass(paths, expand, n)| ==>
              FirstOfEachClass(paths, expand, n)[i] in paths[..n]
  {
    if n > 0 {
      FirstOfEachClassFromInput(paths, expand, n - 1);
      assert paths[..n] == paths[..n - 1] + [paths[n - 1]];
    }
  }

  predicate DistinctClasses(out: seq<string>, expand: string -> string)
  {
    forall i, j :: 0 <= i < j < |out| ==> expand(out[i]) != expand(out[j])
  }

  /** Every path of `paths` expands like some path of `out`. */
  predicate CoversClasses(out: seq<string>, paths: seq<string>, expand: string -> string)
  {
    forall k :: 0 <= k < |paths| ==> exists i :: 0 <= i < |out| && expand(out[i]) == expand(paths[k])
  }

  /** No two kept paths expand alike. */
  lemma {:induction false} FirstOfEachClassNoDuplicates(paths: seq<string>, expand: string -> string, n: nat)
    requires n <= |paths|
    ensures DistinctClasses(FirstOfEachClass(paths, expand, n), expand)
  {
    if n > 0 {
      FirstOfEachClassNoDuplicates(paths, expand, n - 1);
      FirstOfEachClassFromInput(paths, expand, n - 1);
      var prev := FirstOfEachClass(paths, expand, n - 1);
      if IsFirstOfClass(paths, expand, n - 1) {
        assert FirstOfEachClass(paths, expand, n) == prev + [paths[n - 1]];
        forall i | 0 <= i < |prev| ensures expand(prev[i]) != expand(paths[n - 1]) {
          assert prev[i] in paths[..n - 1];
          var k :| 0 <= k < n - 1 && paths[..n - 1][k] == prev[i];
          assert paths[k] == prev[i];
        }
      } else {
        assert FirstOfEachClass(paths, expand, n) == prev;
      }
    }
  }

  /** Every input's expanded form is represented by a kept path. */
  lemma {:induction false} FirstOfEachClassCovers(paths: seq<string>, expand: string -> string, n: nat)
    requires n <= |paths|
    ensures CoversClasses(FirstOfEachClass(paths, expand, n), paths[..n], expand)
  {
    if n > 0 {
      FirstOfEachClassCovers(paths, expand, n - 1);
      var prev := FirstOfEachClass(paths, expand, n - 1);
      var out := FirstOfEachClass(paths, expand, n);
      assert out == prev + (if IsFirstOfClass(paths, expand, n - 1) then [paths[n - 1]] else []);
      forall k | 0 <= k < n ensures exists i :: 0 <= i < |out| && expand(out[i]) == expand(paths[k]) {
        if k < n - 1 {
          assert paths[k] == paths[..n - 1][k];
          var i :| 0 <= i < |prev| && expand(prev[i]) == expand(paths[..n - 1][k]);
          assert out[i] == prev[i];
        } else if IsFirstOfClass(paths, expand, n - 1) {
          assert out[|out| - 1] == paths[n - 1];
        } else {
          var k0 :| 0 <= k0 < n - 1 && expand(paths[k0]) == expand(paths[n - 1]);
          assert paths[k0] == paths[..n - 1][k0];
          var i :| 0 <= i < |prev| && expand(prev[i]) == expand(paths[..n - 1][k0]);
          assert out[i] == prev[i];
        }
      }
    }
  }

  // ---------------------------------------------------------------------
  // _nameMatch

  /** `_nameMatch`, with `fnmatch.fnmatch` as the parameter `fnmatch`: the
      first include pattern the basename matches decides, by whether any
      exclude pattern matches too. */
  function NameMatch(path: string, patterns: seq<string>, exclPatterns: seq<string>, fnmatch: (string, string) -> bool): bool
  {
    NameMatchFrom(Basename(path), patterns, exclPatterns, fnmatch)
  }

  function NameMatchFrom(baseName: string, patterns: seq<string>, exclPatterns: seq<string>, fnmatch: (string, string) -> bool): (r: bool)
  {
    if patterns == [] then false
    else if fnmatch(baseName, patterns[0]) then
      !exists e :: e in exclPatterns && fnmatch(baseName, e)
    else NameMatchFrom(baseName, patterns[1..], exclPatterns, fnmatch)
  }

  /** `_nameMatch` is true iff the basename matches some include pattern and no
      exclude pattern; in particular it is false when there are no include
      patterns. */
  lemma {:induction false} NameMatchIff(path: string, patterns: seq<string>, exclPatterns: seq<string>, fnmatch: (string, string) -> bool)
    ensures var b := Basename(path);
            NameMatch(path, patterns, exclPatterns, fnmatch) <==>
              (exists p :: p in patterns && fnmatch(b, p)) && !(exists e :: e in exclPatterns && fnmatch(b, e))
  {
    NameMatchFromIff(Basename(path), patterns, exclPatterns, fnmatch);
  }

  lemma {:induction false} NameMatchFromIff(b: string, patterns: seq<string>, exclPatterns: seq<string>, fnmatch: (string, string) -> bool)
    ensures NameMatchFrom(b, patterns, exclPatterns, fnmatch) <==>
              (exists p :: p in patterns && fnmatch(b, p)) && !(exists e :: e in exclPatterns && fnmatch(b, e))
    decreases |patterns|
  {
    if patterns != [] {
      NameMatchFromIff(b, patterns[1..], exclPatterns, fnmatch);
      assert forall p :: p in patterns <==> p == patterns[0] || p in patterns[1..];
    }
  }
}
