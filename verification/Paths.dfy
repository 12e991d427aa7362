/** `normalize_path` and `basename` of asg-policy/src/rules.rs. */
module Paths {

  // ----- The stages of `normalize_path` -----

  function ToSlash(c: char): char {
    if c == '\\' then '/' else c
  }

  function Slashes(s: string): string {
    seq(|s|, i requires 0 <= i < |s| => ToSlash(s[i]))
  }

  function LowerChar(c: char): char {
    if 'A' <= c <= 'Z' then c + ('a' - 'A') else c
  }

  /** `to_ascii_lowercase`. */
  function Lower(s: string): string {
    seq(|s|, i requires 0 <= i < |s| => LowerChar(s[i]))
  }

  predicate Verbatim(p: string) {
    "//?/" <= p || "//./" <= p
  }

  function StripVerbatim(p: string): string {
    if Verbatim(p) then p[4..] else p
  }

  function StripDots(p: string): string {
    if "./" <= p then StripDots(p[2..]) else p
  }

  predicate IsAlpha(c: char) {
    'a' <= c <= 'z' || 'A' <= c <= 'Z'
  }

  predicate IsWindows(p: string) {
    "//" <= p || (|p| >= 3 && p[1] == ':' && p[2] == '/' && IsAlpha(p[0]) && '/' in p[3..])
  }

  /** The path before the decision to fold its case. */
  function Stripped(path: string): string {
    StripDots(StripVerbatim(Slashes(path)))
  }

  function Normalized(path: string): string {
    var p := Stripped(path);
    if IsWindows(p) then Lower(p) else p
  }

  method NormalizePath(path: string) returns (p: string)
    ensures p == Normalized(path)
  {
    p := Slashes(path);
    if "//?/" <= p {
      p := p[4..];
    } else if "//./" <= p {
      p := p[4..];
    }
    while "./" <= p
      invariant StripDots(p) == Stripped(path)
      decreases |p|
    {
      p := p[2..];
    }
    var hasDrivePrefix := |p| >= 3 && p[1] == ':' && p[2] == '/' && IsAlpha(p[0]);
    var hasUncPrefix := "//" <= p;
    var hasDriveWithSegments := hasDrivePrefix && '/' in p[3..];
    if hasUncPrefix || hasDriveWithSegments {
      p := Lower(p);
    }
  }

  // ----- What is stripped -----

  /** `k` times `./`. */
  function Dots(k: nat): string {
    if k == 0 then "" else "./" + Dots(k - 1)
  }

  /** `s` with every backslash turned round. */
  ghost predicate Turned(path: string, s: string) {
    |s| == |path| && forall i | 0 <= i < |s| :: s[i] == if path[i] == '\\' then '/' else path[i]
  }

  /** In front of `rest` stand `v`, a verbatim prefix if there is one, and then all copies of `./`. */
  ghost predicate Leaves(path: string, v: string, k: nat, rest: string) {
    && Turned(path, v + (Dots(k) + rest))
    && (v == "//?/" || v == "//./" || (v == "" && !("//?/" <= Dots(k) + rest) && !("//./" <= Dots(k) + rest)))
    && !("./" <= rest)
  }

  lemma OneDotStripped(p: string)
    ensures StripDots("./" + p) == StripDots(p)
  {
    assert ("./" + p)[2..] == p && "./" <= "./" + p;
  }

  lemma {:induction false} DotsStripped(k: nat, rest: string)
    requires !("./" <= rest)
    ensures StripDots(Dots(k) + rest) == rest
  {
    if k == 0 {
      assert Dots(k) + rest == rest;
    } else {
      hide StripDots;
      DotsStripped(k - 1, rest);
      OneDotStripped(Dots(k - 1) + rest);
      assert Dots(k) + rest == "./" + (Dots(k - 1) + rest);
    }
  }

  lemma {:induction false} DotsInFront(p: string) returns (k: nat)
    ensures p == Dots(k) + StripDots(p) && !("./" <= StripDots(p))
    decreases |p|
  {
    k := 0;
    if "./" <= p {
      var more := DotsInFront(p[2..]);
      k := more + 1;
      assert p == "./" + p[2..];
    }
  }

  lemma TurnedIsSlashes(path: string, s: string)
    ensures Turned(path, s) <==> s == Slashes(path)
  {
  }

  lemma StrippedLeaves(path: string) returns (v: string, k: nat)
    ensures Leaves(path, v, k, Stripped(path))
  {
    hide StripDots, Turned, Slashes;
    var s := Slashes(path);
    k := DotsInFront(StripVerbatim(s));
    v := if Verbatim(s) then s[..4] else "";
    var rest := Stripped(path);
    assert v + (Dots(k) + rest) == s;
    TurnedIsSlashes(path, s);
  }

  lemma LeavesStripped(path: string, v: string, k: nat, rest: string)
    requires Leaves(path, v, k, rest)
    ensures rest == Stripped(path)
  {
    hide StripDots, Turned, Slashes, Dots;
    TurnedIsSlashes(path, v + (Dots(k) + rest));
    VerbatimStripped(v, Dots(k) + rest);
    DotsStripped(k, rest);
  }

  lemma VerbatimStripped(v: string, p: string)
    requires v == "//?/" || v == "//./" || (v == "" && !("//?/" <= p) && !("//./" <= p))
    ensures StripVerbatim(v + p) == p
  {
    if v == "" {
      assert v + p == p;
    }
  }

  /** What is left of a path after stripping, and nothing else is. */
  lemma StrippedExactly(path: string, rest: string)
    ensures rest == Stripped(path) <==> exists v, k :: Leaves(path, v, k, rest)
  {
    hide Stripped, Leaves;
    var v, k := StrippedLeaves(path);
    if v, k :| Leaves(path, v, k, rest) {
      LeavesStripped(path, v, k, rest);
    }
  }

  /** A UNC path, or a drive letter, a colon and two separators or more. */
  ghost predicate WindowsShape(p: string) {
    "//" <= p ||
    (|p| >= 3 && ('a' <= p[0] <= 'z' || 'A' <= p[0] <= 'Z') && p[1] == ':' && p[2] == '/' &&
     exists j | 3 <= j < |p| :: p[j] == '/')
  }

  /** `q` is `p` with every capital ASCII letter made small. */
  ghost predicate MadeSmall(p: string, q: string) {
    |q| == |p| && forall i | 0 <= i < |p| :: if 'A' <= p[i] <= 'Z' then q[i] as int == p[i] as int + 32 else q[i] == p[i]
  }

  /** The normal form of a path, in terms of its characters alone. */
  lemma NormalizedExactly(path: string, p: string)
    ensures p == Normalized(path) <==>
            exists v, k, rest | Leaves(path, v, k, rest) :: if WindowsShape(rest) then MadeSmall(rest, p) else p == rest
  {
    hide Leaves, Stripped, Lower, MadeSmall, IsWindows, WindowsShape;
    ShapeIsWindows(Stripped(path));
    SmallIsLower(Stripped(path), p);
    StrippedExactly(path, Stripped(path));
    if p == Normalized(path) {
      var v, k :| Leaves(path, v, k, Stripped(path));
    }
    if v, k, rest :| Leaves(path, v, k, rest) && if WindowsShape(rest) then MadeSmall(rest, p) else p == rest {
      StrippedExactly(path, rest);
    }
  }

  lemma ShapeIsWindows(p: string)
    ensures WindowsShape(p) <==> IsWindows(p)
  {
    if |p| >= 3 {
      if j :| 3 <= j < |p| && p[j] == '/' {
        assert p[3..][j - 3] == '/';
      }
      if '/' in p[3..] {
        var i :| 0 <= i < |p[3..]| && p[3..][i] == '/';
        assert p[i + 3] == '/';
      }
    }
  }

  lemma SmallIsLower(p: string, q: string)
    ensures MadeSmall(p, q) <==> q == Lower(p)
  {
  }

  /** A `./` in front of a path makes no difference, unless it hides a verbatim prefix. */
  lemma DotSlashIgnoredExactly(path: string)
    ensures Normalized("./" + path) == Normalized(path) <==>
            !exists s | Turned(path, s) :: "//?/" <= s || "//./" <= s
  {
    hide StripDots, Lower, IsWindows, Turned, Normalized;
    var s := Slashes(path);
    forall t ensures Turned(path, t) <==> t == s {
      TurnedIsSlashes(path, t);
    }
    DotSlashStripped(path);
    if Verbatim(s) {
      assert Turned(path, s);
      NormalizedLength(path);
      SameLength("./" + path);
      assert |Normalized(path)| <= |s| - 4;
    } else {
      SameStripped("./" + path, path);
    }
  }

  lemma DotSlashStripped(path: string)
    ensures Stripped("./" + path) == if Verbatim(Slashes(path)) then Slashes(path) else Stripped(path)
  {
    var s := Slashes(path);
    assert Slashes("./" + path) == "./" + s;
    assert !Verbatim("./" + s) by { assert ("./" + s)[0] == '.'; }
    OneDotStripped(s);
    if Verbatim(s) {
      assert s[0] == '/' && "./"[0] == '.' && !("./" <= s);
    }
  }

  lemma SameStripped(p: string, q: string)
    requires Stripped(p) == Stripped(q)
    ensures Normalized(p) == Normalized(q)
  {
  }

  lemma SameLength(path: string)
    ensures |Normalized(path)| == |Stripped(path)|
  {
  }

  // ----- Shape of the output -----

  lemma PrefixUnderLower(p: string, prefix: string)
    requires forall c | c in prefix :: c == '/' || c == '?' || c == '.'
    ensures prefix <= Lower(p) <==> prefix <= p
  {
    if |prefix| <= |p| {
      forall i | 0 <= i < |prefix| ensures Lower(p)[i] == prefix[i] <==> p[i] == prefix[i] {
        assert prefix[i] in prefix;
      }
    }
  }

  lemma PrefixesUnderLower(p: string)
    ensures "./" <= Lower(p) <==> "./" <= p
    ensures "//" <= Lower(p) <==> "//" <= p
    ensures Verbatim(Lower(p)) <==> Verbatim(p)
  {
    PrefixUnderLower(p, "./");
    PrefixUnderLower(p, "//");
    PrefixUnderLower(p, "//?/");
    PrefixUnderLower(p, "//./");
  }

  lemma NoBackslash(path: string)
    ensures '\\' !in Stripped(path)
  {
    assert '\\' !in Slashes(path);
    StrippedIsSuffix(path);
  }

  /** The output has no backslash and does not begin with `./`. */
  lemma NormalizedShape(path: string)
    ensures '\\' !in Normalized(path) && !("./" <= Normalized(path))
  {
    NoBackslash(path);
    var k := DotsInFront(StripVerbatim(Slashes(path)));
    PrefixesUnderLower(Stripped(path));
  }

  // ----- Spellings that normalise alike -----

  /** The same character, or a separator written the other way round. */
  predicate SameSlash(c: char, d: char) {
    c == d || (c == '/' && d == '\\') || (c == '\\' && d == '/')
  }

  /** The same character, or an ASCII letter in the other case. */
  predicate SameLetter(c: char, d: char) {
    c == d || ('A' <= c <= 'Z' && d as int == c as int + 32) || ('A' <= d <= 'Z' && c as int == d as int + 32)
  }

  /** Same path except that some separators are written the other way round. */
  ghost predicate SameUpToSlashes(p: string, q: string) {
    |p| == |q| && forall i | 0 <= i < |p| :: SameSlash(p[i], q[i])
  }

  /** Same path except for separators and the case of ASCII letters. */
  ghost predicate SameUpToCase(p: string, q: string) {
    |p| == |q| && forall i | 0 <= i < |p| :: SameSlash(p[i], q[i]) || SameLetter(p[i], q[i])
  }

  /** Same text except for the case of ASCII letters. */
  ghost predicate SameLetters(p: string, q: string) {
    |p| == |q| && forall i | 0 <= i < |p| :: SameLetter(p[i], q[i])
  }

  lemma LowerIsSameLetters(p: string, q: string)
    ensures Lower(p) == Lower(q) <==> SameLetters(p, q)
  {
    if Lower(p) == Lower(q) {
      assert |p| == |Lower(p)| && |q| == |Lower(q)|;
      forall i | 0 <= i < |p| ensures SameLetter(p[i], q[i]) {
        assert Lower(p)[i] == LowerChar(p[i]) && Lower(q)[i] == LowerChar(q[i]);
      }
    }
  }

  lemma SlashDirectionIgnored(p: string, q: string)
    requires SameUpToSlashes(p, q)
    ensures Normalized(p) == Normalized(q)
  {
    assert Slashes(p) == Slashes(q);
  }

  lemma LowerSlice(p: string, n: nat)
    requires n <= |p|
    ensures Lower(p)[n..] == Lower(p[n..])
  {
  }

  lemma {:induction false} StripsUnderLower(p: string)
    ensures Lower(StripDots(p)) == StripDots(Lower(p))
    ensures Lower(StripVerbatim(p)) == StripVerbatim(Lower(p))
    decreases |p|
  {
    PrefixesUnderLower(p);
    if "./" <= p {
      StripsUnderLower(p[2..]);
      LowerSlice(p, 2);
    }
    if Verbatim(p) {
      LowerSlice(p, 4);
    }
  }

  lemma WindowsUnderLower(p: string)
    ensures IsWindows(Lower(p)) <==> IsWindows(p)
  {
    PrefixesUnderLower(p);
    if |p| >= 3 {
      LowerSlice(p, 3);
      if '/' in p[3..] {
        var i :| 0 <= i < |p[3..]| && p[3..][i] == '/';
        assert Lower(p[3..])[i] == '/';
      }
      if '/' in Lower(p[3..]) {
        var i :| 0 <= i < |p[3..]| && Lower(p[3..])[i] == '/';
        assert p[3..][i] == '/';
      }
    }
  }

  lemma LowerTwice(p: string)
    ensures Lower(Lower(p)) == Lower(p)
  {
  }

  lemma StrippedUnderCase(p: string, q: string)
    requires SameUpToCase(p, q)
    ensures Lower(Stripped(p)) == Lower(Stripped(q)) && |Stripped(p)| == |Stripped(q)|
    ensures IsWindows(Stripped(p)) <==> IsWindows(Stripped(q))
  {
    var s, t := Slashes(p), Slashes(q);
    assert Lower(s) == Lower(t);
    StripsUnderLower(s);
    StripsUnderLower(t);
    StripsUnderLower(StripVerbatim(s));
    StripsUnderLower(StripVerbatim(t));
    WindowsUnderLower(Stripped(p));
    WindowsUnderLower(Stripped(q));
    assert |Lower(Stripped(p))| == |Stripped(p)|;
  }

  /** A path that is classified as a Windows path normalises the same however its letters are cased. */
  lemma WindowsCaseIgnored(p: string, q: string)
    requires SameUpToCase(p, q) && IsWindows(Stripped(p))
    ensures IsWindows(Stripped(q)) && Normalized(p) == Normalized(q)
  {
    StrippedUnderCase(p, q);
  }

  /** Exactly which pairs of paths normalise alike: case is forgotten for Windows paths only. */
  lemma NormalizeAlikeExactly(p: string, q: string)
    ensures Normalized(p) == Normalized(q) <==>
            Stripped(p) == Stripped(q) ||
            (IsWindows(Stripped(p)) && IsWindows(Stripped(q)) && Lower(Stripped(p)) == Lower(Stripped(q)))
  {
    WindowsUnderLower(Stripped(p));
    WindowsUnderLower(Stripped(q));
  }

  // ----- When the case of a path is ignored -----

  lemma {:induction false} StripDotsIsSuffix(p: string)
    ensures |StripDots(p)| <= |p| && StripDots(p) == p[|p| - |StripDots(p)|..]
    decreases |p|
  {
    if "./" <= p {
      StripDotsIsSuffix(p[2..]);
    }
  }

  /** Only a prefix is stripped. */
  lemma StrippedIsSuffix(path: string)
    ensures |Stripped(path)| <= |path| && Stripped(path) == Slashes(path)[|path| - |Stripped(path)|..]
  {
    StripDotsIsSuffix(StripVerbatim(Slashes(path)));
  }

  function FlipCase(c: char): (r: char)
    requires IsAlpha(c)
    ensures r != c && SameLetter(c, r) && c != '/' && c != '\\' && r != '\\'
  {
    if 'a' <= c <= 'z' then c - ('a' - 'A') else c + ('a' - 'A')
  }

  /** The other spelling of a path that is not a Windows path: one letter of what is left after stripping, flipped. */
  lemma FlippedLetterShows(p: string, i: nat) returns (q: string)
    requires !IsWindows(Stripped(p)) && i < |Stripped(p)| && IsAlpha(Stripped(p)[i])
    ensures SameUpToCase(p, q) && Normalized(q) != Normalized(p)
  {
    StrippedIsSuffix(p);
    var k := |p| - |Stripped(p)| + i;
    assert Slashes(p)[k] == Stripped(p)[i] && p[k] == Slashes(p)[k];
    q := p[k := FlipCase(p[k])];
    StrippedUnderCase(p, q);
    StrippedIsSuffix(q);
    assert Stripped(q)[i] == Slashes(q)[k] == FlipCase(p[k]);
  }

  predicate NoLetters(s: string) {
    forall i | 0 <= i < |s| :: !IsAlpha(s[i])
  }

  /** Exactly when the letter case of a path does not matter: it is classified as a Windows path, or nothing but
      the stripped prefix holds a letter. */
  lemma CaseIgnoredExactly(p: string)
    ensures (forall q | SameUpToCase(p, q) :: Normalized(q) == Normalized(p)) <==>
            IsWindows(Stripped(p)) || NoLetters(Stripped(p))
  {
    if IsWindows(Stripped(p)) || NoLetters(Stripped(p)) {
      forall q | SameUpToCase(p, q) ensures Normalized(q) == Normalized(p) {
        StrippedUnderCase(p, q);
        if NoLetters(Stripped(p)) {
          LettersUnderLower(Stripped(p), Stripped(q));
        }
      }
    } else {
      var i :| 0 <= i < |Stripped(p)| && IsAlpha(Stripped(p)[i]);
      var q := FlippedLetterShows(p, i);
    }
  }

  lemma LettersUnderLower(s: string, t: string)
    requires NoLetters(s) && Lower(s) == Lower(t)
    ensures s == t
  {
    assert |Lower(s)| == |s| && |Lower(t)| == |t|;
    forall i | 0 <= i < |s| ensures s[i] == t[i] {
      assert Lower(s)[i] == LowerChar(s[i]) && Lower(t)[i] == LowerChar(t[i]);
    }
  }

  /** The documentation folds the case of every path with a drive prefix: a letter, a colon and a separator. The
      code does so exactly when one more separator follows. */
  lemma DrivePathFoldedExactly(p: string)
    requires var s := Stripped(p); |s| >= 3 && IsAlpha(s[0]) && s[1] == ':' && s[2] == '/'
    ensures (forall q | SameUpToCase(p, q) :: Normalized(q) == Normalized(p)) <==> '/' in Stripped(p)[3..]
  {
    CaseIgnoredExactly(p);
  }

  /** A path with a drive prefix whose case is kept. */
  lemma DriveRootFileKeepsCase()
    ensures SameUpToCase("C:\\Foo", "c:\\foo")
    ensures Normalized("C:\\Foo") == "C:/Foo" && Normalized("c:\\foo") == "c:/foo"
  {
    assert Slashes("C:\\Foo") == "C:/Foo" && Slashes("c:\\foo") == "c:/foo";
    assert "C:/Foo"[3..] == "Foo" && "c:/foo"[3..] == "foo";
    assert "C:/Foo"[0] == 'C' && "c:/foo"[0] == 'c';
  }

  // ----- Normalising twice -----

  lemma NormalizedLength(path: string)
    ensures |Normalized(path)| <= |StripVerbatim(Slashes(path))| <= |path|
  {
    StripDotsIsSuffix(StripVerbatim(Slashes(path)));
  }

  /** Normalising is idempotent exactly when stripping leaves no further `//?/` or `//./` in front,
      which can be seen on the result as well. */
  lemma IdempotentExactly(path: string)
    ensures Verbatim(Normalized(path)) <==> Verbatim(Stripped(path))
    ensures Normalized(Normalized(path)) == Normalized(path) <==> !Verbatim(Stripped(path))
  {
    var p, r := Stripped(path), Normalized(path);
    PrefixesUnderLower(p);
    NormalizedShape(path);
    assert Slashes(r) == r;
    if Verbatim(r) {
      NormalizedLength(r);
    } else {
      assert Stripped(r) == r;
      WindowsUnderLower(p);
      LowerTwice(p);
    }
  }

  /** A path for which it is not: the `./` hides the prefix from the first call. */
  lemma NestedVerbatimPrefix()
    ensures Normalized(".///?/x") == "//?/x"
    ensures Normalized(Normalized(".///?/x")) == "x"
  {
    var p := ".///?/x";
    assert Slashes(p) == p;
    assert p[2..] == "//?/x";
    assert "./" <= p;
    assert !("./" <= p[2..]) by { assert p[2..][0] == '/'; }
    assert !Verbatim(p) by { assert p[0] == '.'; }
    var r := "//?/x";
    assert Stripped(p) == r;
    assert Lower(r) == r;
    assert Slashes(r) == r && "//?/" <= r && r[4..] == "x";
    assert Stripped(r) == "x";
  }

  // ----- `basename` -----

  predicate IsSlash(c: char) {
    c == '/' || c == '\\'
  }

  function TrimEnd(path: string): string {
    if path != [] && IsSlash(path[|path| - 1]) then TrimEnd(path[..|path| - 1]) else path
  }

  /** What follows the last separator. */
  function AfterLastSlash(s: string): string {
    if s == [] || IsSlash(s[|s| - 1]) then [] else AfterLastSlash(s[..|s| - 1]) + [s[|s| - 1]]
  }

  function Basename(path: string): string {
    AfterLastSlash(TrimEnd(path))
  }

  predicate NoSlash(s: string) {
    '/' !in s && '\\' !in s
  }

  predicate AllSlashes(s: string) {
    forall i | 0 <= i < |s| :: s[i] == '/' || s[i] == '\\'
  }

  /** `base` is the last component: a directory part before it, only separators after it. */
  predicate LastComponent(dir: string, base: string, tail: string) {
    && NoSlash(base)
    && AllSlashes(tail)
    && (dir == [] || (base != [] && (dir[|dir| - 1] == '/' || dir[|dir| - 1] == '\\')))
  }

  lemma {:induction false} TrimEndSplits(path: string) returns (tail: string)
    ensures path == TrimEnd(path) + tail && AllSlashes(tail)
    ensures TrimEnd(path) == [] || !IsSlash(TrimEnd(path)[|TrimEnd(path)| - 1])
    decreases |path|
  {
    tail := [];
    if path != [] && IsSlash(path[|path| - 1]) {
      var t := TrimEndSplits(path[..|path| - 1]);
      tail := t + [path[|path| - 1]];
    }
  }

  lemma {:induction false} AfterLastSlashSplits(s: string) returns (dir: string)
    ensures s == dir + AfterLastSlash(s) && NoSlash(AfterLastSlash(s))
    ensures dir == [] || IsSlash(dir[|dir| - 1])
    decreases |s|
  {
    dir := s;
    if s != [] && !IsSlash(s[|s| - 1]) {
      dir := AfterLastSlashSplits(s[..|s| - 1]);
      assert s == s[..|s| - 1] + [s[|s| - 1]];
    }
  }

  lemma {:induction false} TrimEndOf(body: string, tail: string)
    requires AllSlashes(tail) && (body == [] || !IsSlash(body[|body| - 1]))
    ensures TrimEnd(body + tail) == body
    decreases |tail|
  {
    if tail == [] {
      assert body + tail == body;
    } else {
      assert (body + tail)[..|body + tail| - 1] == body + tail[..|tail| - 1];
      TrimEndOf(body, tail[..|tail| - 1]);
    }
  }

  lemma {:induction false} AfterLastSlashOf(dir: string, base: string)
    requires NoSlash(base) && (dir == [] || IsSlash(dir[|dir| - 1]))
    ensures AfterLastSlash(dir + base) == base
    decreases |base|
  {
    if base == [] {
      assert dir + base == dir;
    } else {
      assert (dir + base)[..|dir + base| - 1] == dir + base[..|base| - 1];
      AfterLastSlashOf(dir, base[..|base| - 1]);
    }
  }

  /** `basename` is the last component, and no other string is. */
  lemma BasenameIsLastComponent(path: string, base: string)
    ensures base == Basename(path) <==>
            exists dir, tail :: path == dir + base + tail && LastComponent(dir, base, tail)
  {
    var tail := TrimEndSplits(path);
    var dir := AfterLastSlashSplits(TrimEnd(path));
    assert path == dir + Basename(path) + tail && LastComponent(dir, Basename(path), tail) by {
      if Basename(path) == [] {
        assert TrimEnd(path) == dir;
      }
    }
    if d, t :| path == d + base + t && LastComponent(d, base, t) {
      TrimEndOf(d + base, t);
      AfterLastSlashOf(d, base);
    }
  }
}
