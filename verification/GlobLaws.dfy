/** Laws a rule author relies on, each carried through the splitting on `/`. */
module GlobLaws {
  import opened Glob

  predicate Literal(p: string) {
    '*' !in p && '?' !in p
  }

  lemma {:induction false} LiteralChars(p: string, t: string)
    requires Literal(p)
    ensures MatchChars(p, t) <==> p == t
  {
    if p != [] {
      assert p[0] in p;
      if t != [] {
        LiteralChars(p[1..], t[1..]);
        assert p == [p[0]] + p[1..] && t == [t[0]] + t[1..];
      }
    }
  }

  lemma {:induction false} LiteralSegments(pat: seq<string>, txt: seq<string>)
    requires forall p | p in pat :: Literal(p)
    ensures MatchSegments(pat, txt) <==> pat == txt
  {
    if pat != [] {
      assert pat[0] in pat;
      assert '*' in "**" by { assert "**"[0] == '*'; }
      if txt != [] {
        LiteralChars(pat[0], txt[0]);
        LiteralSegments(pat[1..], txt[1..]);
        assert pat == [pat[0]] + pat[1..] && txt == [txt[0]] + txt[1..];
      }
    }
  }

  lemma {:induction false} SplitKeepsChars(s: string, sep: char, c: char)
    requires c !in s
    ensures forall seg | seg in Split(s, sep) :: c !in seg
  {
    if s != [] {
      SplitKeepsChars(s[1..], sep, c);
      var rest := Split(s[1..], sep);
      assert rest[0] in rest && s[0] in s;
    }
  }

  /** A pattern without wildcards matches itself and nothing else. */
  lemma LiteralPatternMatchesItself(pattern: string, text: string)
    requires Literal(pattern)
    ensures Matches(pattern, text) <==> pattern == text
  {
    SplitKeepsChars(pattern, '/', '*');
    SplitKeepsChars(pattern, '/', '?');
    LiteralSegments(Split(pattern, '/'), Split(text, '/'));
    JoinSplit(pattern, '/');
    JoinSplit(text, '/');
  }

  lemma {:induction false} NoDoubleStarKeepsLength(pat: seq<string>, txt: seq<string>)
    requires "**" !in pat && MatchSegments(pat, txt)
    ensures |pat| == |txt|
  {
    if pat != [] {
      assert pat[0] in pat;
      NoDoubleStarKeepsLength(pat[1..], txt[1..]);
    }
  }

  /** `*` and `?` never cross a separator. */
  lemma SeparatorsAgree(pattern: string, text: string)
    requires "**" !in Split(pattern, '/') && Matches(pattern, text)
    ensures Count(pattern, '/') == Count(text, '/')
  {
    NoDoubleStarKeepsLength(Split(pattern, '/'), Split(text, '/'));
    SplitLength(pattern, '/');
    SplitLength(text, '/');
  }

  // ----- Collapsing repeated stars -----

  lemma TwoDoubleStars(b: seq<string>, txt: seq<string>)
    ensures MatchSegments(["**", "**"] + b, txt) <==> MatchSegments(["**"] + b, txt)
  {
    var one := ["**"] + b;
    assert (["**", "**"] + b)[1..] == one && one[1..] == b;
    if MatchSegments(["**", "**"] + b, txt) {
      var i :| 0 <= i <= |txt| && MatchSegments(one, txt[i..]);
      var j :| 0 <= j <= |txt[i..]| && MatchSegments(b, txt[i..][j..]);
      assert txt[i..][j..] == txt[i + j..];
    }
    if MatchSegments(one, txt) {
      assert txt[0..] == txt;
    }
  }

  lemma {:induction false} CollapseSegments(a: seq<string>, b: seq<string>, txt: seq<string>)
    ensures MatchSegments(a + ["**", "**"] + b, txt) <==> MatchSegments(a + ["**"] + b, txt)
    decreases |a|
  {
    var two, one := a + ["**", "**"] + b, a + ["**"] + b;
    if a == [] {
      assert two == ["**", "**"] + b && one == ["**"] + b;
      TwoDoubleStars(b, txt);
    } else {
      assert two[1..] == a[1..] + ["**", "**"] + b && one[1..] == a[1..] + ["**"] + b;
      forall i | 0 <= i <= |txt| ensures MatchSegments(two[1..], txt[i..]) <==> MatchSegments(one[1..], txt[i..]) {
        CollapseSegments(a[1..], b, txt[i..]);
      }
    }
  }

  predicate NoSeparators(segs: seq<string>) {
    forall seg | seg in segs :: '/' !in seg
  }

  /** Adjacent `**` segments, wherever they stand in the pattern, are one. */
  lemma AdjacentDoubleStarsCollapse(a: seq<string>, b: seq<string>, text: string)
    requires NoSeparators(a + b)
    ensures Matches(Join(a + ["**", "**"] + b, '/'), text) <==> Matches(Join(a + ["**"] + b, '/'), text)
  {
    var two, one := a + ["**", "**"] + b, a + ["**"] + b;
    assert '/' !in "**";
    assert forall seg | seg in two :: seg in a + b || seg == "**";
    assert forall seg | seg in one :: seg in a + b || seg == "**";
    SplitJoin(two, '/');
    SplitJoin(one, '/');
    CollapseSegments(a, b, Split(text, '/'));
  }

  lemma TwoStars(b: string, t: string)
    ensures MatchChars("**" + b, t) <==> MatchChars("*" + b, t)
  {
    var one := "*" + b;
    assert ("**" + b)[1..] == one && one[1..] == b;
    if MatchChars("**" + b, t) {
      var i :| 0 <= i <= |t| && MatchChars(one, t[i..]);
      var j :| 0 <= j <= |t[i..]| && MatchChars(b, t[i..][j..]);
      assert t[i..][j..] == t[i + j..];
    }
    if MatchChars(one, t) {
      assert t[0..] == t;
    }
  }

  lemma {:induction false} EmbeddedStars(a: string, b: string, t: string)
    ensures MatchChars(a + "**" + b, t) <==> MatchChars(a + "*" + b, t)
    decreases |a|
  {
    var two, one := a + "**" + b, a + "*" + b;
    if a == [] {
      assert two == "**" + b && one == "*" + b;
      TwoStars(b, t);
    } else {
      assert two[1..] == a[1..] + "**" + b && one[1..] == a[1..] + "*" + b;
      forall i | 0 <= i <= |t| ensures MatchChars(two[1..], t[i..]) <==> MatchChars(one[1..], t[i..]) {
        EmbeddedStars(a[1..], b, t[i..]);
      }
    }
  }

  /** Segments that match the same characters are interchangeable, unless one of them is `**`. */
  lemma {:induction false} ReplaceSegment(pre: seq<string>, x: string, y: string, post: seq<string>, txt: seq<string>)
    requires x != "**" && y != "**" && forall t :: MatchChars(x, t) <==> MatchChars(y, t)
    ensures MatchSegments(pre + [x] + post, txt) <==> MatchSegments(pre + [y] + post, txt)
    decreases |pre|
  {
    var withX, withY := pre + [x] + post, pre + [y] + post;
    if pre == [] {
      assert withX[0] == x && withY[0] == y && withX[1..] == post && withY[1..] == post;
    } else {
      assert withX[1..] == pre[1..] + [x] + post && withY[1..] == pre[1..] + [y] + post;
      forall i | 0 <= i <= |txt| ensures MatchSegments(withX[1..], txt[i..]) <==> MatchSegments(withY[1..], txt[i..]) {
        ReplaceSegment(pre[1..], x, y, post, txt[i..]);
      }
    }
  }

  lemma EmbeddedIsWholeSegment(a: string, b: string)
    ensures a + "**" + b == "**" <==> a + b == ""
    ensures a + "*" + b == "**" <==> a + b == "*"
  {
    if a + b == "*" {
      assert |a| + |b| == 1;
      assert a == [] ==> b == "*";
      assert b == [] ==> a == "*";
    }
    if a + "*" + b == "**" {
      assert |a| + |b| == 1;
      assert a == [] ==> "*" + b == "**" && b[0] == ("*" + b)[1];
      assert b == [] ==> a + "*" == "**" && a[0] == (a + "*")[0];
    }
  }

  /** The two patterns accept the same texts, whatever segments stand around. */
  ghost predicate Interchangeable(x: string, y: string) {
    forall pre: seq<string>, post: seq<string>, text: string | NoSeparators(pre + post) ::
      Matches(Join(pre + [x] + post, '/'), text) <==> Matches(Join(pre + [y] + post, '/'), text)
  }

  lemma EmbeddedStarsInterchangeable(a: string, b: string)
    requires '/' !in a + b && a + b !in {"", "*"}
    ensures Interchangeable(a + "**" + b, a + "*" + b)
  {
    var x, y := a + "**" + b, a + "*" + b;
    assert '/' !in x && '/' !in y by { StarsAddNoSlash(a, b); }
    EmbeddedIsWholeSegment(a, b);
    forall t ensures MatchChars(x, t) <==> MatchChars(y, t) { EmbeddedStars(a, b, t); }
    forall pre: seq<string>, post: seq<string>, text: string | NoSeparators(pre + post)
      ensures Matches(Join(pre + [x] + post, '/'), text) <==> Matches(Join(pre + [y] + post, '/'), text)
    {
      assert forall seg | seg in pre + [x] + post :: seg in pre + post || seg == x;
      assert forall seg | seg in pre + [y] + post :: seg in pre + post || seg == y;
      SplitJoin(pre + [x] + post, '/');
      SplitJoin(pre + [y] + post, '/');
      ReplaceSegment(pre, x, y, post, Split(text, '/'));
    }
  }

  lemma StarsAddNoSlash(a: string, b: string)
    requires '/' !in a + b
    ensures '/' !in a + "**" + b && '/' !in a + "*" + b
  {
    assert forall c | c in a :: c in a + b;
    assert forall c | c in b :: c in a + b;
  }

  /** A segment of stars alone, other than `**`, does not cross a separator. */
  lemma StarsStopAtSeparator()
    ensures Matches("**", "a/b") && !Matches("*", "a/b") && !Matches("***", "a/b")
  {
    assert "a" + "/" + "b" == "a/b";
    SplitOneSegment("a", '/');
    SplitOneSegment("b", '/');
    SplitConcat("a", "b", '/');
    var txt := Split("a/b", '/');
    assert txt == ["a", "b"];
    SplitOneSegment("**", '/');
    SplitOneSegment("*", '/');
    SplitOneSegment("***", '/');
    assert ["**"][1..] == [] && txt[2..] == [] && MatchSegments([], txt[2..]);
    assert "*" != "**" && "***" != "**";
  }

  /** Inside a longer segment `**` means no more than `*`; exactly where one of the two spellings makes the segment
      `**` itself, it means more. */
  lemma EmbeddedDoubleStarIsStar(a: string, b: string)
    requires '/' !in a + b
    ensures Interchangeable(a + "**" + b, a + "*" + b) <==> a + b !in {"", "*"}
  {
    hide Matches, Interchangeable;
    if a + b !in {"", "*"} {
      EmbeddedStarsInterchangeable(a, b);
    } else {
      StarsOnlyAround(a, b);
      StarsStopAtSeparator();
      NotInterchangeable(a + "**" + b, a + "*" + b);
    }
  }

  lemma NotInterchangeable(x: string, y: string)
    requires Matches(x, "a/b") != Matches(y, "a/b")
    ensures !Interchangeable(x, y)
  {
    hide Matches;
    var none: seq<string> := [];
    assert none + [x] + none == [x] && none + [y] + none == [y];
    assert NoSeparators(none + none);
    assert Matches(Join(none + [x] + none, '/'), "a/b") != Matches(Join(none + [y] + none, '/'), "a/b");
  }

  lemma StarsOnlyAround(a: string, b: string)
    requires a + b in {"", "*"}
    ensures (a + "**" + b == "**" && a + "*" + b == "*") || (a + "**" + b == "***" && a + "*" + b == "**")
  {
    if a + b == "*" {
      assert |a| + |b| == 1;
      assert a == [] ==> b == "*";
      assert b == [] ==> a == "*";
    } else {
      assert |a| + |b| == 0;
    }
  }

  // ----- `**/p` -----

  /** `s` is `t` or what follows some separator of `t`. */
  ghost predicate AlignedSuffix(t: string, s: string) {
    t == s || exists u: string :: t == u + "/" + s
  }

  lemma {:induction false} MatchesNothingMatchesAll(pat: seq<string>, txt: seq<string>)
    requires pat != [] && MatchSegments(pat, [])
    ensures MatchSegments(pat, txt)
  {
    assert pat[0] == "**";
    var none: seq<string> := [];
    assert none[0..] == none;
    assert MatchSegments(pat[1..], []);
    if pat[1..] == [] {
      assert txt[|txt|..] == [];
    } else {
      MatchesNothingMatchesAll(pat[1..], txt);
      assert txt[0..] == txt;
    }
  }

  lemma DropSegments(t: string, i: nat) returns (s: string)
    requires i < |Split(t, '/')|
    ensures AlignedSuffix(t, s) && Split(s, '/') == Split(t, '/')[i..]
  {
    var segs := Split(t, '/');
    SplitHasNoSeparator(t, '/');
    s := Join(segs[i..], '/');
    SplitJoin(segs[i..], '/');
    JoinSplit(t, '/');
    if i > 0 {
      JoinConcat(segs[..i], segs[i..]);
      assert segs == segs[..i] + segs[i..];
      assert t == Join(segs[..i], '/') + "/" + s;
    }
  }

  lemma {:induction false} JoinConcat(a: seq<string>, b: seq<string>)
    requires |a| >= 1 && |b| >= 1
    ensures Join(a + b, '/') == Join(a, '/') + "/" + Join(b, '/')
  {
    assert (a + b)[1..] == a[1..] + b;
    if |a| > 1 {
      JoinConcat(a[1..], b);
    }
  }

  // A pattern `**/p` matches a text exactly when `p` matches one of its segment-aligned suffixes.
  lemma DoubleStarPrefix(p: string, text: string)
    ensures Matches("**/" + p, text) <==> exists s :: AlignedSuffix(text, s) && Matches(p, s)
  {
    var pat, txt := Split(p, '/'), Split(text, '/');
    assert "**" + "/" + p == "**/" + p;
    SplitOneSegment("**", '/');
    SplitConcat("**", p, '/');
    assert Split("**/" + p, '/')[1..] == pat;
    if Matches("**/" + p, text) {
      var i :| 0 <= i <= |txt| && MatchSegments(pat, txt[i..]);
      if i == |txt| {
        MatchesNothingMatchesAll(pat, txt);
        assert AlignedSuffix(text, text) && Matches(p, text);
      } else {
        var s := DropSegments(text, i);
        assert AlignedSuffix(text, s) && Matches(p, s);
      }
    }
    if s :| AlignedSuffix(text, s) && Matches(p, s) {
      if text == s {
        assert txt[0..] == txt;
      } else {
        var u :| text == u + "/" + s;
        SplitConcat(u, s, '/');
        assert txt[|Split(u, '/')|..] == Split(s, '/');
      }
    }
  }

  // ----- The empty text, which stands for evidence the probe could not read -----

  predicate StarsOnly(p: string) {
    forall i | 0 <= i < |p| :: p[i] == '*'
  }

  /** Only stars, and at most one segment that is not `**`. */
  predicate AcceptsEmpty(pat: seq<string>) {
    && (forall i | 0 <= i < |pat| :: StarsOnly(pat[i]))
    && (forall i, j | 0 <= i < j < |pat| :: pat[i] == "**" || pat[j] == "**")
  }

  lemma {:induction false} EmptyChars(p: string)
    ensures MatchChars(p, "") <==> StarsOnly(p)
  {
    if p != [] {
      EmptyChars(p[1..]);
      assert ""[0..] == "";
      assert forall i | 0 < i < |p| :: p[i] == p[1..][i - 1];
    }
  }

  lemma {:induction false} NoSegments(pat: seq<string>)
    ensures MatchSegments(pat, []) <==> forall i | 0 <= i < |pat| :: pat[i] == "**"
  {
    if pat != [] {
      NoSegments(pat[1..]);
      var none: seq<string> := [];
      assert none[0..] == none;
      assert forall i | 0 < i < |pat| :: pat[i] == pat[1..][i - 1];
    }
  }

  lemma AcceptsEmptyStep(pat: seq<string>)
    requires pat != []
    ensures AcceptsEmpty(pat) <==>
            if pat[0] == "**" then AcceptsEmpty(pat[1..])
            else StarsOnly(pat[0]) && forall i | 0 <= i < |pat[1..]| :: pat[1..][i] == "**"
  {
    var rest := pat[1..];
    assert forall i | 0 < i < |pat| :: pat[i] == rest[i - 1];
    if AcceptsEmpty(pat) {
      forall i | 0 <= i < |rest| ensures StarsOnly(rest[i]) && (pat[0] == "**" || rest[i] == "**") {
        assert rest[i] == pat[i + 1];
      }
      forall i, j | 0 <= i < j < |rest| ensures rest[i] == "**" || rest[j] == "**" {
        assert rest[i] == pat[i + 1] && rest[j] == pat[j + 1];
      }
    }
  }

  lemma {:induction false} OneEmptySegment(pat: seq<string>)
    requires pat != []
    ensures MatchSegments(pat, [""]) <==> AcceptsEmpty(pat)
    decreases |pat|
  {
    var rest := pat[1..];
    AcceptsEmptyStep(pat);
    NoSegments(rest);
    assert [""][0..] == [""] && [""][1..] == [];
    if pat[0] != "**" {
      EmptyChars(pat[0]);
    } else if rest != [] {
      OneEmptySegment(rest);
      if MatchSegments(rest, []) {
        MatchesNothingMatchesAll(rest, [""]);
      }
    }
  }

  // The patterns that match an empty text: the empty pattern, `*`, `**` and their like.
  lemma EmptyTextMatches(pattern: string)
    ensures Matches(pattern, "") <==> AcceptsEmpty(Split(pattern, '/'))
  {
    OneEmptySegment(Split(pattern, '/'));
  }
}
