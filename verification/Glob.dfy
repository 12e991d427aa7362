/** The glob matcher of asg-policy/src/glob.rs, and the language it decides. */
module Glob {

  // ----- Splitting on a separator, as `str::split` does -----

  function Split(s: string, sep: char): (segs: seq<string>)
    ensures |segs| >= 1
  {
    if s == [] then [[]]
    else if s[0] == sep then [[]] + Split(s[1..], sep)
    else Extend(s[0], Split(s[1..], sep))
  }

  /** Puts `c` in front of the first segment. */
  function Extend(c: char, segs: seq<string>): seq<string>
    requires |segs| >= 1
  {
    [[c] + segs[0]] + segs[1..]
  }

  lemma ExtendConcat(c: char, a: seq<string>, b: seq<string>)
    requires |a| >= 1
    ensures Extend(c, a + b) == Extend(c, a) + b
  {
    assert (a + b)[0] == a[0] && (a + b)[1..] == a[1..] + b;
  }

  function Join(segs: seq<string>, sep: char): string
    requires |segs| >= 1
  {
    if |segs| == 1 then segs[0] else segs[0] + [sep] + Join(segs[1..], sep)
  }

  lemma {:induction false} JoinSplit(s: string, sep: char)
    ensures Join(Split(s, sep), sep) == s
  {
    if s != [] {
      JoinSplit(s[1..], sep);
      var rest := Split(s[1..], sep);
      if s[0] == sep {
        assert Split(s, sep)[1..] == rest;
      } else if |rest| > 1 {
        assert Split(s, sep)[1..] == rest[1..];
      }
    }
  }

  lemma {:induction false} SplitHasNoSeparator(s: string, sep: char)
    ensures forall seg | seg in Split(s, sep) :: sep !in seg
  {
    if s != [] {
      SplitHasNoSeparator(s[1..], sep);
      var rest := Split(s[1..], sep);
      forall seg | seg in Split(s, sep) ensures sep !in seg {
        if s[0] != sep && seg == [s[0]] + rest[0] {
          assert rest[0] in rest;
        }
      }
    }
  }

  lemma {:induction false} SplitOneSegment(s: string, sep: char)
    requires sep !in s
    ensures Split(s, sep) == [s]
  {
    if s != [] {
      assert s[0] in s;
      SplitOneSegment(s[1..], sep);
      assert [s[0]] + s[1..] == s;
    }
  }

  lemma {:induction false} SplitConcat(s: string, t: string, sep: char)
    ensures Split(s + [sep] + t, sep) == Split(s, sep) + Split(t, sep)
  {
    var st := s + [sep] + t;
    if s == [] {
      assert st[1..] == t;
    } else {
      assert st[1..] == s[1..] + [sep] + t && st[0] == s[0];
      SplitConcat(s[1..], t, sep);
      var rest, more := Split(s[1..], sep), Split(t, sep);
      if s[0] == sep {
        assert Split(st, sep) == [[]] + (rest + more);
      } else {
        ExtendConcat(s[0], rest, more);
      }
    }
  }

  lemma {:induction false} SplitJoin(segs: seq<string>, sep: char)
    requires |segs| >= 1 && forall seg | seg in segs :: sep !in seg
    ensures Split(Join(segs, sep), sep) == segs
  {
    SplitOneSegment(segs[0], sep);
    if |segs| > 1 {
      SplitJoin(segs[1..], sep);
      SplitConcat(segs[0], Join(segs[1..], sep), sep);
    }
  }

  function Count(s: string, c: char): nat {
    if s == [] then 0 else (if s[0] == c then 1 else 0) + Count(s[1..], c)
  }

  lemma {:induction false} SplitLength(s: string, sep: char)
    ensures |Split(s, sep)| == Count(s, sep) + 1
  {
    if s != [] {
      SplitLength(s[1..], sep);
    }
  }

  // ----- The matcher -----

  predicate Matches(pattern: string, text: string) {
    MatchSegments(Split(pattern, '/'), Split(text, '/'))
  }

  predicate MatchSegments(pat: seq<string>, txt: seq<string>)
    decreases |pat|
  {
    if pat == [] then txt == []
    else if pat[0] == "**" then exists i | 0 <= i <= |txt| :: MatchSegments(pat[1..], txt[i..])
    else txt != [] && MatchChars(pat[0], txt[0]) && MatchSegments(pat[1..], txt[1..])
  }

  /** `match_one` is this on the characters of the two segments. */
  predicate MatchChars(p: string, t: string)
    decreases |p|
  {
    if p == [] then t == []
    else if p[0] == '*' then exists i | 0 <= i <= |t| :: MatchChars(p[1..], t[i..])
    else t != [] && (p[0] == '?' || p[0] == t[0]) && MatchChars(p[1..], t[1..])
  }

  // ----- The language, without a search: cut the text into one block for every pattern item -----

  function Flatten<T>(blocks: seq<seq<T>>): seq<T> {
    if blocks == [] then [] else blocks[0] + Flatten(blocks[1..])
  }

  predicate CharAllows(p: char, block: string) {
    p == '*' || (|block| == 1 && (p == '?' || block[0] == p))
  }

  ghost predicate SegmentCut(p: string, t: string, blocks: seq<string>) {
    |blocks| == |p| && Flatten(blocks) == t && forall k | 0 <= k < |p| :: CharAllows(p[k], blocks[k])
  }

  ghost predicate InSegmentLanguage(p: string, t: string) {
    exists blocks :: SegmentCut(p, t, blocks)
  }

  ghost predicate SegmentAllows(p: string, block: seq<string>) {
    p == "**" || (|block| == 1 && InSegmentLanguage(p, block[0]))
  }

  ghost predicate PathCut(pat: seq<string>, txt: seq<string>, blocks: seq<seq<string>>) {
    |blocks| == |pat| && Flatten(blocks) == txt && forall k | 0 <= k < |pat| :: SegmentAllows(pat[k], blocks[k])
  }

  ghost predicate InPathLanguage(pat: seq<string>, txt: seq<string>) {
    exists blocks :: PathCut(pat, txt, blocks)
  }

  // ----- The matcher decides the language -----

  lemma {:induction false} CharsSound(p: string, t: string) returns (blocks: seq<string>)
    requires MatchChars(p, t)
    ensures SegmentCut(p, t, blocks)
    decreases |p|
  {
    if p == [] {
      blocks := [];
    } else {
      var i := 1;
      if p[0] == '*' {
        i :| 0 <= i <= |t| && MatchChars(p[1..], t[i..]);
      }
      var rest := CharsSound(p[1..], t[i..]);
      blocks := [t[..i]] + rest;
      assert blocks[1..] == rest && t == t[..i] + t[i..];
    }
  }

  lemma {:induction false} CharsComplete(p: string, t: string, blocks: seq<string>)
    requires SegmentCut(p, t, blocks)
    ensures MatchChars(p, t)
    decreases |p|
  {
    if p != [] {
      var i := |blocks[0]|;
      assert t[i..] == Flatten(blocks[1..]);
      CharsComplete(p[1..], t[i..], blocks[1..]);
      assert CharAllows(p[0], blocks[0]);
    }
  }

  lemma SegmentMatcherDecides(p: string, t: string)
    ensures MatchChars(p, t) <==> InSegmentLanguage(p, t)
  {
    if MatchChars(p, t) {
      var blocks := CharsSound(p, t);
    }
    if InSegmentLanguage(p, t) {
      var blocks :| SegmentCut(p, t, blocks);
      CharsComplete(p, t, blocks);
    }
  }

  lemma {:induction false} SegmentsSound(pat: seq<string>, txt: seq<string>) returns (blocks: seq<seq<string>>)
    requires MatchSegments(pat, txt)
    ensures PathCut(pat, txt, blocks)
    decreases |pat|
  {
    if pat == [] {
      blocks := [];
    } else {
      var i := 1;
      if pat[0] == "**" {
        i :| 0 <= i <= |txt| && MatchSegments(pat[1..], txt[i..]);
      } else {
        SegmentMatcherDecides(pat[0], txt[0]);
      }
      var rest := SegmentsSound(pat[1..], txt[i..]);
      blocks := [txt[..i]] + rest;
      assert blocks[1..] == rest && txt == txt[..i] + txt[i..];
    }
  }

  lemma {:induction false} SegmentsComplete(pat: seq<string>, txt: seq<string>, blocks: seq<seq<string>>)
    requires PathCut(pat, txt, blocks)
    ensures MatchSegments(pat, txt)
    decreases |pat|
  {
    if pat != [] {
      var i := |blocks[0]|;
      assert txt[i..] == Flatten(blocks[1..]);
      SegmentsComplete(pat[1..], txt[i..], blocks[1..]);
      assert SegmentAllows(pat[0], blocks[0]);
      if pat[0] != "**" {
        SegmentMatcherDecides(pat[0], txt[0]);
      }
    }
  }

  /** The matcher accepts exactly the texts of the declared language, for every pattern and text. */
  lemma MatcherDecides(pattern: string, text: string)
    ensures Matches(pattern, text) <==> InPathLanguage(Split(pattern, '/'), Split(text, '/'))
  {
    var pat, txt := Split(pattern, '/'), Split(text, '/');
    if MatchSegments(pat, txt) {
      var blocks := SegmentsSound(pat, txt);
    }
    if InPathLanguage(pat, txt) {
      var blocks :| PathCut(pat, txt, blocks);
      SegmentsComplete(pat, txt, blocks);
    }
  }
}
