/** `globMatch` of asg-api/assets/index.html: the index-based copy of the matcher, with its loops. */
module GlobJs {
  import opened Glob

  method GlobMatch(pattern: string, text: string) returns (r: bool)
    ensures r == Matches(pattern, text)
  {
    var p, t := Split(pattern, '/'), Split(text, '/');
    r := Segs(p, t, 0, 0);
    assert p[0..] == p && t[0..] == t;
  }

  method Segs(p: seq<string>, t: seq<string>, i: nat, j: nat) returns (r: bool)
    requires i <= |p| && j <= |t|
    ensures r == MatchSegments(p[i..], t[j..])
    decreases |p| - i
  {
    if i >= |p| {
      return j >= |t|;
    }
    assert p[i..][1..] == p[i + 1..];
    if p[i] == "**" {
      var k := j;
      while k <= |t|
        invariant j <= k <= |t| + 1
        invariant forall n | 0 <= n < k - j :: !MatchSegments(p[i + 1..], t[j..][n..])
      {
        assert t[j..][k - j..] == t[k..];
        var found := Segs(p, t, i + 1, k);
        if found {
          return true;
        }
        k := k + 1;
      }
      return false;
    }
    if j >= |t| {
      return false;
    }
    assert t[j..][1..] == t[j + 1..];
    r := OneSeg(p[i], t[j]);
    if r {
      r := Segs(p, t, i + 1, j + 1);
    }
  }

  method OneSeg(pat: string, txt: string) returns (r: bool)
    ensures r == MatchChars(pat, txt)
  {
    r := Chars(pat, txt, 0, 0);
    assert pat[0..] == pat && txt[0..] == txt;
  }

  method Chars(pc: string, tc: string, a: nat, b: nat) returns (r: bool)
    requires a <= |pc| && b <= |tc|
    ensures r == MatchChars(pc[a..], tc[b..])
    decreases |pc| - a
  {
    if a >= |pc| {
      return b >= |tc|;
    }
    assert pc[a..][1..] == pc[a + 1..];
    if pc[a] == '*' {
      var i := b;
      while i <= |tc|
        invariant b <= i <= |tc| + 1
        invariant forall n | 0 <= n < i - b :: !MatchChars(pc[a + 1..], tc[b..][n..])
      {
        assert tc[b..][i - b..] == tc[i..];
        var found := Chars(pc, tc, a + 1, i);
        if found {
          return true;
        }
        i := i + 1;
      }
      return false;
    }
    if b >= |tc| {
      return false;
    }
    assert tc[b..][1..] == tc[b + 1..];
    if pc[a] == '?' {
      r := Chars(pc, tc, a + 1, b + 1);
      return;
    }
    if pc[a] != tc[b] {
      return false;
    }
    r := Chars(pc, tc, a + 1, b + 1);
  }
}
