/** File name patterns: '*' stands for any text, '?' for any one character. */
module Wildcard {

  /** The language of a pattern. */
  ghost predicate Matches(value: string, pattern: string)
    decreases |pattern|
  {
    if pattern == "" then value == ""
    else if pattern[0] == '*' then exists k :: 0 <= k <= |value| && Matches(value[k..], pattern[1..])
    else value != "" && (pattern[0] == '?' || pattern[0] == value[0]) && Matches(value[1..], pattern[1..])
  }

  /** 'segment' holds no star, and each of its characters stands for the one at the same index of 'text'. */
  ghost predicate Literal(text: string, segment: string) {
    |text| == |segment| &&
    forall i :: 0 <= i < |segment| ==> segment[i] != '*' && (segment[i] == '?' || segment[i] == text[i])
  }

  lemma {:induction false} LiteralPrefix(text: string, rest: string, segment: string, pattern: string)
    requires Literal(text, segment)
    ensures Matches(text + rest, segment + pattern) == Matches(rest, pattern)
  {
    if segment == "" {
      assert text + rest == rest && segment + pattern == pattern;
    } else {
      LiteralPrefix(text[1..], rest, segment[1..], pattern);
      assert (text + rest)[1..] == text[1..] + rest && (segment + pattern)[1..] == segment[1..] + pattern;
    }
  }

  /** A value that matches a star-free segment and more starts with text the segment stands for. */
  lemma {:induction false} SegmentConsumes(value: string, segment: string, pattern: string)
    requires forall i :: 0 <= i < |segment| ==> segment[i] != '*'
    requires Matches(value, segment + pattern)
    ensures |segment| <= |value| && Literal(value[..|segment|], segment) && Matches(value[|segment|..], pattern)
  {
    if segment == "" {
      assert segment + pattern == pattern && value[0..] == value;
    } else {
      assert (segment + pattern)[1..] == segment[1..] + pattern;
      SegmentConsumes(value[1..], segment[1..], pattern);
      assert value[1..][..|segment| - 1] == value[1..|segment|];
      assert value[1..][|segment| - 1..] == value[|segment|..];
    }
  }

  /** Under a star, more text in front does no harm. */
  lemma {:induction false} StarAbsorbs(value: string, k: nat, pattern: string)
    requires k <= |value| && pattern != "" && pattern[0] == '*' && Matches(value[k..], pattern)
    ensures Matches(value, pattern)
  {
    var j :| 0 <= j <= |value[k..]| && Matches(value[k..][j..], pattern[1..]);
    assert value[k..][j..] == value[k + j..];
  }

  /** Once the segment after a star fits somewhere, its first fit serves any later star. */
  lemma {:induction false} FirstFitSuffices(value: string, segment: string, rest: string)
    requires |segment| <= |value| && Literal(value[..|segment|], segment) && rest != "" && rest[0] == '*'
    ensures Matches(value, "*" + segment + rest) == Matches(value[|segment|..], rest)
  {
    var whole := "*" + segment + rest;
    assert whole[1..] == segment + rest;
    if Matches(value, whole) {
      var k :| 0 <= k <= |value| && Matches(value[k..], whole[1..]);
      SegmentConsumes(value[k..], segment, rest);
      assert value[k..][|segment|..] == value[|segment|..][k..];
      StarAbsorbs(value[|segment|..], k, rest);
    }
    if Matches(value[|segment|..], rest) {
      LiteralPrefix(value[..|segment|], value[|segment|..], segment, rest);
      assert value == value[..|segment|] + value[|segment|..] && value[0..] == value;
    }
  }

  /** A star can leave out the first character where the rest of the pattern doesn't match at once. */
  lemma {:induction false} StarMovesOn(value: string, pattern: string)
    requires pattern != "" && pattern[0] == '*' && value != "" && !Matches(value, pattern[1..])
    ensures Matches(value, pattern) == Matches(value[1..], pattern)
  {
    if Matches(value, pattern) {
      var k :| 0 <= k <= |value| && Matches(value[k..], pattern[1..]);
      assert k > 0 by { assert value[0..] == value; }
      assert value[k..] == value[1..][k - 1..];
    }
    if Matches(value[1..], pattern) {
      StarAbsorbs(value, 1, pattern);
    }
  }

  ghost predicate OnlyStars(pattern: string) {
    forall i :: 0 <= i < |pattern| ==> pattern[i] == '*'
  }

  lemma {:induction false} OnlyStarsMatchNothing(pattern: string)
    ensures Matches("", pattern) == OnlyStars(pattern)
  {
    if pattern != "" {
      OnlyStarsMatchNothing(pattern[1..]);
      assert ""[0..] == "";
      assert pattern == [pattern[0]] + pattern[1..];
    }
  }

  /** The restart point: how far the value is matched before the latest star, the star itself, and the segment after
      it that fits so far. */
  ghost predicate Restart(value: string, pattern: string, star: int, anchor: nat, v: nat, p: nat) {
    && 0 <= star < p <= |pattern| && anchor <= v <= |value|
    && pattern[star] == '*'
    && Literal(value[anchor..v], pattern[star + 1..p])
    && Matches(value, pattern) == Matches(value[anchor..], pattern[star..])
  }

  method MatchesWildcard(value: string, pattern: string) returns (isMatch: bool)
    ensures isMatch == Matches(value, pattern)
  {
    var v, p, star, anchor := 0, 0, -1, 0;
    while v < |value|
      invariant v <= |value| && p <= |pattern| && anchor <= v
      invariant star == -1 ==> anchor == 0 && Literal(value[..v], pattern[..p])
      invariant star != -1 ==> Restart(value, pattern, star, anchor, v, p)
      decreases |value| - anchor, |pattern| - p
    {
      if p < |pattern| && pattern[p] == '*' {
        StarFound(value, pattern, star, anchor, v, p);
        star, p, anchor := p, p + 1, v;
      } else if p < |pattern| && pattern[p] == '?' {
        Advance(value, pattern, star, anchor, v, p);
        p, v := p + 1, v + 1;
      } else if p < |pattern| && pattern[p] == value[v] {
        Advance(value, pattern, star, anchor, v, p);
        p, v := p + 1, v + 1;
      } else if star != -1 {
        Mismatch(value, pattern, star, anchor, v, p);
        p, anchor := star + 1, anchor + 1;
        v := anchor;
      } else {
        NoStarMismatch(value, pattern, v, p);
        return false;
      }
    }
    ghost var end := p;
    while p < |pattern| && pattern[p] == '*'
      invariant end <= p <= |pattern|
      invariant forall i :: end <= i < p ==> pattern[i] == '*'
    {
      p := p + 1;
    }
    Exhausted(value, pattern, star, anchor, end);
    assert forall i :: end <= i < |pattern| ==> pattern[i] == pattern[end..][i - end];
    return p == |pattern|;
  }

  lemma {:induction false} Advance(value: string, pattern: string, star: int, anchor: nat, v: nat, p: nat)
    requires v < |value| && p < |pattern| && pattern[p] != '*' && (pattern[p] == '?' || pattern[p] == value[v])
    ensures star == -1 && Literal(value[..v], pattern[..p]) ==> Literal(value[..v + 1], pattern[..p + 1])
    ensures star != -1 && Restart(value, pattern, star, anchor, v, p) ==> Restart(value, pattern, star, anchor, v + 1, p + 1)
  {
    if star != -1 && Restart(value, pattern, star, anchor, v, p) {
      assert value[anchor..v + 1] == value[anchor..v] + [value[v]];
      assert pattern[star + 1..p + 1] == pattern[star + 1..p] + [pattern[p]];
    }
  }

  lemma {:induction false} StarFound(value: string, pattern: string, star: int, anchor: nat, v: nat, p: nat)
    requires v <= |value| && p < |pattern| && pattern[p] == '*'
    requires if star == -1 then anchor == 0 && Literal(value[..v], pattern[..p])
             else Restart(value, pattern, star, anchor, v, p)
    ensures Restart(value, pattern, p, v, v, p + 1)
  {
    hide Matches;
    if star == -1 {
      LiteralPrefix(value[..v], value[v..], pattern[..p], pattern[p..]);
      assert value == value[..v] + value[v..] && pattern == pattern[..p] + pattern[p..];
    } else {
      var rest, segment := value[anchor..], pattern[star + 1..p];
      assert rest[..|segment|] == value[anchor..v] && rest[|segment|..] == value[v..];
      assert pattern[star..] == "*" + segment + pattern[p..];
      FirstFitSuffices(rest, segment, pattern[p..]);
    }
  }

  lemma {:induction false} Mismatch(value: string, pattern: string, star: int, anchor: nat, v: nat, p: nat)
    requires v < |value| && Restart(value, pattern, star, anchor, v, p)
    requires p == |pattern| || (pattern[p] != '*' && pattern[p] != '?' && pattern[p] != value[v])
    ensures Restart(value, pattern, star, anchor + 1, anchor + 1, star + 1)
  {
    var rest := value[anchor..];
    LiteralPrefix(value[anchor..v], value[v..], pattern[star + 1..p], pattern[p..]);
    assert rest == value[anchor..v] + value[v..] && pattern[star..][1..] == pattern[star + 1..p] + pattern[p..];
    assert !Matches(value[v..], pattern[p..]);
    StarMovesOn(rest, pattern[star..]);
    assert rest[1..] == value[anchor + 1..];
  }

  lemma {:induction false} NoStarMismatch(value: string, pattern: string, v: nat, p: nat)
    requires v < |value| && p <= |pattern| && Literal(value[..v], pattern[..p])
    requires p == |pattern| || (pattern[p] != '*' && pattern[p] != '?' && pattern[p] != value[v])
    ensures !Matches(value, pattern)
  {
    LiteralPrefix(value[..v], value[v..], pattern[..p], pattern[p..]);
    assert value == value[..v] + value[v..] && pattern == pattern[..p] + pattern[p..];
  }

  /** Where the value is used up, the pattern matches if only stars are left. */
  lemma {:induction false} Exhausted(value: string, pattern: string, star: int, anchor: nat, p: nat)
    requires p <= |pattern| && anchor <= |value|
    requires if star == -1 then Literal(value[..], pattern[..p]) else Restart(value, pattern, star, anchor, |value|, p)
    ensures Matches(value, pattern) == OnlyStars(pattern[p..])
  {
    OnlyStarsMatchNothing(pattern[p..]);
    if star == -1 {
      LiteralPrefix(value, "", pattern[..p], pattern[p..]);
      assert value[..] == value && value + "" == value && pattern == pattern[..p] + pattern[p..];
    } else {
      var rest, segment := value[anchor..], pattern[star + 1..p];
      assert pattern[star..][1..] == segment + pattern[p..];
      if Matches(rest, pattern[star..]) {
        var k :| 0 <= k <= |rest| && Matches(rest[k..], pattern[star..][1..]);
        SegmentConsumes(rest[k..], segment, pattern[p..]);
        assert k == 0 && rest[k..][|segment|..] == "";
      }
      if Matches("", pattern[p..]) {
        LiteralPrefix(rest, "", segment, pattern[p..]);
        assert rest + "" == rest && rest[0..] == rest;
      }
    }
  }
}
