/** `http_match_prefix`: how long a prefix of a string a pattern with `*`, `**`, `?`, `$` and `|` matches. */
module Glob {
  import opened Bytes
  import opened UriModel

  const STAR: byte := 0x2A
  const QUERY: byte := 0x3F
  const DOLLAR: byte := 0x24
  const BAR: byte := 0x7C

  function ToLower(c: byte): byte {
    if 0x41 <= c <= 0x5A then c + 0x20 else c
  }

  /** `**` spans anything, `*` anything without a slash. */
  function Stars(p: bytes): (n: nat)
    requires p != [] && p[0] == STAR
    ensures 1 <= n <= |p|
  {
    if |p| > 1 && p[1] == STAR then 2 else 1
  }

  function Widest(p: bytes, s: bytes): (n: nat)
    requires p != [] && p[0] == STAR
    ensures n <= |s|
  {
    if Stars(p) == 2 then |s| else Span(s)
  }

  /** The pattern `p`, which has no `|`, matches the first `n` bytes of `s`. */
  ghost predicate Matches(p: bytes, s: bytes, n: nat)
    decreases |p|
  {
    if p == [] then n == 0
    else if p[0] == QUERY then s != [] && n > 0 && Matches(p[1..], s[1..], n - 1)
    else if p[0] == DOLLAR then s == [] && n == 0
    else if p[0] == STAR then
      exists k :: 0 <= k <= Min(n, Widest(p, s)) && Matches(p[Stars(p)..], s[k..], n - k)
    else s != [] && n > 0 && ToLower(p[0]) == ToLower(s[0]) && Matches(p[1..], s[1..], n - 1)
  }

  /** `j` further on, -1 staying -1. */
  function Shift(j: nat, r: int): int {
    if r == -1 then -1 else j + r
  }

  /** The result for a pattern without `|`. */
  function MatchLength(p: bytes, s: bytes): (r: int)
    ensures -1 <= r
    decreases |p|, 0, 0
  {
    if p == [] then 0
    else if p[0] == QUERY && s != [] then Shift(1, MatchLength(p[1..], s[1..]))
    else if p[0] == DOLLAR then (if s == [] then 0 else -1)
    else if p[0] == STAR then Longest(p[Stars(p)..], s, Widest(p, s))
    else if s == [] || ToLower(p[0]) != ToLower(s[0]) then -1
    else Shift(1, MatchLength(p[1..], s[1..]))
  }

  /** Spans of a star are tried from the longest down. */
  function Longest(p: bytes, s: bytes, len: nat): (r: int)
    requires len <= |s|
    ensures -1 <= r
    decreases |p|, 1, len
  {
    var r := MatchLength(p, s[len..]);
    if r != -1 then len + r else if len == 0 then -1 else Longest(p, s, len - 1)
  }

  function Result(p: bytes, s: bytes): int
    decreases |p|
  {
    if BAR !in p then MatchLength(p, s)
    else
      var i := FirstBar(p);
      var left := MatchLength(p[..i], s);
      if left > 0 then left else Result(p[i + 1..], s)
  }

  function FirstBar(p: bytes): (i: nat)
    requires BAR in p
    ensures i < |p| && p[i] == BAR && BAR !in p[..i]
  {
    if p[0] == BAR then 0
    else
      assert forall j :: 0 < j < |p| ==> p[j] == p[1..][j - 1];
      var i := 1 + FirstBar(p[1..]);
      assert p[..i] == [p[0]] + p[1..][..i - 1];
      i
  }

  /** `http_match_prefix`. `after` is the byte that follows the pattern in memory, which a final `*` makes it read. */
  method MatchPrefix(pattern: bytes, after: byte, str: bytes) returns (r: int)
    requires 0 !in pattern && 0 !in str && after != STAR
    ensures r == Result(pattern, str)
    decreases |pattern|
  {
    if BAR in pattern {
      var bar := FirstBar(pattern);
      r := MatchPrefix(pattern[..bar], BAR, str);
      if r <= 0 {
        r := MatchPrefix(pattern[bar + 1..], after, str);
      }
      return;
    }
    hide Longest;
    var i, j := 0, 0;
    assert pattern[0..] == pattern && str[0..] == str;
    while i < |pattern|
      invariant i <= |pattern| && j <= |str|
      invariant MatchLength(pattern, str) == Shift(j, MatchLength(pattern[i..], str[j..]))
    {
      Tails(pattern, i);
      Tails(str, j);
      if pattern[i] == QUERY && j < |str| {
      } else if pattern[i] == DOLLAR {
        return if j == |str| then j else -1;
      } else if pattern[i] == STAR {
        ghost var p := pattern[i..];
        var len: int;
        i := i + 1;
        if (if i < |pattern| then pattern[i] else after) == STAR {
          i := i + 1;
          len := |str[j..]|;
        } else {
          len := Span(str[j..]);
        }
        assert pattern[i..] == p[Stars(p)..];
        r := TryStar(pattern, i, after, str, j, len);
        return;
      } else if ToLower(pattern[i]) != (if j < |str| then ToLower(str[j]) else 0) {
        return -1;
      }
      assert j < |str|;
      i, j := i + 1, j + 1;
    }
    return j;
  }

  /** The span loop behind a star. */
  method TryStar(pattern: bytes, i: nat, after: byte, str: bytes, j: nat, widest: nat) returns (r: int)
    requires 0 !in pattern && 0 !in str && after != STAR && BAR !in pattern
    requires 0 < i <= |pattern| && j + widest <= |str|
    ensures r == Shift(j, Longest(pattern[i..], str[j..], widest))
    decreases |pattern|, 0
  {
    if i == |pattern| {
      assert pattern[i..] == [];
      return j + widest;
    }
    var len: int := widest;
    var res := -1;
    while true
      invariant 0 <= len <= widest
      invariant Longest(pattern[i..], str[j..], widest) == Longest(pattern[i..], str[j..], len)
      decreases len
    {
      assert str[j..][len..] == str[j + len..];
      res := MatchPrefix(pattern[i..], after, str[j + len..]);
      if res != -1 {
        return j + res + len;
      }
      len := len - 1;
      if len < 0 {
        return -1;
      }
    }
  }

  lemma Tails(s: bytes, i: nat)
    requires i <= |s|
    ensures i < |s| ==> s[i..] != [] && s[i..][0] == s[i] && s[i..][1..] == s[i + 1..]
    ensures i + 1 < |s| ==> s[i..][1] == s[i + 1]
    ensures i == |s| ==> s[i..] == []
  {
  }

  /** A result is a match. */
  lemma {:induction false} ResultMatches(p: bytes, s: bytes)
    requires MatchLength(p, s) >= 0
    ensures Matches(p, s, MatchLength(p, s))
    decreases |p|
  {
    if p == [] || p[0] == DOLLAR {
    } else if p[0] == STAR {
      var rest := p[Stars(p)..];
      var k := LongestSpan(rest, s, Widest(p, s));
      ResultMatches(rest, s[k..]);
      assert 0 <= k <= Min(MatchLength(p, s), Widest(p, s)) && Matches(rest, s[k..], MatchLength(p, s) - k);
    } else {
      ResultMatches(p[1..], s[1..]);
    }
  }

  /** The span a star gets: the longest one behind which the rest matches anything at all. */
  lemma {:induction false} LongestSpan(p: bytes, s: bytes, len: nat) returns (k: nat)
    requires len <= |s| && Longest(p, s, len) >= 0
    ensures k <= len && MatchLength(p, s[k..]) >= 0 && Longest(p, s, len) == k + MatchLength(p, s[k..])
    ensures forall k' :: k < k' <= len ==> MatchLength(p, s[k'..]) == -1
    decreases len
  {
    if MatchLength(p, s[len..]) != -1 {
      k := len;
    } else {
      k := LongestSpan(p, s, len - 1);
    }
  }

  lemma {:induction false} NoSpan(p: bytes, s: bytes, len: nat, k: nat)
    requires k <= len <= |s| && Longest(p, s, len) == -1
    ensures MatchLength(p, s[k..]) == -1
    decreases len
  {
    if k < len {
      NoSpan(p, s, len - 1, k);
    }
  }

  /** -1 is returned only when no prefix matches. */
  lemma {:induction false} NoResultNoMatch(p: bytes, s: bytes, n: nat)
    requires MatchLength(p, s) == -1
    ensures !Matches(p, s, n)
    decreases |p|
  {
    if p == [] || p[0] == DOLLAR {
    } else if p[0] == STAR {
      var rest := p[Stars(p)..];
      forall k | 0 <= k <= Min(n, Widest(p, s)) ensures !Matches(rest, s[k..], n - k) {
        NoSpan(rest, s, Widest(p, s), k);
        NoResultNoMatch(rest, s[k..], n - k);
      }
    } else if s != [] && n > 0 && (p[0] == QUERY || ToLower(p[0]) == ToLower(s[0])) {
      NoResultNoMatch(p[1..], s[1..], n - 1);
    }
  }

  /** Without `|`: the result is a matching length, and it is -1 exactly when there is none. */
  lemma MatchDecided(p: bytes, s: bytes)
    requires BAR !in p
    ensures Result(p, s) >= 0 ==> Matches(p, s, Result(p, s))
    ensures Result(p, s) == -1 <==> forall n: nat :: !Matches(p, s, n)
  {
    if MatchLength(p, s) >= 0 {
      ResultMatches(p, s);
      var n: nat := MatchLength(p, s);
      assert Matches(p, s, n);
    } else {
      forall n: nat ensures !Matches(p, s, n) {
        NoResultNoMatch(p, s, n);
      }
    }
  }

  /** A star at the front takes the longest span behind which the rest of the pattern matches. */
  lemma StarTakesLongest(p: bytes, s: bytes) returns (k: nat)
    requires p != [] && p[0] == STAR && MatchLength(p, s) >= 0
    ensures k <= Widest(p, s)
    ensures var rest := p[Stars(p)..];
            && MatchLength(rest, s[k..]) >= 0 && MatchLength(p, s) == k + MatchLength(rest, s[k..])
            && Matches(rest, s[k..], MatchLength(rest, s[k..]))
            && forall k', n: nat :: k < k' <= Widest(p, s) ==> !Matches(rest, s[k'..], n)
  {
    var rest := p[Stars(p)..];
    k := LongestSpan(rest, s, Widest(p, s));
    ResultMatches(rest, s[k..]);
    forall k', n: nat | k < k' <= Widest(p, s) ensures !Matches(rest, s[k'..], n) {
      NoResultNoMatch(rest, s[k'..], n);
    }
  }

  /** The first star, behind any `q` without one, takes the longest span behind which the rest matches. */
  lemma {:induction false} FirstStarTakesLongest(q: bytes, p: bytes, s: bytes) returns (k: nat)
    requires STAR !in q && DOLLAR !in q && p != [] && p[0] == STAR && MatchLength(q + p, s) >= 0
    ensures |q| <= |s| && k <= Widest(p, s[|q|..])
    ensures var rest, t := p[Stars(p)..], s[|q|..];
            && MatchLength(rest, t[k..]) >= 0 && MatchLength(q + p, s) == |q| + k + MatchLength(rest, t[k..])
            && Matches(rest, t[k..], MatchLength(rest, t[k..]))
            && forall k', n: nat :: k < k' <= Widest(p, t) ==> !Matches(rest, t[k'..], n)
    decreases |q|
  {
    if q == [] {
      assert q + p == p && s[0..] == s;
      k := StarTakesLongest(p, s);
    } else {
      assert (q + p)[0] == q[0] && q[0] in q && (q + p)[1..] == q[1..] + p;
      k := FirstStarTakesLongest(q[1..], p, s[1..]);
      assert s[1..][|q| - 1..] == s[|q|..];
    }
  }

  // Alternatives

  function Alternatives(p: bytes): (r: seq<bytes>)
    ensures r != []
    decreases |p|
  {
    if BAR !in p then [p] else [p[..FirstBar(p)]] + Alternatives(p[FirstBar(p) + 1..])
  }

  /** The first alternative with a positive result counts; failing that, the last one. */
  lemma {:induction false} ResultOfAlternatives(p: bytes, s: bytes) returns (i: nat)
    ensures var alts := Alternatives(p);
            && i < |alts| && Result(p, s) == MatchLength(alts[i], s)
            && (forall j :: 0 <= j < i ==> MatchLength(alts[j], s) <= 0)
            && (i < |alts| - 1 ==> Result(p, s) > 0)
    decreases |p|
  {
    i := 0;
    if BAR in p && MatchLength(p[..FirstBar(p)], s) <= 0 {
      var rest := p[FirstBar(p) + 1..];
      var k := ResultOfAlternatives(rest, s);
      i := k + 1;
    }
  }

  /** The result is positive exactly when the pattern matches some prefix that is not empty. */
  lemma {:induction false} PositiveIffLongerMatch(p: bytes, s: bytes, n: nat)
    requires n > 0 && Matches(p, s, n)
    ensures MatchLength(p, s) > 0
    decreases |p|
  {
    NoMatchNoResult(p, s, n);
    if p != [] && p[0] == STAR {
      var rest := p[Stars(p)..];
      var k' :| 0 <= k' <= Min(n, Widest(p, s)) && Matches(rest, s[k'..], n - k');
      var k := StarTakesLongest(p, s);
      assert k' <= k;
      if k == 0 {
        assert s[0..] == s;
        PositiveIffLongerMatch(rest, s, n);
      }
    } else if p != [] && p[0] != DOLLAR {
      NoMatchNoResult(p[1..], s[1..], n - 1);
    }
  }

  lemma NoMatchNoResult(p: bytes, s: bytes, n: nat)
    requires Matches(p, s, n)
    ensures MatchLength(p, s) >= 0
  {
    if MatchLength(p, s) == -1 {
      NoResultNoMatch(p, s, n);
    }
  }

  ghost predicate MatchesNone(p: bytes, s: bytes) {
    forall n: nat :: !Matches(p, s, n)
  }

  ghost predicate MatchesOnlyEmpty(p: bytes, s: bytes) {
    Matches(p, s, 0) && forall n: nat :: n > 0 ==> !Matches(p, s, n)
  }

  lemma ResultBySign(p: bytes, s: bytes)
    ensures MatchLength(p, s) == -1 <==> MatchesNone(p, s)
    ensures MatchLength(p, s) == 0 <==> MatchesOnlyEmpty(p, s)
  {
    var r := MatchLength(p, s);
    if r >= 0 {
      ResultMatches(p, s);
      var n: nat := r;
      assert Matches(p, s, n);
    } else {
      forall n: nat ensures !Matches(p, s, n) {
        NoResultNoMatch(p, s, n);
      }
    }
    forall n: nat | n > 0 && Matches(p, s, n) ensures r > 0 {
      PositiveIffLongerMatch(p, s, n);
    }
  }

  /** With `|`, -1 can hide a match: exactly when the last alternative matches no prefix, some other one matches the
      empty prefix, and none matches more. */
  lemma HiddenEmptyMatch(p: bytes, s: bytes)
    ensures var alts := Alternatives(p);
            (Result(p, s) == -1 && exists i :: 0 <= i < |alts| && !MatchesNone(alts[i], s))
            <==> MatchesNone(alts[|alts| - 1], s)
                 && (exists i :: 0 <= i < |alts| && MatchesOnlyEmpty(alts[i], s))
                 && (forall i :: 0 <= i < |alts| ==> MatchesNone(alts[i], s) || MatchesOnlyEmpty(alts[i], s))
  {
    var alts := Alternatives(p);
    var k := ResultOfAlternatives(p, s);
    forall i | 0 <= i < |alts|
      ensures MatchLength(alts[i], s) == -1 <==> MatchesNone(alts[i], s)
      ensures MatchLength(alts[i], s) == 0 <==> MatchesOnlyEmpty(alts[i], s)
    {
      ResultBySign(alts[i], s);
    }
    hide MatchLength, MatchesNone, MatchesOnlyEmpty, Result, Alternatives;
  }

  /** `**|x` against the empty string. */
  lemma HiddenEmptyMatchHappens()
    ensures Result([STAR, STAR, BAR, 0x78], []) == -1 && Matches([STAR, STAR], [], 0)
  {
    var p := [STAR, STAR, BAR, 0x78];
    assert p[0] == STAR && p[1] == STAR && p[2] == BAR;
    assert BAR in p;
    var i := FirstBar(p);
    assert p[..2] == [STAR, STAR] && p[3..] == [0x78];
    assert p[..i][0] == STAR;
    assert MatchLength([STAR, STAR], []) == Longest([], [], 0);
    ResultMatches([STAR, STAR], []);
    assert MatchLength([0x78], []) == -1;
  }
}
