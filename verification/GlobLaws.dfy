/** What the special characters of a pattern stand for, said of the strings it matches. */
module GlobLaws {
  import opened Bytes
  import opened UriModel
  import opened Glob

  /** The same character, letter case aside. */
  predicate SameLetter(a: byte, b: byte) {
    a == b || (0x41 <= a <= 0x5A && b == a + 0x20) || (0x41 <= b <= 0x5A && a == b + 0x20)
  }

  predicate SameText(s: bytes, t: bytes) {
    |s| == |t| && forall i :: 0 <= i < |s| ==> SameLetter(s[i], t[i])
  }

  /** No `*`, `?`, `$` or `|`. */
  predicate Ordinary(q: bytes) {
    forall c :: c in q ==> c != 0x2A && c != 0x3F && c != 0x24 && c != 0x7C
  }

  lemma LowerIff(a: byte, b: byte)
    ensures ToLower(a) == ToLower(b) <==> SameLetter(a, b)
  {
  }

  lemma OrdinaryTail(q: bytes)
    requires Ordinary(q) && q != []
    ensures Ordinary(q[1..])
  {
    assert forall c :: c in q[1..] ==> c in q;
  }

  /** Ordinary characters match themselves, in either case. */
  lemma {:induction false} OrdinaryStart(q: bytes, p: bytes, s: bytes, n: nat)
    requires Ordinary(q)
    ensures Matches(q + p, s, n) <==>
            |q| <= n && |q| <= |s| && SameText(q, s[..|q|]) && Matches(p, s[|q|..], n - |q|)
    decreases |q|
  {
    if q == [] {
      assert q + p == p && s[0..] == s && s[..0] == q;
    } else {
      var t := q + p;
      assert t[0] == q[0] && t[1..] == q[1..] + p && q[0] in q;
      hide ToLower, SameLetter;
      OrdinaryTail(q);
      if s != [] && n > 0 {
        LowerIff(q[0], s[0]);
        OrdinaryStart(q[1..], p, s[1..], n - 1);
        SameTextSplits(q, s);
      }
    }
  }

  lemma SameTextSplits(q: bytes, s: bytes)
    requires q != [] && s != []
    ensures |q| <= |s| ==>
              && (SameText(q, s[..|q|]) <==> SameLetter(q[0], s[0]) && SameText(q[1..], s[1..][..|q| - 1]))
              && s[1..][|q| - 1..] == s[|q|..]
  {
    if |q| <= |s| {
      var t := s[..|q|];
      assert t[0] == s[0] && t[1..] == s[1..][..|q| - 1];
      if SameText(q[1..], t[1..]) && SameLetter(q[0], t[0]) {
        forall i | 0 <= i < |q| ensures SameLetter(q[i], t[i]) {
          assert i > 0 ==> q[i] == q[1..][i - 1] && t[i] == t[1..][i - 1];
        }
      }
      if SameText(q, t) {
        forall i | 0 <= i < |q| - 1 ensures SameLetter(q[1..][i], t[1..][i]) {
          assert q[1..][i] == q[i + 1] && t[1..][i] == t[i + 1];
        }
      }
    }
  }

  lemma OrdinaryAlone(q: bytes, s: bytes, n: nat)
    requires Ordinary(q)
    ensures Matches(q, s, n) <==> n == |q| <= |s| && SameText(q, s[..|q|])
  {
    OrdinaryStart(q, [], s, n);
    hide SameText;
    assert q + [] == q;
  }

  lemma SpanHasNoSlash(s: bytes, k: nat)
    requires k <= |s|
    ensures k <= Span(s) <==> 0x2F !in s[..k]
  {
    if k > Span(s) {
      assert s[..k][Span(s)] == SLASH;
    }
  }

  /** Behind a star with an ordinary rest, the span is what the rest leaves. */
  lemma StarThen(p: bytes, rest: bytes, s: bytes, n: nat)
    requires p != [] && p[0] == STAR && Ordinary(rest) && p[Stars(p)..] == rest
    ensures Matches(p, s, n) <==>
            |rest| <= n <= |s| && n - |rest| <= Widest(p, s) && SameText(rest, s[n - |rest|..n])
  {
    hide SameText;
    forall k | 0 <= k <= Min(n, Widest(p, s)) ensures
      Matches(rest, s[k..], n - k) <==> n - k == |rest| <= |s| - k && SameText(rest, s[n - |rest|..n])
    {
      OrdinaryAlone(rest, s[k..], n - k);
      if n - k == |rest| <= |s| - k {
        assert s[k..][..|rest|] == s[n - |rest|..n];
      }
    }
    if |rest| <= n <= |s| && n - |rest| <= Widest(p, s) {
      var k := n - |rest|;
      assert 0 <= k <= Min(n, Widest(p, s));
      if SameText(rest, s[n - |rest|..n]) {
        assert Matches(p[Stars(p)..], s[k..], n - k);
      }
    }
  }

  lemma BehindOneStar(rest: bytes)
    requires Ordinary(rest)
    ensures var p := [0x2A] + rest; Stars(p) == 1 && p[Stars(p)..] == rest
  {
    var p := [0x2A] + rest;
    assert p[1..] == rest && (rest != [] ==> rest[0] in rest && p[1] == rest[0]);
  }

  lemma PartOfTail(s: bytes, i: nat, from: nat, to: nat)
    requires i <= |s| && from <= to <= |s| - i
    ensures s[i..][from..to] == s[i + from..i + to] && (from == 0 ==> s[i..][..to] == s[i..i + to])
  {
    SliceOfSlice(s, i, |s|, from, to);
  }

  lemma StarAtFront(rest: bytes, t: bytes, m: nat)
    requires Ordinary(rest)
    ensures Matches([0x2A] + rest, t, m) <==>
            |rest| <= m <= |t| && 0x2F !in t[..m - |rest|] && SameText(rest, t[m - |rest|..m])
  {
    hide SameText, Matches;
    BehindOneStar(rest);
    StarThen([0x2A] + rest, rest, t, m);
    if |rest| <= m <= |t| {
      SpanHasNoSlash(t, m - |rest|);
    }
  }

  /** `q*rest` matches n bytes exactly if they are q, a part without a slash, and rest. */
  lemma OneStar(q: bytes, rest: bytes, s: bytes, n: nat)
    requires Ordinary(q) && Ordinary(rest)
    ensures Matches(q + ([0x2A] + rest), s, n) <==>
            && |q| + |rest| <= n <= |s|
            && SameText(q, s[..|q|]) && 0x2F !in s[|q|..n - |rest|] && SameText(rest, s[n - |rest|..n])
  {
    hide SameText, Matches, Ordinary;
    OrdinaryStart(q, [0x2A] + rest, s, n);
    if |q| <= n && |q| <= |s| {
      StarAtFront(rest, s[|q|..], n - |q|);
      if |q| + |rest| <= n <= |s| {
        PartOfTail(s, |q|, 0, n - |q| - |rest|);
        PartOfTail(s, |q|, n - |q| - |rest|, n - |q|);
      }
    }
  }

  /** `q**rest` matches them exactly if they are q, any part at all, and rest. */
  lemma TwoStars(q: bytes, rest: bytes, s: bytes, n: nat)
    requires Ordinary(q) && Ordinary(rest)
    ensures Matches(q + ([0x2A, 0x2A] + rest), s, n) <==>
            && |q| + |rest| <= n <= |s|
            && SameText(q, s[..|q|]) && SameText(rest, s[n - |rest|..n])
  {
    hide SameText, Matches, Ordinary;
    OrdinaryStart(q, [0x2A, 0x2A] + rest, s, n);
    if |q| <= n && |q| <= |s| {
      TwoStarsAtFront(rest, s[|q|..], n - |q|);
      if |q| + |rest| <= n <= |s| {
        PartOfTail(s, |q|, n - |q| - |rest|, n - |q|);
      }
    }
  }

  lemma TwoStarsAtFront(rest: bytes, t: bytes, m: nat)
    requires Ordinary(rest)
    ensures Matches([0x2A, 0x2A] + rest, t, m) <==> |rest| <= m <= |t| && SameText(rest, t[m - |rest|..m])
  {
    hide SameText, Matches;
    var p := [0x2A, 0x2A] + rest;
    assert p[2..] == rest;
    StarThen(p, rest, t, m);
  }

  /** `q?rest`: any one byte between the two. */
  lemma AnyByte(q: bytes, rest: bytes, s: bytes, n: nat)
    requires Ordinary(q) && Ordinary(rest)
    ensures Matches(q + ([0x3F] + rest), s, n) <==>
            n == |q| + 1 + |rest| <= |s| && SameText(q, s[..|q|]) && SameText(rest, s[|q| + 1..n])
  {
    var p := [0x3F] + rest;
    hide SameText;
    OrdinaryStart(q, p, s, n);
    if |q| < n && |q| < |s| {
      assert p[1..] == rest && s[|q|..][1..] == s[|q| + 1..];
      OrdinaryAlone(rest, s[|q| + 1..], n - |q| - 1);
      if n == |q| + 1 + |rest| <= |s| {
        assert s[|q| + 1..][..|rest|] == s[|q| + 1..n];
      }
    }
  }

  /** `q$`, whatever follows: nothing but all of the string. */
  lemma EndOfString(q: bytes, more: bytes, s: bytes, n: nat)
    requires Ordinary(q)
    ensures Matches(q + ([0x24] + more), s, n) <==> n == |s| && SameText(q, s)
  {
    hide SameText;
    OrdinaryStart(q, [0x24] + more, s, n);
    if |q| == |s| {
      assert s[..|q|] == s && s[|q|..] == [];
    }
    if SameText(q, s) {
      SameLength(q, s);
    }
  }

  lemma SameLength(s: bytes, t: bytes)
    requires SameText(s, t)
    ensures |s| == |t|
  {
  }

  function Count(c: byte, s: bytes): nat {
    if s == [] then 0 else (if s[0] == c then 1 else 0) + Count(c, s[1..])
  }

  lemma {:induction false} CountNone(c: byte, s: bytes)
    requires c !in s
    ensures Count(c, s) == 0
    decreases |s|
  {
    if s != [] {
      assert forall x :: x in s[1..] ==> x in s;
      CountNone(c, s[1..]);
    }
  }

  lemma {:induction false} CountJoin(c: byte, s: bytes, t: bytes)
    ensures Count(c, s + t) == Count(c, s) + Count(c, t)
    decreases |s|
  {
    if s == [] {
      assert s + t == t;
    } else {
      assert (s + t)[1..] == s[1..] + t;
      CountJoin(c, s[1..], t);
    }
  }

  ghost predicate NoDoubleStar(p: bytes) {
    forall i :: 0 <= i < |p| - 1 ==> !(p[i] == 0x2A && p[i + 1] == 0x2A)
  }

  /** Without `**`, what is matched has no more slashes than the pattern has slashes and question marks. */
  lemma {:induction false} SlashesAreMatched(p: bytes, s: bytes, n: nat)
    requires NoDoubleStar(p) && Matches(p, s, n)
    ensures n <= |s| && Count(0x2F, s[..n]) <= Count(0x2F, p) + Count(0x3F, p)
    decreases |p|
  {
    if p == [] || p[0] == DOLLAR {
      assert s[..n] == [];
    } else if p[0] == STAR {
      assert Stars(p) == 1 && NoDoubleStar(p[1..]);
      var k :| 0 <= k <= Min(n, Widest(p, s)) && Matches(p[1..], s[k..], n - k);
      SlashesAreMatched(p[1..], s[k..], n - k);
      SpanHasNoSlash(s, k);
      CountNone(0x2F, s[..k]);
      CountJoin(0x2F, s[..k], s[k..][..n - k]);
      assert s[..k] + s[k..][..n - k] == s[..n];
    } else {
      assert NoDoubleStar(p[1..]);
      SlashesAreMatched(p[1..], s[1..], n - 1);
      assert s[..n][0] == s[0] && s[..n][1..] == s[1..][..n - 1];
    }
  }

  /** The result for `q*rest` is the longest of its matches, -1 if there is none. */
  lemma OneStarResult(q: bytes, rest: bytes, s: bytes)
    requires Ordinary(q) && Ordinary(rest)
    ensures var p, r := q + ([0x2A] + rest), Result(q + ([0x2A] + rest), s);
            && (r >= 0 ==> Matches(p, s, r))
            && forall n: nat :: Matches(p, s, n) ==> n <= r
  {
    hide Matches, MatchLength, SameText, Ordinary;
    var p := q + ([0x2A] + rest);
    NoBar(q, rest);
    MatchDecided(p, s);
    ResultIsMatchLength(p, s);
    var r := Result(p, s);
    forall n: nat | Matches(p, s, n) ensures n <= r {
      var tail := [0x2A] + rest;
      BehindOneStar(rest);
      NoMatchNoResult(p, s, n);
      var k := FirstStarTakesLongest(q, tail, s);
      MatchIsShorter(q, rest, s, k, n);
    }
  }

  lemma ResultIsMatchLength(p: bytes, s: bytes)
    requires BAR !in p
    ensures Result(p, s) == MatchLength(p, s)
  {
    hide MatchLength;
  }

  /** If no span longer than `k` leaves a match to the rest, no match is longer than the one with span `k`. */
  lemma MatchIsShorter(q: bytes, rest: bytes, s: bytes, k: nat, n: nat)
    requires Ordinary(q) && Ordinary(rest) && |q| <= |s| && k <= Widest([0x2A] + rest, s[|q|..])
    requires MatchLength(rest, s[|q|..][k..]) >= 0
    requires Matches(rest, s[|q|..][k..], MatchLength(rest, s[|q|..][k..]))
    requires forall k', m: nat :: k < k' <= Widest([0x2A] + rest, s[|q|..]) ==> !Matches(rest, s[|q|..][k'..], m)
    requires Matches(q + ([0x2A] + rest), s, n)
    ensures n <= |q| + k + MatchLength(rest, s[|q|..][k..])
  {
    hide Matches, MatchLength, SameText, Ordinary;
    var t := s[|q|..];
    OrdinaryAlone(rest, t[k..], MatchLength(rest, t[k..]));
    OneStar(q, rest, s, n);
    var k' := n - |q| - |rest|;
    if k' > k {
      BehindOneStar(rest);
      PartOfTail(s, |q|, 0, k');
      SpanHasNoSlash(t, k');
      PartOfTail(s, |q|, k', k' + |rest|);
      PartOfTail(t, k', 0, |rest|);
      OrdinaryAlone(rest, t[k'..], |rest|);
    }
  }

  lemma NoBar(q: bytes, rest: bytes)
    requires Ordinary(q) && Ordinary(rest)
    ensures BAR !in q + ([0x2A] + rest) && STAR !in q && DOLLAR !in q
  {
  }

  // Alternatives

  function WithBars(alternatives: seq<bytes>): bytes
    requires alternatives != []
  {
    if |alternatives| == 1 then alternatives[0] else alternatives[0] + ([0x7C] + WithBars(alternatives[1..]))
  }

  /** The alternatives are the parts of the pattern between the bars. */
  lemma {:induction false} AlternativesAreParts(p: bytes)
    ensures WithBars(Alternatives(p)) == p && forall a :: a in Alternatives(p) ==> 0x7C !in a
    decreases |p|
  {
    if BAR in p {
      var i := FirstBar(p);
      AlternativesAreParts(p[i + 1..]);
      assert p == p[..i] + ([0x7C] + p[i + 1..]);
      assert Alternatives(p)[1..] == Alternatives(p[i + 1..]);
    }
  }

  /** Some alternative matches a start of the string that is not empty. */
  ghost predicate MatchesSome(p: bytes, s: bytes) {
    exists i: nat, n: nat :: i < |Alternatives(p)| && n > 0 && Matches(Alternatives(p)[i], s, n)
  }

  /** A pattern's result is positive exactly if one of its alternatives matches something that is not empty. */
  lemma PositiveIff(p: bytes, s: bytes)
    ensures Result(p, s) > 0 <==> MatchesSome(p, s)
  {
    var alts := Alternatives(p);
    var k := ResultOfAlternatives(p, s);
    if Result(p, s) > 0 {
      ResultMatches(alts[k], s);
      var n: nat := Result(p, s);
      assert k < |alts| && n > 0 && Matches(alts[k], s, n);
    }
    if i: nat, n: nat :| i < |alts| && n > 0 && Matches(alts[i], s, n) {
      PositiveIffLongerMatch(alts[i], s, n);
      if k == |alts| - 1 {
        assert i == k;
      }
    }
  }
}
