/** What cleaning makes of an absolute path, segment by segment. */
module UriLaws {
  import opened Bytes
  import opened UriModel

  predicate AllDots(s: bytes) {
    forall i :: 0 <= i < |s| ==> s[i] == 0x2E
  }

  /** The segment without the dots at its end. */
  function Shorn(s: bytes): bytes {
    if AllDots(s) then [] else [s[0]] + Shorn(s[1..])
  }

  /** `r` is `s` up to a last character that is no dot. */
  lemma {:induction false} ShornIs(s: bytes)
    ensures var r := Shorn(s); r <= s && AllDots(s[|r|..]) && (r != [] ==> r[|r| - 1] != 0x2E)
  {
    if !AllDots(s) {
      ShornIs(s[1..]);
      var r := Shorn(s[1..]);
      assert s == [s[0]] + s[1..] && s[1 + |r|..] == s[1..][|r|..];
      if r == [] {
        assert s[1..][0..] == s[1..];
        assert AllDots(s[1..]);
        assert forall i :: 0 < i < |s| ==> s[i] == s[1..][i - 1];
      }
    }
  }

  /** Trailing dots go, then every empty segment but a last one. */
  function Kept(segments: seq<bytes>): seq<bytes> {
    if segments == [] then []
    else
      var first := Shorn(segments[0]);
      (if first == [] && |segments| > 1 then [] else [first]) + Kept(segments[1..])
  }

  ghost predicate Follows(rest: bytes) {
    rest == [] || rest[0] == SLASH
  }

  lemma {:induction false} TrailingIsDots(s: bytes, rest: bytes)
    requires s != [] && SLASH !in s && Follows(rest)
    ensures Trailing(s + rest) <==> AllDots(s)
    decreases |s|
  {
    var t := s + rest;
    assert t[0] == s[0];
    if |s| > 1 {
      assert t[1..] == s[1..] + rest && t[1] == s[1] && s[1] in s;
      TrailingIsDots(s[1..], rest);
      assert forall i :: 0 < i < |s| ==> s[i] == s[1..][i - 1];
    } else {
      assert |t| > 1 ==> t[1] == rest[0];
    }
  }

  lemma {:induction false} StripSegment(s: bytes, rest: bytes)
    requires SLASH !in s && Follows(rest)
    ensures StripDots(s + rest) == Shorn(s) + StripDots(rest)
    decreases |s|
  {
    if s == [] {
      assert s + rest == rest && [] + StripDots(rest) == StripDots(rest);
    } else {
      var t := s + rest;
      assert t[0] == s[0] && t[1..] == s[1..] + rest;
      TrailingIsDots(s, rest);
      StripSegment(s[1..], rest);
      if AllDots(s) {
        assert AllDots(s[1..]);
      } else {
        Assoc([s[0]], Shorn(s[1..]), StripDots(rest));
      }
    }
  }

  function AllShorn(segments: seq<bytes>): seq<bytes> {
    if segments == [] then [] else [Shorn(segments[0])] + AllShorn(segments[1..])
  }

  lemma {:induction false} StripJoined(segments: seq<bytes>)
    requires AreSegments(segments)
    ensures StripDots(Join(segments)) == Join(AllShorn(segments))
    decreases |segments|
  {
    if segments != [] {
      var s, rest := segments[0], Join(segments[1..]);
      assert s in segments && AreSegments(segments[1..]);
      StripJoined(segments[1..]);
      StripOne(s, rest);
      hide StripDots, Shorn;
      assert AllShorn(segments)[1..] == AllShorn(segments[1..]);
    }
  }

  lemma StripOne(s: bytes, rest: bytes)
    requires SLASH !in s && Follows(rest)
    ensures StripDots([SLASH] + s + rest) == [SLASH] + Shorn(s) + StripDots(rest)
  {
    var t := [SLASH] + s + rest;
    assert t[0] == SLASH && t[1..] == s + rest;
    assert !Trailing(t) && StripDots(t) == [SLASH] + StripDots(s + rest);
    hide StripDots, Trailing, Shorn;
    StripSegment(s, rest);
    Assoc([SLASH], Shorn(s), StripDots(rest));
  }

  lemma {:induction false} CollapsePlain(s: bytes, rest: bytes)
    requires SLASH !in s
    ensures Collapse(s + rest) == s + Collapse(rest)
    decreases |s|
  {
    if s == [] {
      assert s + rest == rest && s + Collapse(rest) == Collapse(rest);
    } else {
      assert (s + rest)[1..] == s[1..] + rest && s[0] in s;
      CollapsePlain(s[1..], rest);
    }
  }

  lemma CollapseSegment(s: bytes, rest: bytes)
    requires SLASH !in s && Follows(rest)
    ensures Collapse([SLASH] + s + rest)
         == if s == [] && rest != [] then Collapse(rest) else [SLASH] + s + Collapse(rest)
  {
    var t := [SLASH] + s + rest;
    assert t[1..] == s + rest;
    CollapsePlain(s, rest);
    if s == [] {
      assert s + rest == rest;
    } else {
      assert t[1] == s[0] && s[0] in s;
    }
    Assoc([SLASH], s, Collapse(rest));
  }

  lemma {:induction false} ShornIsSegment(s: bytes)
    requires SLASH !in s
    ensures SLASH !in Shorn(s)
  {
    if !AllDots(s) {
      assert forall c :: c in s[1..] ==> c in s;
      ShornIsSegment(s[1..]);
    }
  }

  lemma {:induction false} CollapseJoined(segments: seq<bytes>)
    requires AreSegments(segments)
    ensures Collapse(Join(AllShorn(segments))) == Join(Kept(segments))
    decreases |segments|
  {
    if segments != [] {
      var s, more := Shorn(segments[0]), segments[1..];
      var rest := Join(AllShorn(more));
      assert segments[0] in segments && AreSegments(more);
      ShornIsSegment(segments[0]);
      CollapseJoined(more);
      assert AllShorn(segments)[1..] == AllShorn(more);
      assert rest != [] <==> more != [];
      CollapseSegment(s, rest);
      var kept := Kept(more);
      if s == [] && more != [] {
        assert Kept(segments) == [] + kept == kept;
      } else {
        assert ([s] + kept)[1..] == kept;
      }
    }
  }

  lemma {:induction false} SameSlashes(s: bytes)
    requires BACKSLASH !in s
    ensures Slashes(s) == s
    decreases |s|
  {
    if s != [] {
      assert forall c :: c in s[1..] ==> c in s;
      SameSlashes(s[1..]);
    }
  }

  lemma {:induction false} ResolvedAreSegments(segments: seq<bytes>, kept: seq<bytes>)
    requires AreSegments(segments) && AreSegments(kept)
    ensures AreSegments(Resolve(segments, kept))
    decreases |segments|
  {
    if segments != [] {
      var s := segments[0];
      assert s in segments && AreSegments(segments[1..]);
      if s != [DOT] && s != [DOT, DOT] {
        ResolvedAreSegments(segments[1..], kept + [s]);
      } else {
        var kept' := if s == [DOT] || kept == [] then kept else kept[..|kept| - 1];
        assert forall k :: k in kept' ==> k in kept;
        if |segments| > 1 {
          ResolvedAreSegments(segments[1..], kept');
        }
      }
    }
  }

  /** Removing trailing dots and doubled slashes keeps the segments in order, shorn, without the empty ones before
      the last. */
  lemma SqueezeKeepsSegments(segments: seq<bytes>)
    requires AreSegments(segments)
    ensures Squeeze(Join(segments)) == Join(Kept(segments))
  {
    StripJoined(segments);
    CollapseJoined(segments);
  }

  /** A cleaned absolute path: its segments, dot segments resolved, then shorn of dots and emptiness. */
  lemma CleanedSegments(segments: seq<bytes>)
    requires AreSegments(segments) && BACKSLASH !in Join(segments)
    ensures Clean(Join(segments)) == Join(Kept(Resolve(segments, [])))
  {
    SameSlashes(Join(segments));
    DotSegmentsResolve(segments, []);
    ResolvedAreSegments(segments, []);
    SqueezeKeepsSegments(Resolve(segments, []));
  }
}
