/** What cleaning a URI path means: RFC 3986 section 5.2.4, then removal of dots that end a segment
    and of doubled slashes. */
module UriModel {
  import opened Bytes

  const SLASH: byte := 0x2F
  const BACKSLASH: byte := 0x5C
  const DOT: byte := 0x2E

  function Slashes(s: bytes): (r: bytes)
    ensures |r| == |s| && BACKSLASH !in r
  {
    if s == [] then [] else [if s[0] == BACKSLASH then SLASH else s[0]] + Slashes(s[1..])
  }

  /** Length of the part before the next slash. */
  function Span(s: bytes): (n: nat)
    ensures n <= |s| && (n < |s| ==> s[n] == SLASH)
    ensures forall i :: 0 <= i < n ==> s[i] != SLASH
  {
    if s == [] || s[0] == SLASH then 0 else 1 + Span(s[1..])
  }

  /** The first segment with its leading slash, if it has one. */
  function SegmentLength(s: bytes): (n: nat)
    requires s != []
    ensures 0 < n <= |s| && (n < |s| ==> s[n] == SLASH)
    ensures forall i :: 0 < i < n ==> s[i] != SLASH
  {
    assert forall i :: 0 < i < |s| ==> s[i] == s[1..][i - 1];
    1 + Span(s[1..])
  }

  /** The buffer without its last segment and the slash before that. */
  function DropLast(buffer: bytes): (r: bytes)
    ensures r <= buffer
  {
    if buffer == [] then []
    else
      var shorter := buffer[..|buffer| - 1];
      if buffer[|buffer| - 1] == SLASH then shorter else DropLast(shorter)
  }

  /** `remove_dot_segments` of RFC 3986 section 5.2.4, steps 2A to 2E, on an input and an output buffer. */
  function RemoveDotSegments(input: bytes, output: bytes): bytes
    decreases |input|
  {
    if input == [] then output
    else if [DOT, DOT, SLASH] <= input then RemoveDotSegments(input[3..], output)
    else if [DOT, SLASH] <= input then RemoveDotSegments(input[2..], output)
    else if [SLASH, DOT, SLASH] <= input then RemoveDotSegments([SLASH] + input[3..], output)
    else if input == [SLASH, DOT] then RemoveDotSegments([SLASH], output)
    else if [SLASH, DOT, DOT, SLASH] <= input then RemoveDotSegments([SLASH] + input[4..], DropLast(output))
    else if input == [SLASH, DOT, DOT] then RemoveDotSegments([SLASH], DropLast(output))
    else if input == [DOT] || input == [DOT, DOT] then output
    else
      var k := SegmentLength(input);
      RemoveDotSegments(input[k..], output + input[..k])
  }

  /** A dot with only dots between it and a slash or the end. */
  predicate Trailing(s: bytes) {
    s != [] && s[0] == DOT && (|s| == 1 || s[1] == SLASH || Trailing(s[1..]))
  }

  function StripDots(s: bytes): bytes {
    if s == [] then [] else (if Trailing(s) then [] else [s[0]]) + StripDots(s[1..])
  }

  /** Runs of slashes become one slash. */
  function Collapse(s: bytes): bytes {
    if s == [] then []
    else if s[0] == SLASH && |s| > 1 && s[1] == SLASH then Collapse(s[1..])
    else [s[0]] + Collapse(s[1..])
  }

  function Clean(s: bytes): bytes {
    Squeeze(RemoveDotSegments(Slashes(s), []))
  }

  // What a clean path looks like

  ghost predicate NoDoubleSlash(s: bytes) {
    forall i :: 0 < i < |s| ==> !(s[i - 1] == SLASH && s[i] == SLASH)
  }

  /** No dot before a slash or at the end: in particular, no segment is `.` or `..`. */
  ghost predicate NoTrailingDot(s: bytes) {
    forall i :: 0 <= i < |s| && s[i] == DOT ==> i + 1 < |s| && s[i + 1] != SLASH
  }

  ghost predicate IsClean(s: bytes) {
    0x5C !in s && NoDoubleSlash(s) && NoTrailingDot(s)
  }

  lemma {:induction false} RemovedIsWithin(input: bytes, output: bytes, c: byte)
    requires c != SLASH && c !in input && c !in output
    ensures c !in RemoveDotSegments(input, output)
    ensures |RemoveDotSegments(input, output)| <= |input| + |output|
    decreases |input|
  {
    if input == [] {
    } else if [DOT, DOT, SLASH] <= input {
      RemovedIsWithin(input[3..], output, c);
    } else if [DOT, SLASH] <= input {
      RemovedIsWithin(input[2..], output, c);
    } else if [SLASH, DOT, SLASH] <= input {
      RemovedIsWithin([SLASH] + input[3..], output, c);
    } else if input == [SLASH, DOT] {
      RemovedIsWithin([SLASH], output, c);
    } else if [SLASH, DOT, DOT, SLASH] <= input {
      RemovedIsWithin([SLASH] + input[4..], DropLast(output), c);
    } else if input == [SLASH, DOT, DOT] {
      RemovedIsWithin([SLASH], DropLast(output), c);
    } else if input != [DOT] && input != [DOT, DOT] {
      var k := SegmentLength(input);
      RemovedIsWithin(input[k..], output + input[..k], c);
    }
  }

  ghost predicate Rooted(s: bytes) {
    s != [] && s[0] == SLASH
  }

  lemma {:induction false} RemovedIsRooted(input: bytes, output: bytes)
    requires Rooted(input) || (input == [] && output != [])
    requires output == [] || Rooted(output)
    ensures Rooted(RemoveDotSegments(input, output))
    decreases |input|
  {
    if input == [] {
    } else if [SLASH, DOT, SLASH] <= input {
      RemovedIsRooted([SLASH] + input[3..], output);
    } else if input == [SLASH, DOT] {
      RemovedIsRooted([SLASH], output);
    } else if [SLASH, DOT, DOT, SLASH] <= input {
      RemovedIsRooted([SLASH] + input[4..], DropLast(output));
    } else if input == [SLASH, DOT, DOT] {
      RemovedIsRooted([SLASH], DropLast(output));
    } else {
      var k := SegmentLength(input);
      RemovedIsRooted(input[k..], output + input[..k]);
    }
  }

  /** No rule but 2E applies. */
  predicate Ordinary(input: bytes) {
    && input != [] && input != [DOT] && input != [DOT, DOT] && input != [SLASH, DOT] && input != [SLASH, DOT, DOT]
    && !([DOT, DOT, SLASH] <= input) && !([DOT, SLASH] <= input)
    && !([SLASH, DOT, SLASH] <= input) && !([SLASH, DOT, DOT, SLASH] <= input)
  }

  lemma MoveStep(input: bytes, output: bytes)
    requires Ordinary(input)
    ensures var k := SegmentLength(input);
            RemoveDotSegments(input, output) == RemoveDotSegments(input[k..], output + input[..k])
  {
    hide DropLast, SegmentLength;
  }

  lemma OrdinaryStart(input: bytes)
    requires NoTrailingDot(input) && input != []
    ensures Ordinary(input)
  {
    assert input[|input| - 1] != DOT;
    assert |input| > 1 && input[0] == DOT ==> input[1] != SLASH;
    assert |input| > 2 && input[1] == DOT ==> input[2] != SLASH;
    assert |input| > 3 && input[2] == DOT ==> input[3] != SLASH;
  }

  lemma NoTrailingDotBehind(s: bytes, k: nat)
    requires NoTrailingDot(s) && k <= |s|
    ensures NoTrailingDot(s[k..])
  {
    forall i | 0 <= i < |s[k..]| && s[k..][i] == DOT ensures i + 1 < |s[k..]| && s[k..][i + 1] != SLASH {
      assert s[k + i] == DOT;
    }
  }

  /** Without trailing dots there is nothing to remove. */
  lemma {:induction false} NothingToRemove(input: bytes, output: bytes)
    requires NoTrailingDot(input)
    ensures RemoveDotSegments(input, output) == output + input
    decreases |input|
  {
    if input != [] {
      OrdinaryStart(input);
      MoveStep(input, output);
      hide RemoveDotSegments, Ordinary, SegmentLength;
      var k := SegmentLength(input);
      NoTrailingDotBehind(input, k);
      Handover(output, input, k);
      hide *;
      NothingToRemove(input[k..], output + input[..k]);
    } else {
      assert output + input == output;
    }
  }

  lemma {:induction false} StrippedHasNoTrailingDot(s: bytes, c: byte)
    ensures NoTrailingDot(StripDots(s)) && |StripDots(s)| <= |s|
    ensures c !in s ==> c !in StripDots(s)
    ensures s != [] && s[0] != DOT ==> StripDots(s) != [] && StripDots(s)[0] == s[0]
    ensures s != [] && s[0] == DOT && !Trailing(s) ==> |StripDots(s)| > 1 && StripDots(s)[0] == DOT
    decreases |s|
  {
    if s != [] {
      StrippedHasNoTrailingDot(s[1..], c);
    }
  }

  lemma {:induction false} NothingToStrip(s: bytes)
    requires NoTrailingDot(s)
    ensures !Trailing(s) && StripDots(s) == s
    decreases |s|
  {
    if s != [] {
      NoTrailingDotBehind(s, 1);
      NothingToStrip(s[1..]);
    }
  }

  lemma {:induction false} CollapsedIsClean(s: bytes, c: byte)
    ensures NoDoubleSlash(Collapse(s)) && |Collapse(s)| <= |s|
    ensures s != [] ==> Collapse(s) != [] && Collapse(s)[0] == s[0]
    ensures c !in s ==> c !in Collapse(s)
    ensures NoTrailingDot(s) ==> NoTrailingDot(Collapse(s))
    decreases |s|
  {
    if s != [] {
      CollapsedIsClean(s[1..], c);
      var rest := Collapse(s[1..]);
      assert NoTrailingDot(s) ==> NoTrailingDot(s[1..]) by {
        forall i | NoTrailingDot(s) && 0 <= i < |s[1..]| && s[1..][i] == DOT
          ensures i + 1 < |s[1..]| && s[1..][i + 1] != SLASH
        {
          assert s[i + 1] == DOT;
        }
      }
      assert rest == [] || rest[0] == s[1];
    }
  }

  lemma {:induction false} NothingToCollapse(s: bytes)
    requires NoDoubleSlash(s)
    ensures Collapse(s) == s
    decreases |s|
  {
    if s != [] {
      forall i | 0 < i < |s[1..]| ensures !(s[1..][i - 1] == SLASH && s[1..][i] == SLASH) {
        assert s[1..][i - 1] == s[i] && s[1..][i] == s[i + 1];
      }
      NothingToCollapse(s[1..]);
      assert |s| > 1 ==> !(s[0] == SLASH && s[1] == SLASH);
    }
  }

  lemma {:induction false} NoBackslashNothingToTurn(s: bytes)
    requires BACKSLASH !in s
    ensures Slashes(s) == s
    decreases |s|
  {
    if s != [] {
      NoBackslashNothingToTurn(s[1..]);
    }
  }

  /** The cleaned path: no backslash, no `//`, no `./`, no final dot, no growth, still absolute. */
  lemma CleanedIsClean(s: bytes)
    ensures IsClean(Clean(s))
    ensures |Clean(s)| <= |s|
    ensures s != [] && (s[0] == SLASH || s[0] == BACKSLASH) ==> Rooted(Clean(s))
  {
    var turned := Slashes(s);
    var removed := RemoveDotSegments(turned, []);
    RemovedIsWithin(turned, [], BACKSLASH);
    StrippedHasNoTrailingDot(removed, BACKSLASH);
    CollapsedIsClean(StripDots(removed), BACKSLASH);
    if s != [] && (s[0] == SLASH || s[0] == BACKSLASH) {
      RemovedIsRooted(turned, []);
    }
  }

  /** Cleaning changes nothing exactly when the path is clean already. */
  lemma CleanFixes(s: bytes)
    ensures Clean(s) == s <==> IsClean(s)
  {
    CleanedIsClean(s);
    if IsClean(s) {
      NoBackslashNothingToTurn(s);
      NothingToRemove(s, []);
      assert [] + s == s;
      NothingToStrip(s);
      NothingToCollapse(s);
    }
  }

  lemma CleanTwice(s: bytes)
    ensures Clean(Clean(s)) == Clean(s)
  {
    CleanedIsClean(s);
    CleanFixes(Clean(s));
  }

  // Stripping and collapsing in one pass

  function Squeeze(s: bytes): bytes {
    Collapse(StripDots(s))
  }

  predicate EndsInSlash(s: bytes) {
    s != [] && s[|s| - 1] == SLASH
  }

  /** `done` and `more` laid together, two slashes at the seam counting as one. */
  function Glue(done: bytes, more: bytes): bytes {
    if EndsInSlash(done) && more != [] && more[0] == SLASH then done + more[1..] else done + more
  }

  /** The pass has written `done` for the first `i` bytes of `s`. */
  ghost predicate Progress(s: bytes, done: bytes, i: nat) {
    i <= |s| && NoDoubleSlash(done) && Glue(done, Squeeze(s[i..])) == Squeeze(s)
  }

  /** As `Progress`, and no slash of the run before `i` is left. */
  ghost predicate Between(s: bytes, done: bytes, i: nat) {
    Progress(s, done, i) && (i < |s| && s[i] == SLASH ==> !EndsInSlash(done))
  }

  lemma KeepStep(s: bytes, done: bytes, i: nat)
    requires Progress(s, done, i) && i < |s| && s[i] != SLASH && !Trailing(s[i..])
    ensures Between(s, done + [s[i]], i + 1)
  {
    var c, t := s[i], StripDots(s[i + 1..]);
    assert s[i..][1..] == s[i + 1..];
    assert ([c] + t)[1..] == t;
    assert Squeeze(s[i..]) == [c] + Collapse(t);
    Assoc(done, [c], Collapse(t));
  }

  lemma SlashStep(s: bytes, done: bytes, i: nat)
    requires Between(s, done, i) && i < |s| && s[i] == SLASH
    ensures Progress(s, done + [SLASH], i + 1)
  {
    var t := StripDots(s[i + 1..]);
    assert s[i..][1..] == s[i + 1..];
    assert ([SLASH] + t)[1..] == t;
    CollapsedIsClean(t, 0);
    assert Squeeze(s[i..]) == Glue([SLASH], Collapse(t));
    Assoc(done, [SLASH], Collapse(t));
    assert Collapse(t) != [] && Collapse(t)[0] == SLASH ==> done + [SLASH] + Collapse(t)[1..] == done + Collapse(t);
  }

  lemma AnotherSlash(s: bytes, done: bytes, i: nat)
    requires Progress(s, done, i) && EndsInSlash(done) && i < |s| && s[i] == SLASH
    ensures Progress(s, done, i + 1)
  {
    var t := StripDots(s[i + 1..]);
    assert s[i..][1..] == s[i + 1..];
    assert ([SLASH] + t)[1..] == t;
    CollapsedIsClean(t, 0);
    assert Squeeze(s[i..]) == Glue([SLASH], Collapse(t));
  }

  lemma DropStep(s: bytes, done: bytes, i: nat)
    requires Progress(s, done, i) && i < |s| && s[i] != SLASH && Trailing(s[i..])
    ensures Progress(s, done, i + 1)
  {
    var t := StripDots(s[i + 1..]);
    assert s[i..][1..] == s[i + 1..] && [] + t == t;
  }

  lemma DropSlash(s: bytes, done: bytes, i: nat)
    requires Progress(s, done, i) && i < |s| && s[i] == SLASH && EndsInSlash(done)
    ensures Between(s, done[..|done| - 1], i)
  {
    var shorter := done[..|done| - 1];
    StrippedHasNoTrailingDot(s[i..], 0);
    CollapsedIsClean(StripDots(s[i..]), 0);
    var more := Squeeze(s[i..]);
    assert done == shorter + [SLASH] && more == [SLASH] + more[1..];
    Assoc(shorter, [SLASH], more[1..]);
  }

  /** In a run of dots, all are trailing or none is. */
  lemma {:induction false} RunTrails(s: bytes, i: nat, ahead: nat)
    requires i < ahead <= |s| && forall j :: i <= j < ahead ==> s[j] == DOT
    requires ahead < |s| ==> s[ahead] != DOT
    ensures Trailing(s[i..]) <==> ahead == |s| || s[ahead] == SLASH
    decreases ahead - i
  {
    assert s[i..][1..] == s[i + 1..];
    if i + 1 < ahead {
      RunTrails(s, i + 1, ahead);
    }
  }

  // Absolute paths: what dot segments mean

  /** `/s1/s2/...` */
  function Join(segments: seq<bytes>): bytes {
    if segments == [] then [] else [SLASH] + segments[0] + Join(segments[1..])
  }

  /** Resolving the segments one by one against those kept so far. */
  function Resolve(segments: seq<bytes>, kept: seq<bytes>): seq<bytes>
    decreases |segments|
  {
    if segments == [] then kept
    else
      var s := segments[0];
      if s != [DOT] && s != [DOT, DOT] then Resolve(segments[1..], kept + [s])
      else
        var kept' := if s == [DOT] || kept == [] then kept else kept[..|kept| - 1];
        if |segments| == 1 then kept' + [[]] else Resolve(segments[1..], kept')
  }

  ghost predicate AreSegments(segments: seq<bytes>) {
    forall s :: s in segments ==> SLASH !in s
  }

  lemma {:induction false} JoinSnoc(segments: seq<bytes>, s: bytes)
    ensures Join(segments + [s]) == Join(segments) + ([SLASH] + s)
    decreases |segments|
  {
    if segments == [] {
      assert (segments + [s])[1..] == [];
    } else {
      assert (segments + [s])[1..] == segments[1..] + [s];
      JoinSnoc(segments[1..], s);
    }
  }

  lemma {:induction false} DropLastSegment(buffer: bytes, s: bytes)
    requires SLASH !in s
    ensures DropLast(buffer + ([SLASH] + s)) == buffer
    decreases |s|
  {
    var all := buffer + ([SLASH] + s);
    if s == [] {
      assert all[..|all| - 1] == buffer;
    } else {
      var shorter := s[..|s| - 1];
      assert all[..|all| - 1] == buffer + ([SLASH] + shorter);
      assert all[|all| - 1] == s[|s| - 1];
      DropLastSegment(buffer, shorter);
    }
  }

  lemma DropLastJoined(kept: seq<bytes>)
    requires AreSegments(kept)
    ensures DropLast(Join(kept)) == if kept == [] then [] else Join(kept[..|kept| - 1])
  {
    hide Join, DropLast, AreSegments;
    if kept == [] {
      NothingJoined();
    } else {
      var init, last := kept[..|kept| - 1], kept[|kept| - 1];
      assert kept == init + [last];
      LastSegment(kept);
      JoinSnoc(init, last);
      DropLastSegment(Join(init), last);
    }
  }

  lemma NothingJoined()
    ensures Join([]) == [] && DropLast([]) == []
  {
  }

  lemma LastSegment(kept: seq<bytes>)
    requires AreSegments(kept) && kept != []
    ensures SLASH !in kept[|kept| - 1]
  {
  }

  lemma {:induction false} SpanOfSegment(s: bytes, rest: bytes)
    requires SLASH !in s && (rest == [] || rest[0] == SLASH)
    ensures Span(s + rest) == |s|
    decreases |s|
  {
    if s == [] {
      assert s + rest == rest;
    } else {
      assert (s + rest)[1..] == s[1..] + rest;
      SpanOfSegment(s[1..], rest);
    }
  }

  lemma OrdinarySegment(s: bytes, rest: bytes)
    requires SLASH !in s && s != [DOT] && s != [DOT, DOT] && (rest == [] || rest[0] == SLASH)
    ensures Ordinary([SLASH] + s + rest)
  {
    var input := [SLASH] + s + rest;
    assert input[0] == SLASH;
    if |s| >= 3 {
      assert input[1] == s[0] && input[2] == s[1] && input[3] == s[2];
      assert s[0] in s && s[1] in s && s[2] in s;
    } else if |s| == 2 {
      assert input[1] == s[0] && input[2] == s[1] && s == [s[0], s[1]];
      assert s[0] in s && s[1] in s;
    } else if |s| == 1 {
      assert input[1] == s[0] && s == [s[0]];
    } else {
      assert input == [SLASH] + rest && (rest != [] ==> input[1] == SLASH);
    }
  }

  /** An ordinary segment is moved to the output. */
  lemma MoveOne(s: bytes, rest: bytes, output: bytes)
    requires SLASH !in s && s != [DOT] && s != [DOT, DOT] && (rest == [] || rest[0] == SLASH)
    ensures RemoveDotSegments([SLASH] + s + rest, output) == RemoveDotSegments(rest, output + ([SLASH] + s))
  {
    var input := [SLASH] + s + rest;
    assert input[1..] == s + rest;
    SpanOfSegment(s, rest);
    var k := 1 + |s|;
    assert SegmentLength(input) == k;
    assert input[..k] == [SLASH] + s && input[k..] == rest;
    OrdinarySegment(s, rest);
    MoveStep(input, output);
  }

  lemma OneDot(rest: bytes, output: bytes)
    requires rest == [] || rest[0] == SLASH
    ensures RemoveDotSegments([SLASH, DOT] + rest, output)
         == RemoveDotSegments(if rest == [] then [SLASH] else rest, output)
  {
    var input := [SLASH, DOT] + rest;
    if rest == [] {
      assert input == [SLASH, DOT];
    } else {
      assert input[0] == SLASH && input[1] == DOT && input[2] == SLASH;
      assert [SLASH] + input[3..] == rest;
    }
  }

  lemma TwoDots(rest: bytes, output: bytes)
    requires rest == [] || rest[0] == SLASH
    ensures RemoveDotSegments([SLASH, DOT, DOT] + rest, output)
         == RemoveDotSegments(if rest == [] then [SLASH] else rest, DropLast(output))
  {
    var input := [SLASH, DOT, DOT] + rest;
    assert input[0] == SLASH && input[1] == DOT && input[2] == DOT;
    if rest == [] {
      assert input == [SLASH, DOT, DOT];
    } else {
      assert input[3] == SLASH;
      assert [SLASH] + input[4..] == rest;
    }
  }

  lemma JustSlash(output: bytes)
    ensures RemoveDotSegments([SLASH], output) == output + [SLASH]
  {
    MoveOne([], [], output);
    assert [SLASH] + [] + [] == [SLASH];
  }

  /** On absolute paths, removing dot segments resolves `.` and `..` against the segments before them. */
  lemma {:induction false} DotSegmentsResolve(segments: seq<bytes>, kept: seq<bytes>)
    requires AreSegments(segments) && AreSegments(kept)
    ensures RemoveDotSegments(Join(segments), Join(kept)) == Join(Resolve(segments, kept))
    decreases |segments|
  {
    hide RemoveDotSegments, DropLast, SegmentLength;
    if segments == [] {
      NothingToRemove([], Join(kept));
    } else {
      var s, rest := segments[0], Join(segments[1..]);
      assert AreSegments(segments[1..]);
      if s != [DOT] && s != [DOT, DOT] {
        MoveOne(s, rest, Join(kept));
        JoinSnoc(kept, s);
        DotSegmentsResolve(segments[1..], kept + [s]);
      } else {
        DropLastJoined(kept);
        OneDot(rest, Join(kept));
        TwoDots(rest, Join(kept));
        var kept' := if s == [DOT] || kept == [] then kept else kept[..|kept| - 1];
        assert [SLASH] + s + rest == if s == [DOT] then [SLASH, DOT] + rest else [SLASH, DOT, DOT] + rest;
        if |segments| == 1 {
          JustSlash(Join(kept'));
          JoinSnoc(kept', []);
          assert [SLASH] + [] == [SLASH];
        } else {
          DotSegmentsResolve(segments[1..], kept');
        }
      }
    }
  }
}
