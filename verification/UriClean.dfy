/** `remove_double_dots_slashes`: both passes over one buffer, the write position never ahead of the read position. */
module UriClean {
  import opened Bytes
  import opened UriModel

  /** The C string at `i` ends at `n`. */
  ghost predicate Ends(a: array<byte>, i: nat, n: nat)
    reads a
  {
    i <= n < a.Length && a[n] == 0 && 0 !in a[i..n]
  }

  /** `strncmp` with a literal; with a zero at the end of the literal, `strcmp`. */
  predicate Looks(a: array<byte>, i: nat, literal: bytes)
    reads a
  {
    i + |literal| <= a.Length && a[i..i + |literal|] == literal
  }

  lemma LooksIsPrefix(a: array<byte>, i: nat, n: nat, literal: bytes)
    requires Ends(a, i, n) && 0 !in literal
    ensures Looks(a, i, literal) <==> literal <= a[i..n]
    ensures Looks(a, i, literal + [0]) <==> a[i..n] == literal
  {
    var s, k := a[i..n], |literal|;
    assert forall j :: 0 <= j < |s| ==> a[i + j] == s[j] && s[j] in s;
    assert forall j :: 0 <= j < k ==> literal[j] in literal && (literal + [0])[j] == literal[j];
    assert Looks(a, i, literal) ==> forall j :: 0 <= j < k ==> a[i..i + k][j] == a[i + j] == literal[j];
    assert Looks(a, i, literal + [0]) ==>
      forall j :: 0 <= j <= k ==> a[i..i + k + 1][j] == a[i + j] == (literal + [0])[j];
    assert s == literal ==> a[i..n + 1] == s + [0];
  }

  // First pass

  method TurnBackslashes(a: array<byte>, ghost n: nat)
    requires Ends(a, 0, n)
    modifies a
    ensures Ends(a, 0, n) && a[..n] == Slashes(old(a[..n]))
    ensures forall j :: n <= j < a.Length ==> a[j] == old(a[j])
  {
    ghost var s := a[..n];
    SlashesAt(s);
    var i := 0;
    while a[i] != 0
      invariant i <= n
      invariant forall j :: 0 <= j < i ==> a[j] == Slashes(s)[j] && a[j] != 0
      invariant forall j :: i <= j < a.Length ==> a[j] == old(a[j])
      decreases n - i
    {
      assert a[i] == s[i];
      if a[i] == BACKSLASH {
        a[i] := SLASH;
      }
      i := i + 1;
    }
    assert forall j :: 0 <= j < n ==> s[j] in s;
    assert a[..n] == Slashes(s);
  }

  lemma {:induction false} SlashesAt(s: bytes)
    ensures forall i :: 0 <= i < |s| ==> Slashes(s)[i] == if s[i] == BACKSLASH then SLASH else s[i]
    decreases |s|
  {
    if s != [] {
      SlashesAt(s[1..]);
    }
  }

  /** Back over the last segment. */
  method BackOver(a: array<byte>, outEnd: nat) returns (r: nat)
    requires outEnd <= a.Length
    ensures r <= outEnd && a[..r] == DropLast(a[..outEnd])
  {
    r := outEnd;
    if r != 0 {
      r := r - 1;
      assert a[..r] == a[..outEnd][..r];
      while r != 0 && a[r] != SLASH
        invariant r < outEnd
        invariant DropLast(a[..outEnd]) == if a[r] == SLASH then a[..r] else DropLast(a[..r])
      {
        assert a[..r][..r - 1] == a[..r - 1] && a[..r][r - 1] == a[r - 1];
        r := r - 1;
      }
    }
  }

  /** The buffer after the bytes from `start` to `i` have moved down to `outEnd`. */
  ghost function Moved(was: bytes, start: nat, outEnd: nat, i: nat): bytes
    requires outEnd <= start <= i <= |was|
  {
    was[..outEnd] + was[start..i] + was[outEnd + i - start..]
  }

  lemma MovedAbove(was: bytes, start: nat, outEnd: nat, i: nat, j: nat)
    requires outEnd <= start <= i <= |was| && i <= j < |was|
    ensures |Moved(was, start, outEnd, i)| == |was| && Moved(was, start, outEnd, i)[j] == was[j]
  {
  }

  lemma MovedStep(was: bytes, start: nat, outEnd: nat, i: nat)
    requires outEnd <= start <= i < |was|
    ensures |Moved(was, start, outEnd, i)| == |was|
    ensures Moved(was, start, outEnd, i)[outEnd + i - start := was[i]] == Moved(was, start, outEnd, i + 1)
  {
    var out := outEnd + i - start;
    assert was[start..i + 1] == was[start..i] + [was[i]];
    assert was[out..][1..] == was[out + 1..];
  }

  lemma MovedSlices(was: bytes, start: nat, outEnd: nat, i: nat, n: nat)
    requires outEnd <= start <= i <= n <= |was|
    ensures var now, s := Moved(was, start, outEnd, i), was[start..n];
            && |now| == |was| && now[..outEnd + i - start] == was[..outEnd] + s[..i - start]
            && now[i..n] == s[i - start..]
  {
    var now, s := Moved(was, start, outEnd, i), was[start..n];
    SliceOfSlice(was, start, n, 0, i - start);
    SliceOfSlice(was, start, n, i - start, n - start);
    assert now[..outEnd + i - start] == was[..outEnd] + was[start..i];
  }

  /** One segment moves down, byte by byte. */
  method MoveSegment(a: array<byte>, start: nat, outEnd: nat, ghost n: nat) returns (i: nat, out: nat)
    requires outEnd <= start < n && Ends(a, start, n)
    modifies a
    ensures i == start + SegmentLength(old(a[start..n])) && out == outEnd + i - start
    ensures a[..] == Moved(old(a[..]), start, outEnd, i)
  {
    hide SegmentLength, Moved;
    ghost var was, k := a[..], SegmentLength(a[start..n]);
    InSegment(a, start, n);
    MovedStep(was, start, outEnd, start);
    assert was == Moved(was, start, outEnd, start) by {
      MovedNothing(was, start, outEnd);
    }
    a[outEnd] := a[start];
    i, out := start + 1, outEnd + 1;
    while a[i] != 0 && a[i] != SLASH
      invariant start < i <= start + k && out == outEnd + i - start
      invariant a[..] == Moved(was, start, outEnd, i)
      invariant a[i] == was[i]
      decreases n - i
    {
      MovedStep(was, start, outEnd, i);
      MovedAbove(was, start, outEnd, i + 1, i + 1);
      a[out] := a[i];
      i, out := i + 1, out + 1;
    }
  }

  lemma MovedNothing(was: bytes, start: nat, outEnd: nat)
    requires outEnd <= start <= |was|
    ensures Moved(was, start, outEnd, start) == was
  {
  }

  lemma InSegment(a: array<byte>, start: nat, n: nat)
    requires start < n && Ends(a, start, n)
    ensures var k := SegmentLength(a[start..n]);
            && start + k <= n && (a[start + k] == SLASH || a[start + k] == 0)
            && forall j :: start < j < start + k ==> a[j] != SLASH && a[j] != 0
  {
    var s := a[start..n];
    var k := SegmentLength(s);
    forall j | start < j < start + k ensures a[j] != SLASH && a[j] != 0 {
      assert s[j - start] == a[j] && s[j - start] in s;
    }
  }

  ghost function Rest(a: array<byte>, i: nat, n: nat, out: nat): bytes
    requires i <= n <= a.Length && out <= a.Length
    reads a
  {
    RemoveDotSegments(a[i..n], a[..out])
  }

  /** Steps 2A and 2B: a prefix goes. */
  method SkipPrefix(a: array<byte>, start: nat, out: nat, ghost n: nat) returns (i: nat)
    requires out <= start < n && Ends(a, start, n)
    requires Looks(a, start, [DOT, DOT, SLASH]) || Looks(a, start, [DOT, SLASH]) || Looks(a, start, [SLASH, DOT, SLASH])
    ensures start < i && Ends(a, i, n)
    ensures Rest(a, i, n, out) == Rest(a, start, n, out)
  {
    ghost var s := a[start..n];
    LooksIsPrefix(a, start, n, [DOT, DOT, SLASH]);
    LooksIsPrefix(a, start, n, [DOT, SLASH]);
    LooksIsPrefix(a, start, n, [SLASH, DOT, SLASH]);
    if Looks(a, start, [DOT, DOT, SLASH]) {
      i := start + 3;
    } else {
      i := start + 2;
    }
    assert a[i..n] == s[i - start..];
    if [SLASH, DOT, SLASH] <= s {
      assert s[2..] == [SLASH] + s[3..];
    }
  }

  /** Step 2E: the first segment goes to the output. */
  method TakeSegment(a: array<byte>, start: nat, outEnd: nat, ghost n: nat) returns (i: nat, out: nat)
    requires outEnd <= start < n && Ends(a, start, n) && Ordinary(a[start..n])
    modifies a
    ensures out <= i && start < i && Ends(a, i, n)
    ensures Rest(a, i, n, out) == old(Rest(a, start, n, outEnd))
    ensures forall j :: n <= j < a.Length ==> a[j] == old(a[j])
  {
    ghost var was, s := a[..], a[start..n];
    MoveStep(s, a[..outEnd]);
    hide RemoveDotSegments, SegmentLength, Ordinary, Moved;
    i, out := MoveSegment(a, start, outEnd, n);
    ghost var now := a[..];
    MovedSlices(was, start, outEnd, i, n);
    assert a[..out] == now[..out] && a[i..n] == now[i..n];
    forall j | n <= j < a.Length ensures a[j] == was[j] {
      MovedAbove(was, start, outEnd, i, j);
    }
  }

  /** Step 2C inside the path: back over the last segment of the output. */
  method StepBack(a: array<byte>, start: nat, outEnd: nat, ghost n: nat) returns (i: nat, out: nat)
    requires outEnd <= start < n && Ends(a, start, n) && Looks(a, start, [SLASH, DOT, DOT, SLASH])
    ensures out <= outEnd && start < i && Ends(a, i, n)
    ensures Rest(a, i, n, out) == Rest(a, start, n, outEnd)
  {
    ghost var s := a[start..n];
    LooksIsPrefix(a, start, n, [SLASH, DOT, DOT, SLASH]);
    i := start + 3;
    out := BackOver(a, outEnd);
    assert s[0] == SLASH && s[1] == DOT && s[2] == DOT;
    assert a[i..n] == [SLASH] + s[4..];
  }

  /** A new terminator inside the input. */
  method CutAt(a: array<byte>, start: nat, m: nat, out: nat, ghost n: nat)
    requires out <= start <= m < n && Ends(a, start, n)
    modifies a
    ensures Ends(a, start, m) && a[start..m] == old(a[start..n])[..m - start]
    ensures a[..out] == old(a[..out])
    ensures forall j :: n <= j < a.Length ==> a[j] == old(a[j])
  {
    ghost var s := a[start..n];
    a[m] := 0;
    assert a[start..m] == s[..m - start];
    assert forall c :: c in s[..m - start] ==> c in s;
  }

  /** Steps 2B, 2C and 2D at the end of the path: the input is cut short. */
  method CutInput(a: array<byte>, start: nat, outEnd: nat, ghost n: nat) returns (out: nat, ghost m: nat)
    requires outEnd <= start < n && Ends(a, start, n)
    requires Looks(a, start, [SLASH, DOT] + [0]) || Looks(a, start, [SLASH, DOT, DOT] + [0])
          || Looks(a, start, [DOT] + [0]) || Looks(a, start, [DOT, DOT] + [0])
    modifies a
    ensures out <= outEnd && m < n && Ends(a, start, m)
    ensures Rest(a, start, m, out) == old(Rest(a, start, n, outEnd))
    ensures forall j :: n <= j < a.Length ==> a[j] == old(a[j])
  {
    LooksIsPrefix(a, start, n, [SLASH, DOT]);
    LooksIsPrefix(a, start, n, [SLASH, DOT, DOT]);
    LooksIsPrefix(a, start, n, [DOT]);
    LooksIsPrefix(a, start, n, [DOT, DOT]);
    EndRules(a[start..n], a[..outEnd]);
    hide RemoveDotSegments, DropLast, Looks;
    ghost var s := a[start..n];
    assert s[0] == a[start];
    var cut := start;
    out := outEnd;
    if a[start] == SLASH {
      if Looks(a, start, [SLASH, DOT, DOT] + [0]) {
        out := BackOver(a, outEnd);
      }
      cut := start + 1;
    }
    CutAt(a, start, cut, out, n);
    m := cut;
  }

  lemma EndRules(input: bytes, output: bytes)
    ensures input == [SLASH, DOT] ==> RemoveDotSegments(input, output) == RemoveDotSegments(input[..1], output)
    ensures input == [SLASH, DOT, DOT] ==>
              RemoveDotSegments(input, output) == RemoveDotSegments(input[..1], DropLast(output))
    ensures input == [DOT] || input == [DOT, DOT] ==>
              RemoveDotSegments(input, output) == RemoveDotSegments(input[..0], output)
  {
    hide DropLast;
    assert |input| > 0 && input[0] == SLASH ==> input[..1] == [SLASH];
    assert input == [SLASH, DOT, DOT] ==> input[0] == SLASH && input[1] == DOT && input[2] == DOT;
  }

  method RemoveDots(a: array<byte>, ghost n: nat) returns (out: nat)
    requires Ends(a, 0, n)
    modifies a
    ensures out <= n && a[..out] == RemoveDotSegments(old(a[..n]), [])
    ensures forall j :: n <= j < a.Length ==> a[j] == old(a[j])
  {
    hide RemoveDotSegments;
    var i := 0;
    out := 0;
    ghost var m := n;
    assert a[..0] == [] && a[0..n] == a[..n];
    while a[i] != 0
      invariant out <= i <= m <= n < a.Length && Ends(a, i, m)
      invariant Rest(a, i, m, out) == RemoveDotSegments(old(a[..n]), [])
      invariant forall j :: n <= j < a.Length ==> a[j] == old(a[j])
      decreases m - i
    {
      if Looks(a, i, [DOT, DOT, SLASH]) || Looks(a, i, [DOT, SLASH]) || Looks(a, i, [SLASH, DOT, SLASH]) {
        i := SkipPrefix(a, i, out, m);
      } else if Looks(a, i, [SLASH, DOT, DOT, SLASH]) {
        i, out := StepBack(a, i, out, m);
      } else if Looks(a, i, [SLASH, DOT] + [0]) || Looks(a, i, [SLASH, DOT, DOT] + [0])
             || Looks(a, i, [DOT] + [0]) || Looks(a, i, [DOT, DOT] + [0]) {
        out, m := CutInput(a, i, out, m);
      } else {
        OrdinaryAt(a, i, m);
        i, out := TakeSegment(a, i, out, m);
      }
    }
    assert a[i..m] == [];
    assert Rest(a, i, m, out) == a[..out] by {
      NothingToRemove([], a[..out]);
    }
  }

  lemma OrdinaryAt(a: array<byte>, i: nat, n: nat)
    requires i < n && Ends(a, i, n)
    requires !Looks(a, i, [DOT, DOT, SLASH]) && !Looks(a, i, [DOT, SLASH]) && !Looks(a, i, [SLASH, DOT, SLASH])
    requires !Looks(a, i, [SLASH, DOT, DOT, SLASH]) && !Looks(a, i, [SLASH, DOT] + [0])
    requires !Looks(a, i, [SLASH, DOT, DOT] + [0]) && !Looks(a, i, [DOT] + [0]) && !Looks(a, i, [DOT, DOT] + [0])
    ensures Ordinary(a[i..n])
  {
    hide Looks;
    LooksIsPrefix(a, i, n, [DOT, DOT, SLASH]);
    LooksIsPrefix(a, i, n, [DOT, SLASH]);
    LooksIsPrefix(a, i, n, [SLASH, DOT, SLASH]);
    LooksIsPrefix(a, i, n, [SLASH, DOT, DOT, SLASH]);
    LooksIsPrefix(a, i, n, [SLASH, DOT]);
    LooksIsPrefix(a, i, n, [SLASH, DOT, DOT]);
    LooksIsPrefix(a, i, n, [DOT]);
    LooksIsPrefix(a, i, n, [DOT, DOT]);
  }

  // Second pass

  /** The copy of a run of dots that ends before something else than a slash. */
  method CopyDots(a: array<byte>, start: nat, outEnd: nat, ahead: nat, ghost s: bytes) returns (out: nat)
    requires outEnd <= start < ahead < |s| < a.Length && Between(s, a[..outEnd], start)
    requires (forall j :: start <= j < ahead ==> s[j] == DOT) && s[ahead] != DOT && s[ahead] != SLASH
    modifies a
    ensures out <= ahead && Between(s, a[..out], ahead)
    ensures forall j :: ahead <= j < a.Length ==> a[j] == old(a[j])
  {
    hide Progress, Squeeze, Trailing;
    var i := start;
    out := outEnd;
    while i != ahead
      invariant start <= i <= ahead && out == outEnd + i - start && Between(s, a[..out], i)
      invariant forall j :: i <= j < a.Length ==> a[j] == old(a[j])
      decreases ahead - i
    {
      ghost var done := a[..out];
      RunTrails(s, i, ahead);
      KeepStep(s, done, i);
      a[out] := DOT;
      assert a[..out + 1] == done + [s[i]];
      i, out := i + 1, out + 1;
    }
  }

  /** A run of dots: dropped before a slash or the end, otherwise copied. */
  method PassDots(a: array<byte>, start: nat, outEnd: nat, ghost s: bytes) returns (i: nat, out: nat)
    requires outEnd <= start < |s| < a.Length && s[start] == DOT && Between(s, a[..outEnd], start)
    requires a[start..|s|] == s[start..] && a[|s|] == 0 && 0 !in s
    modifies a
    ensures out <= i <= |s| && start < i && Between(s, a[..out], i)
    ensures forall j :: i <= j < a.Length ==> a[j] == old(a[j])
  {
    hide Progress, Squeeze, Trailing;
    assert forall j :: start <= j < |s| ==> a[j] == s[start..][j - start] == s[j] && s[j] in s;
    var ahead := start + 1;
    while a[ahead] == DOT
      invariant start < ahead <= |s| && forall j :: start <= j < ahead ==> s[j] == DOT
      decreases |s| - ahead
    {
      ahead := ahead + 1;
    }
    i, out := ahead, outEnd;
    ghost var done := a[..outEnd];
    if a[ahead] == SLASH || a[ahead] == 0 {
      SkipRun(s, done, start, ahead);
      if a[ahead] == SLASH && outEnd != 0 && a[outEnd - 1] == SLASH {
        DropSlash(s, done, i);
        out := outEnd - 1;
        assert a[..out] == done[..|done| - 1];
      }
    } else {
      out := CopyDots(a, start, outEnd, ahead, s);
    }
  }

  lemma {:induction false} SkipRun(s: bytes, done: bytes, i: nat, ahead: nat)
    requires Progress(s, done, i) && i <= ahead <= |s| && forall j :: i <= j < ahead ==> s[j] == DOT
    requires ahead < |s| ==> s[ahead] == SLASH
    ensures Progress(s, done, ahead)
    decreases ahead - i
  {
    hide Progress, Trailing;
    if i < ahead {
      RunTrails(s, i, ahead);
      DropStep(s, done, i);
      SkipRun(s, done, i + 1, ahead);
    }
  }

  /** A run of slashes: one is written. */
  method PassSlashes(a: array<byte>, start: nat, outEnd: nat, ghost s: bytes) returns (i: nat, out: nat)
    requires outEnd <= start < |s| < a.Length && s[start] == SLASH && Between(s, a[..outEnd], start)
    requires a[start..|s|] == s[start..] && a[|s|] == 0 && 0 !in s
    modifies a
    ensures out <= i <= |s| && start < i && Between(s, a[..out], i)
    ensures forall j :: i <= j < a.Length ==> a[j] == old(a[j])
  {
    hide Progress, Squeeze;
    assert forall j :: start <= j < |s| ==> a[j] == s[start..][j - start] == s[j];
    ghost var done := a[..outEnd];
    SlashStep(s, done, start);
    a[outEnd] := SLASH;
    out := outEnd + 1;
    assert a[..out] == done + [SLASH];
    i := start + 1;
    while a[i] == SLASH
      invariant start < i <= |s| && Progress(s, a[..out], i) && a[..out] == done + [SLASH]
      invariant forall j :: start < j < a.Length ==> a[j] == old(a[j])
      decreases |s| - i
    {
      AnotherSlash(s, a[..out], i);
      i := i + 1;
    }
  }

  method SqueezePath(a: array<byte>, ghost n: nat) returns (out: nat)
    requires Ends(a, 0, n)
    modifies a
    ensures out <= n && a[..out] == Squeeze(old(a[..n]))
    ensures forall j :: n <= j < a.Length ==> a[j] == old(a[j])
  {
    hide Progress, Squeeze;
    ghost var s := a[..n];
    assert a[0..n] == s;
    var i := 0;
    out := 0;
    assert a[..0] == [];
    ProgressStarts(s);
    while a[i] != 0
      invariant out <= i <= n && Between(s, a[..out], i)
      invariant forall j :: i <= j < a.Length ==> a[j] == old(a[j])
      decreases n - i
    {
      assert a[i..n] == s[i..];
      if a[i] == DOT {
        i, out := PassDots(a, i, out, s);
      } else if a[i] == SLASH {
        i, out := PassSlashes(a, i, out, s);
      } else {
        NotTrailing(s, i);
        KeepStep(s, a[..out], i);
        ghost var done := a[..out];
        a[out] := a[i];
        assert a[..out + 1] == done + [s[i]];
        i, out := i + 1, out + 1;
      }
    }
    ProgressEnds(s, a[..out]);
  }

  lemma NotTrailing(s: bytes, i: nat)
    requires i < |s| && s[i] != DOT
    ensures !Trailing(s[i..])
  {
  }

  lemma ProgressStarts(s: bytes)
    ensures Between(s, [], 0)
  {
    assert s[0..] == s;
    assert [] + Squeeze(s) == Squeeze(s);
  }

  lemma ProgressEnds(s: bytes, done: bytes)
    requires Progress(s, done, |s|)
    ensures done == Squeeze(s)
  {
    assert s[|s|..] == [] && done + [] == done;
  }

  /** The whole function. */
  method RemoveDoubleDotsSlashes(a: array<byte>, ghost n: nat) returns (ghost m: nat)
    requires Ends(a, 0, n)
    modifies a
    ensures m <= n && Ends(a, 0, m) && a[..m] == Clean(old(a[..n]))
    ensures forall j :: n < j < a.Length ==> a[j] == old(a[j])
  {
    hide RemoveDotSegments, Squeeze, Slashes;
    ghost var turned := Slashes(a[..n]);
    StaysZeroFree(a[..n]);
    TurnBackslashes(a, n);
    assert a[0..n] == a[..n] == turned;
    var out := RemoveDots(a, n);
    ghost var s := a[..out];
    a[out] := 0;
    assert a[0..out] == a[..out] == s;
    out := SqueezePath(a, out);
    a[out] := 0;
    m := out;
    assert a[0..m] == a[..m] == Squeeze(s);
  }

  lemma StaysZeroFree(s: bytes)
    requires 0 !in s
    ensures var removed := RemoveDotSegments(Slashes(s), []);
            0 !in Slashes(s) && 0 !in removed && 0 !in Squeeze(removed)
  {
    SlashesAt(s);
    var turned := Slashes(s);
    assert forall i :: 0 <= i < |s| ==> s[i] in s;
    RemovedIsWithin(turned, [], 0);
    var removed := RemoveDotSegments(turned, []);
    StrippedHasNoTrailingDot(removed, 0);
    CollapsedIsClean(StripDots(removed), 0);
  }
}
