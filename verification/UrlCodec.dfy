/** Percent encoding of RFC 3986 section 2.1, and decoding to a separate buffer or onto the source itself. */
module UrlCodec {
  import opened Bytes

  const PERCENT: byte := 0x25
  const PLUS: byte := 0x2B
  const BLANK: byte := 0x20

  predicate IsDigit(c: byte) {
    0x30 <= c <= 0x39
  }

  predicate IsHex(c: byte) {
    IsDigit(c) || 0x41 <= c <= 0x46 || 0x61 <= c <= 0x66
  }

  /** Letters, digits and `._-$,;~()`. */
  predicate Safe(c: byte) {
    IsDigit(c) || 0x41 <= c <= 0x5A || 0x61 <= c <= 0x7A || c in [0x2E, 0x5F, 0x2D, 0x24, 0x2C, 0x3B, 0x7E, 0x28, 0x29]
  }

  /** `"0123456789abcdef"[n]` */
  function HexChar(n: nat): byte
    requires n < 16
  {
    if n < 10 then 0x30 + n else 0x61 + (n - 10)
  }

  function HexValue(c: byte): (n: nat)
    requires IsHex(c)
    ensures n < 16
  {
    if IsDigit(c) then c - 0x30 else if c <= 0x46 then c - 0x41 + 10 else c - 0x61 + 10
  }

  function EncodeByte(c: byte): (r: bytes)
    ensures 1 <= |r| <= 3
  {
    if Safe(c) then [c] else
      var n: nat := c;
      [PERCENT, HexChar(n / 16), HexChar(n % 16)]
  }

  function Encode(s: bytes): bytes {
    if s == [] then [] else EncodeByte(s[0]) + Encode(s[1..])
  }

  predicate IsEscape(s: bytes) {
    |s| > 2 && s[0] == PERCENT && IsHex(s[1]) && IsHex(s[2])
  }

  function Prepend(c: byte, r: Option<bytes>): Option<bytes> {
    match r
    case Some(s) => Some([c] + s)
    case None => None
  }

  /** Nothing for a text with a blank or control character. */
  function Decode(s: bytes, form: bool): Option<bytes> {
    if s == [] then Some([])
    else if IsEscape(s) then Prepend(16 * HexValue(s[1]) + HexValue(s[2]), Decode(s[3..], form))
    else if form && s[0] == PLUS then Prepend(BLANK, Decode(s[1..], form))
    else if s[0] <= BLANK then None
    else Prepend(s[0], Decode(s[1..], form))
  }

  predicate LeftAsIs(c: char) {
    '0' <= c <= '9' || 'A' <= c <= 'Z' || 'a' <= c <= 'z' || c in "._-$,;~()"
  }

  lemma SafeIff(c: byte)
    ensures Safe(c) <==> LeftAsIs(c as char)
  {
    var marks := "._-$,;~()";
    assert marks == ['.', '_', '-', '$', ',', ';', '~', '(', ')'];
  }

  /** Letters, digits and nine marks are left as they are; any other byte becomes `%` and two lower-case digits. */
  lemma EncodedBytes(c: byte, rest: bytes)
    ensures Encode([c] + rest)
         == (if LeftAsIs(c as char) then [c] else [0x25, LOWER_DIGITS[c / 16], LOWER_DIGITS[c % 16]]) + Encode(rest)
  {
    SafeIff(c);
    var s := [c] + rest;
    assert s[0] == c && s[1..] == rest;
    hide Safe, LeftAsIs;
    HexCharIs(c / 16);
    HexCharIs(c % 16);
    hide HexChar;
  }

  lemma HexCharIs(n: nat)
    requires n < 16
    ensures HexChar(n) == LOWER_DIGITS[n]
  {
  }

  lemma DigitReads(c: byte, d: nat)
    requires SpellsDigit(c, d)
    ensures IsHex(c) && HexValue(c) == d
  {
  }

  /** An escape in either case reads as the byte it names, whether or not the encoder would have written it. */
  lemma EscapeReads(c: byte, high: byte, low: byte, rest: bytes, form: bool)
    requires SpellsDigit(high, c / 16) && SpellsDigit(low, c % 16)
    ensures Decode([0x25, high, low] + rest, form) == Prepend(c, Decode(rest, form))
  {
    DigitReads(high, c / 16);
    DigitReads(low, c % 16);
    hide HexValue, SpellsDigit;
    var s := [0x25, high, low] + rest;
    assert s[3..] == rest && 16 * (c / 16) + c % 16 == c;
  }

  /** A byte that starts no escape reads as itself, but for a blank or control character; in forms a plus is a blank. */
  lemma OthersRead(c: byte, rest: bytes, form: bool)
    requires c != 0x25 || |rest| < 2 || (forall d :: !SpellsDigit(rest[0], d)) || (forall d :: !SpellsDigit(rest[1], d))
    ensures Decode([c] + rest, form)
         == if form && c == 0x2B then Prepend(0x20, Decode(rest, form))
            else if c <= 0x20 then None
            else Prepend(c, Decode(rest, form))
  {
    var s := [c] + rest;
    assert s[1..] == rest && (|rest| >= 2 ==> s[1] == rest[0] && s[2] == rest[1]);
    if |rest| >= 2 {
      HexIsSpelled(rest[0]);
      HexIsSpelled(rest[1]);
    }
    hide IsHex, HexValue, SpellsDigit;
  }

  lemma HexIsSpelled(c: byte)
    ensures IsHex(c) ==> exists d :: SpellsDigit(c, d)
  {
    assert 0x30 <= c <= 0x39 ==> SpellsDigit(c, c - 0x30);
    assert 0x41 <= c <= 0x46 ==> SpellsDigit(c, c - 0x41 + 10);
    assert 0x61 <= c <= 0x66 ==> SpellsDigit(c, c - 0x61 + 10);
  }

  lemma {:induction false} EncodeSnoc(s: bytes, c: byte)
    ensures Encode(s + [c]) == Encode(s) + EncodeByte(c)
    decreases |s|
  {
    if s == [] {
      assert (s + [c])[1..] == [];
    } else {
      assert (s + [c])[1..] == s[1..] + [c];
      EncodeSnoc(s[1..], c);
    }
  }

  lemma {:induction false} EncodedLength(s: bytes)
    ensures |s| <= |Encode(s)| <= 3 * |s|
    decreases |s|
  {
    if s != [] {
      EncodedLength(s[1..]);
    }
  }

  lemma {:induction false} PrefixIsShorter(s: bytes, k: nat)
    requires k < |s|
    ensures |Encode(s[..k + 1])| <= |Encode(s)| && |Encode(s[..k + 1])| == |Encode(s[..k])| + |EncodeByte(s[k])|
    decreases |s|
  {
    assert s[..k + 1] == s[..k] + [s[k]];
    EncodeSnoc(s[..k], s[k]);
    if |s| == k + 1 {
      assert s[..k + 1] == s;
    } else {
      var init := s[..|s| - 1];
      assert s == init + [s[|s| - 1]] && init[..k + 1] == s[..k + 1] && init[..k] == s[..k];
      EncodeSnoc(init, s[|s| - 1]);
      PrefixIsShorter(init, k);
    }
  }

  /** `http_url_encode`. It succeeds exactly when the encoded text and its terminator fit. */
  method UrlEncode(src: cstring, dst: array<byte>) returns (r: int)
    requires dst.Length > 0
    modifies dst
    ensures r == if |Encode(src)| < dst.Length then |Encode(src)| else -1
    ensures r >= 0 ==> dst[..r] == Encode(src) && dst[r] == 0
  {
    hide EncodeByte, Encode;
    var end := dst.Length - 1;
    var pos, k := 0, 0;
    assert dst[..0] == Encode(src[..0]) by { EncodeNothing(); }
    while k < |src| && pos < end
      invariant k <= |src| && pos <= end && dst[..pos] == Encode(src[..k])
      decreases |src| - k
    {
      ghost var done := dst[..pos];
      PrefixIsShorter(src, k);
      assert src[..k + 1] == src[..k] + [src[k]];
      EncodeSnoc(src[..k], src[k]);
      EncodeByteUnfolds(src[k]);
      if Safe(src[k]) {
        dst[pos] := src[k];
        pos := pos + 1;
        assert dst[..pos] == done + [src[k]];
      } else if pos + 2 < end {
        var n: nat := src[k];
        dst[pos] := PERCENT;
        dst[pos + 1] := HexChar(n / 16);
        dst[pos + 2] := HexChar(n % 16);
        pos := pos + 3;
        assert dst[..pos] == done + [PERCENT, HexChar(n / 16), HexChar(n % 16)];
      } else {
        break;
      }
      k := k + 1;
    }
    ghost var done := dst[..pos];
    dst[pos] := 0;
    assert dst[..pos] == done;
    assert src[..|src|] == src;
    if k < |src| {
      PrefixIsShorter(src, k);
      EncodeByteUnfolds(src[k]);
    }
    return if k == |src| then pos else -1;
  }

  lemma EncodeNothing()
    ensures Encode([]) == []
  {
  }

  lemma EncodeByteUnfolds(c: byte)
    ensures var n: nat := c;
            EncodeByte(c) == if Safe(c) then [c] else [PERCENT, HexChar(n / 16), HexChar(n % 16)]
  {
  }

  /** How far decoding gets: the bytes written, and the text from where it stopped. */
  datatype Stop = Stop(done: bytes, rest: bytes)

  function Extend(done: bytes, s: Stop): Stop {
    Stop(done + s.done, s.rest)
  }

  /** Decoding into room for `cap` bytes and a terminator. It stops at the end, without room, or at a bad character. */
  function DecodeUntil(s: bytes, form: bool, cap: nat): (r: Stop)
    ensures |r.done| <= cap && |r.rest| <= |s|
    decreases |s|
  {
    if s == [] || cap == 0 then Stop([], s)
    else if IsEscape(s) then Extend([16 * HexValue(s[1]) + HexValue(s[2])], DecodeUntil(s[3..], form, cap - 1))
    else if form && s[0] == PLUS then Extend([BLANK], DecodeUntil(s[1..], form, cap - 1))
    else if s[0] <= BLANK then Stop([], s)
    else Extend([s[0]], DecodeUntil(s[1..], form, cap - 1))
  }

  /** Stopped at a blank or control character, and not for want of room. */
  predicate Bad(s: Stop, cap: nat) {
    s.rest != [] && |s.done| < cap
  }

  /** It gets to the end exactly when the text decodes and fits. */
  lemma {:induction false} UntilTheEnd(s: bytes, form: bool, cap: nat)
    ensures var d, r := Decode(s, form), DecodeUntil(s, form, cap);
            && (r.rest == [] <==> d.Some? && |d.value| <= cap)
            && (r.rest == [] ==> d == Some(r.done))
    decreases |s|
  {
    if s != [] && cap > 0 {
      if IsEscape(s) {
        UntilTheEnd(s[3..], form, cap - 1);
      } else {
        UntilTheEnd(s[1..], form, cap - 1);
      }
    } else if s != [] {
      DecodedNotLonger(s, form);
    }
  }

  lemma UntilStarts(s: bytes, form: bool, cap: nat)
    requires s != [] && cap > 0
    ensures DecodeUntil(s, form, cap) ==
            if IsEscape(s) then Extend([16 * HexValue(s[1]) + HexValue(s[2])], DecodeUntil(s[3..], form, cap - 1))
            else if form && s[0] == PLUS then Extend([BLANK], DecodeUntil(s[1..], form, cap - 1))
            else if s[0] <= BLANK then Stop([], s)
            else Extend([s[0]], DecodeUntil(s[1..], form, cap - 1))
  {
  }

  /** If there was room, the place where it stopped is a bad character. */
  lemma {:induction false} StopsAtBad(s: bytes, form: bool, cap: nat)
    requires Bad(DecodeUntil(s, form, cap), cap)
    ensures DecodeUntil(s, form, cap).rest[0] <= BLANK
    decreases |s|
  {
    StopsHere(s, form, cap);
    UntilStarts(s, form, cap);
    hide DecodeUntil;
    if IsEscape(s) {
      StopsAtBad(s[3..], form, cap - 1);
    } else if (form && s[0] == PLUS) || s[0] > BLANK {
      StopsAtBad(s[1..], form, cap - 1);
    }
  }

  ghost predicate WroteBefore(s: bytes, form: bool, r: Stop) {
    |r.rest| <= |s| && s[|s| - |r.rest|..] == r.rest && Decode(s[..|s| - |r.rest|], form) == Some(r.done)
  }

  lemma WroteNothing(s: bytes, form: bool)
    ensures WroteBefore(s, form, Stop([], s))
  {
    assert s[..0] == [] && s[0..] == s;
  }

  lemma WroteOneMore(s: bytes, form: bool, k: nat, c: byte, t: Stop)
    requires s != [] && k == (if IsEscape(s) then 3 else 1) && WroteBefore(s[k..], form, t)
    requires c == if IsEscape(s) then 16 * HexValue(s[1]) + HexValue(s[2])
                  else if form && s[0] == PLUS then BLANK
                  else s[0]
    requires IsEscape(s) || (form && s[0] == PLUS) || s[0] > BLANK
    ensures WroteBefore(s, form, Extend([c], t))
  {
    var n := |s| - |t.rest|;
    PlaceFurtherOn(s, k, n);
    DecodeStarts(s[..n], form);
    hide Decode, IsEscape, HexValue;
    assert Decode(s[..n], form) == Prepend(c, Decode(s[..n][k..], form));
  }

  /** What was written is the decoding of the text before the place where it stopped. */
  lemma {:induction false} UntilThePlace(s: bytes, form: bool, cap: nat)
    ensures WroteBefore(s, form, DecodeUntil(s, form, cap))
    decreases |s|
  {
    hide WroteBefore, DecodeUntil, HexValue;
    StopsHere(s, form, cap);
    WroteNothing(s, form);
    if s != [] && cap > 0 {
      UntilStarts(s, form, cap);
      if IsEscape(s) {
        UntilThePlace(s[3..], form, cap - 1);
        WroteOneMore(s, form, 3, 16 * HexValue(s[1]) + HexValue(s[2]), DecodeUntil(s[3..], form, cap - 1));
      } else if (form && s[0] == PLUS) || s[0] > BLANK {
        UntilThePlace(s[1..], form, cap - 1);
        WroteOneMore(s, form, 1, if form && s[0] == PLUS then BLANK else s[0], DecodeUntil(s[1..], form, cap - 1));
      }
    }
  }

  lemma PlaceFurtherOn(s: bytes, k: nat, n: nat)
    requires 0 < k <= n <= |s| && k == if IsEscape(s) then 3 else 1
    ensures var p := s[..n];
            && p[k..] == s[k..][..n - k] && s[n..] == s[k..][n - k..]
            && p[0] == s[0] && (IsEscape(p) <==> IsEscape(s)) && (IsEscape(s) ==> p[1] == s[1] && p[2] == s[2])
  {
  }

  lemma DecodeStarts(p: bytes, form: bool)
    requires p != []
    ensures Decode(p, form) ==
            if IsEscape(p) then Prepend(16 * HexValue(p[1]) + HexValue(p[2]), Decode(p[3..], form))
            else if form && p[0] == PLUS then Prepend(BLANK, Decode(p[1..], form))
            else if p[0] <= BLANK then None
            else Prepend(p[0], Decode(p[1..], form))
  {
  }

  lemma {:induction false} DecodedNotLonger(s: bytes, form: bool)
    ensures Decode(s, form).Some? ==> |Decode(s, form).value| <= |s|
    ensures Decode(s, form).Some? && s != [] ==> Decode(s, form).value != []
    decreases |s|
  {
    if s != [] {
      DecodedNotLonger(s[1..], form);
      if |s| > 2 {
        DecodedNotLonger(s[3..], form);
      }
    }
  }

  lemma ExtendTwice(done: bytes, c: byte, s: Stop)
    ensures Extend(done, Extend([c], s)) == Extend(done + [c], s)
  {
    Assoc(done, [c], s.done);
  }

  /** `http_url_decode`; `dst` may be `src`. The terminator is written unless a bad character stopped it. */
  method UrlDecode(src: array<byte>, len: nat, dst: array<byte>, room: nat, form: bool) returns (r: int)
    requires len <= src.Length && 0 < room <= dst.Length
    modifies dst
    ensures var d := Decode(old(src[..len]), form);
            && r == (if d.Some? && |d.value| < room then |d.value| else -1)
            && (r >= 0 ==> dst[..r] == d.value && dst[r] == 0)
    ensures var s := DecodeUntil(old(src[..len]), form, room - 1);
            var j := |s.done|;
            && dst[..j] == s.done && (r == -1 <==> s.rest != [])
            && dst[j] == (if Bad(s, room - 1) then old(dst[j]) else 0)
            && forall k :: j < k < dst.Length ==> dst[k] == old(dst[k])
  {
    hide Decode, DecodeUntil, Extend, HexValue, IsHex;
    ghost var s, cap := src[..len], room - 1;
    UntilTheEnd(s, form, cap);
    var i, j := 0, 0;
    assert s[0..] == s && dst[..0] == [];
    NothingExtended(DecodeUntil(s, form, cap));
    while i < len && j < room - 1
      invariant i <= len && j < room && j <= i
      invariant Extend(dst[..j], DecodeUntil(s[i..], form, cap - j)) == DecodeUntil(s, form, cap)
      invariant forall k :: i <= k < len ==> src[k] == s[k]
      invariant forall k :: j <= k < dst.Length ==> dst[k] == old(dst[k])
      decreases len - i
    {
      ghost var done := dst[..j];
      UntilUnfolds(s, i, form, cap - j);
      var c;
      if i < len - 2 && src[i] == PERCENT && IsHex(src[i + 1]) && IsHex(src[i + 2]) {
        c := 16 * HexValue(src[i + 1]) + HexValue(src[i + 2]);
        i := i + 2;
      } else if form && src[i] == PLUS {
        c := BLANK;
      } else if src[i] <= BLANK {
        ExtendDone(done, s[i..]);
        return -1;
      } else {
        c := src[i];
      }
      dst[j] := c;
      i, j := i + 1, j + 1;
      assert dst[..j] == done + [c];
      ExtendTwice(done, c, DecodeUntil(s[i..], form, cap - j));
    }
    StopsHere(s[i..], form, cap - j);
    ghost var done := dst[..j];
    ExtendDone(done, s[i..]);
    dst[j] := 0;
    assert dst[..j] == done;
    return if i >= len then j else -1;
  }

  lemma ExtendDone(done: bytes, rest: bytes)
    ensures Extend(done, Stop([], rest)) == Stop(done, rest)
  {
    assert done + [] == done;
  }

  lemma NothingExtended(s: Stop)
    ensures Extend([], s) == s
  {
    assert [] + s.done == s.done;
  }

  lemma StopsHere(s: bytes, form: bool, cap: nat)
    ensures s == [] || cap == 0 ==> DecodeUntil(s, form, cap) == Stop([], s)
  {
  }

  lemma UntilUnfolds(s: bytes, i: nat, form: bool, cap: nat)
    requires i < |s| && cap > 0
    ensures DecodeUntil(s[i..], form, cap) ==
            if i + 2 < |s| && s[i] == PERCENT && IsHex(s[i + 1]) && IsHex(s[i + 2])
            then Extend([16 * HexValue(s[i + 1]) + HexValue(s[i + 2])], DecodeUntil(s[i + 3..], form, cap - 1))
            else if form && s[i] == PLUS then Extend([BLANK], DecodeUntil(s[i + 1..], form, cap - 1))
            else if s[i] <= BLANK then Stop([], s[i..])
            else Extend([s[i]], DecodeUntil(s[i + 1..], form, cap - 1))
  {
    assert s[i..][1..] == s[i + 1..];
    assert i + 2 < |s| ==> s[i..][3..] == s[i + 3..];
  }

  /** What decoding a text of `len` bytes onto itself leaves. A text with a blank or control character is decoded up
      to there; from the write position on the buffer is as it was, and no terminator is written. */
  ghost predicate DecodedInPlace(before: bytes, after: bytes, len: nat)
    requires len < |before| == |after|
  {
    var s := before[..len];
    var stop := DecodeUntil(s, true, len);
    var j := |stop.done|;
    if stop.rest == [] then Decode(s, true) == Some(stop.done) && after[..j] == stop.done && after[j] == 0
    else Decode(s, true).None? && stop.rest[0] <= BLANK && after == stop.done + before[j..]
  }

  /** `url_decode_in_place`: the room is always enough, and a failure is not told. */
  method DecodeInPlace(buf: array<byte>, len: nat)
    requires len < buf.Length && buf[len] == 0
    modifies buf
    ensures DecodedInPlace(old(buf[..]), buf[..], len)
    ensures var d := Decode(old(buf[..len]), true);
            d.Some? ==> |d.value| <= len && buf[..|d.value|] == d.value && buf[|d.value|] == 0
  {
    ghost var s, before := buf[..len], buf[..];
    assert before[..len] == s;
    DecodedNotLonger(s, true);
    var r := UrlDecode(buf, len, buf, len + 1, true);
    InPlace(before, buf[..], len);
  }

  lemma InPlace(before: bytes, after: bytes, len: nat)
    requires len < |before| == |after|
    requires var stop := DecodeUntil(before[..len], true, len);
             var j := |stop.done|;
             && after[..j] == stop.done && (if Bad(stop, len) then after[j] == before[j] else after[j] == 0)
             && forall k :: j < k < |after| ==> after[k] == before[k]
    ensures DecodedInPlace(before, after, len)
  {
    var s := before[..len];
    var stop := DecodeUntil(s, true, len);
    DecodedNotLonger(s, true);
    UntilTheEnd(s, true, len);
    RoomEnough(s, true, len);
    if stop.rest != [] {
      StopsAtBad(s, true, len);
      hide Decode, DecodeUntil;
      BehindStays(before, after, stop.done);
    }
  }

  lemma BehindStays(before: bytes, after: bytes, done: bytes)
    requires |before| == |after| >= |done| && after[..|done|] == done
    requires forall k :: |done| <= k < |after| ==> after[k] == before[k]
    ensures after == done + before[|done|..]
  {
    assert after == after[..|done|] + after[|done|..];
  }

  /** Decoding never writes more than it reads. */
  lemma {:induction false} RoomEnough(s: bytes, form: bool, cap: nat)
    requires |s| <= cap
    ensures var r := DecodeUntil(s, form, cap); |r.done| + |r.rest| <= |s| && (r.rest != [] ==> Bad(r, cap))
    decreases |s|
  {
    if s != [] {
      if IsEscape(s) {
        RoomEnough(s[3..], form, cap - 1);
      } else {
        RoomEnough(s[1..], form, cap - 1);
      }
    }
  }

  lemma DecodeEncodedByte(c: byte, rest: bytes, form: bool)
    ensures Decode(EncodeByte(c) + rest, form) == Prepend(c, Decode(rest, form))
  {
    var t := EncodeByte(c) + rest;
    if Safe(c) {
      assert t[1..] == rest;
    } else {
      var n: nat := c;
      assert t[0] == PERCENT && t[1] == HexChar(n / 16) && t[2] == HexChar(n % 16) && t[3..] == rest;
      assert HexValue(HexChar(n / 16)) == n / 16 && HexValue(HexChar(n % 16)) == n % 16;
    }
  }

  /** Decoding undoes encoding, for forms and for paths. */
  lemma {:induction false} DecodeEncode(s: bytes, form: bool)
    ensures Decode(Encode(s), form) == Some(s)
    decreases |s|
  {
    if s != [] {
      DecodeEncode(s[1..], form);
      DecodeEncodedByte(s[0], Encode(s[1..]), form);
      hide Decode, EncodeByte;
      assert s == [s[0]] + s[1..];
    }
  }

  /** Different texts have different encodings. */
  lemma EncodeInjective(s: bytes, t: bytes)
    requires Encode(s) == Encode(t)
    ensures s == t
  {
    DecodeEncode(s, false);
    DecodeEncode(t, false);
  }

  /** Room for three bytes a character and the terminator, as `construct_local_link` allocates, is enough. */
  method EncodeWithRoom(src: cstring) returns (dst: array<byte>, r: nat)
    ensures dst.Length == 3 * |src| + 1 && r <= 3 * |src|
    ensures dst[..r] == Encode(src) && dst[r] == 0
    ensures Decode(dst[..r], false) == Some(src) && Decode(dst[..r], true) == Some(src)
  {
    dst := new byte[3 * |src| + 1];
    EncodedLength(src);
    DecodeEncode(src, false);
    DecodeEncode(src, true);
    r := UrlEncode(src, dst);
  }
}
