/** UTF-8 checking of JSON strings, and what unescaping guarantees about it. */
module JsonUtf8 {
  import opened Bytes
  import opened JsonString

  predicate IsCont(s: bytes, i: nat) {
    i < |s| && 0x80 <= s[i] < 0xC0
  }

  function NumBytes(c: byte): nat {
    if c == 0xC0 || c == 0xC1 || c > 0xF4 || 0x80 <= c < 0xC0 then 0
    else if c < 0x80 then 1
    else if c < 0xE0 then 2
    else if c < 0xF0 then 3
    else 4
  }

  /** `(cp << 6) | (c & 0x3F)` */
  function AddBits(cp: nat, c: byte): nat {
    cp * 0x40 + c % 0x40
  }

  datatype Sequence = Malformed | Sequence(cp: nat, length: nat)

  /** `verify_utf8_sequence` on what `s` points to. */
  function VerifySequence(s: bytes): (r: Sequence)
    requires s != []
    ensures r.Sequence? ==> 1 <= r.length <= |s|
  {
    var len := NumBytes(s[0]);
    var cp: int :=
      if len == 1 then s[0]
      else if len == 2 && IsCont(s, 1) then AddBits(s[0] % 0x20, s[1])
      else if len == 3 && IsCont(s, 1) && IsCont(s, 2) then AddBits(AddBits(s[0] % 0x10, s[1]), s[2])
      else if len == 4 && IsCont(s, 1) && IsCont(s, 2) && IsCont(s, 3) then
        AddBits(AddBits(AddBits(s[0] % 0x08, s[1]), s[2]), s[3])
      else -1;
    if cp < 0 then Malformed
    else if (cp < 0x80 && len > 1) || (cp < 0x800 && len > 2) || (cp < 0x10000 && len > 3) then Malformed
    else if cp > 0x10FFFF then Malformed
    else if 0xD800 <= cp <= 0xDFFF then Malformed
    else Sequence(cp, len)
  }

  predicate ValidUtf8(s: bytes)
    decreases |s|
  {
    s == [] || (VerifySequence(s).Sequence? && ValidUtf8(s[VerifySequence(s).length..]))
  }

  /** Four hexadecimal digits of a code unit. */
  function HexUnit(u: nat): bytes
    requires u < 0x10000
  {
    [HexDigit(u / 0x10 / 0x10 / 0x10), HexDigit(u / 0x10 / 0x10 % 0x10), HexDigit(u / 0x10 % 0x10), HexDigit(u % 0x10)]
  }

  /** The escape of a code point, after its first backslash and `u`: section 7 of RFC 8259. */
  function EscapedCodePoint(cp: nat): bytes
    requires cp <= 0x10FFFF
  {
    if cp < 0x10000 then HexUnit(cp)
    else HexUnit(0xD800 + (cp - 0x10000) / 0x400) + [BACKSLASH, LOWER_U] + HexUnit(0xDC00 + (cp - 0x10000) % 0x400)
  }

  lemma HexUnitReads(u: nat, rest: bytes)
    requires u < 0x10000
    ensures Hex4(HexUnit(u) + rest) == u
  {
    var a, b, c, d := u / 0x10 / 0x10 / 0x10, u / 0x10 / 0x10 % 0x10, u / 0x10 % 0x10, u % 0x10;
    assert u == a * 0x1000 + b * 0x100 + c * 0x10 + d;
    HexDigitReads(a);
    HexDigitReads(b);
    HexDigitReads(c);
    HexDigitReads(d);
    hide HexDigit, HexValue;
    var s := HexUnit(u) + rest;
    assert s[..4] == [HexDigit(a), HexDigit(b), HexDigit(c), HexDigit(d)];
    assert s[0] == s[..4][0] && s[1] == s[..4][1] && s[2] == s[..4][2] && s[3] == s[..4][3];
  }

  lemma HexDigitReads(x: nat)
    requires x < 16
    ensures HexValue(HexDigit(x)) == x
  {
  }

  lemma DigitReads(c: byte, d: nat)
    requires SpellsDigit(c, d)
    ensures HexValue(c) == d
  {
  }

  /** Four digits in either case read as the number they spell. */
  lemma EitherCaseReads(a: nat, b: nat, c: nat, d: nat, s: bytes)
    requires |s| >= 4 && SpellsDigit(s[0], a) && SpellsDigit(s[1], b) && SpellsDigit(s[2], c) && SpellsDigit(s[3], d)
    ensures Hex4(s) == a * 0x1000 + b * 0x100 + c * 0x10 + d
  {
    DigitReads(s[0], a);
    DigitReads(s[1], b);
    DigitReads(s[2], c);
    DigitReads(s[3], d);
    hide HexValue, SpellsDigit;
  }

  /** Anything else is no digit. */
  lemma OtherDigitsFail(s: bytes, k: nat)
    requires |s| >= 4 && k < 4 && forall d :: !SpellsDigit(s[k], d)
    ensures Hex4(s) == -1
  {
    var c := s[k];
    assert 0x30 <= c <= 0x39 ==> SpellsDigit(c, c - 0x30);
    assert 0x61 <= c <= 0x66 ==> SpellsDigit(c, c - 0x61 + 10);
    assert 0x41 <= c <= 0x46 ==> SpellsDigit(c, c - 0x41 + 10);
    assert HexValue(c) == -1;
  }

  /** `\u` and four digits of a trail surrogate. */
  predicate TrailFollows(rest: bytes) {
    |rest| >= 6 && rest[0] == BACKSLASH && rest[1] == LOWER_U && 0xDC00 <= Hex4(rest[2..]) <= 0xDFFF
  }

  /** The parser reads every escaped code point, surrogate pairs included. A lead surrogate is read only with the
      trail surrogate behind it, and a trail surrogate not at all. */
  lemma EscapedCodePointReads(cp: nat, rest: bytes)
    requires cp <= 0x10FFFF
    ensures ParseUtf16(EscapedCodePoint(cp) + rest)
         == if 0xDC00 <= cp <= 0xDFFF || (0xD800 <= cp <= 0xDBFF && !TrailFollows(rest)) then BadEscape
            else if 0xD800 <= cp <= 0xDBFF then
              CodePoint(0x10000 + (cp - 0xD800) * 0x400 + (Hex4(rest[2..]) - 0xDC00), 10)
            else CodePoint(cp, |EscapedCodePoint(cp)|)
  {
    if cp < 0x10000 {
      OneUnitReads(cp, rest);
    } else {
      PairReads(0xD800 + (cp - 0x10000) / 0x400, 0xDC00 + (cp - 0x10000) % 0x400, rest);
    }
  }

  lemma OneUnitReads(u: nat, rest: bytes)
    requires u < 0x10000
    ensures ParseUtf16(HexUnit(u) + rest)
         == if 0xDC00 <= u <= 0xDFFF || (0xD800 <= u <= 0xDBFF && !TrailFollows(rest)) then BadEscape
            else if 0xD800 <= u <= 0xDBFF then
              CodePoint(0x10000 + (u - 0xD800) * 0x400 + (Hex4(rest[2..]) - 0xDC00), 10)
            else CodePoint(u, 4)
  {
    HexUnitReads(u, rest);
    LeadThen(HexUnit(u) + rest, rest);
    hide Hex4, HexUnit;
  }

  lemma PairReads(lead: nat, trail: nat, rest: bytes)
    requires 0xD800 <= lead <= 0xDBFF && 0xDC00 <= trail <= 0xDFFF
    ensures ParseUtf16(HexUnit(lead) + [BACKSLASH, LOWER_U] + HexUnit(trail) + rest)
         == CodePoint(0x10000 + (lead - 0xD800) * 0x400 + (trail - 0xDC00), 10)
  {
    HexUnitReads(trail, rest);
    var tail := [BACKSLASH, LOWER_U] + (HexUnit(trail) + rest);
    assert tail[2..] == HexUnit(trail) + rest;
    OneUnitReads(lead, tail);
    assert HexUnit(lead) + [BACKSLASH, LOWER_U] + HexUnit(trail) + rest == HexUnit(lead) + tail;
  }

  lemma LeadThen(s: bytes, rest: bytes)
    requires |s| == 4 + |rest| && s[4..] == rest
    ensures |rest| >= 2 ==> s[4] == rest[0] && s[5] == rest[1] && s[6..] == rest[2..]
    ensures |rest| >= 2 && |rest| < 6 ==> Hex4(rest[2..]) < 0
  {
  }

  /** The bytes written for a code point are the one UTF-8 sequence that verifies as it. */
  lemma EncodedSequenceVerifies(cp: nat, rest: bytes)
    requires cp <= 0x10FFFF && !(0xD800 <= cp <= 0xDFFF)
    ensures VerifySequence(EncodeUtf8(cp) + rest) == Sequence(cp, |EncodeUtf8(cp)|)
  {
    var s := EncodeUtf8(cp) + rest;
    DropBits(cp);
    DropBits(cp / 0x40);
    DropBits(cp / 0x40 / 0x40);
    hide AddBits;
    if cp < 0x80 {
      assert NumBytes(s[0]) == 1;
    }
    hide NumBytes;
    if 0x80 <= cp < 0x800 {
      VerifyTwo(s, cp / 0x40);
    } else if 0x800 <= cp < 0x10000 {
      VerifyThree(s, cp / 0x40 / 0x40);
    } else if cp >= 0x10000 {
      VerifyFour(s, cp / 0x40 / 0x40 / 0x40);
    }
  }

  lemma DropBits(cp: nat)
    ensures AddBits(cp / 0x40, 0x80 + cp % 0x40) == cp
  {
  }

  lemma VerifyTwo(s: bytes, x: nat)
    requires |s| >= 2 && 2 <= x < 0x20 && s[0] == 0xC0 + x && IsCont(s, 1)
    ensures VerifySequence(s) == Sequence(AddBits(x, s[1]), 2)
  {
  }

  lemma VerifyThree(s: bytes, x: nat)
    requires |s| >= 3 && x < 0x10 && s[0] == 0xE0 + x && IsCont(s, 1) && IsCont(s, 2)
    requires var cp := AddBits(AddBits(x, s[1]), s[2]); cp >= 0x800 && !(0xD800 <= cp <= 0xDFFF)
    ensures VerifySequence(s) == Sequence(AddBits(AddBits(x, s[1]), s[2]), 3)
  {
    assert NumBytes(s[0]) == 3 && s[0] % 0x10 == x;
    hide AddBits, NumBytes;
    var cp := AddBits(AddBits(x, s[1]), s[2]);
    assert cp <= 0xFFFF by {
      AddBitsBound(x, s[1]);
      AddBitsBound(AddBits(x, s[1]), s[2]);
    }
  }

  lemma AddBitsBound(cp: nat, c: byte)
    ensures cp * 0x40 <= AddBits(cp, c) < (cp + 1) * 0x40
  {
  }

  lemma VerifyFour(s: bytes, x: nat)
    requires |s| >= 4 && x <= 4 && s[0] == 0xF0 + x && IsCont(s, 1) && IsCont(s, 2) && IsCont(s, 3)
    requires 0x10000 <= AddBits(AddBits(AddBits(x, s[1]), s[2]), s[3]) <= 0x10FFFF
    ensures VerifySequence(s) == Sequence(AddBits(AddBits(AddBits(x, s[1]), s[2]), s[3]), 4)
  {
    assert NumBytes(s[0]) == 4 && s[0] % 0x08 == x;
    hide AddBits, NumBytes;
  }

  lemma AddedBits(cp: nat, c: byte)
    requires 0x80 <= c < 0xC0
    ensures AddBits(cp, c) / 0x40 == cp && 0x80 + AddBits(cp, c) % 0x40 == c
  {
  }

  /** Decoding is injective: bytes that verify are the encoding of their code point. */
  lemma VerifiedIsEncoded(s: bytes)
    requires s != [] && VerifySequence(s).Sequence?
    ensures s[..VerifySequence(s).length] == EncodeUtf8(VerifySequence(s).cp)
  {
    var v := VerifySequence(s);
    assert v.length == NumBytes(s[0]) && LeadByte(s[0]);
    if v.length == 2 {
      AddedBits(s[0] % 0x20, s[1]);
    } else if v.length == 3 {
      EncodedThree(s);
    } else if v.length == 4 {
      EncodedFour(s);
    }
  }

  lemma EncodedThree(s: bytes)
    requires s != [] && VerifySequence(s).Sequence? && VerifySequence(s).length == 3
    ensures s[..3] == EncodeUtf8(VerifySequence(s).cp)
  {
    var cp := AddBits(s[0] % 0x10, s[1]);
    assert NumBytes(s[0]) == 3 && LeadByte(s[0]);
    AddedBits(s[0] % 0x10, s[1]);
    AddedBits(cp, s[2]);
    hide AddBits, NumBytes;
    assert s[..3] == [s[0], s[1], s[2]];
  }

  lemma EncodedFour(s: bytes)
    requires s != [] && VerifySequence(s).Sequence? && VerifySequence(s).length == 4
    ensures s[..4] == EncodeUtf8(VerifySequence(s).cp)
  {
    var a := AddBits(s[0] % 0x08, s[1]);
    var b := AddBits(a, s[2]);
    assert NumBytes(s[0]) == 4 && LeadByte(s[0]);
    AddedBits(s[0] % 0x08, s[1]);
    AddedBits(a, s[2]);
    AddedBits(b, s[3]);
    FourOf(s, a, b);
  }

  lemma FourOf(s: bytes, a: nat, b: nat)
    requires |s| >= 4 && LeadByte(s[0]) && NumBytes(s[0]) == 4
    requires a / 0x40 == s[0] % 0x08 && 0x80 + a % 0x40 == s[1] && b / 0x40 == a && 0x80 + b % 0x40 == s[2]
    requires var cp := AddBits(b, s[3]); cp / 0x40 == b && 0x80 + cp % 0x40 == s[3] && 0x10000 <= cp <= 0x10FFFF
    ensures s[..4] == EncodeUtf8(AddBits(b, s[3]))
  {
    hide AddBits;
    assert s[..4] == [s[0], s[1], s[2], s[3]];
  }

  /** The lead byte is its mark plus its payload bits. */
  predicate LeadByte(c: byte) {
    && (NumBytes(c) == 2 ==> c == 0xC0 + c % 0x20)
    && (NumBytes(c) == 3 ==> c == 0xE0 + c % 0x10)
    && (NumBytes(c) == 4 ==> c == 0xF0 + c % 0x08)
  }

  lemma ValidAfterEncoded(cp: nat, rest: bytes)
    requires cp <= 0x10FFFF && !(0xD800 <= cp <= 0xDFFF)
    ensures ValidUtf8(EncodeUtf8(cp) + rest) <==> ValidUtf8(rest)
  {
    EncodedSequenceVerifies(cp, rest);
    assert (EncodeUtf8(cp) + rest)[|EncodeUtf8(cp)|..] == rest;
  }

  lemma {:induction false} DropAscii(s: bytes, n: nat)
    requires n <= |s| && ValidUtf8(s) && forall i :: 0 <= i < n ==> s[i] < 0x80
    ensures ValidUtf8(s[n..])
  {
    if n > 0 {
      assert VerifySequence(s) == Sequence(s[0], 1);
      DropAscii(s[1..], n - 1);
      assert s[1..][n - 1..] == s[n..];
    } else {
      assert s[0..] == s;
    }
  }

  lemma {:induction false} UnescapeCopies(s: bytes, n: nat)
    requires n <= |s| && forall i :: 0 <= i < n ==> s[i] >= 0x80
    ensures Unescape(s) == Prepend(s[..n], Unescape(s[n..]))
  {
    hide Unescape;
    var r := Unescape(s[n..]);
    if n == 0 {
      assert s[0..] == s;
      assert r.Some? ==> s[..n] + r.value == r.value;
    } else {
      UnescapeCopies(s[1..], n - 1);
      CopiesFirst(s);
      assert s[1..][n - 1..] == s[n..];
      assert s[1..][..n - 1] == s[1..n];
      assert s[..n] == [s[0]] + s[1..n];
      if r.Some? {
        Assoc([s[0]], s[1..n], r.value);
      }
    }
  }

  lemma CopiesFirst(s: bytes)
    requires s != [] && s[0] >= 0x80
    ensures Unescape(s) == Prepend([s[0]], Unescape(s[1..]))
  {
  }

  lemma Utf16DigitsAreAscii(s: bytes)
    requires ParseUtf16(s).CodePoint?
    ensures forall i :: 0 <= i < ParseUtf16(s).length ==> s[i] < 0x80
  {
    if ParseUtf16(s).length == 10 {
      assert s[6..][0] == s[6] && s[6..][1] == s[7] && s[6..][2] == s[8] && s[6..][3] == s[9];
    }
  }

  /** Unescaping keeps UTF-8 validity, whatever escapes the text mixes in. */
  lemma {:induction false} UnescapeKeepsUtf8(s: bytes)
    requires ValidUtf8(s) && Unescape(s).Some?
    ensures ValidUtf8(Unescape(s).value)
    decreases |s|
  {
    if s == [] {
    } else if s[0] == BACKSLASH && s[1] == LOWER_U {
      var u := ParseUtf16(s[2..]);
      Utf16DigitsAreAscii(s[2..]);
      assert forall i :: 2 <= i < 2 + u.length ==> s[i] == s[2..][i - 2];
      DropAscii(s, 2 + u.length);
      UnescapeKeepsUtf8(s[2 + u.length..]);
      ValidAfterEncoded(u.cp, Unescape(s[2 + u.length..]).value);
    } else if s[0] == BACKSLASH {
      DropAscii(s, 2);
      UnescapeKeepsUtf8(s[2..]);
      ValidAfterEncoded(SimpleEscape(s[1]), Unescape(s[2..]).value);
    } else {
      var v := VerifySequence(s);
      VerifiedIsEncoded(s);
      var n := v.length;
      UnescapeKeepsUtf8Copy(s, n);
      UnescapeKeepsUtf8(s[n..]);
      ValidAfterEncoded(v.cp, Unescape(s[n..]).value);
    }
  }

  lemma UnescapeKeepsUtf8Copy(s: bytes, n: nat)
    requires s != [] && s[0] != BACKSLASH && VerifySequence(s).Sequence? && n == VerifySequence(s).length
    requires Unescape(s).Some?
    ensures Unescape(s[n..]).Some? && Unescape(s).value == s[..n] + Unescape(s[n..]).value
  {
    if n > 1 {
      UnescapeCopies(s, n);
    }
  }

  /** The examples of section 7 of RFC 3629, one for each length but the first. */
  lemma EncodedExamples()
    ensures EncodeUtf8(0x41) == [0x41] && EncodeUtf8(0x391) == [0xCE, 0x91]
    ensures EncodeUtf8(0x2262) == [0xE2, 0x89, 0xA2] && EncodeUtf8(0x233B4) == [0xF0, 0xA3, 0x8E, 0xB4]
  {
  }
}
