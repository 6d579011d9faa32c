/** JSON strings: escaping on output, finding the closing quote and unescaping on input. */
module JsonString {
  import opened Bytes

  const QUOTE: byte := 0x22
  const SLASH: byte := 0x2F
  const BACKSLASH: byte := 0x5C
  const LOWER_B: byte := 0x62
  const LOWER_F: byte := 0x66
  const LOWER_N: byte := 0x6E
  const LOWER_R: byte := 0x72
  const LOWER_T: byte := 0x74
  const LOWER_U: byte := 0x75
  const ZERO: byte := 0x30

  /** What `s` points to: the terminator once the characters are used up. */
  function At(s: bytes): byte {
    if s == [] then 0 else s[0]
  }

  /** `hex_char_to_int`, -1 for anything but a hexadecimal digit. */
  function HexValue(c: byte): (x: int)
    ensures -1 <= x < 16
  {
    if 0x30 <= c <= 0x39 then c - 0x30
    else if 0x61 <= c <= 0x66 then c - 0x61 + 10
    else if 0x41 <= c <= 0x46 then c - 0x41 + 10
    else -1
  }

  function HexDigit(x: nat): byte
    requires x < 16
  {
    if x < 10 then 0x30 + x else 0x61 + (x - 10)
  }

  /** The escape written for one byte. */
  function EscapeByte(c: byte, escapeSlashes: bool): bytes {
    if c == QUOTE then [BACKSLASH, QUOTE]
    else if c == BACKSLASH then [BACKSLASH, BACKSLASH]
    else if c == 0x08 then [BACKSLASH, LOWER_B]
    else if c == 0x0C then [BACKSLASH, LOWER_F]
    else if c == 0x0A then [BACKSLASH, LOWER_N]
    else if c == 0x0D then [BACKSLASH, LOWER_R]
    else if c == 0x09 then [BACKSLASH, LOWER_T]
    else if c < 0x20 then [BACKSLASH, LOWER_U, ZERO, ZERO, HexDigit(c / 16), HexDigit(c % 16)]
    else if c == SLASH && escapeSlashes then [BACKSLASH, SLASH]
    else [c]
  }

  function Escape(s: bytes, escapeSlashes: bool): bytes {
    if s == [] then [] else EscapeByte(s[0], escapeSlashes) + Escape(s[1..], escapeSlashes)
  }

  /** Four hexadecimal digits, or -1. */
  function Hex4(s: bytes): (x: int)
    ensures -1 <= x < 0x10000
    ensures x >= 0 ==> |s| >= 4
  {
    if |s| < 4 || HexValue(s[0]) < 0 || HexValue(s[1]) < 0 || HexValue(s[2]) < 0 || HexValue(s[3]) < 0 then -1
    else HexValue(s[0]) * 0x1000 + HexValue(s[1]) * 0x100 + HexValue(s[2]) * 0x10 + HexValue(s[3])
  }

  /** UTF-8 bytes of a code point; each division by 0x40 drops six bits. */
  function EncodeUtf8(cp: nat): (r: bytes)
    requires cp <= 0x10FFFF
    ensures 1 <= |r| <= 4
  {
    if cp < 0x80 then [cp]
    else if cp < 0x800 then [0xC0 + cp / 0x40, 0x80 + cp % 0x40]
    else if cp < 0x10000 then [0xE0 + cp / 0x40 / 0x40, 0x80 + cp / 0x40 % 0x40, 0x80 + cp % 0x40]
    else [0xF0 + cp / 0x40 / 0x40 / 0x40, 0x80 + cp / 0x40 / 0x40 % 0x40, 0x80 + cp / 0x40 % 0x40, 0x80 + cp % 0x40]
  }

  datatype CodePoint = BadEscape | CodePoint(cp: nat, length: nat)

  /** The code point named after `\u`: four digits, or a surrogate pair spread over two escapes. */
  function ParseUtf16(s: bytes): (r: CodePoint)
    ensures r.CodePoint? ==> r.cp <= 0x10FFFF && !(0xD800 <= r.cp <= 0xDFFF) && r.length <= |s|
    ensures r.CodePoint? ==> r.length == if r.cp >= 0x10000 then 10 else 4
  {
    var lead := Hex4(s);
    if lead < 0 then BadEscape
    else if lead < 0xD800 || lead > 0xDFFF then CodePoint(lead, 4)
    else if lead <= 0xDBFF then
      if |s| < 6 || s[4] != BACKSLASH || s[5] != LOWER_U then BadEscape
      else
        var trail := Hex4(s[6..]);
        if trail < 0xDC00 || trail > 0xDFFF then BadEscape
        else CodePoint((lead - 0xD800) * 0x400 + (trail - 0xDC00) + 0x10000, 10)
    else BadEscape
  }

  /** The byte of a one-letter escape, or -1. */
  function SimpleEscape(c: byte): int {
    if c == QUOTE || c == BACKSLASH || c == SLASH then c
    else if c == LOWER_B then 0x08
    else if c == LOWER_F then 0x0C
    else if c == LOWER_N then 0x0A
    else if c == LOWER_R then 0x0D
    else if c == LOWER_T then 0x09
    else -1
  }

  function Prepend(b: bytes, r: Option<bytes>): Option<bytes> {
    if r.None? then None else Some(b + r.value)
  }

  /** The string denoted by the text between the quotes. */
  function Unescape(s: bytes): (r: Option<bytes>)
    decreases |s|
  {
    if s == [] then Some([])
    else if s[0] != BACKSLASH then
      if s[0] < 0x20 then None else Prepend([s[0]], Unescape(s[1..]))
    else if |s| == 1 then None
    else if s[1] == LOWER_U then
      var u := ParseUtf16(s[2..]);
      if u.BadEscape? then None else Prepend(EncodeUtf8(u.cp), Unescape(s[2 + u.length..]))
    else
      var c := SimpleEscape(s[1]);
      if c < 0 then None else Prepend([c], Unescape(s[2..]))
  }

  lemma UnescapeUnfold(s: bytes)
    ensures Unescape(s) ==
            if s == [] then Some([])
            else if s[0] != BACKSLASH then
              if s[0] < 0x20 then None else Prepend([s[0]], Unescape(s[1..]))
            else if |s| == 1 then None
            else if s[1] == LOWER_U then
              var u := ParseUtf16(s[2..]);
              if u.BadEscape? then None else Prepend(EncodeUtf8(u.cp), Unescape(s[2 + u.length..]))
            else
              var c := SimpleEscape(s[1]);
              if c < 0 then None else Prepend([c], Unescape(s[2..]))
  {
  }

  /** Text from the closing quote on, or failure at the terminator. */
  function SkipBody(s: bytes): (r: Option<bytes>)
    ensures r.Some? ==> |r.value| <= |s| && At(r.value) == QUOTE
    decreases |s|
  {
    if At(s) == 0 then None
    else if s[0] == QUOTE then Some(s)
    else if s[0] != BACKSLASH then SkipBody(s[1..])
    else if At(s[1..]) == 0 then None
    else SkipBody(s[2..])
  }

  datatype Quoted = NoString | Quoted(chars: bytes, rest: bytes)

  /** `get_quoted_string`. */
  function GetQuoted(s: bytes): (r: Quoted)
    ensures r.Quoted? ==> |r.rest| + 2 <= |s|
  {
    if At(s) != QUOTE then NoString
    else
      var end := SkipBody(s[1..]);
      if end.None? then NoString
      else
        var chars := Unescape(s[1..][..|s| - 1 - |end.value|]);
        if chars.None? then NoString else Quoted(chars.value, end.value[1..])
  }

  /** Escaped are the quote, the backslash, control characters and, on request, the slash. */
  lemma LeftUnescaped(c: byte, escapeSlashes: bool)
    ensures EscapeByte(c, escapeSlashes) == [c] <==>
            c >= 0x20 && c != 0x22 && c != 0x5C && !(escapeSlashes && c == 0x2F)
  {
  }

  lemma UnescapeByte(c: byte, escapeSlashes: bool, rest: bytes)
    ensures Unescape(EscapeByte(c, escapeSlashes) + rest) == Prepend([c], Unescape(rest))
  {
    var e := EscapeByte(c, escapeSlashes);
    var s := e + rest;
    if |e| == 1 {
      assert s[1..] == rest && s[0] == c && c >= 0x20;
    } else if |e| == 2 {
      assert s[2..] == rest;
      assert SimpleEscape(s[1]) == c;
    } else {
      assert s[6..] == rest;
      assert HexValue(s[2]) == 0 && HexValue(s[3]) == 0 && HexValue(s[4]) == c / 16 && HexValue(s[5]) == c % 16;
      assert Hex4(s[2..]) == c;
    }
  }

  /** Unescaping undoes escaping for every byte string, zero bytes included. */
  lemma {:induction false} UnescapeEscape(s: bytes, escapeSlashes: bool)
    ensures Unescape(Escape(s, escapeSlashes)) == Some(s)
  {
    hide Unescape, EscapeByte;
    if s == [] {
      UnescapeUnfold([]);
    } else {
      UnescapeByte(s[0], escapeSlashes, Escape(s[1..], escapeSlashes));
      UnescapeEscape(s[1..], escapeSlashes);
      assert [s[0]] + s[1..] == s;
    }
  }

  /** The closing quote of an escaped string is the first one the scanner accepts. */
  lemma {:induction false} SkipEscape(s: bytes, escapeSlashes: bool, rest: bytes)
    ensures SkipBody(Escape(s, escapeSlashes) + [QUOTE] + rest) == Some([QUOTE] + rest)
  {
    var t := Escape(s, escapeSlashes) + [QUOTE] + rest;
    if s == [] {
      assert t == [QUOTE] + rest;
    } else {
      var e, u := EscapeByte(s[0], escapeSlashes), Escape(s[1..], escapeSlashes) + [QUOTE] + rest;
      assert t == e + u;
      SkipEscape(s[1..], escapeSlashes, rest);
      SkipUnit(s[0], escapeSlashes, u);
    }
  }

  lemma SkipUnit(c: byte, escapeSlashes: bool, u: bytes)
    requires u != []
    ensures SkipBody(EscapeByte(c, escapeSlashes) + u) == SkipBody(u)
  {
    var e := EscapeByte(c, escapeSlashes);
    var t := e + u;
    if |e| == 1 {
      assert t[1..] == u && t[0] == c;
    } else if |e| == 2 {
      assert t[2..] == u;
    } else {
      assert t[2] == t[3] == ZERO && t[4] == HexDigit(c / 16) && t[5] == HexDigit(c % 16);
      SkipPlain(t[2..], 4);
      assert t[2..][4..] == t[6..];
    }
  }

  lemma {:induction false} SkipPlain(t: bytes, n: nat)
    requires n <= |t| && forall i :: 0 <= i < n ==> t[i] != QUOTE && t[i] != BACKSLASH && t[i] != 0
    ensures SkipBody(t) == SkipBody(t[n..])
  {
    if n > 0 {
      SkipPlain(t[1..], n - 1);
      assert t[1..][n - 1..] == t[n..];
    }
  }

  /** A printed string reads back as itself, and reading stops right after its closing quote. */
  lemma QuotedRoundTrip(s: bytes, escapeSlashes: bool, rest: bytes)
    ensures GetQuoted([QUOTE] + Escape(s, escapeSlashes) + [QUOTE] + rest) == Quoted(s, rest)
  {
    var e := Escape(s, escapeSlashes);
    var t := [QUOTE] + e + [QUOTE] + rest;
    assert t[1..] == e + [QUOTE] + rest;
    SkipEscape(s, escapeSlashes, rest);
    assert t[1..][..|e|] == e;
    assert ([QUOTE] + rest)[1..] == rest;
    UnescapeEscape(s, escapeSlashes);
  }

  // Looking behind the closing quote

  /** The digits behind a `\u` of a string that closes behind `t`: two bytes or fewer, there or behind a second `\u`. */
  predicate CutShort(t: bytes) {
    |t| < 3 || (0xD800 <= Hex4(t) <= 0xDBFF && 6 <= |t| < 9 && t[4] == BACKSLASH && t[5] == LOWER_U)
  }

  /** How many bytes of the text between the quotes make its first character, 0 if they make none. */
  function FirstLength(s: bytes): (n: nat)
    requires s != []
    ensures n <= |s|
  {
    if s[0] != BACKSLASH then
      if s[0] < 0x20 then 0 else 1
    else if |s| == 1 then 0
    else if s[1] == LOWER_U then
      var u := ParseUtf16(s[2..]);
      if u.BadEscape? then 0 else 2 + u.length
    else if SimpleEscape(s[1]) < 0 then 0
    else 2
  }

  /** Unescaping the text between the quotes looks behind the closing quote. */
  predicate LooksPast(s: bytes) {
    && s != []
    && (|| ([BACKSLASH, LOWER_U] <= s && CutShort(s[2..]))
        || (FirstLength(s) > 0 && LooksPast(s[FirstLength(s)..])))
  }

  lemma UnescapeFirst(s: bytes)
    requires s != []
    ensures Unescape(s).Some? <==> FirstLength(s) > 0 && Unescape(s[FirstLength(s)..]).Some?
  {
  }

  lemma CutShortIsBad(t: bytes)
    requires CutShort(t)
    ensures ParseUtf16(t).BadEscape?
  {
  }

  /** A text that looks behind the closing quote is refused, whatever stands there. */
  lemma {:induction false} PastIsRefused(s: bytes)
    requires LooksPast(s)
    ensures Unescape(s).None?
    decreases |s|
  {
    hide CutShort, ParseUtf16;
    UnescapeFirst(s);
    if [BACKSLASH, LOWER_U] <= s && CutShort(s[2..]) {
      CutShortIsBad(s[2..]);
    } else {
      PastIsRefused(s[FirstLength(s)..]);
    }
  }

  /** At `i` a `\u` starts with at most two bytes behind it, and everything before it is good,
      or everything but a leading surrogate right before it. */
  predicate LateEscape(s: bytes, i: nat) {
    && i + 2 <= |s| <= i + 4
    && s[i..i + 2] == [BACKSLASH, LOWER_U]
    && (|| Unescape(s[..i]).Some?
        || (&& i >= 6
            && Unescape(s[..i - 6]).Some?
            && s[i - 6..i - 4] == [BACKSLASH, LOWER_U]
            && 0xD800 <= Hex4(s[i - 4..i]) <= 0xDBFF))
  }

  /** What the first character of a text is does not depend on what stands behind it. */
  lemma FirstOfPrefix(s: bytes, i: nat)
    requires 0 < i <= |s|
    ensures FirstLength(s[..i]) == if FirstLength(s) <= i then FirstLength(s) else 0
  {
    var t := s[..i];
    if i >= 2 {
      assert t[2..] == s[2..i];
      DigitsOfPrefix(s[2..], i - 2);
      assert s[2..][..i - 2] == s[2..i];
    }
  }

  lemma DigitsOfPrefix(t: bytes, i: nat)
    requires i <= |t|
    ensures ParseUtf16(t[..i]) ==
            if ParseUtf16(t).CodePoint? && ParseUtf16(t).length <= i then ParseUtf16(t) else BadEscape
  {
    hide HexValue;
    var u := t[..i];
    if i >= 4 {
      assert Hex4(u) == Hex4(t);
      if i >= 6 {
        assert u[6..] == t[6..i];
        assert i < 10 ==> Hex4(u[6..]) < 0;
        assert i >= 10 ==> Hex4(u[6..]) == Hex4(t[6..]);
      }
    }
  }

  /** A prefix is good exactly when it is empty, or its first character is good and so is the rest. */
  lemma GoodPrefix(s: bytes, i: nat)
    requires 0 < i <= |s|
    ensures Unescape(s[..i]).Some? <==>
            var n := FirstLength(s); 0 < n <= i && Unescape(s[n..][..i - n]).Some?
  {
    hide FirstLength, Unescape;
    UnescapeFirst(s[..i]);
    FirstOfPrefix(s, i);
    var n := FirstLength(s);
    if n <= i {
      assert s[..i][n..] == s[n..][..i - n];
    }
  }

  /** A late escape behind a good first character stays one without it. */
  lemma LateBehindFirst(s: bytes, i: nat)
    requires s != [] && 0 < FirstLength(s) <= i <= |s|
    ensures LateEscape(s[FirstLength(s)..], i - FirstLength(s)) ==> LateEscape(s, i)
    ensures LateEscape(s, i) && (i != 6 || Unescape(s[..i]).Some?) ==>
              LateEscape(s[FirstLength(s)..], i - FirstLength(s))
  {
    hide FirstLength, Unescape, HexValue, Hex4;
    var n := FirstLength(s);
    var u, j := s[n..], i - n;
    GoodPrefix(s, i);
    assert u == s[n..|s|];
    if i + 2 <= |s| {
      SliceOfSlice(s, n, |s|, j, j + 2);
    }
    if i > 6 {
      GoodPrefix(s, i - 6);
    }
    if j >= 6 {
      SliceOfSlice(s, n, |s|, j - 6, j - 4);
      SliceOfSlice(s, n, |s|, j - 4, j);
    }
  }

  lemma LateFits(s: bytes, i: nat)
    requires LateEscape(s, i)
    ensures i + 2 <= |s|
  {
  }

  lemma {:induction false} PastIsLate(s: bytes) returns (i: nat)
    requires LooksPast(s)
    ensures LateEscape(s, i)
    decreases |s|
  {
    hide HexValue;
    if [BACKSLASH, LOWER_U] <= s && CutShort(s[2..]) {
      i := if |s| < 5 then 0 else 6;
      assert s[..0] == [];
      assert |s| >= 6 ==> Hex4(s[2..6]) == Hex4(s[2..]);
    } else {
      hide FirstLength, LateEscape;
      var j := PastIsLate(s[FirstLength(s)..]);
      i := j + FirstLength(s);
      assert i <= |s| by {
        LateFits(s[FirstLength(s)..], j);
      }
      LateBehindFirst(s, i);
    }
  }

  /** A leading surrogate whose second escape breaks off. */
  lemma LateTrail(s: bytes)
    requires 8 <= |s| <= 10 && s[..2] == s[6..8] == [BACKSLASH, LOWER_U] && 0xD800 <= Hex4(s[2..6]) <= 0xDBFF
    ensures LooksPast(s)
  {
    hide HexValue, FirstLength, Hex4;
    var t := s[2..];
    assert s[6..8] == [s[6], s[7]] && t[4] == s[6] && t[5] == s[7];
    assert t[..4] == s[2..6];
    FourDigits(t);
  }

  lemma FourDigits(t: bytes)
    requires |t| >= 4
    ensures Hex4(t[..4]) == Hex4(t)
  {
    hide HexValue;
  }

  lemma {:induction false} LateIsPast(s: bytes, i: nat)
    requires LateEscape(s, i)
    ensures LooksPast(s)
    decreases |s|
  {
    hide HexValue, FirstLength, Unescape;
    if i == 0 {
      assert s[..2] == s[0..2];
    } else if i == 6 && Unescape(s[..i]).None? {
      LateTrail(s);
    } else {
      GoodPrefix(s, if Unescape(s[..i]).Some? then i else i - 6);
      LateBehindFirst(s, i);
      LateIsPast(s[FirstLength(s)..], i - FirstLength(s));
    }
  }

  /** Unescaping looks behind the closing quote exactly when a late escape is reached. */
  lemma LooksPastIff(s: bytes)
    ensures LooksPast(s) <==> exists i: nat :: LateEscape(s, i)
  {
    hide LooksPast, LateEscape;
    if LooksPast(s) {
      var i := PastIsLate(s);
    } else if i: nat :| LateEscape(s, i) {
      LateIsPast(s, i);
    }
  }

  /** A string whose body is `\u` alone closes behind it, whatever follows, and is looked past. */
  lemma LoneEscapeLooksPast(more: bytes)
    ensures var text := [QUOTE, BACKSLASH, LOWER_U, QUOTE] + more;
            SkipBody(text[1..]) == Some(text[3..]) && LooksPast(text[1..3])
  {
    var text := [QUOTE, BACKSLASH, LOWER_U, QUOTE] + more;
    assert text[1..][2..] == text[3..] && text[1..][1..] == text[2..];
    assert text[1..3] == [BACKSLASH, LOWER_U];
  }
}
