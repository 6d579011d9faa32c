/** The recursive-descent reader as the library runs it: a cursor moving over a terminated text. */
module JsonReader {
  import opened Bytes
  import opened ItemList
  import opened JsonString
  import opened JsonNumber
  import opened JsonText
  import ObjectTable
  import TableModel

  /** The character under the cursor; the terminator is the last one that may be read. */
  function CharAt(text: bytes, p: nat): (c: byte)
    requires p <= |text|
    ensures c == At(text[p..])
  {
    if p == |text| then 0 else text[p]
  }

  method SkipWhitespaces(text: bytes, p: nat) returns (q: nat)
    requires p <= |text|
    ensures p <= q <= |text| && text[q..] == SkipSpace(text[p..])
  {
    q := p;
    while IsSpace(CharAt(text, q))
      invariant p <= q <= |text| && SkipSpace(text[q..]) == SkipSpace(text[p..])
      decreases |text| - q
    {
      assert text[q..][1..] == text[q + 1..];
      q := q + 1;
    }
  }

  /** `skip_quotes`: past the closing quote of the string that starts here. */
  method SkipQuotes(text: bytes, p: nat) returns (ok: bool, q: nat)
    requires p <= |text|
    ensures ok <==> At(text[p..]) == QUOTE && SkipBody(text[p..][1..]).Some?
    ensures ok ==> p + 2 <= q <= |text| && SkipBody(text[p + 1..]) == Some(text[q - 1..])
  {
    q := p;
    if CharAt(text, q) != QUOTE {
      return false, q;
    }
    q := q + 1;
    assert text[p..][1..] == text[q..];
    while CharAt(text, q) != QUOTE
      invariant p < q <= |text| && SkipBody(text[q..]) == SkipBody(text[p + 1..])
      decreases |text| - q
    {
      if CharAt(text, q) == 0 {
        return false, q;
      }
      assert text[q..][1..] == text[q + 1..];
      if CharAt(text, q) == BACKSLASH {
        q := q + 1;
        if CharAt(text, q) == 0 {
          return false, q;
        }
        assert text[q - 1..][2..] == text[q + 1..];
      }
      q := q + 1;
    }
    q := q + 1;
    ok := true;
  }

  /** Four digits, never reading past a terminator; `reach` is the last place looked at. */
  method ParseUtf16Hex(text: bytes, p: nat) returns (x: int, ghost reach: nat)
    requires p <= |text|
    ensures x == Hex4(text[p..])
    ensures p <= reach <= p + 3 && reach <= |text|
    ensures forall k :: p <= k < reach ==> text[k] != 0
    ensures reach == p + 3 || CharAt(text, reach) == 0
  {
    reach := if CharAt(text, p) == 0 then p
             else if CharAt(text, p + 1) == 0 then p + 1
             else if CharAt(text, p + 2) == 0 then p + 2
             else p + 3;
    if CharAt(text, p) == 0 || CharAt(text, p + 1) == 0 || CharAt(text, p + 2) == 0 || CharAt(text, p + 3) == 0 {
      assert Hex4(text[p..]) == -1 by {
        ZeroIsNoDigit(text[p..]);
      }
      return -1, reach;
    }
    var x1, x2, x3, x4 := HexValue(text[p]), HexValue(text[p + 1]), HexValue(text[p + 2]), HexValue(text[p + 3]);
    if x1 == -1 || x2 == -1 || x3 == -1 || x4 == -1 {
      return -1, reach;
    }
    x := x1 * 0x1000 + x2 * 0x100 + x3 * 0x10 + x4;
  }

  lemma ZeroIsNoDigit(s: bytes)
    ensures |s| < 4 || s[0] == 0 || s[1] == 0 || s[2] == 0 || s[3] == 0 ==> Hex4(s) == -1
  {
    assert HexValue(0) == -1;
  }

  /** A closing quote cuts a number of hexadecimal digits exactly like the end of the string. */
  lemma QuoteCutsHex(text: bytes, p: nat, end: nat)
    requires p <= end < |text| && text[end] == QUOTE
    ensures Hex4(text[p..]) == Hex4(text[p..end])
    ensures Hex4(text[p..]) >= 0 ==> p + 4 <= end
  {
    assert HexValue(QUOTE) == -1;
  }

  /** The stores of `parse_utf16`; the output cursor ends on the last byte written. */
  method StoreCodePoint(cp: nat, output: array<byte>, o: nat) returns (o': nat)
    requires cp <= 0x10FFFF && o + |EncodeUtf8(cp)| <= output.Length
    modifies output
    ensures o' + 1 == o + |EncodeUtf8(cp)| && output[o..o' + 1] == EncodeUtf8(cp)
    ensures forall i :: 0 <= i < o ==> output[i] == old(output[i])
  {
    o' := o;
    if cp < 0x80 {
      output[o'] := cp;
    } else if cp < 0x800 {
      output[o'] := 0xC0 + cp / 0x40;
      output[o' + 1] := 0x80 + cp % 0x40;
      o' := o' + 1;
    } else if cp < 0x10000 {
      output[o'] := 0xE0 + cp / 0x40 / 0x40;
      output[o' + 1] := 0x80 + cp / 0x40 % 0x40;
      output[o' + 2] := 0x80 + cp % 0x40;
      o' := o' + 2;
    } else {
      output[o'] := 0xF0 + cp / 0x40 / 0x40 / 0x40;
      output[o' + 1] := 0x80 + cp / 0x40 / 0x40 % 0x40;
      output[o' + 2] := 0x80 + cp / 0x40 % 0x40;
      output[o' + 3] := 0x80 + cp % 0x40;
      o' := o' + 3;
    }
  }

  /** The branches of `parse_utf16`: the cursor is on the `u`, and ends on the last digit. */
  method ReadCodePoint(text: bytes, p: nat, ghost end: nat) returns (ok: bool, cp: nat, q: nat, ghost reach: nat)
    requires p < end < |text| && text[end] == QUOTE
    requires forall k :: p <= k < end ==> text[k] != 0
    ensures var u := ParseUtf16(text[p + 1..end]);
            (ok <==> u.CodePoint?) && (ok ==> cp == u.cp && q == p + u.length < end)
    ensures p <= reach && (reach > end <==> CutShort(text[p + 1..end]))
  {
    hide HexValue, Hex4;
    q := p + 1;
    cp := 0;
    var lead;
    lead, reach := ParseUtf16Hex(text, q);
    QuoteCutsHex(text, q, end);
    if lead < 0 {
      return false, 0, p, reach;
    }
    if lead < 0xD800 || lead > 0xDFFF {
      cp := lead;
    } else if lead <= 0xDBFF {
      q := q + 4;
      reach := if CharAt(text, q) != BACKSLASH then q else q + 1;
      if CharAt(text, q) != BACKSLASH || CharAt(text, q + 1) != LOWER_U {
        return false, 0, p, reach;
      }
      q := q + 2;
      var trail;
      trail, reach := ParseUtf16Hex(text, q);
      QuoteCutsHex(text, q, end);
      assert text[p + 1..end][6..] == text[q..end];
      if trail < 0xDC00 || trail > 0xDFFF {
        return false, 0, p, reach;
      }
      cp := (lead - 0xD800) * 0x400 + (trail - 0xDC00) + 0x10000;
    } else {
      return false, 0, p, reach;
    }
    q := q + 3;
    ok := true;
  }

  /** A body the quote scanner accepts from `i` on, up to `end`. */
  ghost predicate Closed(text: bytes, i: nat, end: nat) {
    i <= end < |text| && SkipBody(text[i..]) == Some(text[end..])
  }

  /** Inside an accepted body a character is no quote and no terminator, and an escape has a second one. */
  lemma ClosedStep(text: bytes, i: nat, end: nat)
    requires Closed(text, i, end)
    ensures text[end] == QUOTE
    ensures i < end ==> text[i] != 0
    ensures i < end && text[i] != BACKSLASH ==> Closed(text, i + 1, end)
    ensures i < end && text[i] == BACKSLASH ==> i + 1 < end && text[i + 1] != 0 && Closed(text, i + 2, end)
  {
    assert text[end..][0] == text[end];
    if i < end {
      assert text[i..][1..] == text[i + 1..];
      if text[i] == BACKSLASH && i + 2 <= |text| {
        assert text[i..][2..] == text[i + 2..];
      }
    }
  }

  lemma {:induction false} ClosedHasNoZero(text: bytes, i: nat, end: nat)
    requires Closed(text, i, end)
    ensures forall k :: i <= k < end ==> text[k] != 0
    decreases end - i
  {
    ClosedStep(text, i, end);
    hide Closed;
    if i < end {
      ClosedHasNoZero(text, if text[i] == BACKSLASH then i + 2 else i + 1, end);
    }
  }

  /** The digits of a code point hold no quote and no escape but the second `\u`. */
  lemma ClosedCodePoint(text: bytes, i: nat, end: nat)
    requires Closed(text, i, end) && ParseUtf16(text[i..end]).CodePoint?
    ensures Closed(text, i + ParseUtf16(text[i..end]).length, end)
  {
    var s, n := text[i..end], ParseUtf16(text[i..end]).length;
    HexDigitsPlain(s);
    ClosedDigits(text, i, end);
    if n == 10 {
      assert s[4] == text[i + 4];
      ClosedStep(text, i + 4, end);
      assert s[6..] == text[i + 6..end];
      HexDigitsPlain(s[6..]);
      ClosedDigits(text, i + 6, end);
    }
  }

  lemma HexDigitsPlain(s: bytes)
    requires Hex4(s) >= 0
    ensures forall k :: 0 <= k < 4 ==> s[k] != QUOTE && s[k] != BACKSLASH && s[k] != 0
  {
  }

  lemma ClosedDigits(text: bytes, i: nat, end: nat)
    requires Closed(text, i, end) && i + 4 <= end
    requires forall k :: 0 <= k < 4 ==> text[i..end][k] != QUOTE && text[i..end][k] != BACKSLASH && text[i..end][k] != 0
    ensures Closed(text, i + 4, end)
  {
    assert forall k :: 0 <= k < 4 ==> text[i..][k] == text[i..end][k];
    SkipPlain(text[i..], 4);
    assert text[i..][4..] == text[i + 4..];
  }

  lemma EncodedShorter(s: bytes)
    requires ParseUtf16(s).CodePoint?
    ensures |EncodeUtf8(ParseUtf16(s).cp)| < ParseUtf16(s).length
  {
  }

  lemma PrependNothing(r: Option<bytes>)
    ensures Prepend([], r) == r
  {
    if r.Some? {
      assert [] + r.value == r.value;
    }
  }

  lemma PrependTwice(a: bytes, ab: bytes, r: Option<bytes>)
    requires a <= ab
    ensures Prepend(a, Prepend(ab[|a|..], r)) == Prepend(ab, r)
  {
    if r.Some? {
      assert a + (ab[|a|..] + r.value) == ab + r.value;
    }
  }

  lemma PastEscape(s: bytes)
    requires [BACKSLASH, LOWER_U] <= s
    ensures LooksPast(s) <==>
            CutShort(s[2..]) || (var u := ParseUtf16(s[2..]); u.CodePoint? && LooksPast(s[2 + u.length..]))
    ensures CutShort(s[2..]) ==> ParseUtf16(s[2..]).BadEscape?
  {
    hide ParseUtf16;
    if CutShort(s[2..]) {
      CutShortIsBad(s[2..]);
    }
  }

  lemma PastPlain(s: bytes)
    requires s != [] && !([BACKSLASH, LOWER_U] <= s)
    ensures LooksPast(s) <==>
            if s[0] != BACKSLASH then s[0] >= 0x20 && LooksPast(s[1..])
            else |s| >= 2 && SimpleEscape(s[1]) >= 0 && LooksPast(s[2..])
  {
  }

  lemma PastNothing()
    ensures !LooksPast([])
  {
  }

  /** What one turn of the loop of `process_string` does: `s` is the text from the character on to the closing
      quote, `more` what is left of it, `out` the bytes written, `past` whether the quote was looked past. */
  ghost predicate Turned(s: bytes, more: bytes, out: bytes, ok: bool, past: bool) {
    && (ok ==> |out| + |more| <= |s| && Unescape(s) == Prepend(out, Unescape(more)))
    && (!ok ==> Unescape(s) == None)
    && (LooksPast(s) <==> past || (ok && LooksPast(more)))
    && (past ==> !ok)
  }

  lemma TurnEscape(s: bytes, out: bytes)
    requires [BACKSLASH, LOWER_U] <= s
    ensures var u := ParseUtf16(s[2..]);
            && (u.BadEscape? ==> Turned(s, [], out, false, CutShort(s[2..])))
            && (u.CodePoint? && out == EncodeUtf8(u.cp) ==> Turned(s, s[2 + u.length..], out, true, CutShort(s[2..])))
  {
    UnescapeUnfold(s);
    PastEscape(s);
    if ParseUtf16(s[2..]).CodePoint? {
      EncodedShorter(s[2..]);
    }
    hide Unescape, LooksPast, CutShort, ParseUtf16, EncodeUtf8;
  }

  lemma TurnLetter(s: bytes)
    requires |s| >= 2 && s[0] == BACKSLASH && s[1] != LOWER_U
    ensures var c := SimpleEscape(s[1]);
            && (c < 0 ==> Turned(s, [], [], false, false))
            && (c >= 0 ==> Turned(s, s[2..], [c], true, false))
  {
    UnescapeUnfold(s);
    PastPlain(s);
    hide Unescape, LooksPast;
  }

  lemma TurnPlain(s: bytes)
    requires s != [] && s[0] != BACKSLASH
    ensures s[0] < 0x20 ==> Turned(s, [], [], false, false)
    ensures s[0] >= 0x20 ==> Turned(s, s[1..], [s[0]], true, false)
  {
    UnescapeUnfold(s);
    PastPlain(s);
    hide Unescape, LooksPast;
  }

  /** The escape `process_string` reads with the cursor on the backslash: the cursors end on the last byte read
      and on the last one written. */
  method ProcessEscape(text: bytes, p: nat, ghost end: nat, output: array<byte>, o: nat)
    returns (ok: bool, q: nat, o': nat, ghost reach: nat)
    requires Closed(text, p, end) && p < end && text[p] == BACKSLASH && o + (end - p) <= output.Length
    modifies output
    ensures ok ==> p < q < end && Closed(text, q + 1, end) && o <= o' < output.Length
    ensures p <= reach
    ensures Turned(text[p..end], if ok then text[q + 1..end] else [], if ok then output[o..o' + 1] else [], ok,
                   reach > end)
    ensures forall k :: 0 <= k < o ==> output[k] == old(output[k])
  {
    hide SkipBody, Unescape, ParseUtf16, EncodeUtf8, LooksPast, CutShort, Turned;
    ghost var s := text[p..end];
    ClosedStep(text, p, end);
    ClosedHasNoZero(text, p, end);
    q, o', reach := p + 1, o, p + 1;
    assert s[2..] == text[q + 1..end] && s[1] == text[q];
    if text[q] == LOWER_U {
      var cp;
      ok, cp, q, reach := ReadCodePoint(text, q, end);
      if !ok {
        TurnEscape(s, []);
        return;
      }
      ClosedCodePoint(text, p + 2, end);
      EncodedShorter(s[2..]);
      o' := StoreCodePoint(cp, output, o);
      TurnEscape(s, output[o..o' + 1]);
      assert s[2 + ParseUtf16(s[2..]).length..] == text[q + 1..end];
    } else {
      var c := SimpleEscape(text[q]);
      TurnLetter(s);
      ok := c >= 0;
      if ok {
        output[o] := c;
        assert output[o..o + 1] == [c];
      }
    }
  }

  lemma AfterTurn(s: bytes, more: bytes, done: bytes, out: bytes, ok: bool, past: bool)
    requires Turned(s, more, out, ok, past)
    ensures ok ==> Prepend(done, Unescape(s)) == Prepend(done + out, Unescape(more))
    ensures !ok ==> Prepend(done, Unescape(s)) == None
    ensures LooksPast(s) <==> past || (ok && LooksPast(more))
    ensures past ==> !ok
    ensures ok ==> |out| + |more| <= |s|
  {
    hide Unescape, LooksPast;
    assert (done + out)[|done|..] == out;
    PrependTwice(done, done + out, Unescape(more));
  }

  /** `process_string`: unescapes between two cursors into a buffer one byte longer than its input;
      `reach` is the last place of the text looked at. */
  method ProcessString(text: bytes, start: nat, len: nat) returns (r: Option<bytes>, ghost reach: nat)
    requires Closed(text, start, start + len)
    ensures r == Unescape(text[start..start + len])
    ensures reach > start + len <==> LooksPast(text[start..start + len])
    ensures r.Some? ==> reach == start + len
  {
    hide SkipBody, Unescape, LooksPast, Turned;
    ghost var end := start + len;
    var output := new byte[len + 1];
    var i, o := start, 0;
    reach := start;
    PrependNothing(Unescape(text[start..end]));
    while CharAt(text, i) != 0 && i - start < len
      invariant start <= i <= end && Closed(text, i, end)
      invariant o <= i - start
      invariant Unescape(text[start..end]) == Prepend(output[..o], Unescape(text[i..end]))
      invariant reach <= end && (LooksPast(text[start..end]) <==> LooksPast(text[i..end]))
      decreases end - i
    {
      ClosedStep(text, i, end);
      reach := Max(reach, i);
      ghost var done, s, from := output[..o], text[i..end], o;
      if text[i] == BACKSLASH {
        var ok, q, o', far := ProcessEscape(text, i, end, output, o);
        reach := Max(reach, far);
        AfterTurn(s, if ok then text[q + 1..end] else [], done, if ok then output[o..o' + 1] else [], ok, reach > end);
        if !ok {
          return None, reach;
        }
        i, o := q, o';
      } else {
        TurnPlain(s);
        if text[i] < 0x20 {
          AfterTurn(s, [], done, [], false, false);
          return None, reach;
        }
        output[o] := text[i];
        AfterTurn(s, s[1..], done, [text[i]], true, false);
        assert output[from..o + 1] == [text[i]] && s[1..] == text[i + 1..end];
      }
      o := o + 1;
      i := i + 1;
      assert output[..o] == done + output[from..o];
    }
    reach := Max(reach, i);
    ClosedStep(text, i, end);
    assert text[i..end] == [];
    UnescapeUnfold([]);
    PastNothing();
    output[o] := 0;
    assert output[..o] + [] == output[..o];
    return Some(output[..o]), reach;
  }

  /** `get_quoted_string`. */
  method GetQuotedString(text: bytes, p: nat) returns (r: Quoted, q: nat)
    requires p <= |text|
    ensures r == GetQuoted(text[p..])
    ensures r.Quoted? ==> p + 2 <= q <= |text| && r.rest == text[q..]
  {
    hide SkipBody, Unescape;
    var ok;
    ok, q := SkipQuotes(text, p);
    assert text[p..] != [] ==> text[p..][1..] == text[p + 1..];
    if !ok {
      return NoString, q;
    }
    assert text[q - 1..][1..] == text[q..];
    assert text[p..][1..][..q - p - 2] == text[p + 1..q - 1];
    var chars;
    ghost var reach;
    chars, reach := ProcessString(text, p + 1, q - p - 2);
    if chars.None? {
      return NoString, q;
    }
    return Quoted(chars.value, text[q..]), q;
  }

  /** What a parse method returns when it stands for `parsed` on the text from `p` on. */
  ghost predicate Agrees<T>(parsed: Parsed<T>, r: Option<T>, text: bytes, p: nat, q: nat) {
    && (r.Some? <==> parsed.Ok?)
    && (r.Some? ==> p <= q <= |text| && r.value == parsed.value && text[q..] == parsed.rest)
  }

  method ParseWordAt(text: bytes, p: nat, word: bytes, v: JSON) returns (r: Option<JSON>, q: nat)
    requires p <= |text|
    ensures Agrees(ParseWord(text[p..], word, v), r, text, p, q)
  {
    if p + |word| <= |text| {
      assert text[p..][..|word|] == text[p..p + |word|];
      assert text[p..][|word|..] == text[p + |word|..];
      if text[p..p + |word|] == word {
        return Some(v), p + |word|;
      }
    }
    return None, p;
  }

  method ParseNumberAt(text: bytes, p: nat) returns (r: Option<JSON>, q: nat)
    requires p <= |text|
    ensures Agrees(ParseNumber(text[p..]), r, text, p, q)
  {
    var length := StrtodLen(text[p..]);
    assert text[p..][..length] == text[p..p + length] && text[p..][length..] == text[p + length..];
    if Accepted(text[p..p + length]) {
      return Some(Number(text[p..p + length])), p + length;
    }
    return None, p;
  }

  method ParseStringAt(text: bytes, p: nat) returns (r: Option<JSON>, q: nat)
    requires p <= |text|
    ensures Agrees(ParseString(text[p..]), r, text, p, q)
  {
    var s;
    s, q := GetQuotedString(text, p);
    r := if s.NoString? then None else Some(Str(s.chars));
  }

  /** `parse_value` dispatches on the first character after white space. */
  method ParseValueAt(text: bytes, p: nat, nesting: nat) returns (r: Option<JSON>, q: nat)
    requires p <= |text|
    ensures Agrees(ParseValue(text[p..], nesting), r, text, p, q)
    decreases |text| - p, 2
  {
    if nesting > MAX_NESTING {
      return None, p;
    }
    q := SkipWhitespaces(text, p);
    ghost var t := text[q..];
    ValueUnfolds(text[p..], nesting);
    hide SkipSpace, ParseValue, ParseObject, ParseArray, ParseString, ParseWord, ParseNumber;
    var c := CharAt(text, q);
    var from := q;
    if c == LBRACE {
      var table;
      r, q, table := ParseObjectAt(text, from, nesting + 1);
    } else if c == LBRACKET {
      r, q := ParseArrayAt(text, from, nesting + 1);
    } else if c == QUOTE {
      r, q := ParseStringAt(text, from);
    } else if c == FALSE[0] || c == TRUE[0] {
      r, q := ParseWordAt(text, from, TRUE, Bool(true));
      WordOk(t, TRUE, Bool(true));
      if r.None? {
        r, q := ParseWordAt(text, from, FALSE, Bool(false));
      }
    } else if c == MINUS || IsDigit(c) {
      r, q := ParseNumberAt(text, from);
    } else if c == NULL[0] {
      r, q := ParseWordAt(text, from, NULL, Null);
    } else {
      r := None;
    }
  }

  lemma WordOk(t: bytes, word: bytes, v: JSON)
    ensures ParseWord(t, word, v).Ok? <==> word <= t
  {
  }

  lemma ValueUnfolds(s: bytes, nesting: nat)
    requires nesting <= MAX_NESTING
    ensures ParseValue(s, nesting) ==
            var t := SkipSpace(s);
            var c := At(t);
            if c == LBRACE then ParseObject(t, nesting + 1)
            else if c == LBRACKET then ParseArray(t, nesting + 1)
            else if c == QUOTE then ParseString(t)
            else if c == FALSE[0] || c == TRUE[0] then
              if TRUE <= t then ParseWord(t, TRUE, Bool(true)) else ParseWord(t, FALSE, Bool(false))
            else if c == MINUS || IsDigit(c) then ParseNumber(t)
            else if c == NULL[0] then ParseWord(t, NULL, Null)
            else Fail
  {
  }

  /** Elements read so far, in front of what the rest of the loop yields. */
  function After<T>(acc: seq<T>, more: Parsed<seq<T>>): Parsed<seq<T>> {
    if more.Fail? then Fail else Ok(acc + more.value, more.rest)
  }

  lemma AfterTwice<T>(acc: seq<T>, x: T, more: Parsed<seq<T>>)
    ensures After(acc, After([x], more)) == After(acc + [x], more)
  {
    if more.Ok? {
      assert acc + ([x] + more.value) == acc + [x] + more.value;
    }
  }

  lemma AfterNothing<T>(acc: seq<T>, more: Parsed<seq<T>>)
    ensures After([], more) == more
    ensures forall rest :: After(acc, Ok([], rest)) == Ok(acc, rest)
  {
    assert acc + [] == acc;
    if more.Ok? {
      assert [] + more.value == more.value;
    }
  }

  lemma ItemsTurn(s: bytes, n: nat)
    ensures ParseItems(s, n) ==
            if At(s) == 0 then Ok([], s)
            else
              var v := ParseValue(s, n);
              if v.Fail? then Fail
              else
                var t := SkipSpace(v.rest);
                if At(t) != COMMA then Ok([v.value], t)
                else if At(SkipSpace(t[1..])) == RBRACKET then Ok([v.value], SkipSpace(t[1..]))
                else After([v.value], ParseItems(SkipSpace(t[1..]), n))
  {
  }

  /** The end of a turn of either loop: past white space and a comma, unless the bracket follows it. */
  method PassComma(text: bytes, p: nat, close: byte) returns (goesOn: bool, q: nat)
    requires p <= |text|
    ensures var t := SkipSpace(text[p..]);
            && p <= q <= |text|
            && (goesOn <==> At(t) == COMMA && At(SkipSpace(t[1..])) != close)
            && text[q..] == if At(t) == COMMA then SkipSpace(t[1..]) else t
  {
    hide SkipSpace;
    q := SkipWhitespaces(text, p);
    if CharAt(text, q) != COMMA {
      return false, q;
    }
    assert text[q..][1..] == text[q + 1..];
    q := SkipWhitespaces(text, q + 1);
    goesOn := CharAt(text, q) != close;
  }

  /** The element loop of `parse_array_value`. */
  method ParseItemsAt(text: bytes, p: nat, nesting: nat) returns (r: Option<seq<JSON>>, q: nat)
    requires p <= |text|
    ensures Agrees(ParseItems(text[p..], nesting), r, text, p, q)
    decreases |text| - p, 3
  {
    hide ParseItems, ParseValue, SkipSpace;
    var items: seq<JSON> := [];
    q := p;
    AfterNothing(items, ParseItems(text[p..], nesting));
    while CharAt(text, q) != 0
      invariant p <= q <= |text|
      invariant ParseItems(text[p..], nesting) == After(items, ParseItems(text[q..], nesting))
      decreases |text| - q
    {
      ghost var acc, s, from := items, text[q..], q;
      ItemsTurn(s, nesting);
      var v;
      v, q := ParseValueAt(text, q, nesting);
      if v.None? {
        return None, q;
      }
      items := items + [v.value];
      var goesOn;
      goesOn, q := PassComma(text, q, RBRACKET);
      if !goesOn {
        return Some(items), q;
      }
      AfterTwice(acc, v.value, ParseItems(text[q..], nesting));
    }
    ItemsTurn(text[q..], nesting);
    AfterNothing(items, ParseItems(text[p..], nesting));
    return Some(items), q;
  }

  /** `parse_array_value`. */
  method ParseArrayAt(text: bytes, p: nat, nesting: nat) returns (r: Option<JSON>, q: nat)
    requires p <= |text| && At(text[p..]) == LBRACKET
    ensures Agrees(ParseArray(text[p..], nesting), r, text, p, q)
    decreases |text| - p, 1
  {
    hide ParseItems, SkipSpace;
    assert text[p..][1..] == text[p + 1..];
    q := SkipWhitespaces(text, p + 1);
    if CharAt(text, q) == RBRACKET {
      assert text[q..][1..] == text[q + 1..];
      return Some(Array([])), q + 1;
    }
    var items;
    items, q := ParseItemsAt(text, q, nesting);
    if items.None? {
      return None, q;
    }
    q := SkipWhitespaces(text, q);
    if CharAt(text, q) != RBRACKET {
      return None, q;
    }
    assert text[q..][1..] == text[q + 1..];
    return Some(Array(items.value)), q + 1;
  }

  /** One name, colon and value. */
  method ParseMemberAt(text: bytes, p: nat, nesting: nat) returns (r: Option<Item<JSON>>, q: nat)
    requires p <= |text|
    ensures Agrees(ParseMember(text[p..], nesting), r, text, p, q)
    ensures r.Some? ==> p < q
    decreases |text| - p, 2
  {
    hide GetQuoted, ParseValue, SkipSpace;
    var key;
    key, q := GetQuotedString(text, p);
    if key.NoString? || 0 in key.chars {
      return None, q;
    }
    q := SkipWhitespaces(text, q);
    if CharAt(text, q) != COLON {
      return None, q;
    }
    assert text[q..][1..] == text[q + 1..];
    var v;
    v, q := ParseValueAt(text, q + 1, nesting);
    if v.None? {
      return None, q;
    }
    return Some(Item(key.chars, v.value)), q;
  }

  lemma MembersTurn(s: bytes, n: nat)
    ensures ParseMembers(s, n) ==
            if At(s) == 0 then Ok([], s)
            else
              var m := ParseMember(s, n);
              if m.Fail? then Fail
              else
                var t := SkipSpace(m.rest);
                if At(t) != COMMA then Ok([m.value], t)
                else if At(SkipSpace(t[1..])) == RBRACE then Ok([m.value], SkipSpace(t[1..]))
                else After([m.value], ParseMembers(SkipSpace(t[1..]), n))
  {
  }

  /** A table linked up over these members; as a map it stands for them exactly when no name is repeated. */
  ghost predicate Holds(table: ObjectTable.JsonObject<JSON>, members: Items<JSON>)
    reads table, table.Repr()
  {
    table.WellLinked() && table.Contents() == members && (table.Valid() <==> Distinct(Names(members)))
  }

  method NewTable() returns (table: ObjectTable.JsonObject<JSON>)
    ensures fresh(table.Repr()) && Holds(table, [])
  {
    table := new ObjectTable.JsonObject<JSON>(0);
    TableModel.NamesOfItems(table.View());
  }

  /** `json_object_add` on the table of the members read so far. */
  method AddMember(table: ObjectTable.JsonObject<JSON>, ghost members: Items<JSON>, m: Item<JSON>)
    requires Holds(table, members)
    modifies table.Repr()
    ensures Holds(table, members + [m]) && fresh(table.Repr() - old(table.Repr()))
  {
    hide TableModel.Linked, TableModel.Valid;
    table.Add(m.name, m.value);
    TableModel.NamesOfItems(table.View());
    ValidIfDistinct(table.View());
  }

  lemma ValidIfDistinct(t: TableModel.Table<JSON>)
    requires TableModel.Linked(t)
    ensures TableModel.Valid(t) <==> Distinct(t.names)
  {
  }

  /** One name, colon and value, added to the table. */
  method AddMemberAt(text: bytes, p: nat, nesting: nat, table: ObjectTable.JsonObject<JSON>, ghost members: Items<JSON>)
    returns (r: Option<Item<JSON>>, q: nat)
    requires p <= |text| && Holds(table, members)
    modifies table.Repr()
    ensures Agrees(ParseMember(text[p..], nesting), r, text, p, q)
    ensures r.Some? ==> p < q && Holds(table, members + [r.value]) && fresh(table.Repr() - old(table.Repr()))
    decreases |text| - p, 3
  {
    hide ParseMember, Holds;
    r, q := ParseMemberAt(text, p, nesting);
    if r.Some? {
      AddMember(table, members, r.value);
    }
  }

  /** The member loop of `parse_object_value`, filling the object's table; `r` is the table's contents. */
  method ParseMembersAt(text: bytes, p: nat, nesting: nat)
    returns (r: Option<Items<JSON>>, q: nat, table: ObjectTable.JsonObject<JSON>)
    requires p <= |text|
    ensures Agrees(ParseMembers(text[p..], nesting), r, text, p, q)
    ensures r.Some? ==> fresh(table.Repr()) && Holds(table, r.value)
    decreases |text| - p, 4
  {
    hide ParseMembers, ParseMember, SkipSpace, Holds;
    var members: Items<JSON> := [];
    table := NewTable();
    q := p;
    AfterNothing(members, ParseMembers(text[p..], nesting));
    while CharAt(text, q) != 0
      invariant p <= q <= |text|
      invariant ParseMembers(text[p..], nesting) == After(members, ParseMembers(text[q..], nesting))
      invariant fresh(table.Repr()) && Holds(table, members)
      decreases |text| - q
    {
      ghost var acc := members;
      MembersTurn(text[q..], nesting);
      var m, goesOn;
      m, q := AddMemberAt(text, q, nesting, table, members);
      if m.None? {
        return None, q, table;
      }
      members := members + [m.value];
      goesOn, q := PassComma(text, q, RBRACE);
      if !goesOn {
        return Some(members), q, table;
      }
      AfterTwice(acc, m.value, ParseMembers(text[q..], nesting));
    }
    MembersTurn(text[q..], nesting);
    AfterNothing(members, ParseMembers(text[p..], nesting));
    return Some(members), q, table;
  }

  /** `parse_object_value`: the object as a value, and the table the library keeps it in. */
  method ParseObjectAt(text: bytes, p: nat, nesting: nat)
    returns (r: Option<JSON>, q: nat, table: ObjectTable.JsonObject<JSON>)
    requires p <= |text| && At(text[p..]) == LBRACE
    ensures Agrees(ParseObject(text[p..], nesting), r, text, p, q)
    ensures r.Some? ==> r.value.Object? && fresh(table.Repr()) && Holds(table, r.value.members)
    decreases |text| - p, 1
  {
    hide ParseMembers, SkipSpace, Holds;
    table := NewTable();
    assert text[p..][1..] == text[p + 1..];
    q := SkipWhitespaces(text, p + 1);
    if CharAt(text, q) == RBRACE {
      assert text[q..][1..] == text[q + 1..];
      return Some(Object([])), q + 1, table;
    }
    var members;
    members, q, table := ParseMembersAt(text, q, nesting);
    if members.None? {
      return None, q, table;
    }
    q := SkipWhitespaces(text, q);
    if CharAt(text, q) != RBRACE {
      return None, q, table;
    }
    assert text[q..][1..] == text[q + 1..];
    return Some(Object(members.value)), q + 1, table;
  }

  /** `json_parse_string`. */
  method ParseTextAt(text: bytes) returns (r: Option<JSON>)
    ensures r == if ParseText(text).Ok? then Some(ParseText(text).value) else None
  {
    var start := if |text| >= 3 && text[0] == 0xEF && text[1] == 0xBB && text[2] == 0xBF then 3 else 0;
    assert [0xEF, 0xBB, 0xBF] <= text <==> start == 3;
    assert text[0..] == text;
    var end;
    r, end := ParseValueAt(text, start, 0);
  }
}
