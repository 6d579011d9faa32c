/** The grammar of JSON texts as a relation, and the reader as exactly that grammar with some liberties. */
module JsonGrammar {
  import opened Bytes
  import opened ItemList
  import opened JsonString
  import opened JsonNumber
  import opened JsonText
  import opened JsonRoundTrip

  /** RFC 8259; what the library accepts: more white space, its own number forms, a comma before a bracket; and texts
      without any white space, with the library's numbers. */
  datatype Grammar = Standard | Library | Tight {
    predicate Space(c: byte) {
      match this
      case Standard => c == 0x20 || c == 0x09 || c == 0x0A || c == 0x0D
      case Library => c == 0x20 || c == 0x09 || c == 0x0A || c == 0x0B || c == 0x0C || c == 0x0D
      case Tight => false
    }

    predicate NumberText(l: bytes) {
      if Standard? then IsJsonNumber(l) else Readable(l)
    }
  }

  // Strings

  predicate ShortEscape(letter: byte, c: byte) {
    || (letter == c && c in {0x22, 0x5C, 0x2F})
    || (letter == 0x62 && c == 0x08) || (letter == 0x66 && c == 0x0C) || (letter == 0x6E && c == 0x0A)
    || (letter == 0x72 && c == 0x0D) || (letter == 0x74 && c == 0x09)
  }

  predicate IsUnicodeEscape(u: bytes) {
    |u| == 6 && u[0] == BACKSLASH && u[1] == LOWER_U && Hex4(u[2..]) >= 0
  }

  /** The UTF-16 code unit an escape names. */
  function CodeUnit(u: bytes): nat
    requires IsUnicodeEscape(u)
  {
    Hex4(u[2..])
  }

  /** Section 7 of RFC 8259: `u` spells the character whose UTF-8 bytes are `c`. */
  predicate CharText(u: bytes, c: bytes) {
    || (|u| == 1 && u[0] >= 0x20 && u[0] != QUOTE && u[0] != BACKSLASH && c == u)
    || (|u| == 2 && u[0] == BACKSLASH && |c| == 1 && ShortEscape(u[1], c[0]))
    || (IsUnicodeEscape(u) && !(0xD800 <= CodeUnit(u) <= 0xDFFF) && c == EncodeUtf8(CodeUnit(u)))
    || (&& |u| == 12 && IsUnicodeEscape(u[..6]) && IsUnicodeEscape(u[6..])
        && 0xD800 <= CodeUnit(u[..6]) <= 0xDBFF && 0xDC00 <= CodeUnit(u[6..]) <= 0xDFFF
        && c == EncodeUtf8(0x10000 + (CodeUnit(u[..6]) - 0xD800) * 0x400 + (CodeUnit(u[6..]) - 0xDC00)))
  }

  ghost predicate BodyText(b: bytes, chars: bytes)
    decreases |b|
  {
    if b == [] then chars == []
    else
      exists k: nat, m: nat ::
        0 < k <= |b| && m <= |chars| && CharText(b[..k], chars[..m]) && BodyText(b[k..], chars[m..])
  }

  ghost predicate QuotedText(s: bytes, chars: bytes) {
    |s| >= 2 && s[0] == QUOTE && s[|s| - 1] == QUOTE && BodyText(s[1..|s| - 1], chars)
  }

  // Values

  ghost predicate Blank(w: bytes, g: Grammar) {
    forall i :: 0 <= i < |w| ==> g.Space(w[i])
  }

  ghost predicate ValueText(s: bytes, v: JSON, g: Grammar)
    decreases v, 0
  {
    match v
    case Null => s == [0x6E, 0x75, 0x6C, 0x6C]
    case Bool(b) => s == if b then [0x74, 0x72, 0x75, 0x65] else [0x66, 0x61, 0x6C, 0x73, 0x65]
    case Number(l) => s == l && g.NumberText(l)
    case Str(chars) => QuotedText(s, chars)
    case Array(items) =>
      |s| >= 2 && s[0] == LBRACKET && s[|s| - 1] == RBRACKET && ElementsText(s[1..|s| - 1], items, g)
    case Object(members) =>
      |s| >= 2 && s[0] == LBRACE && s[|s| - 1] == RBRACE && MembersText(s[1..|s| - 1], members, g)
  }

  /** A value between white space. */
  ghost predicate Padded(s: bytes, v: JSON, g: Grammar)
    decreases v, 1
  {
    exists i: nat, j: nat :: i <= j <= |s| && Blank(s[..i], g) && ValueText(s[i..j], v, g) && Blank(s[j..], g)
  }

  ghost predicate MarkAt(s: bytes, k: nat, mark: byte) {
    k < |s| && s[k] == mark
  }

  /** Elements between commas; the library takes a comma behind the last one, too. */
  ghost predicate ElementsText(s: bytes, items: seq<JSON>, g: Grammar)
    decreases items, 0
  {
    if items == [] then Blank(s, g)
    else
      || (|items| == 1 && Padded(s, items[0], g))
      || exists k: nat :: MarkAt(s, k, COMMA) && Padded(s[..k], items[0], g) && (|items| > 1 || g.Library?)
                     && ElementsText(s[k + 1..], items[1..], g)
  }

  ghost predicate NameText(s: bytes, name: bytes, g: Grammar) {
    exists i: nat, j: nat :: i <= j <= |s| && Blank(s[..i], g) && QuotedText(s[i..j], name) && Blank(s[j..], g)
  }

  ghost predicate MemberText(s: bytes, m: Item<JSON>, g: Grammar)
    decreases m, 1
  {
    exists k: nat :: MarkAt(s, k, COLON) && NameText(s[..k], m.name, g) && Padded(s[k + 1..], m.value, g)
  }

  ghost predicate MembersText(s: bytes, members: Items<JSON>, g: Grammar)
    decreases members, 0
  {
    if members == [] then Blank(s, g)
    else
      || (|members| == 1 && MemberText(s, members[0], g))
      || exists k: nat :: MarkAt(s, k, COMMA) && MemberText(s[..k], members[0], g) && (|members| > 1 || g.Library?)
                     && MembersText(s[k + 1..], members[1..], g)
  }

  // Putting texts together

  lemma PartsOf(w: bytes, u: bytes, x: bytes)
    ensures var s := w + (u + x);
            s[..|w|] == w && s[|w|..|w| + |u|] == u && s[|w| + |u|..] == x
  {
  }

  lemma PadText(w: bytes, u: bytes, v: JSON, x: bytes, g: Grammar)
    requires Blank(w, g) && ValueText(u, v, g) && Blank(x, g)
    ensures Padded(w + (u + x), v, g)
  {
    hide Blank, ValueText;
    PartsOf(w, u, x);
    PadParts(w + (u + x), |w|, |w| + |u|, v, g);
  }

  lemma PadParts(s: bytes, i: nat, j: nat, v: JSON, g: Grammar)
    requires i <= j <= |s| && Blank(s[..i], g) && ValueText(s[i..j], v, g) && Blank(s[j..], g)
    ensures Padded(s, v, g)
  {
    hide Blank, ValueText;
  }

  lemma JoinBlank(a: bytes, b: bytes, g: Grammar)
    requires Blank(a, g) && Blank(b, g)
    ensures Blank(a + b, g)
  {
  }

  lemma NothingIsBlank(g: Grammar)
    ensures Blank([], g)
  {
  }

  lemma ElementsCons(p: bytes, x: JSON, e: bytes, more: seq<JSON>, g: Grammar)
    requires Padded(p, x, g) && ElementsText(e, more, g)
    requires more != [] || g.Library?
    ensures ElementsText(p + ([COMMA] + e), [x] + more, g)
  {
    hide Padded;
    var s, all, k := p + ([COMMA] + e), [x] + more, |p|;
    assert s[..k] == p && s[k + 1..] == e && all[1..] == more && MarkAt(s, k, COMMA);
  }

  lemma ElementsLast(p: bytes, x: JSON, g: Grammar)
    requires Padded(p, x, g)
    ensures ElementsText(p, [x], g)
  {
  }

  lemma NamePad(w: bytes, q: bytes, name: bytes, x: bytes, g: Grammar)
    requires Blank(w, g) && QuotedText(q, name) && Blank(x, g)
    ensures NameText(w + (q + x), name, g)
  {
    hide QuotedText, Blank;
    PartsOf(w, q, x);
    var s, i, j := w + (q + x), |w|, |w| + |q|;
    assert Blank(s[..i], g) && QuotedText(s[i..j], name) && Blank(s[j..], g);
  }

  lemma MemberJoin(k: bytes, a: bytes, m: Item<JSON>, g: Grammar)
    requires NameText(k, m.name, g) && Padded(a, m.value, g)
    ensures MemberText(k + ([COLON] + a), m, g)
  {
    hide NameText, Padded;
    var s, i := k + ([COLON] + a), |k|;
    assert s[..i] == k && s[i + 1..] == a && MarkAt(s, i, COLON);
  }

  lemma MembersCons(p: bytes, m: Item<JSON>, e: bytes, more: Items<JSON>, g: Grammar)
    requires MemberText(p, m, g) && MembersText(e, more, g)
    requires more != [] || g.Library?
    ensures MembersText(p + ([COMMA] + e), [m] + more, g)
  {
    hide MemberText;
    var s, all, k := p + ([COMMA] + e), [m] + more, |p|;
    assert s[..k] == p && s[k + 1..] == e && all[1..] == more && MarkAt(s, k, COMMA);
  }

  lemma MembersLast(p: bytes, m: Item<JSON>, g: Grammar)
    requires MemberText(p, m, g)
    ensures MembersText(p, [m], g)
  {
  }

  lemma QuotedOf(b: bytes, chars: bytes, rest: bytes) returns (u: bytes)
    requires BodyText(b, chars)
    ensures QuotedText(u, chars) && u + rest == [QUOTE] + (b + ([QUOTE] + rest))
  {
    hide BodyText;
    u := [QUOTE] + (b + [QUOTE]);
    assert u[1..|u| - 1] == b;
    Assoc([QUOTE], b + [QUOTE], rest);
    Assoc(b, [QUOTE], rest);
  }

  /** What stands between the brackets, with the brackets. */
  lemma BracketText(body: bytes, v: JSON, rest: bytes, g: Grammar) returns (u: bytes)
    requires v.Array? ==> ElementsText(body, v.items, g)
    requires v.Object? ==> MembersText(body, v.members, g)
    ensures v.Array? ==> ValueText(u, v, g) && u + rest == [LBRACKET] + (body + ([RBRACKET] + rest))
    ensures v.Object? ==> ValueText(u, v, g) && u + rest == [LBRACE] + (body + ([RBRACE] + rest))
  {
    hide ElementsText, MembersText;
    var open, close := if v.Array? then LBRACKET else LBRACE, if v.Array? then RBRACKET else RBRACE;
    u := [open] + (body + [close]);
    assert u[1..|u| - 1] == body;
    Assoc([open], body + [close], rest);
    Assoc(body, [close], rest);
  }

  lemma EmptyText(w: bytes, g: Grammar)
    requires Blank(w, g)
    ensures ElementsText(w, [], g) && MembersText(w, [], g)
  {
  }

  // Strings are read as they are spelled

  lemma UnescapeChar(b: bytes, k: nat, c: bytes)
    requires 0 < k <= |b| && CharText(b[..k], c)
    ensures Unescape(b) == Prepend(c, Unescape(b[k..]))
  {
    hide Unescape, Hex4, EncodeUtf8, ShortEscape;
    if k < 6 {
      UnescapeShort(b, k, c);
    } else if k == 6 {
      UnescapeSingle(b, c);
    } else {
      UnescapePair(b, c);
    }
  }

  lemma ShortIsSimple(letter: byte, c: byte)
    ensures ShortEscape(letter, c) <==> letter != LOWER_U && SimpleEscape(letter) == c
  {
  }

  lemma UnescapeShort(b: bytes, k: nat, c: bytes)
    requires 0 < k <= |b| && k < 6 && CharText(b[..k], c)
    ensures Unescape(b) == Prepend(c, Unescape(b[k..]))
  {
    hide Unescape, Hex4, EncodeUtf8, ParseUtf16, ShortEscape, SimpleEscape;
    var u := b[..k];
    assert u[0] == b[0] && (k > 1 ==> u[1] == b[1]);
    UnescapeUnfold(b);
    if k == 2 {
      ShortIsSimple(b[1], c[0]);
      assert c == [c[0]];
    } else {
      assert c == [b[0]];
    }
  }

  /** Four digits have a value of their own, whatever stands behind them. */
  lemma SameDigits(s: bytes, t: bytes)
    requires |s| >= 4 && |t| >= 4 && forall i :: 0 <= i < 4 ==> s[i] == t[i]
    ensures Hex4(s) == Hex4(t)
  {
  }

  lemma UnescapeSingle(b: bytes, c: bytes)
    requires |b| >= 6 && IsUnicodeEscape(b[..6]) && !(0xD800 <= CodeUnit(b[..6]) <= 0xDFFF)
    requires c == EncodeUtf8(CodeUnit(b[..6]))
    ensures Unescape(b) == Prepend(c, Unescape(b[6..]))
  {
    hide Unescape, HexValue, Hex4, EncodeUtf8;
    var u := b[..6];
    assert b[0] == u[0] && b[1] == u[1];
    SameDigits(b[2..], u[2..]);
    UnescapeUnfold(b);
    assert ParseUtf16(b[2..]) == CodePoint(CodeUnit(u), 4);
  }

  lemma UnescapePair(b: bytes, c: bytes)
    requires |b| >= 12 && CharText(b[..12], c)
    ensures Unescape(b) == Prepend(c, Unescape(b[12..]))
  {
    hide Unescape, HexValue, Hex4, EncodeUtf8;
    var u, v := b[..12][..6], b[..12][6..];
    assert b[0] == u[0] && b[1] == u[1];
    SameDigits(b[2..], u[2..]);
    PairDigits(b[2..], v);
    UnescapeUnfold(b);
    assert 2 + 10 == 12;
  }

  lemma PairDigits(t: bytes, v: bytes)
    requires |t| >= 10 && v == t[4..10] && IsUnicodeEscape(v)
    ensures t[4] == BACKSLASH && t[5] == LOWER_U && Hex4(t[6..]) == CodeUnit(v)
  {
    hide Hex4;
    assert t[4] == v[0] && t[5] == v[1];
    SameDigits(t[6..], v[2..]);
  }

  lemma SkipChar(u: bytes, c: bytes, t: bytes)
    requires CharText(u, c)
    ensures SkipBody(u + t) == SkipBody(t)
  {
    var s := u + t;
    if |u| == 1 {
      assert s[1..] == t && s[0] == u[0];
    } else if |u| == 2 {
      assert s[2..] == t && s[0] == u[0] && s[1] == u[1];
    } else if |u| == 6 {
      SkipUnicodeEscape(u, t);
    } else {
      assert u + t == u[..6] + (u[6..] + t);
      SkipUnicodeEscape(u[..6], u[6..] + t);
      SkipUnicodeEscape(u[6..], t);
    }
  }

  lemma SkipFirst(b: bytes, k: nat, c: bytes, t: bytes)
    requires k <= |b| && CharText(b[..k], c)
    ensures SkipBody(b + t) == SkipBody(b[k..] + t)
  {
    SkipChar(b[..k], c, b[k..] + t);
    hide *;
    Assoc(b[..k], b[k..], t);
    assert b[..k] + b[k..] == b;
  }

  lemma SkipUnicodeEscape(u: bytes, t: bytes)
    requires IsUnicodeEscape(u)
    ensures SkipBody(u + t) == SkipBody(t)
  {
    var s := u + t;
    assert s[0] == BACKSLASH && s[1] == LOWER_U && s[2..] == u[2..] + t && s[2..][4..] == t;
    assert forall i :: 0 <= i < 4 ==> s[2..][i] == u[2..][i];
    assert SkipBody(s) == SkipBody(s[2..]);
    SkipPlain(s[2..], 4);
  }

  lemma {:induction false} BodyReads(b: bytes, chars: bytes, rest: bytes)
    requires BodyText(b, chars)
    ensures Unescape(b) == Some(chars)
    ensures SkipBody(b + ([QUOTE] + rest)) == Some([QUOTE] + rest)
    decreases |b|
  {
    hide CharText;
    if b == [] {
      assert b + ([QUOTE] + rest) == [QUOTE] + rest;
    } else {
      var k: nat, m: nat :|
        0 < k <= |b| && m <= |chars| && CharText(b[..k], chars[..m]) && BodyText(b[k..], chars[m..]);
      hide Unescape, SkipBody, BodyText;
      UnescapeChar(b, k, chars[..m]);
      SkipFirst(b, k, chars[..m], [QUOTE] + rest);
      BodyReads(b[k..], chars[m..], rest);
      assert chars[..m] + chars[m..] == chars;
    }
  }

  lemma QuotedReads(s: bytes, chars: bytes, rest: bytes)
    requires QuotedText(s, chars)
    ensures GetQuoted(s + rest) == Quoted(chars, rest)
  {
    var b := s[1..|s| - 1];
    BodyReads(b, chars, rest);
    hide Unescape, SkipBody, BodyText;
    QuotedParts(s, b, rest);
  }

  lemma QuotedParts(s: bytes, b: bytes, rest: bytes)
    requires |s| >= 2 && s[0] == QUOTE && s[|s| - 1] == QUOTE && b == s[1..|s| - 1]
    ensures At(s + rest) == QUOTE && (s + rest)[1..] == b + ([QUOTE] + rest)
    ensures (b + ([QUOTE] + rest))[..|b|] == b && ([QUOTE] + rest)[1..] == rest
  {
  }

  // Texts of either grammar are read as their trees

  lemma BlankIsSpace(w: bytes, g: Grammar)
    requires Blank(w, g)
    ensures AllSpace(w)
  {
  }

  ghost predicate Starts(s: bytes) {
    s != [] && !IsSpace(s[0]) && s[0] !in {0, RBRACKET, RBRACE, COMMA, 0xEF}
  }

  lemma ValueStarts(s: bytes, v: JSON, g: Grammar)
    requires ValueText(s, v, g)
    ensures Starts(s)
  {
    hide ElementsText, MembersText, BodyText;
    if v.Number? {
      assert g.Standard? && s[0] != MINUS ==> s[0..] == s;
    }
  }

  lemma {:induction false} ValueReads(s: bytes, v: JSON, g: Grammar, rest: bytes, n: nat)
    requires ValueText(s, v, g)
    requires v.Number? ==> EndsNumber(rest)
    ensures ParseValue(s + rest, n) == if Sound(v, n) then Ok(v, rest) else Fail
    decreases v, 0
  {
    if n <= MAX_NESTING {
      match v
      case Array(items) => ArrayReads(s, items, g, rest, n);
      case Object(members) => ObjectReads(s, members, g, rest, n);
      case _ => ScalarReads(s, v, g, rest, n);
    }
  }

  lemma ScalarReads(s: bytes, v: JSON, g: Grammar, rest: bytes, n: nat)
    requires ValueText(s, v, g) && !v.Array? && !v.Object? && n <= MAX_NESTING
    requires v.Number? ==> EndsNumber(rest)
    ensures ParseValue(s + rest, n) == if Sound(v, n) then Ok(v, rest) else Fail
  {
    ValueStarts(s, v, g);
    hide ParseValue, ParseNumber, Readable, GetQuoted, EndsNumber, BodyText, IsJsonNumber;
    assert (s + rest)[|s|..] == rest && (s + rest)[..|s|] == s;
    match v
    case Number(l) => NumberReads(l, g, rest, n);
    case Str(chars) =>
      QuotedReads(s, chars, rest);
      StringDispatch(s + rest, n);
    case _ => WordDispatch(s + rest, n);
  }

  lemma StandardStarts(l: bytes)
    requires IsJsonNumber(l)
    ensures l != [] && (l[0] == MINUS || IsDigit(l[0]))
  {
    assert l != [] && l[0] != MINUS ==> l[0..] == l;
  }

  lemma NumberReads(l: bytes, g: Grammar, rest: bytes, n: nat)
    requires g.NumberText(l) && EndsNumber(rest) && n <= MAX_NESTING
    ensures ParseValue(l + rest, n) == if Readable(l) then Ok(Number(l), rest) else Fail
  {
    hide ParseValue, EndsNumber, IsUnsigned, StrtodLen, Accepted;
    assert (l + rest)[..|l|] == l && (l + rest)[|l|..] == rest;
    if g.Standard? {
      StrtodTakesNumber(l, rest);
      StandardStarts(l);
      if Accepted(l) {
        JsonNumberIsReadable(l);
      }
    } else {
      NumberParses(l, rest);
    }
    NumberDispatch(l + rest, n);
  }

  /** What reading yields in front of `rest`, white space aside. */
  ghost predicate Yields<T>(r: Parsed<T>, good: bool, value: T, rest: bytes) {
    if good then r.Ok? && r.value == value && SkipSpace(r.rest) == SkipSpace(rest) else r == Fail
  }

  lemma StartsUnskipped(u: bytes, rest: bytes)
    requires Starts(u)
    ensures SkipSpace(u + rest) == u + rest && Starts(u + rest)
  {
  }

  lemma BlankEndsNumber(w: bytes, g: Grammar, rest: bytes)
    requires Blank(w, g) && EndsNumber(rest)
    ensures EndsNumber(w + rest)
  {
    assert w == [] ==> w + rest == rest;
  }

  lemma ThreeParts(s: bytes, i: nat, j: nat, rest: bytes)
    requires i <= j <= |s|
    ensures s + rest == s[..i] + (s[i..j] + (s[j..] + rest))
  {
  }

  /** The value of a padded text, with what stands before and behind it. */
  lemma Unpad(s: bytes, v: JSON, g: Grammar, rest: bytes) returns (w: bytes, u: bytes, x: bytes)
    requires Padded(s, v, g)
    ensures Blank(w, g) && Blank(x, g) && ValueText(u, v, g) && s + rest == w + (u + (x + rest))
  {
    var i: nat, j: nat :| i <= j <= |s| && Blank(s[..i], g) && ValueText(s[i..j], v, g) && Blank(s[j..], g);
    w, u, x := s[..i], s[i..j], s[j..];
    ThreeParts(s, i, j, rest);
  }

  /** White space before and behind a text that is read does not count. */
  lemma SkipsPadding(w: bytes, u: bytes, x: bytes, rest: bytes, g: Grammar)
    requires Blank(w, g) && Blank(x, g) && Starts(u)
    ensures SkipSpace(w + (u + (x + rest))) == u + (x + rest) && Starts(u + (x + rest))
    ensures SkipSpace(x + rest) == SkipSpace(rest)
  {
    BlankIsSpace(w, g);
    BlankIsSpace(x, g);
    SkipSpaceOver(w, u + (x + rest));
    SkipSpaceOver(x, rest);
    hide SkipSpace;
    StartsUnskipped(u, x + rest);
  }

  lemma {:induction false} PaddedReads(s: bytes, v: JSON, g: Grammar, rest: bytes, n: nat)
    requires Padded(s, v, g) && EndsNumber(rest)
    ensures var t := SkipSpace(s + rest);
            Starts(t) && Yields(ParseValue(t, n), Sound(v, n), v, rest)
    decreases v, 1
  {
    hide ParseValue, SkipSpace, EndsNumber, Sound, Padded, ValueText, Starts, Blank;
    var w, u, x := Unpad(s, v, g, rest);
    ValueStarts(u, v, g);
    SkipsPadding(w, u, x, rest, g);
    BlankEndsNumber(x, g, rest);
    ValueReads(u, v, g, x + rest, n);
  }

  /** The first element and what separates it from the others. */
  lemma ElementsSplit(s: bytes, items: seq<JSON>, g: Grammar) returns (k: nat)
    requires items != [] && ElementsText(s, items, g)
    ensures k <= |s| && Padded(s[..k], items[0], g) && (k == |s| ==> items[1..] == [])
    ensures k < |s| ==> s[k] == COMMA && ElementsText(s[k + 1..], items[1..], g)
  {
    if |items| == 1 && Padded(s, items[0], g) {
      k := |s|;
      assert s[..k] == s;
    } else {
      k :| MarkAt(s, k, COMMA) && Padded(s[..k], items[0], g) && (|items| > 1 || g.Library?)
           && ElementsText(s[k + 1..], items[1..], g);
    }
  }

  lemma NoElements(s: bytes, g: Grammar)
    requires ElementsText(s, [], g) || MembersText(s, [], g)
    ensures Blank(s, g)
  {
  }

  lemma ItemsSoundIff(items: seq<JSON>, n: nat)
    requires items != [] && n <= MAX_NESTING + 1
    ensures ItemsSound(items, n) <==> Sound(items[0], n) && ItemsSound(items[1..], n)
    ensures ItemsSound([], n)
  {
    hide WellFormed, Height;
    Uncons(items);
  }

  /** What stands behind an element: the end of the list, or a comma and the other elements. */
  lemma BehindElement(s: bytes, k: nat, rest: bytes, close: byte)
    requires k <= |s| && (k < |s| ==> s[k] == COMMA) && Closes(rest, close) && close in {RBRACKET, RBRACE}
    ensures var after := s[k..] + rest;
            && s + rest == s[..k] + after && EndsNumber(after)
            && (k == |s| ==> after == rest)
            && (k < |s| ==> SkipSpace(after) == after && At(after) == COMMA && after[1..] == s[k + 1..] + rest)
  {
    ClosesEndsNumber(rest, close);
    var after := s[k..] + rest;
    assert s + rest == s[..k] + after;
    assert k == |s| ==> after == rest;
    if k < |s| {
      assert after[0] == COMMA && after[1..] == s[k + 1..] + rest;
    }
  }

  lemma {:induction false} ElementsRead(s: bytes, items: seq<JSON>, g: Grammar, rest: bytes, n: nat)
    requires items != [] && ElementsText(s, items, g) && Closes(rest, RBRACKET) && n <= MAX_NESTING + 1
    ensures var t := SkipSpace(s + rest);
            Starts(t) && ParseItems(t, n) == if ItemsSound(items, n) then Ok(items, SkipSpace(rest)) else Fail
    decreases items, 0
  {
    hide ParseValue, ParseItems, SkipSpace, EndsNumber, Sound, ItemsSound, Padded, ElementsText, Blank;
    var k := ElementsSplit(s, items, g);
    var x, tail := items[0], items[1..];
    var after, t := s[k..] + rest, SkipSpace(s + rest);
    Uncons(items);
    BehindElement(s, k, rest, RBRACKET);
    PaddedReads(s[..k], x, g, after, n);
    ItemsSoundIff(items, n);
    NextItem(t, n);
    if k < |s| {
      if tail == [] {
        NoElements(s[k + 1..], g);
        BlankIsSpace(s[k + 1..], g);
        SkipSpaceOver(s[k + 1..], rest);
      } else {
        ElementsRead(s[k + 1..], tail, g, rest, n);
      }
    }
  }

  lemma ContainerSound(items: seq<JSON>, members: Items<JSON>, n: nat)
    ensures Sound(Array(items), n) <==> ItemsSound(items, n + 1)
    ensures Sound(Object(members), n) <==> MembersSound(members, n + 1)
  {
  }

  /** A text between brackets. */
  lemma Bracketed(s: bytes, v: JSON, g: Grammar, rest: bytes)
    requires ValueText(s, v, g)
    ensures v.Array? ==> |s| >= 2 && ElementsText(s[1..|s| - 1], v.items, g)
                         && s + rest == [LBRACKET] + (s[1..|s| - 1] + ([RBRACKET] + rest))
    ensures v.Object? ==> |s| >= 2 && MembersText(s[1..|s| - 1], v.members, g)
                          && s + rest == [LBRACE] + (s[1..|s| - 1] + ([RBRACE] + rest))
  {
    hide ElementsText, MembersText;
    if v.Array? || v.Object? {
      assert s + rest == [s[0]] + (s[1..|s| - 1] + ([s[|s| - 1]] + rest));
    }
  }

  lemma {:induction false} ArrayReads(s: bytes, items: seq<JSON>, g: Grammar, rest: bytes, n: nat)
    requires ValueText(s, Array(items), g) && n <= MAX_NESTING
    ensures ParseValue(s + rest, n) == if Sound(Array(items), n) then Ok(Array(items), rest) else Fail
    decreases items, 1
  {
    hide ParseValue, ParseItems, SkipSpace, Sound, ItemsSound, ValueText, ElementsText, Blank;
    Bracketed(s, Array(items), g, rest);
    var body := s[1..|s| - 1];
    ClosingBracket(RBRACKET, rest);
    EnterArray(body + ([RBRACKET] + rest), n);
    ContainerSound(items, [], n);
    if items == [] {
      NoElements(body, g);
      BlankIsSpace(body, g);
      SkipSpaceOver(body, [RBRACKET] + rest);
      NoItemsSound(n + 1);
    } else {
      ElementsRead(body, items, g, [RBRACKET] + rest, n + 1);
    }
  }

  // Members

  lemma MemberSplit(s: bytes, m: Item<JSON>, g: Grammar, rest: bytes) returns (name: bytes, value: bytes)
    requires MemberText(s, m, g)
    ensures NameText(name, m.name, g) && Padded(value, m.value, g) && s + rest == name + ([COLON] + (value + rest))
  {
    var k: nat :| MarkAt(s, k, COLON) && NameText(s[..k], m.name, g) && Padded(s[k + 1..], m.value, g);
    name, value := s[..k], s[k + 1..];
    hide *;
    AroundMark(s, k, COLON, rest);
  }

  lemma AroundMark(s: bytes, k: nat, mark: byte, rest: bytes)
    requires k < |s| && s[k] == mark
    ensures s + rest == s[..k] + ([mark] + (s[k + 1..] + rest))
  {
  }

  lemma {:induction false} MemberReads(s: bytes, m: Item<JSON>, g: Grammar, rest: bytes, n: nat)
    requires MemberText(s, m, g) && EndsNumber(rest)
    ensures var t := SkipSpace(s + rest);
            At(t) == QUOTE && Yields(ParseMember(t, n), Sound(m.value, n), m, rest)
    decreases m, 1
  {
    hide ParseValue, SkipSpace, EndsNumber, Sound, Padded, GetQuoted, NameText, MemberText;
    var name, value := MemberSplit(s, m, g, rest);
    var p := value + rest;
    NameReads(name, m.name, g, p);
    PaddedReads(value, m.value, g, rest, n);
    DispatchBehindSpace(p, n);
    assert ([COLON] + p)[1..] == p;
  }

  lemma NameReads(s: bytes, name: bytes, g: Grammar, p: bytes)
    requires NameText(s, name, g)
    ensures var t := SkipSpace(s + ([COLON] + p));
            && At(t) == QUOTE && GetQuoted(t).Quoted? && GetQuoted(t).chars == name
            && SkipSpace(GetQuoted(t).rest) == [COLON] + p
  {
    var i: nat, j: nat :| i <= j <= |s| && Blank(s[..i], g) && QuotedText(s[i..j], name) && Blank(s[j..], g);
    var w, q, x := s[..i], s[i..j], s[j..];
    ThreeParts(s, i, j, [COLON] + p);
    assert Starts(q) && q[0] == QUOTE;
    hide SkipSpace, GetQuoted, Blank, QuotedText;
    SkipsPadding(w, q, x, [COLON] + p, g);
    ClosingBracket(COLON, p);
    QuotedReads(q, name, x + ([COLON] + p));
  }

  lemma MembersSplit(s: bytes, members: Items<JSON>, g: Grammar) returns (k: nat)
    requires members != [] && MembersText(s, members, g)
    ensures k <= |s| && MemberText(s[..k], members[0], g) && (k == |s| ==> members[1..] == [])
    ensures k < |s| ==> s[k] == COMMA && MembersText(s[k + 1..], members[1..], g)
  {
    if |members| == 1 && MemberText(s, members[0], g) {
      k := |s|;
      assert s[..k] == s;
    } else {
      k :| MarkAt(s, k, COMMA) && MemberText(s[..k], members[0], g) && (|members| > 1 || g.Library?)
           && MembersText(s[k + 1..], members[1..], g);
    }
  }

  lemma MembersSoundIff(members: Items<JSON>, n: nat)
    requires members != [] && n <= MAX_NESTING + 1
    ensures MembersSound(members, n) <==> Sound(members[0].value, n) && MembersSound(members[1..], n)
    ensures MembersSound([], n)
  {
    hide WellFormed, Height;
    Uncons(members);
  }

  lemma {:induction false} MembersRead(s: bytes, members: Items<JSON>, g: Grammar, rest: bytes, n: nat)
    requires members != [] && MembersText(s, members, g) && Closes(rest, RBRACE) && n <= MAX_NESTING + 1
    ensures var t := SkipSpace(s + rest);
            && At(t) == QUOTE
            && ParseMembers(t, n) == if MembersSound(members, n) then Ok(members, SkipSpace(rest)) else Fail
    decreases members, 0
  {
    hide ParseMember, ParseMembers, SkipSpace, EndsNumber, Sound, MembersSound, MemberText, MembersText, Blank;
    var k := MembersSplit(s, members, g);
    var m, tail := members[0], members[1..];
    var after, t := s[k..] + rest, SkipSpace(s + rest);
    Uncons(members);
    BehindElement(s, k, rest, RBRACE);
    MemberReads(s[..k], m, g, after, n);
    MembersSoundIff(members, n);
    NextMember(t, n);
    if k < |s| {
      if tail == [] {
        NoElements(s[k + 1..], g);
        BlankIsSpace(s[k + 1..], g);
        SkipSpaceOver(s[k + 1..], rest);
      } else {
        MembersRead(s[k + 1..], tail, g, rest, n);
      }
    }
  }

  lemma {:induction false} ObjectReads(s: bytes, members: Items<JSON>, g: Grammar, rest: bytes, n: nat)
    requires ValueText(s, Object(members), g) && n <= MAX_NESTING
    ensures ParseValue(s + rest, n) == if Sound(Object(members), n) then Ok(Object(members), rest) else Fail
    decreases members, 1
  {
    hide ParseValue, ParseMembers, SkipSpace, Sound, MembersSound, ValueText, MembersText, Blank;
    Bracketed(s, Object(members), g, rest);
    var body := s[1..|s| - 1];
    ClosingBracket(RBRACE, rest);
    EnterObject(body + ([RBRACE] + rest), n);
    ContainerSound([], members, n);
    if members == [] {
      NoElements(body, g);
      BlankIsSpace(body, g);
      SkipSpaceOver(body, [RBRACE] + rest);
      NoItemsSound(n + 1);
    } else {
      MembersRead(body, members, g, [RBRACE] + rest, n + 1);
    }
  }

  /** Every text of RFC 8259 is read as its tree and to its end, exactly if the library accepts the numbers in it
      and it nests at most 2048 deep; no other text of the grammar is read at all. */
  lemma StandardTextReads(text: bytes, v: JSON)
    requires Padded(text, v, Standard)
    ensures Yields(ParseText(text), WellFormed(v) && Height(v) <= 2048, v, [])
  {
    PaddedReads(text, v, Standard, [], 0);
    DispatchBehindSpace(text, 0);
    hide ParseValue, Padded, WellFormed, Height;
    assert text + [] == text;
    NoMark(text);
  }

  lemma NoMark(text: bytes)
    requires Starts(SkipSpace(text))
    ensures WithoutMark(text) == text
  {
    assert text != [] && text[0] == 0xEF ==> SkipSpace(text) == text;
  }

  // The numbers of a text

  /** Every number in the tree is spelled as the grammar has it. */
  predicate NumbersSpelled(v: JSON, g: Grammar) {
    match v
    case Number(l) => g.NumberText(l)
    case Array(items) => forall x :: x in items ==> NumbersSpelled(x, g)
    case Object(members) => forall m :: m in members ==> NumbersSpelled(m.value, g)
    case _ => true
  }

  lemma {:induction false} TextHasNumbers(s: bytes, v: JSON, g: Grammar)
    requires ValueText(s, v, g)
    ensures NumbersSpelled(v, g)
    decreases v, 0
  {
    hide QuotedText, Readable, IsJsonNumber;
    match v
    case Array(items) => ElementsHaveNumbers(s[1..|s| - 1], items, g);
    case Object(members) => MembersHaveNumbers(s[1..|s| - 1], members, g);
    case _ =>
  }

  lemma {:induction false} ElementsHaveNumbers(s: bytes, items: seq<JSON>, g: Grammar)
    requires ElementsText(s, items, g)
    ensures forall x :: x in items ==> NumbersSpelled(x, g)
    decreases items, 0
  {
    hide Padded, ValueText, ElementsText, NumbersSpelled;
    if items != [] {
      var k := ElementsSplit(s, items, g);
      var w, u, x := Unpad(s[..k], items[0], g, []);
      TextHasNumbers(u, items[0], g);
      Uncons(items);
      if k < |s| {
        ElementsHaveNumbers(s[k + 1..], items[1..], g);
      }
    }
  }

  lemma {:induction false} MembersHaveNumbers(s: bytes, members: Items<JSON>, g: Grammar)
    requires MembersText(s, members, g)
    ensures forall m :: m in members ==> NumbersSpelled(m.value, g)
    decreases members, 0
  {
    hide Padded, ValueText, MemberText, MembersText, NumbersSpelled;
    if members != [] {
      var k := MembersSplit(s, members, g);
      var name, value := MemberSplit(s[..k], members[0], g, []);
      var w, u, x := Unpad(value, members[0].value, g, []);
      TextHasNumbers(u, members[0].value, g);
      Uncons(members);
      if k < |s| {
        MembersHaveNumbers(s[k + 1..], members[1..], g);
      }
    }
  }
}
