/** Whatever the reader accepts is a text of the library's grammar, and all of that grammar is accepted. */
module JsonAccepted {
  import opened Bytes
  import opened ItemList
  import opened JsonString
  import opened JsonNumber
  import opened JsonText
  import opened JsonRoundTrip
  import opened JsonGrammar

  lemma ShortIsText(b: bytes) returns (c: bytes)
    requires b != [] && b[0] != QUOTE && 0 < FirstLength(b) < 6
    ensures CharText(b[..FirstLength(b)], c)
  {
    hide Hex4, EncodeUtf8, ParseUtf16, ShortEscape, SimpleEscape;
    var u := b[..FirstLength(b)];
    assert u[0] == b[0];
    if b[0] != BACKSLASH {
      c := u;
    } else {
      assert u[1] == b[1];
      SimpleIsByte(b[1]);
      c := [SimpleEscape(b[1])];
      ShortIsSimple(b[1], c[0]);
    }
  }

  lemma SimpleIsByte(letter: byte)
    ensures SimpleEscape(letter) < 256
  {
  }

  lemma SingleIsText(b: bytes) returns (c: bytes)
    requires [BACKSLASH, LOWER_U] <= b && ParseUtf16(b[2..]).CodePoint? && ParseUtf16(b[2..]).length == 4
    ensures CharText(b[..6], c)
  {
    hide HexValue, Hex4, EncodeUtf8;
    var u := b[..6];
    assert u[0] == b[0] && u[1] == b[1];
    SameDigits(u[2..], b[2..]);
    c := EncodeUtf8(CodeUnit(u));
  }

  lemma PairIsText(b: bytes) returns (c: bytes)
    requires [BACKSLASH, LOWER_U] <= b && ParseUtf16(b[2..]).CodePoint? && ParseUtf16(b[2..]).length == 10
    ensures CharText(b[..12], c)
  {
    hide HexValue, Hex4, EncodeUtf8;
    var u, v := b[..12][..6], b[..12][6..];
    assert u[0] == b[0] && u[1] == b[1];
    SameDigits(u[2..], b[2..]);
    SecondEscape(b[2..], v);
    c := EncodeUtf8(0x10000 + (CodeUnit(u) - 0xD800) * 0x400 + (CodeUnit(v) - 0xDC00));
  }

  lemma SecondEscape(t: bytes, v: bytes)
    requires |t| >= 10 && v == t[4..10] && t[4] == BACKSLASH && t[5] == LOWER_U && Hex4(t[6..]) >= 0
    ensures IsUnicodeEscape(v) && CodeUnit(v) == Hex4(t[6..])
  {
    hide Hex4;
    assert t[4] == v[0] && t[5] == v[1];
    SameDigits(t[6..], v[2..]);
  }

  lemma FirstIsText(b: bytes) returns (c: bytes)
    requires b != [] && b[0] != QUOTE && FirstLength(b) > 0
    ensures CharText(b[..FirstLength(b)], c)
  {
    if FirstLength(b) < 6 {
      c := ShortIsText(b);
    } else if FirstLength(b) == 6 {
      c := SingleIsText(b);
    } else {
      c := PairIsText(b);
    }
    hide CharText;
  }

  lemma {:induction false} BodyIsText(b: bytes, rest: bytes)
    requires Unescape(b).Some? && SkipBody(b + ([QUOTE] + rest)) == Some([QUOTE] + rest)
    ensures BodyText(b, Unescape(b).value)
    decreases |b|
  {
    if b != [] {
      var k := FirstLength(b);
      UnescapeFirst(b);
      NoBareQuote(b, rest);
      hide Unescape, SkipBody, CharText, FirstLength, BodyText;
      var c := FirstIsText(b);
      UnescapeChar(b, k, c);
      SkipFirst(b, k, c, [QUOTE] + rest);
      BodyIsText(b[k..], rest);
      CharBefore(b, k, c, Unescape(b[k..]).value);
    }
  }

  lemma NoBareQuote(b: bytes, rest: bytes)
    requires b != [] && SkipBody(b + ([QUOTE] + rest)) == Some([QUOTE] + rest)
    ensures b[0] != QUOTE
  {
    assert (b + ([QUOTE] + rest))[0] == b[0];
  }

  lemma CharBefore(b: bytes, k: nat, c: bytes, more: bytes)
    requires 0 < k <= |b| && CharText(b[..k], c) && BodyText(b[k..], more)
    ensures BodyText(b, c + more)
  {
    hide CharText;
    assert (c + more)[..|c|] == c && (c + more)[|c|..] == more;
  }

  lemma {:induction false} SkippedBody(s: bytes) returns (b: bytes)
    requires SkipBody(s).Some?
    ensures s == b + SkipBody(s).value && SkipBody(s).value[0] == QUOTE
    decreases |s|
  {
    if s[0] == QUOTE {
      b := [];
    } else {
      var k := if s[0] == BACKSLASH then 2 else 1;
      var more := SkippedBody(s[k..]);
      b := s[..k] + more;
      assert s == s[..k] + s[k..];
    }
  }

  lemma QuotedIsText(s: bytes) returns (u: bytes)
    requires GetQuoted(s).Quoted?
    ensures s == u + GetQuoted(s).rest && QuotedText(u, GetQuoted(s).chars)
  {
    hide Unescape, SkipBody, QuotedText;
    var b := SkippedBody(s[1..]);
    var rest := GetQuoted(s).rest;
    Uncons(SkipBody(s[1..]).value);
    Uncons(s);
    assert s[1..][..|b|] == b;
    BodyIsText(b, rest);
    u := QuotedOf(b, GetQuoted(s).chars, rest);
  }

  lemma {:induction false} SpaceIsText(s: bytes) returns (w: bytes)
    ensures s == w + SkipSpace(s) && Blank(w, Library)
  {
    if s != [] && IsSpace(s[0]) {
      var more := SpaceIsText(s[1..]);
      w := [s[0]] + more;
    } else {
      w := [];
    }
  }

  lemma PadMore(a: bytes, s: bytes, v: JSON, b: bytes)
    requires Padded(s, v, Library) && Blank(a, Library) && Blank(b, Library)
    ensures Padded(a + (s + b), v, Library)
  {
    hide Padded, ValueText, Blank;
    var w, u, x := Unpad(s, v, Library, b);
    JoinBlank(a, w, Library);
    JoinBlank(x, b, Library);
    PadText(a + w, u, v, x + b, Library);
    Assoc(a, w, u + (x + b));
  }

  lemma ElementsBehind(y: bytes, e: bytes, items: seq<JSON>)
    requires Blank(y, Library) && items != [] && ElementsText(e, items, Library)
    ensures ElementsText(y + e, items, Library)
  {
    hide Padded, ElementsText, Blank;
    var k := ElementsSplit(e, items, Library);
    var x, p := items[0], e[..k];
    NothingIsBlank(Library);
    PadMore(y, p, x, []);
    Uncons(items);
    assert p + [] == p;
    if k == |e| {
      assert e[..k] == e;
      ElementsLast(y + e, x, Library);
    } else {
      ElementsCons(y + p, x, e[k + 1..], items[1..], Library);
      AroundMark(e, k, COMMA, []);
      assert e + [] == e && e[k + 1..] + [] == e[k + 1..];
      Assoc(y, p, [COMMA] + e[k + 1..]);
    }
  }

  /** A value that was read, from the white space before it on; a stuck minus sign is none. */
  lemma {:induction false} ValueIsText(s: bytes, n: nat) returns (u: bytes)
    requires ParseValue(s, n).Ok? && !Stuck(ParseValue(s, n).value, ParseValue(s, n).rest)
    ensures s == u + ParseValue(s, n).rest && Padded(u, ParseValue(s, n).value, Library)
    decreases |s|, 3
  {
    var t := SkipSpace(s);
    DispatchBehindSpace(s, n);
    SkipTwice(s);
    hide ParseValue, SkipSpace, ValueText, Padded, Blank;
    var w := SpaceIsText(s);
    var a := BareIsText(t, n);
    NothingIsBlank(Library);
    PadText(w, a, ParseValue(s, n).value, [], Library);
    assert a + [] == a;
    u := w + a;
    Assoc(w, a, ParseValue(s, n).rest);
  }

  lemma {:induction false} BareIsText(t: bytes, n: nat) returns (u: bytes)
    requires SkipSpace(t) == t && ParseValue(t, n).Ok? && !Stuck(ParseValue(t, n).value, ParseValue(t, n).rest)
    ensures t == u + ParseValue(t, n).rest && ValueText(u, ParseValue(t, n).value, Library)
    decreases |t|, 2
  {
    if At(t) == LBRACKET {
      u := ArrayIsText(t, n + 1);
      BareContainer(t, n);
    } else if At(t) == LBRACE {
      u := ObjectIsText(t, n + 1);
      BareContainer(t, n);
    } else {
      u := ScalarIsText(t, n);
    }
    hide *;
  }

  lemma BareContainer(t: bytes, n: nat)
    requires SkipSpace(t) == t && n <= MAX_NESTING
    ensures At(t) == LBRACKET ==> ParseValue(t, n) == ParseArray(t, n + 1)
    ensures At(t) == LBRACE ==> ParseValue(t, n) == ParseObject(t, n + 1)
  {
    hide ParseArray, ParseObject;
  }

  lemma WordIsText(t: bytes, word: bytes, v: JSON) returns (u: bytes)
    requires ParseWord(t, word, v).Ok? && ValueText(word, v, Library)
    ensures t == u + ParseWord(t, word, v).rest && ValueText(u, v, Library)
  {
    u := word;
  }

  lemma ScalarIsText(t: bytes, n: nat) returns (u: bytes)
    requires SkipSpace(t) == t && ParseValue(t, n).Ok? && !Stuck(ParseValue(t, n).value, ParseValue(t, n).rest)
    requires At(t) != LBRACKET && At(t) != LBRACE
    ensures t == u + ParseValue(t, n).rest && ValueText(u, ParseValue(t, n).value, Library)
  {
    ScalarDispatch(t, n);
    hide ParseValue, ParseString, ParseNumber, Readable, BodyText, GetQuoted;
    if At(t) == QUOTE {
      u := StringIsText(t);
    } else if At(t) == MINUS || IsDigit(At(t)) {
      u := NumberIsText(t);
    } else if TRUE <= t {
      u := WordIsText(t, TRUE, Bool(true));
    } else if FALSE <= t {
      u := WordIsText(t, FALSE, Bool(false));
    } else {
      u := WordIsText(t, NULL, Null);
    }
  }

  lemma ScalarDispatch(t: bytes, n: nat)
    requires SkipSpace(t) == t && At(t) != LBRACKET && At(t) != LBRACE && ParseValue(t, n).Ok?
    ensures At(t) == QUOTE ==> ParseValue(t, n) == ParseString(t)
    ensures At(t) == MINUS || IsDigit(At(t)) ==> t != [] && ParseValue(t, n) == ParseNumber(t)
    ensures At(t) != QUOTE && At(t) != MINUS && !IsDigit(At(t)) ==>
              ParseValue(t, n) == if TRUE <= t then ParseWord(t, TRUE, Bool(true))
                                  else if FALSE <= t then ParseWord(t, FALSE, Bool(false))
                                  else ParseWord(t, NULL, Null)
  {
    hide ParseArray, ParseObject, ParseString, ParseNumber;
    assert TRUE <= t ==> t[0] == TRUE[0];
    assert FALSE <= t ==> t[0] == FALSE[0];
  }

  lemma StringIsText(t: bytes) returns (u: bytes)
    requires ParseString(t).Ok?
    ensures t == u + ParseString(t).rest && ValueText(u, ParseString(t).value, Library)
  {
    u := QuotedIsText(t);
    hide GetQuoted, QuotedText;
  }

  lemma NumberIsText(t: bytes) returns (u: bytes)
    requires t != [] && (t[0] == MINUS || IsDigit(t[0])) && ParseNumber(t).Ok?
    requires !Stuck(ParseNumber(t).value, ParseNumber(t).rest)
    ensures t == u + ParseNumber(t).rest && ValueText(u, ParseNumber(t).value, Library)
  {
    hide StrtodLen, Readable, Accepted, WellFormed, ValueText;
    ParsedNumber(t);
    u := t[..StrtodLen(t)];
    LexemeIsText(u);
  }

  lemma LexemeIsText(l: bytes)
    requires WellFormed(Number(l))
    ensures ValueText(l, Number(l), Library)
  {
    hide Readable;
  }

  lemma {:induction false} ArrayIsText(s: bytes, n: nat) returns (u: bytes)
    requires At(s) == LBRACKET && ParseArray(s, n).Ok?
    ensures s == u + ParseArray(s, n).rest && ValueText(u, ParseArray(s, n).value, Library)
    decreases |s|, 1
  {
    hide ParseItems, SkipSpace, ElementsText, ValueText, Blank;
    var t := SkipSpace(s[1..]);
    var w := SpaceIsText(s[1..]);
    Uncons(s);
    if At(t) == RBRACKET {
      EmptyText(w, Library);
      Uncons(t);
      u := BracketText(w, Array([]), t[1..], Library);
    } else {
      ArrayHasElements(t, n);
      var e := ItemsAreText(t, n);
      var items := ParseItems(t, n);
      ElementsBehind(w, e, items.value);
      Uncons(items.rest);
      u := BracketText(w + e, Array(items.value), items.rest[1..], Library);
      Assoc(w, e, items.rest);
    }
  }

  lemma ArrayHasElements(t: bytes, n: nat)
    requires ParseItems(t, n).Ok? && At(SkipSpace(ParseItems(t, n).rest)) == RBRACKET
    ensures At(t) != 0
  {
    hide ParseValue;
  }

  lemma {:induction false} ItemsAreText(s: bytes, n: nat) returns (u: bytes)
    requires At(s) != 0 && ParseItems(s, n).Ok? && At(SkipSpace(ParseItems(s, n).rest)) == RBRACKET
    ensures var r := ParseItems(s, n);
            && s == u + r.rest && r.value != [] && ElementsText(u, r.value, Library)
            && SkipSpace(r.rest) == r.rest
    decreases |s|, 4
  {
    hide ParseItems, ParseValue, SkipSpace, ElementsText, Padded, Blank, Stuck;
    NextItem(s, n);
    var v := ParseValue(s, n);
    var t := SkipSpace(v.rest);
    SkipTwice(v.rest);
    NotStuck(v.value, v.rest);
    var a := ValueIsText(s, n);
    var x := SpaceIsText(v.rest);
    var p := a + x;
    NothingIsBlank(Library);
    PadMore([], a, v.value, x);
    assert [] + p == p;
    Assoc(a, x, t);
    if At(t) != COMMA {
      ElementsLast(p, v.value, Library);
      u := p;
    } else {
      var tt := SkipSpace(t[1..]);
      var y := SpaceIsText(t[1..]);
      SkipTwice(t[1..]);
      Uncons(t);
      var e, more := y, [];
      if At(tt) == RBRACKET {
        EmptyText(y, Library);
      } else {
        ArrayHasElements(tt, n);
        var inner := ItemsAreText(tt, n);
        more := ParseItems(tt, n).value;
        ElementsBehind(y, inner, more);
        e := y + inner;
        Assoc(y, inner, ParseItems(tt, n).rest);
      }
      ElementsCons(p, v.value, e, more, Library);
      assert [v.value] + [] == [v.value];
      u := p + ([COMMA] + e);
      Assoc(p, [COMMA] + e, ParseItems(s, n).rest);
      Assoc([COMMA], e, ParseItems(s, n).rest);
    }
  }

  lemma NotStuck(v: JSON, rest: bytes)
    requires At(SkipSpace(rest)) in {COMMA, RBRACKET, RBRACE}
    ensures !Stuck(v, rest)
  {
  }

  lemma PadName(y: bytes, s: bytes, name: bytes)
    requires Blank(y, Library) && NameText(s, name, Library)
    ensures NameText(y + s, name, Library)
  {
    var i: nat, j: nat :|
      i <= j <= |s| && Blank(s[..i], Library) && QuotedText(s[i..j], name) && Blank(s[j..], Library);
    hide QuotedText;
    JoinBlank(y, s[..i], Library);
    NamePad(y + s[..i], s[i..j], name, s[j..], Library);
    ThreeParts(s, i, j, []);
    hide Blank, NameText;
    assert s + [] == s && s[j..] + [] == s[j..];
    Assoc(y, s[..i], s[i..j] + s[j..]);
  }

  lemma PadMember(y: bytes, s: bytes, m: Item<JSON>, b: bytes)
    requires Blank(y, Library) && MemberText(s, m, Library) && Blank(b, Library)
    ensures MemberText(y + (s + b), m, Library)
  {
    hide Blank, NameText, Padded, MemberText;
    var k, a := MemberSplit(s, m, Library, b);
    NothingIsBlank(Library);
    PadName(y, k, m.name);
    PadMore([], a, m.value, b);
    assert [] + (a + b) == a + b;
    MemberJoin(y + k, a + b, m, Library);
    Assoc(y, k, [COLON] + (a + b));
  }

  lemma MembersBehind(y: bytes, e: bytes, members: Items<JSON>)
    requires Blank(y, Library) && members != [] && MembersText(e, members, Library)
    ensures MembersText(y + e, members, Library)
  {
    hide MemberText, MembersText, Blank;
    var k := MembersSplit(e, members, Library);
    var m, p := members[0], e[..k];
    NothingIsBlank(Library);
    PadMember(y, p, m, []);
    Uncons(members);
    assert p + [] == p;
    if k == |e| {
      assert e[..k] == e;
      MembersLast(y + e, m, Library);
    } else {
      MembersCons(y + p, m, e[k + 1..], members[1..], Library);
      AroundMark(e, k, COMMA, []);
      assert e + [] == e && e[k + 1..] + [] == e[k + 1..];
      Assoc(y, p, [COMMA] + e[k + 1..]);
    }
  }

  lemma {:induction false} MemberIsText(s: bytes, n: nat) returns (u: bytes)
    requires ParseMember(s, n).Ok? && !Stuck(ParseMember(s, n).value.value, ParseMember(s, n).rest)
    ensures s == u + ParseMember(s, n).rest && MemberText(u, ParseMember(s, n).value, Library)
    decreases |s|, 3
  {
    hide ParseValue, GetQuoted, SkipSpace, QuotedText, NameText, Padded, MemberText, Blank, Stuck;
    var key := GetQuoted(s);
    var t := SkipSpace(key.rest);
    var q := QuotedIsText(s);
    var x := SpaceIsText(key.rest);
    var a := ValueIsText(t[1..], n);
    var rest := ParseMember(s, n).rest;
    NothingIsBlank(Library);
    NamePad([], q, key.chars, x, Library);
    assert [] + (q + x) == q + x;
    MemberJoin(q + x, a, ParseMember(s, n).value, Library);
    u := (q + x) + ([COLON] + a);
    Uncons(t);
    Assoc(q, x, t);
    Assoc(q + x, [COLON] + a, rest);
    Assoc([COLON], a, rest);
  }

  lemma ObjectHasMembers(t: bytes, n: nat)
    requires ParseMembers(t, n).Ok? && At(SkipSpace(ParseMembers(t, n).rest)) == RBRACE
    ensures At(t) != 0
  {
    hide ParseMember;
  }

  lemma {:induction false} MembersAreText(s: bytes, n: nat) returns (u: bytes)
    requires At(s) != 0 && ParseMembers(s, n).Ok? && At(SkipSpace(ParseMembers(s, n).rest)) == RBRACE
    ensures var r := ParseMembers(s, n);
            && s == u + r.rest && r.value != [] && MembersText(u, r.value, Library)
            && SkipSpace(r.rest) == r.rest
    decreases |s|, 4
  {
    hide ParseMembers, ParseMember, SkipSpace, MembersText, MemberText, Blank, Stuck;
    NextMember(s, n);
    var m := ParseMember(s, n);
    var t := SkipSpace(m.rest);
    SkipTwice(m.rest);
    NotStuck(m.value.value, m.rest);
    var a := MemberIsText(s, n);
    var x := SpaceIsText(m.rest);
    var p := a + x;
    NothingIsBlank(Library);
    PadMember([], a, m.value, x);
    assert [] + p == p;
    Assoc(a, x, t);
    if At(t) != COMMA {
      MembersLast(p, m.value, Library);
      u := p;
    } else {
      var tt := SkipSpace(t[1..]);
      var y := SpaceIsText(t[1..]);
      SkipTwice(t[1..]);
      Uncons(t);
      var e, more := y, [];
      if At(tt) == RBRACE {
        EmptyText(y, Library);
      } else {
        ObjectHasMembers(tt, n);
        var inner := MembersAreText(tt, n);
        more := ParseMembers(tt, n).value;
        MembersBehind(y, inner, more);
        e := y + inner;
        Assoc(y, inner, ParseMembers(tt, n).rest);
      }
      MembersCons(p, m.value, e, more, Library);
      assert [m.value] + [] == [m.value];
      u := p + ([COMMA] + e);
      Assoc(p, [COMMA] + e, ParseMembers(s, n).rest);
      Assoc([COMMA], e, ParseMembers(s, n).rest);
    }
  }

  lemma {:induction false} ObjectIsText(s: bytes, n: nat) returns (u: bytes)
    requires At(s) == LBRACE && ParseObject(s, n).Ok?
    ensures s == u + ParseObject(s, n).rest && ValueText(u, ParseObject(s, n).value, Library)
    decreases |s|, 1
  {
    hide ParseMembers, SkipSpace, MembersText, ValueText, Blank;
    var t := SkipSpace(s[1..]);
    var w := SpaceIsText(s[1..]);
    Uncons(s);
    if At(t) == RBRACE {
      EmptyText(w, Library);
      Uncons(t);
      u := BracketText(w, Object([]), t[1..], Library);
    } else {
      ObjectHasMembers(t, n);
      var e := MembersAreText(t, n);
      var members := ParseMembers(t, n);
      MembersBehind(w, e, members.value);
      Uncons(members.rest);
      u := BracketText(w + e, Object(members.value), members.rest[1..], Library);
      Assoc(w, e, members.rest);
    }
  }

  // Exactly the library's grammar is read

  lemma {:induction false} SpelledIsWellFormed(v: JSON)
    requires NumbersSpelled(v, Library)
    ensures WellFormed(v)
    decreases v
  {
    match v
    case Array(items) =>
      forall x | x in items ensures WellFormed(x) {
        SpelledIsWellFormed(x);
      }
    case Object(members) =>
      forall m | m in members ensures WellFormed(m.value) {
        SpelledIsWellFormed(m.value);
      }
    case _ =>
  }

  /** `s` is white space, a text of `v` in the library's grammar, and `rest`; a number goes on as far as it can. */
  ghost predicate Spells(s: bytes, v: JSON, rest: bytes) {
    exists i: nat, j: nat ::
      && i <= j <= |s| && Blank(s[..i], Library) && ValueText(s[i..j], v, Library) && s[j..] == rest
      && (v.Number? ==> StrtodLen(s[i..]) == j - i)
  }

  lemma Unspell(s: bytes, v: JSON, rest: bytes) returns (w: bytes, u: bytes)
    requires Spells(s, v, rest)
    ensures Blank(w, Library) && ValueText(u, v, Library) && s == w + (u + rest)
    ensures v.Number? ==> StrtodLen(u + rest) == |u|
  {
    hide StrtodLen, ValueText;
    var i: nat, j: nat :|
      && i <= j <= |s| && Blank(s[..i], Library) && ValueText(s[i..j], v, Library) && s[j..] == rest
      && (v.Number? ==> StrtodLen(s[i..]) == j - i);
    w, u := s[..i], s[i..j];
    assert s[i..] == u + rest;
  }

  lemma SpelledReads(s: bytes, v: JSON, rest: bytes)
    requires Spells(s, v, rest)
    ensures ParseValue(s, 0) == if Height(v) <= MAX_NESTING then Ok(v, rest) else Fail
  {
    hide ParseValue, SkipSpace, Spells, ValueText, Blank, WellFormed, NumbersSpelled, Height, StrtodLen;
    hide Starts, EndsNumber;
    var w, u := Unspell(s, v, rest);
    ValueStarts(u, v, Library);
    TextHasNumbers(u, v, Library);
    SpelledIsWellFormed(v);
    NothingIsBlank(Library);
    assert [] + rest == rest;
    SkipsPadding(w, u, [], rest, Library);
    DispatchBehindSpace(s, 0);
    if v.Number? {
      NumberSpelled(u, v);
      LexemeReads(u, rest);
    } else {
      ValueReads(u, v, Library, rest, 0);
    }
  }

  lemma NumberSpelled(u: bytes, v: JSON)
    requires v.Number? && ValueText(u, v, Library)
    ensures v == Number(u) && Readable(u)
  {
  }

  lemma LexemeReads(l: bytes, rest: bytes)
    requires Readable(l) && StrtodLen(l + rest) == |l|
    ensures ParseValue(l + rest, 0) == Ok(Number(l), rest) && Height(Number(l)) == 0
  {
    NumberDispatch(l + rest, 0);
    hide ParseValue, StrtodLen, Accepted;
    assert (l + rest)[..|l|] == l && (l + rest)[|l|..] == rest;
  }

  lemma ReadIsSpelled(s: bytes)
    requires ParseValue(s, 0).Ok? && !Stuck(ParseValue(s, 0).value, ParseValue(s, 0).rest)
    ensures Spells(s, ParseValue(s, 0).value, ParseValue(s, 0).rest)
  {
    hide ParseValue, SkipSpace, ValueText, Blank;
    var t, v, rest := SkipSpace(s), ParseValue(s, 0).value, ParseValue(s, 0).rest;
    DispatchBehindSpace(s, 0);
    SkipTwice(s);
    var w := SpaceIsText(s);
    var a := BareIsText(t, 0);
    var i, j := |w|, |w| + |a|;
    assert s[..i] == w && s[i..] == t && s[i..j] == a && s[j..] == rest;
    if v.Number? {
      LexemeIsTaken(t, a);
    }
  }

  lemma LexemeIsTaken(t: bytes, a: bytes)
    requires SkipSpace(t) == t && ParseValue(t, 0).Ok? && ParseValue(t, 0).value.Number?
    requires ValueText(a, ParseValue(t, 0).value, Library)
    ensures StrtodLen(t) == |a|
  {
    if t == [] || !(t[0] == MINUS || IsDigit(t[0])) {
      NoNumber(t, 0);
    } else {
      NumberDispatch(t, 0);
      hide ParseValue, StrtodLen, Readable, Accepted;
    }
  }

  /** The reader reads `v` and stops at `rest` exactly when the text, behind a byte order mark, spells `v` in the
      library's grammar up to there and nests at most 2048 deep, or is a minus sign that starts no number. */
  lemma AcceptedTexts(text: bytes, v: JSON, rest: bytes)
    ensures var s := WithoutMark(text);
            ParseText(text) == Ok(v, rest) <==>
              || (Spells(s, v, rest) && Height(v) <= 2048)
              || (LoneMinus(SkipSpace(s)) && v == Number([]) && rest == SkipSpace(s))
  {
    hide ParseValue, SkipSpace, Spells, LoneMinus, Height, WithoutMark;
    var s := WithoutMark(text);
    LoneMinusIff(text);
    if Spells(s, v, rest) {
      SpelledReads(s, v, rest);
    }
    if ParseText(text) == Ok(v, rest) && !LoneMinus(SkipSpace(s)) {
      ReadIsSpelled(s);
      ParsedIsSound(s, 0);
    }
  }
}
