/** Reading back a printed tree. */
module JsonRoundTrip {
  import opened Bytes
  import opened ItemList
  import opened JsonString
  import opened JsonNumber
  import opened JsonText

  ghost predicate AllSpace(w: bytes) {
    forall i :: 0 <= i < |w| ==> IsSpace(w[i])
  }

  lemma {:induction false} SkipSpaceOver(w: bytes, s: bytes)
    requires AllSpace(w)
    ensures SkipSpace(w + s) == SkipSpace(s)
  {
    if w == [] {
      assert w + s == s;
    } else {
      assert (w + s)[1..] == w[1..] + s;
      SkipSpaceOver(w[1..], s);
    }
  }

  lemma {:induction false} IndentIsSpace(level: nat)
    ensures AllSpace(Indent(level))
  {
    if level > 0 {
      IndentIsSpace(level - 1);
    }
  }

  lemma LayoutIsSpace(o: Layout, level: nat)
    ensures AllSpace(o.Line()) && AllSpace(o.Margin(level))
  {
    IndentIsSpace(level);
  }

  // Numbers print as their lexeme

  predicate NumberByte(c: byte) {
    IsDigit(c) || c == DOT || IsE(c) || IsSign(c)
  }

  ghost predicate NumberBytes(s: bytes) {
    forall i :: 0 <= i < |s| ==> NumberByte(s[i])
  }

  lemma {:induction false} DigitsAreNumberBytes(s: bytes)
    ensures NumberBytes(s[..Digits(s)])
  {
    if s != [] && IsDigit(s[0]) {
      DigitsAreNumberBytes(s[1..]);
      assert forall i :: 0 < i < Digits(s) ==> s[i] == s[1..][..Digits(s) - 1][i - 1];
    }
  }

  lemma ExponentIsNumberBytes(e: bytes)
    ensures NumberBytes(e[..ExponentLen(e)])
  {
    if ExponentLen(e) > 0 {
      var k := 1 + if IsSign(e[1]) then 1 else 0;
      DigitsAreNumberBytes(e[k..]);
      assert e[..ExponentLen(e)] == e[..k] + e[k..][..Digits(e[k..])];
    }
  }

  lemma FractionIsNumberBytes(f: bytes)
    ensures NumberBytes(f[..FractionLen(f)])
  {
    if FractionLen(f) > 0 {
      DigitsAreNumberBytes(f[1..]);
      assert f[..FractionLen(f)] == [f[0]] + f[1..][..Digits(f[1..])];
    }
  }

  lemma NumberBytesJoin(s: bytes, n: nat)
    requires n <= |s| && NumberBytes(s[..n]) && NumberBytes(s[n..])
    ensures NumberBytes(s)
  {
    assert s == s[..n] + s[n..];
  }

  lemma DecimalIsNumberBytes(t: bytes)
    requires DecimalLen(t) == |t|
    ensures NumberBytes(t)
  {
    hide NumberBytes, Digits, FractionLen, ExponentLen;
    var i, f := Digits(t), FractionLen(t[Digits(t)..]);
    var u := t[i..];
    DigitsAreNumberBytes(t);
    FractionIsNumberBytes(u);
    assert t[i + f..] == u[f..];
    ExponentIsNumberBytes(u[f..]);
    assert u[f..][..|u[f..]|] == u[f..];
    NumberBytesJoin(u, f);
    NumberBytesJoin(t, i);
  }

  lemma NumberIsNumberBytes(l: bytes)
    requires IsJsonNumber(l)
    ensures NumberBytes(l)
  {
    var sign := if l[0] == MINUS then 1 else 0;
    DecimalIsNumberBytes(l[sign..]);
    NumberBytesJoin(l, sign);
  }

  lemma AfterZero(t: bytes)
    requires IsUnsigned(t) && |t| > 1 && t[0] == 0x30
    ensures t[1] == DOT || IsE(t[1])
  {
    var f := FractionLen(t[1..]);
    assert Digits(t) == 1 && t[1..][0] == t[1];
    if t[1] != DOT {
      assert f == 0 && t[1 + f..] == t[1..];
    }
  }

  /** Of the numbers of RFC 8259 `is_decimal` rejects a zero with an exponent, written `0E`, `-0e` or `-0E`;
      `0e` passes. */
  lemma JsonNumbersRejected(l: bytes)
    requires IsJsonNumber(l)
    ensures !IsDecimal(l) <==> (|l| > 1 && l[0] == 0x30 && l[1] == 0x45)
                               || (|l| > 2 && l[0] == MINUS && l[1] == 0x30 && IsE(l[2]))
  {
    NumberIsNumberBytes(l);
    var sign := if l[0] == MINUS then 1 else 0;
    var t := l[sign..];
    assert |t| > 1 ==> t[0] == l[sign] && t[1] == l[sign + 1];
    if |t| > 1 && t[0] == 0x30 {
      AfterZero(t);
    }
  }

  /** Bytes that are printed as they are. */
  ghost predicate Plain(s: bytes) {
    forall i :: 0 <= i < |s| ==> NumberByte(s[i]) || IsLetter(s[i])
  }

  lemma WordIsPlain(t: bytes, word: bytes)
    requires StartsNoCase(t, word) && |t| == |word| && forall i :: 0 <= i < |word| ==> 0x61 <= word[i] <= 0x7A
    ensures Plain(t)
  {
  }

  lemma PlainBehindSign(l: bytes, sign: nat)
    requires l != [] && sign == (if IsSign(l[0]) then 1 else 0) && (NumberBytes(l[sign..]) || Plain(l[sign..]))
    ensures Plain(l)
  {
    assert forall i :: sign <= i < |l| ==> l[i] == l[sign..][i - sign];
  }

  lemma ReadableIsPlain(l: bytes)
    requires l != [] && StrtodLen(l) == |l|
    ensures Plain(l)
  {
    var sign := if IsSign(l[0]) then 1 else 0;
    var t := l[sign..];
    StrtodForms(l);
    hide StrtodLen, DecimalLen, StartsNoCase;
    hide NumberByte;
    if DecimalLen(t) == |t| {
      DecimalIsNumberBytes(t);
    } else if StartsNoCase(t, INFINITY) && |t| == 8 {
      WordIsPlain(t, INFINITY);
    } else if StartsNoCase(t, INF) {
      WordIsPlain(t, INF);
    } else {
      WordIsPlain(t, NAN);
    }
    PlainBehindSign(l, sign);
  }

  lemma {:induction false} PlainUnescaped(s: bytes, slashes: bool)
    requires Plain(s)
    ensures Escape(s, slashes) == s
  {
    if s != [] {
      PlainUnescaped(s[1..], slashes);
      assert EscapeByte(s[0], slashes) == [s[0]];
    }
  }

  lemma NumberPrints(l: bytes, slashes: bool)
    requires Readable(l)
    ensures Escape(l, slashes) == l && l != [] && (IsDigit(l[0]) || l[0] == MINUS)
  {
    ReadableIsPlain(l);
    PlainUnescaped(l, slashes);
  }

  lemma NumberParses(l: bytes, rest: bytes)
    requires Readable(l) && EndsNumber(rest)
    ensures ParseNumber(l + rest) == Ok(Number(l), rest)
  {
    TakesLexeme(l, rest);
    assert (l + rest)[..|l|] == l && (l + rest)[|l|..] == rest;
  }

  /** A printed value starts with a byte that is no space and closes or separates nothing. */
  lemma PrintStarts(v: JSON, level: nat, o: Layout)
    requires WellFormed(v)
    ensures var p := Print(v, level, o);
            p != [] && !IsSpace(p[0]) && p[0] !in {0, RBRACKET, RBRACE, COMMA, 0xEF}
  {
    if v.Number? {
      NumberPrints(v.lexeme, o.slashes);
    }
  }

  lemma NumberDispatch(s: bytes, n: nat)
    requires n <= MAX_NESTING && s != [] && (s[0] == MINUS || IsDigit(s[0]))
    ensures ParseValue(s, n) == ParseNumber(s)
  {
    hide ParseNumber, ParseArray, ParseObject, ParseString, ParseWord;
    assert SkipSpace(s) == s;
  }

  lemma WordDispatch(s: bytes, n: nat)
    requires n <= MAX_NESTING
    ensures TRUE <= s ==> ParseValue(s, n) == Ok(Bool(true), s[|TRUE|..])
    ensures FALSE <= s ==> ParseValue(s, n) == Ok(Bool(false), s[|FALSE|..])
    ensures NULL <= s ==> ParseValue(s, n) == Ok(Null, s[|NULL|..])
  {
    hide ParseNumber, ParseArray, ParseObject, ParseString;
    assert TRUE <= s ==> s[0] == TRUE[0];
    assert FALSE <= s ==> s[0] == FALSE[0];
    assert NULL <= s ==> s[0] == NULL[0];
    assert TRUE <= s || FALSE <= s || NULL <= s ==> SkipSpace(s) == s;
  }

  lemma StringDispatch(s: bytes, n: nat)
    requires n <= MAX_NESTING && s != [] && s[0] == QUOTE
    ensures ParseValue(s, n) == ParseString(s)
  {
    hide ParseNumber, ParseArray, ParseObject, ParseString, ParseWord;
    assert SkipSpace(s) == s;
  }

  lemma ScalarParses(v: JSON, level: nat, o: Layout, rest: bytes, n: nat)
    requires WellFormed(v) && !v.Array? && !v.Object?
    requires v.Number? ==> EndsNumber(rest)
    requires n <= MAX_NESTING
    ensures ParseValue(Print(v, level, o) + rest, n) == Ok(v, rest)
  {
    var p, s := Print(v, level, o), Print(v, level, o) + rest;
    PrintStarts(v, level, o);
    hide ParseValue, ParseNumber, Readable, Escape, GetQuoted, EndsNumber;
    assert s[|p|..] == rest && s[..|p|] == p;
    match v
    case Number(l) =>
      NumberPrints(l, o.slashes);
      NumberParses(l, rest);
      NumberDispatch(s, n);
    case Str(chars) =>
      QuotedRoundTrip(chars, o.slashes, rest);
      StringDispatch(s, n);
    case _ =>
      WordDispatch(s, n);
  }

  // Lists

  /** The elements and what follows them, seen from the first element on. */
  lemma FirstItem(items: seq<JSON>, level: nat, o: Layout, rest: bytes)
    requires items != [] && WellFormed(items[0])
    ensures SkipSpace(PrintItems(items, level, o) + rest)
         == Print(items[0], level, o) + (Separator(|items| > 1, o) + (PrintItems(items[1..], level, o) + rest))
  {
    var m, p := o.Margin(level), Print(items[0], level, o);
    var sep, tail := Separator(|items| > 1, o), PrintItems(items[1..], level, o);
    assert PrintItems(items, level, o) == m + (p + (sep + tail));
    PrintStarts(items[0], level, o);
    LayoutIsSpace(o, level);
    hide Print, PrintItems, Separator, Indent;
    Assoc(m, p + (sep + tail), rest);
    Assoc(p, sep + tail, rest);
    Assoc(sep, tail, rest);
    SkipSpaceOver(m, p + (sep + (tail + rest)));
  }

  lemma FirstMember(members: Items<JSON>, level: nat, o: Layout, rest: bytes)
    requires members != []
    ensures SkipSpace(PrintMembers(members, level, o) + rest)
         == Quote(members[0].name, o.slashes) + (o.Colon() + (Print(members[0].value, level, o)
              + (Separator(|members| > 1, o) + (PrintMembers(members[1..], level, o) + rest))))
  {
    var m, k, p := o.Margin(level), Quote(members[0].name, o.slashes), Print(members[0].value, level, o);
    var c, sep, tail := o.Colon(), Separator(|members| > 1, o), PrintMembers(members[1..], level, o);
    assert PrintMembers(members, level, o) == m + (k + (c + (p + (sep + tail))));
    assert k[0] == QUOTE;
    LayoutIsSpace(o, level);
    hide Print, PrintMembers, Separator, Quote, Indent;
    Assoc(m, k + (c + (p + (sep + tail))), rest);
    Assoc(k, c + (p + (sep + tail)), rest);
    Assoc(c, p + (sep + tail), rest);
    Assoc(p, sep + tail, rest);
    Assoc(sep, tail, rest);
    SkipSpaceOver(m, k + (c + (p + (sep + (tail + rest)))));
  }

  lemma MembersStart(members: Items<JSON>, level: nat, o: Layout, rest: bytes)
    requires members != []
    ensures At(SkipSpace(PrintMembers(members, level, o) + rest)) == QUOTE
  {
    FirstMember(members, level, o, rest);
    hide Print, PrintMembers, Separator, SkipSpace, Escape;
    assert Quote(members[0].name, o.slashes)[0] == QUOTE;
  }

  lemma SeparatorSkips(more: bool, o: Layout, rest: bytes)
    ensures more ==> SkipSpace((Separator(more, o) + rest)[1..]) == SkipSpace(rest)
    ensures more ==> SkipSpace(Separator(more, o) + rest) == Separator(more, o) + rest
    ensures more ==> At(Separator(more, o) + rest) == COMMA
    ensures !more ==> SkipSpace(Separator(more, o) + rest) == SkipSpace(rest)
    ensures more || EndsNumber(rest) ==> EndsNumber(Separator(more, o) + rest)
  {
    LayoutIsSpace(o, 0);
    SkipSpaceOver(o.Line(), rest);
    if more {
      assert (Separator(more, o) + rest)[1..] == o.Line() + rest;
    } else {
      assert Separator(more, o) == o.Line();
    }
  }

  /** Text that closes a container: spaces, the bracket, and more. */
  ghost predicate Closes(rest: bytes, bracket: byte) {
    At(SkipSpace(rest)) == bracket
  }

  lemma ClosesEndsNumber(rest: bytes, bracket: byte)
    requires Closes(rest, bracket) && bracket in {RBRACKET, RBRACE}
    ensures EndsNumber(rest)
  {
  }

  lemma {:induction false} PrintParses(v: JSON, level: nat, o: Layout, rest: bytes, n: nat)
    requires WellFormed(v)
    requires v.Number? ==> EndsNumber(rest)
    ensures ParseValue(Print(v, level, o) + rest, n) == if n + Height(v) <= MAX_NESTING then Ok(v, rest) else Fail
    decreases v, 1
  {
    if n <= MAX_NESTING {
      match v
      case Array(items) => ArrayParses(v, level, o, rest, n);
      case Object(members) =>
        if members == [] {
          EmptyObjectParses(v, level, o, rest, n);
        } else {
          ObjectParses(members, level, o, rest, n);
        }
      case _ => ScalarParses(v, level, o, rest, n);
    }
  }

  /** A container's text, once its bracket and line break are passed. */
  lemma BodyStarts(open: byte, close: byte, o: Layout, level: nat, body: bytes, rest: bytes)
    ensures ([open] + (o.Line() + (body + (o.Margin(level) + [close])))) + rest
         == [open] + (o.Line() + (body + (o.Margin(level) + ([close] + rest))))
    ensures SkipSpace(o.Line() + (body + (o.Margin(level) + ([close] + rest))))
        == SkipSpace(body + (o.Margin(level) + ([close] + rest)))
    ensures !IsSpace(close) ==> SkipSpace(o.Margin(level) + ([close] + rest)) == [close] + rest
  {
    var line, margin := o.Line(), o.Margin(level);
    LayoutIsSpace(o, level);
    hide Indent;
    Assoc([open], line + (body + (margin + [close])), rest);
    Assoc(line, body + (margin + [close]), rest);
    Assoc(body, margin + [close], rest);
    Assoc(margin, [close], rest);
    SkipSpaceOver(line, body + (margin + ([close] + rest)));
    SkipSpaceOver(margin, [close] + rest);
  }

  lemma EnterArray(inner: bytes, n: nat)
    requires n <= MAX_NESTING
    ensures ParseValue([LBRACKET] + inner, n) ==
            var t := SkipSpace(inner);
            if At(t) == RBRACKET then Ok(Array([]), t[1..])
            else
              var items := ParseItems(t, n + 1);
              if items.Fail? then Fail
              else
                var u := SkipSpace(items.rest);
                if At(u) == RBRACKET then Ok(Array(items.value), u[1..]) else Fail
  {
    var s := [LBRACKET] + inner;
    assert SkipSpace(s) == s && s[1..] == inner;
  }

  lemma EnterObject(inner: bytes, n: nat)
    requires n <= MAX_NESTING
    ensures ParseValue([LBRACE] + inner, n) ==
            var t := SkipSpace(inner);
            if At(t) == RBRACE then Ok(Object([]), t[1..])
            else
              var members := ParseMembers(t, n + 1);
              if members.Fail? then Fail
              else
                var u := SkipSpace(members.rest);
                if At(u) == RBRACE then Ok(Object(members.value), u[1..]) else Fail
  {
    var s := [LBRACE] + inner;
    assert SkipSpace(s) == s && s[1..] == inner;
  }

  lemma {:induction false} ArrayParses(v: JSON, level: nat, o: Layout, rest: bytes, n: nat)
    requires v.Array? && WellFormed(v) && n <= MAX_NESTING
    ensures ParseValue(Print(v, level, o) + rest, n) == if n + Height(v) <= MAX_NESTING then Ok(v, rest) else Fail
    decreases v, 0
  {
    var items := v.items;
    ArrayUnfolds(v, level, o);
    ClosingBracket(RBRACKET, rest);
    hide Print, PrintItems, ParseValue, ParseItems, SkipSpace, Height, HeightItems, Indent;
    if items == [] {
      EnterArray([RBRACKET] + rest, n);
      Assoc([LBRACKET], [RBRACKET], rest);
    } else {
      var close, body := o.Margin(level) + ([RBRACKET] + rest), PrintItems(items, level + 1, o);
      FirstItem(items, level + 1, o, close);
      PrintStarts(items[0], level + 1, o);
      BodyStarts(LBRACKET, RBRACKET, o, level, body, rest);
      ItemsParse(items, level + 1, o, close, n + 1);
      EnterArray(o.Line() + (body + close), n);
    }
  }

  lemma EmptyObjectParses(v: JSON, level: nat, o: Layout, rest: bytes, n: nat)
    requires v == Object([]) && n <= MAX_NESTING
    ensures ParseValue(Print(v, level, o) + rest, n) == Ok(v, rest)
  {
    ClosingBracket(RBRACE, rest);
    EnterObject([RBRACE] + rest, n);
    Assoc([LBRACE], [RBRACE], rest);
  }

  lemma {:induction false} ArrayUnfolds(v: JSON, level: nat, o: Layout)
    requires v.Array?
    ensures Height(v) == HeightItems(v.items)
    ensures v.items == [] ==> Height(v) == 0 && Print(v, level, o) == [LBRACKET] + [RBRACKET]
    ensures v.items != [] ==>
      Print(v, level, o)
      == [LBRACKET] + (o.Line() + (PrintItems(v.items, level + 1, o) + (o.Margin(level) + [RBRACKET])))
  {
  }

  lemma {:induction false} ObjectUnfolds(v: JSON, level: nat, o: Layout)
    requires v.Object?
    ensures Height(v) == HeightMembers(v.members)
    ensures v.members == [] ==> Height(v) == 0 && Print(v, level, o) == [LBRACE] + [RBRACE]
    ensures v.members != [] ==>
      Print(v, level, o)
      == [LBRACE] + (o.Line() + (PrintMembers(v.members, level + 1, o) + (o.Margin(level) + [RBRACE])))
  {
  }

  lemma ClosingBracket(bracket: byte, rest: bytes)
    requires !IsSpace(bracket)
    ensures SkipSpace([bracket] + rest) == [bracket] + rest && ([bracket] + rest)[1..] == rest
  {
  }

  /** One turn of the element loop. */
  lemma NextItem(s: bytes, n: nat)
    requires At(s) != 0
    ensures ParseItems(s, n) ==
            var v := ParseValue(s, n);
            if v.Fail? then Fail
            else
              var t := SkipSpace(v.rest);
              if At(t) != COMMA then Ok([v.value], t)
              else if At(SkipSpace(t[1..])) == RBRACKET then Ok([v.value], SkipSpace(t[1..]))
              else
                var more := ParseItems(SkipSpace(t[1..]), n);
                if more.Fail? then Fail else Ok([v.value] + more.value, more.rest)
  {
  }

  lemma {:induction false} ItemsUnfold(items: seq<JSON>, level: nat, o: Layout)
    ensures PrintItems([], level, o) == [] && HeightItems([]) == 0
    ensures items != [] ==> HeightItems(items) == Max(1 + Height(items[0]), HeightItems(items[1..]))
  {
  }

  lemma Uncons<T>(s: seq<T>)
    requires s != []
    ensures s == [s[0]] + s[1..] && (s[1..] == [] ==> s == [s[0]])
  {
  }

  lemma {:induction false} ItemsParse(items: seq<JSON>, level: nat, o: Layout, rest: bytes, n: nat)
    requires items != [] && (forall x :: x in items ==> WellFormed(x)) && Closes(rest, RBRACKET)
    ensures ParseItems(SkipSpace(PrintItems(items, level, o) + rest), n)
         == if n + HeightItems(items) <= MAX_NESTING + 1 then Ok(items, SkipSpace(rest)) else Fail
    decreases items, 0
  {
    hide Print, PrintItems, Separator, ParseValue, ParseItems, SkipSpace, Height, HeightItems, EndsNumber;
    var x, tail := items[0], items[1..];
    var after := PrintItems(tail, level, o) + rest;
    var q := Separator(|items| > 1, o) + after;
    var s := Print(x, level, o) + q;
    ItemsUnfold(items, level, o);
    Uncons(items);
    assert tail == [] ==> after == rest;
    FirstItem(items, level, o, rest);
    PrintStarts(x, level, o);
    ClosesEndsNumber(rest, RBRACKET);
    SeparatorSkips(|items| > 1, o, after);
    PrintParses(x, level, o, q, n);
    assert At(s) == Print(x, level, o)[0];
    NextItem(s, n);
    if tail != [] {
      FirstItem(tail, level, o, rest);
      PrintStarts(tail[0], level, o);
      ItemsParse(tail, level, o, rest, n);
      assert At(SkipSpace(after)) == Print(tail[0], level, o)[0];
    }
  }

  /** A nonempty object's text, entered up to its first member. */
  lemma EnterMembers(body: bytes, level: nat, o: Layout, rest: bytes, n: nat)
    requires n <= MAX_NESTING
    requires At(SkipSpace(body + (o.Margin(level) + ([RBRACE] + rest)))) == QUOTE
    ensures Closes(o.Margin(level) + ([RBRACE] + rest), RBRACE)
    ensures ParseValue(([LBRACE] + (o.Line() + (body + (o.Margin(level) + [RBRACE])))) + rest, n) ==
            var members := ParseMembers(SkipSpace(body + (o.Margin(level) + ([RBRACE] + rest))), n + 1);
            if members.Fail? then Fail
            else if members.rest == SkipSpace(o.Margin(level) + ([RBRACE] + rest)) then Ok(Object(members.value), rest)
            else ParseValue([LBRACE] + (o.Line() + (body + (o.Margin(level) + ([RBRACE] + rest)))), n)
  {
    var close := o.Margin(level) + ([RBRACE] + rest);
    BodyStarts(LBRACE, RBRACE, o, level, body, rest);
    ClosingBracket(RBRACE, rest);
    EnterObject(o.Line() + (body + close), n);
    hide ParseValue, ParseMembers, SkipSpace, Indent;
  }

  lemma {:induction false} ObjectParses(members: Items<JSON>, level: nat, o: Layout, rest: bytes, n: nat)
    requires members != [] && (forall m :: m in members ==> WellFormed(m.value)) && n <= MAX_NESTING
    ensures ParseValue(Print(Object(members), level, o) + rest, n)
         == if n + HeightMembers(members) <= MAX_NESTING then Ok(Object(members), rest) else Fail
    decreases members, 1
  {
    hide WellFormed, Print, PrintMembers, ParseValue, ParseMembers, SkipSpace, Height, HeightMembers, Indent;
    var close, body := o.Margin(level) + ([RBRACE] + rest), PrintMembers(members, level + 1, o);
    ObjectUnfolds(Object(members), level, o);
    MembersStart(members, level + 1, o, close);
    EnterMembers(body, level, o, rest, n);
    MembersParse(members, level + 1, o, close, n + 1);
  }

  lemma {:induction false} MemberParses(m: Item<JSON>, level: nat, o: Layout, q: bytes, n: nat)
    requires WellFormed(m.value) && EndsNumber(q)
    ensures ParseMember(Quote(m.name, o.slashes) + (o.Colon() + (Print(m.value, level, o) + q)), n)
         == if n + Height(m.value) <= MAX_NESTING then Ok(m, q) else Fail
    decreases m, 1
  {
    hide Print, ParseValue, Escape, GetQuoted, Height, EndsNumber;
    var p := Print(m.value, level, o) + q;
    var k := Quote(m.name, o.slashes) + (o.Colon() + p);
    assert k == [QUOTE] + Escape(m.name, o.slashes) + [QUOTE] + (o.Colon() + p);
    QuotedRoundTrip(m.name, o.slashes, o.Colon() + p);
    PrintParses(m.value, level, o, q, n);
    if o.pretty {
      assert (o.Colon() + p)[1..] == [SPACE] + p;
      SpaceBefore(p, n);
    } else {
      assert (o.Colon() + p)[1..] == p;
    }
  }

  lemma SpaceBefore(p: bytes, n: nat)
    ensures ParseValue([SPACE] + p, n) == ParseValue(p, n)
  {
    SkipSpaceOver([SPACE], p);
  }

  /** One turn of the member loop. */
  lemma NextMember(s: bytes, n: nat)
    requires At(s) != 0
    ensures ParseMembers(s, n) ==
            var m := ParseMember(s, n);
            if m.Fail? then Fail
            else
              var t := SkipSpace(m.rest);
              if At(t) != COMMA then Ok([m.value], t)
              else if At(SkipSpace(t[1..])) == RBRACE then Ok([m.value], SkipSpace(t[1..]))
              else
                var more := ParseMembers(SkipSpace(t[1..]), n);
                if more.Fail? then Fail else Ok([m.value] + more.value, more.rest)
  {
  }

  lemma {:induction false} MembersUnfold(members: Items<JSON>, level: nat, o: Layout)
    ensures PrintMembers([], level, o) == [] && HeightMembers([]) == 0
    ensures members != [] ==> HeightMembers(members) == Max(1 + Height(members[0].value), HeightMembers(members[1..]))
  {
  }

  lemma {:induction false} MembersParse(members: Items<JSON>, level: nat, o: Layout, rest: bytes, n: nat)
    requires members != [] && (forall m :: m in members ==> WellFormed(m.value)) && Closes(rest, RBRACE)
    ensures ParseMembers(SkipSpace(PrintMembers(members, level, o) + rest), n)
         == if n + HeightMembers(members) <= MAX_NESTING + 1 then Ok(members, SkipSpace(rest)) else Fail
    decreases members, 0
  {
    hide Print, PrintMembers, Separator, ParseMember, ParseMembers, SkipSpace, Height, HeightMembers;
    hide EndsNumber, Escape;
    var m, tail := members[0], members[1..];
    var after := PrintMembers(tail, level, o) + rest;
    var q := Separator(|members| > 1, o) + after;
    var s := Quote(m.name, o.slashes) + (o.Colon() + (Print(m.value, level, o) + q));
    MembersUnfold(members, level, o);
    Uncons(members);
    assert tail == [] ==> after == rest;
    FirstMember(members, level, o, rest);
    ClosesEndsNumber(rest, RBRACE);
    SeparatorSkips(|members| > 1, o, after);
    MemberParses(m, level, o, q, n);
    assert At(s) == Quote(m.name, o.slashes)[0];
    NextMember(s, n);
    if tail != [] {
      FirstMember(tail, level, o, rest);
      MembersParse(tail, level, o, rest, n);
      assert At(SkipSpace(after)) == Quote(tail[0].name, o.slashes)[0];
    }
  }

  /** Reading either print of any tree gives the tree back and uses up the text,
      exactly when it nests at most 2048 deep. */
  lemma PrintedTextParses(v: JSON, o: Layout)
    requires WellFormed(v)
    ensures ParseText(Print(v, 0, o)) == if Height(v) <= 2048 then Ok(v, []) else Fail
  {
    var p := Print(v, 0, o);
    PrintStarts(v, 0, o);
    PrintParses(v, 0, o, [], 0);
    assert p + [] == p;
  }

  // Accepted texts

  /** What a number read without a digit leaves behind: the cursor stays on its minus sign. */
  ghost predicate Stuck(v: JSON, rest: bytes) {
    v == Number([]) && rest != [] && rest[0] == MINUS
  }

  ghost predicate Sound(v: JSON, n: nat) {
    WellFormed(v) && n + Height(v) <= MAX_NESTING
  }

  /** Every value that is read prints to a text that reads back, but for a lone minus sign,
      behind which nothing is read. */
  lemma {:induction false} ParsedIsSound(s: bytes, n: nat)
    requires ParseValue(s, n).Ok?
    ensures Sound(ParseValue(s, n).value, n) || Stuck(ParseValue(s, n).value, ParseValue(s, n).rest)
    decreases |s|, 2
  {
    var t := SkipSpace(s);
    hide SkipSpace;
    if At(t) == LBRACKET {
      ParsedArrayIsSound(t, n + 1);
    } else if At(t) == LBRACE {
      ParsedObjectIsSound(t, n + 1);
    } else if At(t) == MINUS || IsDigit(At(t)) {
      ParsedNumber(t);
    }
  }

  lemma ParsedNumber(t: bytes)
    requires t != [] && (t[0] == MINUS || IsDigit(t[0])) && ParseNumber(t).Ok?
    ensures WellFormed(ParseNumber(t).value) || Stuck(ParseNumber(t).value, ParseNumber(t).rest)
  {
    StoredIsReadable(t);
  }

  lemma {:induction false} ParsedArrayIsSound(s: bytes, n: nat)
    requires At(s) == LBRACKET && ParseArray(s, n).Ok? && 0 < n <= MAX_NESTING + 1
    ensures Sound(ParseArray(s, n).value, n - 1)
    decreases |s|, 1
  {
    var t := SkipSpace(s[1..]);
    if At(t) != RBRACKET {
      ParsedItemsAreSound(t, n);
    }
  }

  ghost predicate ItemsSound(items: seq<JSON>, n: nat) {
    (forall v :: v in items ==> WellFormed(v)) && n + HeightItems(items) <= MAX_NESTING + 1
  }

  lemma SoundItem(v: JSON, more: seq<JSON>, n: nat)
    requires Sound(v, n) && ItemsSound(more, n)
    ensures ItemsSound([v] + more, n)
  {
    hide WellFormed;
    var all := [v] + more;
    assert all[0] == v && all[1..] == more;
  }

  lemma NoItemsSound(n: nat)
    requires n <= MAX_NESTING + 1
    ensures ItemsSound([], n) && MembersSound([], n)
  {
  }

  lemma {:induction false} ParsedItemsAreSound(s: bytes, n: nat)
    requires n <= MAX_NESTING + 1
    requires ParseItems(s, n).Ok? && At(SkipSpace(ParseItems(s, n).rest)) == RBRACKET
    ensures ItemsSound(ParseItems(s, n).value, n)
    decreases |s|, 3
  {
    NoItemsSound(n);
    if At(s) != 0 {
      ParsedIsSound(s, n);
      var v := ParseValue(s, n);
      var t := SkipSpace(v.rest);
      var u := if At(t) == COMMA then SkipSpace(t[1..]) else [];
      hide ParseValue, ItemsSound, Sound;
      assert Sound(v.value, n);
      SoundItem(v.value, [], n);
      assert [v.value] + [] == [v.value];
      if At(t) == COMMA && At(u) != RBRACKET {
        ParsedItemsAreSound(u, n);
        SoundItem(v.value, ParseItems(u, n).value, n);
      }
    }
  }

  lemma {:induction false} ParsedObjectIsSound(s: bytes, n: nat)
    requires At(s) == LBRACE && ParseObject(s, n).Ok? && 0 < n <= MAX_NESTING + 1
    ensures Sound(ParseObject(s, n).value, n - 1)
    decreases |s|, 1
  {
    var t := SkipSpace(s[1..]);
    if At(t) != RBRACE {
      ParsedMembersAreSound(t, n);
    }
  }

  ghost predicate MembersSound(members: Items<JSON>, n: nat) {
    (forall m :: m in members ==> WellFormed(m.value)) && n + HeightMembers(members) <= MAX_NESTING + 1
  }

  lemma SoundMember(m: Item<JSON>, more: Items<JSON>, n: nat)
    requires Sound(m.value, n) && MembersSound(more, n)
    ensures MembersSound([m] + more, n)
  {
    hide WellFormed;
    var all := [m] + more;
    assert all[0] == m && all[1..] == more;
  }

  lemma {:induction false} ParsedMembersAreSound(s: bytes, n: nat)
    requires n <= MAX_NESTING + 1
    requires ParseMembers(s, n).Ok? && At(SkipSpace(ParseMembers(s, n).rest)) == RBRACE
    ensures MembersSound(ParseMembers(s, n).value, n)
    decreases |s|, 3
  {
    NoItemsSound(n);
    if At(s) != 0 {
      ParsedMemberIsSound(s, n);
      var m := ParseMember(s, n);
      var t := SkipSpace(m.rest);
      var u := if At(t) == COMMA then SkipSpace(t[1..]) else [];
      hide ParseMember, MembersSound, Sound;
      assert Sound(m.value.value, n);
      SoundMember(m.value, [], n);
      assert [m.value] + [] == [m.value];
      if At(t) == COMMA && At(u) != RBRACE {
        ParsedMembersAreSound(u, n);
        SoundMember(m.value, ParseMembers(u, n).value, n);
      }
    }
  }

  lemma {:induction false} ParsedMemberIsSound(s: bytes, n: nat)
    requires ParseMember(s, n).Ok?
    ensures Sound(ParseMember(s, n).value.value, n) || Stuck(ParseMember(s, n).value.value, ParseMember(s, n).rest)
    decreases |s|, 2
  {
    var key := GetQuoted(s);
    var t := SkipSpace(key.rest);
    ParsedIsSound(t[1..], n);
  }

  lemma NothingPrinted(o: Layout)
    ensures Print(Number([]), 0, o) == [] && ParseText([]) == Fail
  {
    PlainUnescaped([], o.slashes);
  }

  /** The three bytes of a byte order mark do not count, once, at the front. */
  lemma MarkIsSkipped(s: bytes)
    ensures ParseText([0xEF, 0xBB, 0xBF] + s) == ParseValue(s, 0)
    ensures |s| < 3 || s[0] != 0xEF || s[1] != 0xBB || s[2] != 0xBF ==> ParseText(s) == ParseValue(s, 0)
  {
    hide ParseValue;
    assert ([0xEF, 0xBB, 0xBF] + s)[3..] == s;
  }

  /** A text is read as nothing but a minus sign exactly when, behind mark and white space, it starts with one
      that starts no number. */
  lemma LoneMinusIff(text: bytes)
    ensures var t := SkipSpace(WithoutMark(text));
            (ParseText(text).Ok? && ParseText(text).value == Number([]) <==> LoneMinus(t))
            && (LoneMinus(t) ==> ParseText(text) == Ok(Number([]), t))
  {
    var t := SkipSpace(WithoutMark(text));
    DispatchBehindSpace(WithoutMark(text), 0);
    if t != [] && (t[0] == MINUS || IsDigit(t[0])) {
      NumberDispatch(t, 0);
      NothingTakenIff(t);
      NothingAccepted();
      hide Accepted, StrtodLen, ParseValue, LoneMinus;
      assert t[..0] == [] && t[0..] == t;
    } else {
      NoNumber(t, 0);
    }
  }

  lemma DispatchBehindSpace(s: bytes, n: nat)
    ensures ParseValue(s, n) == ParseValue(SkipSpace(s), n)
  {
    SkipTwice(s);
    hide ParseArray, ParseObject, ParseString, ParseWord, ParseNumber, SkipSpace;
  }

  lemma SkipTwice(s: bytes)
    ensures SkipSpace(SkipSpace(s)) == SkipSpace(s)
  {
  }

  lemma NoNumber(t: bytes, n: nat)
    requires SkipSpace(t) == t && (t == [] || !(t[0] == MINUS || IsDigit(t[0])))
    ensures ParseValue(t, n).Ok? ==> !ParseValue(t, n).value.Number?
  {
  }

  /** Printing what was read from any accepted text and reading that gives the same tree,
      exactly unless the text starts with a minus sign that starts no number. */
  lemma ParsedTextSurvives(text: bytes, o: Layout)
    requires ParseText(text).Ok?
    ensures var v := ParseText(text).value;
            ParseText(Print(v, 0, o)) == Ok(v, []) <==> !LoneMinus(SkipSpace(WithoutMark(text)))
  {
    ParsedIsSound(WithoutMark(text), 0);
    LoneMinusIff(text);
    var v := ParseText(text).value;
    hide ParseValue, WellFormed, Print, Height, LoneMinus, SkipSpace;
    if v == Number([]) {
      NothingPrinted(o);
    } else {
      PrintedTextParses(v, o);
    }
  }

  lemma CommaBeforeBracket()
    ensures ParseText([LBRACKET] + NULL + [COMMA, RBRACKET]) == Ok(Array([Null]), [])
  {
    var s := [LBRACKET] + NULL + [COMMA, RBRACKET];
    assert s[1..] == NULL + [COMMA, RBRACKET] && s == [LBRACKET] + s[1..] && s[0] == LBRACKET;
    EnterArray(s[1..], 0);
    NullParses([COMMA, RBRACKET], 1);
    assert SkipSpace(s[1..]) == s[1..] && SkipSpace([RBRACKET]) == [RBRACKET] && [RBRACKET][1..] == [];
    assert ParseItems(s[1..], 1) == Ok([Null], [RBRACKET]);
  }

  lemma MinusParses(t: bytes, n: nat)
    requires n <= MAX_NESTING && LoneMinus(t)
    ensures ParseValue(t, n) == Ok(Number([]), t)
  {
    NothingAccepted();
    NothingTakenIff(t);
    NumberDispatch(t, n);
    hide Accepted, StrtodLen, ParseValue;
    assert t[..0] == [] && t[0..] == t;
  }

  /** Inside an array a minus sign without a number is refused. */
  lemma LoneMinusInArray()
    ensures ParseText([LBRACKET, MINUS, RBRACKET]) == Fail
  {
    var s := [LBRACKET, MINUS, RBRACKET];
    assert s[1..] == [MINUS] + [RBRACKET] && s == [LBRACKET] + s[1..];
    EnterArray(s[1..], 0);
    MinusInArray();
  }

  lemma MinusInArray()
    ensures var t := [MINUS] + [RBRACKET]; SkipSpace(t) == t && ParseItems(t, 1) == Ok([Number([])], t)
  {
    MinusParses([MINUS] + [RBRACKET], 1);
    hide ParseValue;
    assert ([MINUS] + [RBRACKET])[0] == MINUS;
  }

  /** Beyond RFC 8259: a comma before the closing bracket, a lone minus sign, and anything behind the value. */
  lemma LooseTextsParse(more: bytes)
    ensures ParseText([LBRACKET] + NULL + [COMMA, RBRACKET]) == Ok(Array([Null]), [])
    ensures ParseText([MINUS] + more) == Ok(Number([]), [MINUS] + more) <==> LoneMinus([MINUS] + more)
    ensures ParseText(NULL + more) == Ok(Null, more)
  {
    CommaBeforeBracket();
    LoneMinusIff([MINUS] + more);
    assert SkipSpace([MINUS] + more) == [MINUS] + more;
    NullParses(more, 0);
    hide ParseValue, LoneMinus;
  }

  /** The empty lexeme counts as zero. */
  lemma NothingAccepted()
    ensures Accepted([])
  {
    var none: bytes := [];
    ZeroDoesNotOverflow(none) by {
      assert none[0..] == none && none[..0] == none && none + none == none;
      assert DigitsValue(none) == 0;
    }
  }

  lemma {:induction false} PowGrows(k: nat, m: nat)
    requires m > 0
    ensures Pow2(k + m) > Pow2(k)
    decreases m
  {
    if m > 1 {
      PowGrows(k, m - 1);
    }
  }

  lemma NullParses(more: bytes, n: nat)
    requires n <= MAX_NESTING
    ensures ParseValue(NULL + more, n) == Ok(Null, more)
  {
    assert (NULL + more)[|NULL|..] == more;
  }

  lemma {:induction false} ZerosAreZero(s: bytes)
    requires forall i :: 0 <= i < |s| ==> s[i] == 0x30
    ensures DigitsValue(s) == 0
  {
    if s != [] {
      ZerosAreZero(s[..|s| - 1]);
    }
  }

  lemma {:induction false} ZerosAreDigits(s: bytes)
    requires forall i :: 0 <= i < |s| ==> s[i] == 0x30
    ensures Digits(s) == |s|
  {
    if s != [] {
      ZerosAreDigits(s[1..]);
    }
  }

  function LongZero(k: nat): bytes {
    [0x30, DOT] + seq(k, _ => 0x30)
  }

  /** The reader stores lexemes of any length, which the buffer of the size pass need not hold. */
  lemma LongLexemeIsRead(k: nat)
    requires k > 0
    ensures ParseText(LongZero(k)) == Ok(Number(LongZero(k)), []) && (FitsNumBuf(Number(LongZero(k))) <==> k <= 62)
  {
    var l := LongZero(k);
    LongZeroIsReadable(k);
    NumberParses(l, []);
    NumberDispatch(l, 0);
    hide Readable, ParseNumber, ParseValue;
    assert l + [] == l && l[0] == 0x30;
  }

  lemma LongZeroIsReadable(k: nat)
    requires k > 0
    ensures Readable(LongZero(k))
  {
    var zeros: bytes := seq(k, _ => 0x30);
    var l := LongZero(k);
    assert l[1..] == [DOT] + zeros && l[1..][1..] == zeros && l[0..] == l;
    ZerosAreDigits(zeros);
    LongZeroLengths(l, zeros);
    LongZeroValue(l, zeros);
    ZeroDoesNotOverflow(l);
    hide Digits, FractionLen, ExponentLen, DigitsValue, StrtodLen, NumberValue, Overflows, Readable;
    assert l[1 + (1 + k)..] == [];
    assert l[0] == 0x30 && l[1] == DOT && IsUnsigned(l);
    assert forall i :: 2 <= i < |l| ==> l[i] == 0x30;
    assert IsDecimal(l);
    JsonNumberIsReadable(l);
  }

  lemma LongZeroLengths(l: bytes, zeros: bytes)
    requires |l| == 2 + |zeros| && l[0] == 0x30 && l[1] == DOT && l[1..][1..] == zeros && Digits(zeros) == |zeros|
    ensures Digits(l) == 1 && FractionLen(l[1..]) == 1 + |zeros| && ExponentLen([]) == 0
  {
    assert l[1..][0] == DOT;
  }

  lemma LongZeroValue(l: bytes, zeros: bytes)
    requires l == [0x30, DOT] + zeros && (forall i :: 0 <= i < |zeros| ==> zeros[i] == 0x30)
    requires Digits(l) == 1 && FractionLen(l[1..]) == 1 + |zeros| && ExponentLen([]) == 0
    ensures NumberValue(l) == 0.0
  {
    ZerosAreZero([0x30] + zeros);
    hide Digits, FractionLen, ExponentLen, DigitsValue, Pow10;
    var k := |zeros|;
    assert l[0..] == l && l[..1] == [0x30] && l[2..2 + k] == zeros && l[1 + (1 + k)..] == [] && l[0] == 0x30;
    assert DigitsValue(l[..1] + l[2..2 + k]) == 0;
    TimesZero(Pow10(0 - k));
  }

  lemma TimesZero(x: real)
    ensures 0 as real * x == 0.0
  {
  }

  lemma ZeroDoesNotOverflow(l: bytes)
    requires NumberValue(l) == 0.0
    ensures !Overflows(l)
  {
    PowGrows(970, 54);
    hide NumberValue, Pow2;
  }
}
