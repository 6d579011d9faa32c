/** What the printer writes is JSON text: of RFC 8259 exactly when every number in the tree is. */
module JsonPrinted {
  import opened Bytes
  import opened ItemList
  import opened JsonString
  import opened JsonNumber
  import opened JsonText
  import opened JsonRoundTrip
  import opened JsonGrammar

  // Strings

  lemma EscapeIsChar(c: byte, slashes: bool)
    ensures CharText(EscapeByte(c, slashes), [c])
  {
    var e := EscapeByte(c, slashes);
    if |e| == 6 {
      assert HexValue(e[2..][0]) == 0 && HexValue(e[2..][1]) == 0;
      assert HexValue(e[2..][2]) == c / 16 && HexValue(e[2..][3]) == c % 16;
      assert Hex4(e[2..]) == c;
    }
  }

  lemma {:induction false} EscapeIsBody(s: bytes, slashes: bool)
    ensures BodyText(Escape(s, slashes), s)
  {
    if s != [] {
      EscapeIsChar(s[0], slashes);
      EscapeIsBody(s[1..], slashes);
      hide CharText, EscapeByte;
      var e, tail := EscapeByte(s[0], slashes), Escape(s[1..], slashes);
      var b := Escape(s, slashes);
      assert b[..|e|] == e && b[|e|..] == tail;
      assert s[..1] == [s[0]];
      assert e != [] by {
        EscapeSomething(s[0], slashes);
      }
    }
  }

  lemma EscapeSomething(c: byte, slashes: bool)
    ensures EscapeByte(c, slashes) != []
  {
  }

  lemma QuoteIsText(s: bytes, slashes: bool)
    ensures QuotedText(Quote(s, slashes), s)
  {
    EscapeIsBody(s, slashes);
    hide BodyText, Escape;
    var q := Quote(s, slashes);
    assert q[1..|q| - 1] == Escape(s, slashes);
  }

  // Trees

  /** A pretty print has white space. */
  predicate Fits(o: Layout, g: Grammar) {
    o.pretty ==> !g.Tight?
  }

  lemma LayoutIsBlank(o: Layout, level: nat, g: Grammar)
    requires Fits(o, g)
    ensures Blank(o.Line(), g) && Blank(o.Margin(level), g)
  {
    if o.pretty {
      IndentIsBlank(level, g);
    }
  }

  lemma {:induction false} IndentIsBlank(level: nat, g: Grammar)
    requires !g.Tight?
    ensures Blank(Indent(level), g)
  {
    if level > 0 {
      IndentIsBlank(level - 1, g);
    }
  }

  lemma NumberIsText(l: bytes, g: Grammar, slashes: bool)
    requires g.NumberText(l)
    ensures Escape(l, slashes) == l
  {
    if g.Standard? {
      NumberIsNumberBytes(l);
      PlainUnescaped(l, slashes);
    } else {
      NumberPrints(l, slashes);
    }
  }

  lemma {:induction false} PrintIsText(v: JSON, level: nat, o: Layout, g: Grammar)
    requires NumbersSpelled(v, g) && Fits(o, g)
    ensures ValueText(Print(v, level, o), v, g)
    decreases v, 1
  {
    match v
    case Number(l) => NumberIsText(l, g, o.slashes);
    case Str(chars) => QuoteIsText(chars, o.slashes);
    case Array(items) =>
      ArrayUnfolds(v, level, o);
      ArrayIsText(items, level, o, g);
    case Object(members) =>
      ObjectUnfolds(v, level, o);
      ObjectIsText(members, level, o, g);
    case _ =>
  }

  /** A bracket, the line break, what is printed inside, the margin and the closing bracket. */
  lemma Enclosed(open: byte, line: bytes, body: bytes, margin: bytes, close: byte)
    ensures [open] + (line + (body + (margin + [close]))) == [open] + ((line + (body + margin)) + ([close] + []))
  {
    Assoc(line, body + margin, [close]);
    Assoc(body, margin, [close]);
  }

  lemma {:induction false} ArrayIsText(items: seq<JSON>, level: nat, o: Layout, g: Grammar)
    requires Fits(o, g) && forall x :: x in items ==> NumbersSpelled(x, g)
    ensures ValueText(Print(Array(items), level, o), Array(items), g)
    decreases items, 1
  {
    var v := Array(items);
    ArrayUnfolds(v, level, o);
    hide Print, PrintItems, ValueText, ElementsText, NumbersSpelled, Indent, Blank;
    if items == [] {
      NothingIsBlank(g);
      EmptyText([], g);
      var u := BracketText([], v, [], g);
      assert u + [] == u && [] + ([RBRACKET] + []) == [RBRACKET];
    } else {
      var body := PrintItems(items, level + 1, o);
      LayoutIsBlank(o, level, g);
      ItemsAreText(o.Line(), items, level + 1, o, o.Margin(level), g);
      var u := BracketText(o.Line() + (body + o.Margin(level)), v, [], g);
      Enclosed(LBRACKET, o.Line(), body, o.Margin(level), RBRACKET);
      assert u + [] == u;
    }
  }

  /** One printed entry of a list, with what stands before and behind the list. */
  lemma Regroup(y: bytes, m: bytes, p: bytes, sep: bytes, tail: bytes, z: bytes)
    ensures y + ((m + (p + (sep + tail))) + z) == (y + m) + (p + (sep + (tail + z)))
  {
    Assoc(m, p + (sep + tail), z);
    Assoc(p, sep + tail, z);
    Assoc(sep, tail, z);
    Assoc(y, m, p + (sep + (tail + z)));
  }

  /** A separator with more to come is a comma and white space, else white space. */
  lemma SeparatorParts(more: bool, o: Layout, rest: bytes)
    ensures Separator(more, o) + rest == if more then [COMMA] + (o.Line() + rest) else o.Line() + rest
  {
    if more {
      Assoc([COMMA], o.Line(), rest);
    } else {
      assert Separator(more, o) == o.Line();
    }
  }

  lemma {:induction false} ItemsAreText(y: bytes, items: seq<JSON>, level: nat, o: Layout, z: bytes, g: Grammar)
    requires items != [] && (forall x :: x in items ==> NumbersSpelled(x, g)) && Blank(y, g) && Blank(z, g)
        && Fits(o, g)
    ensures ElementsText(y + (PrintItems(items, level, o) + z), items, g)
    decreases items, 0
  {
    var m, p, sep := o.Margin(level), Print(items[0], level, o), Separator(|items| > 1, o);
    var x, rest := items[0], items[1..];
    var tail := PrintItems(rest, level, o);
    assert PrintItems(items, level, o) == m + (p + (sep + tail));
    PrintIsText(x, level, o, g);
    hide Print, PrintItems, ValueText, Padded, ElementsText, NumbersSpelled, Indent, Blank, Separator;
    LayoutIsBlank(o, level, g);
    Regroup(y, m, p, sep, tail, z);
    SeparatorParts(|items| > 1, o, tail + z);
    JoinBlank(y, m, g);
    Uncons(items);
    if rest == [] {
      ItemsUnfold(rest, level, o);
      assert tail + z == z;
      JoinBlank(o.Line(), z, g);
      PadText(y + m, p, x, o.Line() + z, g);
      ElementsLast((y + m) + (p + (o.Line() + z)), x, g);
    } else {
      var e := o.Line() + (tail + z);
      ItemsAreText(o.Line(), rest, level, o, z, g);
      NothingIsBlank(g);
      PadText(y + m, p, x, [], g);
      assert p + [] == p;
      ElementsCons((y + m) + p, x, e, rest, g);
      Assoc(y + m, p, [COMMA] + e);
    }
  }

  lemma {:induction false} ObjectIsText(members: Items<JSON>, level: nat, o: Layout, g: Grammar)
    requires Fits(o, g) && forall m :: m in members ==> NumbersSpelled(m.value, g)
    ensures ValueText(Print(Object(members), level, o), Object(members), g)
    decreases members, 1
  {
    var v := Object(members);
    ObjectUnfolds(v, level, o);
    hide Print, PrintMembers, ValueText, MembersText, NumbersSpelled, Indent, Blank;
    if members == [] {
      NothingIsBlank(g);
      EmptyText([], g);
      var u := BracketText([], v, [], g);
      assert u + [] == u && [] + ([RBRACE] + []) == [RBRACE];
    } else {
      var body := PrintMembers(members, level + 1, o);
      LayoutIsBlank(o, level, g);
      MembersAreText(o.Line(), members, level + 1, o, o.Margin(level), g);
      var u := BracketText(o.Line() + (body + o.Margin(level)), v, [], g);
      Enclosed(LBRACE, o.Line(), body, o.Margin(level), RBRACE);
      assert u + [] == u;
    }
  }

  /** A name and its value as they are printed, with white space around them. */
  lemma {:induction false} MemberIsText(w: bytes, m: Item<JSON>, level: nat, o: Layout, x: bytes, g: Grammar)
    requires NumbersSpelled(m.value, g) && Blank(w, g) && Blank(x, g) && Fits(o, g)
    ensures MemberText(w + (Quote(m.name, o.slashes) + (o.Colon() + (Print(m.value, level, o) + x))), m, g)
    decreases m, 1
  {
    var q, p := Quote(m.name, o.slashes), Print(m.value, level, o);
    PrintIsText(m.value, level, o, g);
    QuoteIsText(m.name, o.slashes);
    ColonParts(o, p + x, g);
    hide Print, Quote, ValueText, Padded, NameText, MemberText, QuotedText, NumbersSpelled, Blank;
    var space := if o.pretty then [SPACE] else [];
    NothingIsBlank(g);
    NamePad(w, q, m.name, [], g);
    assert q + [] == q;
    PadText(space, p, m.value, x, g);
    MemberJoin(w + q, space + (p + x), m, g);
    Assoc(w, q, [COLON] + (space + (p + x)));
  }

  lemma ColonParts(o: Layout, rest: bytes, g: Grammar)
    requires Fits(o, g)
    ensures var space := if o.pretty then [SPACE] else [];
            o.Colon() + rest == [COLON] + (space + rest) && Blank(space, g)
  {
    var space: bytes := if o.pretty then [SPACE] else [];
    assert o.Colon() == [COLON] + space;
    Assoc([COLON], space, rest);
  }

  lemma {:induction false} MembersAreText(y: bytes, members: Items<JSON>, level: nat, o: Layout, z: bytes, g: Grammar)
    requires members != [] && (forall m :: m in members ==> NumbersSpelled(m.value, g))
    requires Blank(y, g) && Blank(z, g) && Fits(o, g)
    ensures MembersText(y + (PrintMembers(members, level, o) + z), members, g)
    decreases members, 0
  {
    var m, k, p := o.Margin(level), Quote(members[0].name, o.slashes), Print(members[0].value, level, o);
    var c, sep, rest := o.Colon(), Separator(|members| > 1, o), members[1..];
    var tail := PrintMembers(rest, level, o);
    var x := members[0];
    assert PrintMembers(members, level, o) == m + (k + (c + (p + (sep + tail))));
    hide Print, PrintMembers, Quote, MemberText, MembersText, NumbersSpelled, Indent, Blank, Separator;
    LayoutIsBlank(o, level, g);
    RegroupMember(y, m, k, c, p, sep, tail, z);
    SeparatorParts(|members| > 1, o, tail + z);
    JoinBlank(y, m, g);
    Uncons(members);
    if rest == [] {
      MembersUnfold(rest, level, o);
      assert tail + z == z;
      JoinBlank(o.Line(), z, g);
      MemberIsText(y + m, x, level, o, o.Line() + z, g);
      MembersLast((y + m) + (k + (c + (p + (o.Line() + z)))), x, g);
    } else {
      var e := o.Line() + (tail + z);
      MembersAreText(o.Line(), rest, level, o, z, g);
      NothingIsBlank(g);
      MemberIsText(y + m, x, level, o, [], g);
      assert p + [] == p;
      MembersCons((y + m) + (k + (c + p)), x, e, rest, g);
      BeforeComma(y + m, k, c, p, [COMMA] + e);
    }
  }

  lemma RegroupMember(y: bytes, m: bytes, k: bytes, c: bytes, p: bytes, sep: bytes, tail: bytes, z: bytes)
    ensures y + ((m + (k + (c + (p + (sep + tail))))) + z) == (y + m) + (k + (c + (p + (sep + (tail + z)))))
  {
    Assoc(m, k + (c + (p + (sep + tail))), z);
    Assoc(k, c + (p + (sep + tail)), z);
    Assoc(c, p + (sep + tail), z);
    Assoc(p, sep + tail, z);
    Assoc(sep, tail, z);
    Assoc(y, m, k + (c + (p + (sep + (tail + z)))));
  }

  lemma BeforeComma(w: bytes, k: bytes, c: bytes, p: bytes, e: bytes)
    ensures w + (k + (c + (p + e))) == (w + (k + (c + p))) + e
  {
    Assoc(w, k + (c + p), e);
    Assoc(k, c + p, e);
    Assoc(c, p, e);
  }

  /** Either print of a tree is a text of it in a grammar exactly when its numbers are spelled as in that grammar. */
  lemma PrintIsTextIff(v: JSON, o: Layout, g: Grammar)
    requires Fits(o, g)
    ensures ValueText(Print(v, 0, o), v, g) <==> NumbersSpelled(v, g)
  {
    hide ValueText, NumbersSpelled;
    if NumbersSpelled(v, g) {
      PrintIsText(v, 0, o, g);
    }
    if ValueText(Print(v, 0, o), v, g) {
      TextHasNumbers(Print(v, 0, o), v, g);
    }
  }

  /** What was read from a text of RFC 8259 is printed as a text of RFC 8259 again. */
  lemma StandardStaysStandard(text: bytes, v: JSON, o: Layout)
    requires Padded(text, v, Standard)
    ensures ValueText(Print(v, 0, o), v, Standard)
  {
    hide ValueText, Padded, NumbersSpelled;
    var w, u, x := Unpad(text, v, Standard, []);
    TextHasNumbers(u, v, Standard);
    PrintIsTextIff(v, o, Standard);
  }
}
