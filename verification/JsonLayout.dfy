/** How the printer lays out a tree: no white space at all, or one line for each element and member. */
module JsonLayout {
  import opened Bytes
  import opened ItemList
  import opened JsonString
  import opened JsonNumber
  import opened JsonText
  import opened JsonRoundTrip
  import opened JsonGrammar
  import opened JsonPrinted

  // Compact

  lemma {:induction false} WellFormedIsTight(v: JSON)
    requires WellFormed(v)
    ensures NumbersSpelled(v, Tight)
    decreases v
  {
    match v
    case Array(items) =>
      forall x | x in items ensures NumbersSpelled(x, Tight) {
        WellFormedIsTight(x);
      }
    case Object(members) =>
      forall m | m in members ensures NumbersSpelled(m.value, Tight) {
        WellFormedIsTight(m.value);
      }
    case _ =>
  }

  /** The compact print has no white space outside strings. */
  lemma CompactIsTight(v: JSON, slashes: bool)
    requires WellFormed(v)
    ensures ValueText(Print(v, 0, Layout(false, slashes)), v, Tight)
  {
    WellFormedIsTight(v);
    PrintIsText(v, 0, Layout(false, slashes), Tight);
  }

  // Pretty

  const FOUR_SPACES: bytes := [0x20, 0x20, 0x20, 0x20]

  function Spaces(level: nat): bytes {
    if level == 0 then [] else FOUR_SPACES + Spaces(level - 1)
  }

  /** Every line but the first moved to the right. */
  function Tabbed(s: bytes, level: nat): bytes {
    if s == [] then [] else [s[0]] + ((if s[0] == 0x0A then Spaces(level) else []) + Tabbed(s[1..], level))
  }

  /** The pretty text of a value, its lines starting at the left margin. */
  function Pretty(v: JSON, slashes: bool): bytes
    decreases v, 1
  {
    match v
    case Array(items) =>
      if items == [] then [0x5B, 0x5D] else [0x5B, 0x0A] + (PrettyItems(items, slashes) + [0x5D])
    case Object(members) =>
      if members == [] then [0x7B, 0x7D] else [0x7B, 0x0A] + (PrettyMembers(members, slashes) + [0x7D])
    case _ => Print(v, 0, Layout(false, slashes))
  }

  function LineEnd(more: bool): bytes {
    if more then [0x2C, 0x0A] else [0x0A]
  }

  /** One line or more for each element, four spaces to the right; a comma ends every one but the last. */
  function PrettyItems(items: seq<JSON>, slashes: bool): bytes
    decreases items, 0
  {
    if items == [] then []
    else
      var line := Tabbed(Pretty(items[0], slashes), 1) + (LineEnd(|items| > 1) + PrettyItems(items[1..], slashes));
      FOUR_SPACES + line
  }

  /** The same for members: the name, a colon, a space and the value. */
  function PrettyMembers(members: Items<JSON>, slashes: bool): bytes
    decreases members, 0
  {
    if members == [] then []
    else
      FOUR_SPACES + (Quote(members[0].name, slashes) + ([0x3A, 0x20] + (Tabbed(Pretty(members[0].value, slashes), 1)
      + (LineEnd(|members| > 1) + PrettyMembers(members[1..], slashes)))))
  }

  lemma {:induction false} TabbedJoin(a: bytes, b: bytes, level: nat)
    ensures Tabbed(a + b, level) == Tabbed(a, level) + Tabbed(b, level)
    decreases |a|
  {
    if a == [] {
      assert a + b == b && [] + Tabbed(b, level) == Tabbed(b, level);
    } else {
      assert (a + b)[0] == a[0] && (a + b)[1..] == a[1..] + b;
      TabbedJoin(a[1..], b, level);
      var gap := if a[0] == 0x0A then Spaces(level) else [];
      hide Tabbed, Spaces;
      Assoc(gap, Tabbed(a[1..], level), Tabbed(b, level));
      Assoc([a[0]], gap + Tabbed(a[1..], level), Tabbed(b, level));
      hide *;
      TabbedUnfolds(a, level);
      TabbedUnfolds(a + b, level);
    }
  }

  lemma TabbedUnfolds(s: bytes, level: nat)
    ensures Tabbed(s, level)
         == if s == [] then [] else [s[0]] + ((if s[0] == 0x0A then Spaces(level) else []) + Tabbed(s[1..], level))
  {
  }

  lemma {:induction false} TabbedOneLine(s: bytes, level: nat)
    requires 0x0A !in s
    ensures Tabbed(s, level) == s
    decreases |s|
  {
    hide Tabbed, Spaces;
    TabbedUnfolds(s, level);
    if s != [] {
      assert forall c :: c in s[1..] ==> c in s;
      TabbedOneLine(s[1..], level);
      assert s[0] in s && [] + s[1..] == s[1..] && [s[0]] + s[1..] == s;
    }
  }

  lemma {:induction false} SpacesSnoc(level: nat)
    ensures Spaces(level + 1) == Spaces(level) + FOUR_SPACES && 0x0A !in Spaces(level)
  {
    if level > 0 {
      SpacesSnoc(level - 1);
      Assoc(FOUR_SPACES, Spaces(level - 1), FOUR_SPACES);
    }
  }

  lemma {:induction false} IndentIsSpaces(level: nat)
    ensures Indent(level) == Spaces(level)
  {
    if level > 0 {
      IndentIsSpaces(level - 1);
    }
  }

  /** Moving to the right twice. */
  lemma {:induction false} TabbedTwice(s: bytes, level: nat)
    ensures Tabbed(Tabbed(s, 1), level) == Tabbed(s, level + 1)
    decreases |s|
  {
    if s != [] {
      TabbedTwice(s[1..], level);
      TabbedUnfolds(s, 1);
      TabbedUnfolds(s, level + 1);
      hide Tabbed;
      var more := Tabbed(s[1..], 1);
      var gap := if s[0] == 0x0A then Spaces(1) else [];
      TabbedJoin([s[0]], gap + more, level);
      TabbedJoin(gap, more, level);
      FirstTabbed(s[0], level);
      assert Spaces(1) == FOUR_SPACES + [] == FOUR_SPACES;
      SpacesSnoc(level);
      TabbedOneLine(gap, level);
      hide Spaces;
      if s[0] == 0x0A {
        Assoc([s[0]], Spaces(level), gap + Tabbed(s[1..], level + 1));
        Assoc(Spaces(level), FOUR_SPACES, Tabbed(s[1..], level + 1));
      }
    }
  }

  lemma FirstTabbed(c: byte, level: nat)
    ensures Tabbed([c], level) == [c] + if c == 0x0A then Spaces(level) else []
  {
    assert [c][1..] == [];
    var gap: bytes := if c == 0x0A then Spaces(level) else [];
    assert gap + [] == gap;
  }

  /** Strings, numbers and words are printed on one line. */
  lemma {:induction false} EscapeIsOneLine(s: bytes, slashes: bool)
    ensures 0x0A !in Escape(s, slashes)
    decreases |s|
  {
    if s != [] {
      EscapeIsOneLine(s[1..], slashes);
      ByteIsOneLine(s[0], slashes);
      hide EscapeByte;
    }
  }

  lemma ByteIsOneLine(c: byte, slashes: bool)
    ensures 0x0A !in EscapeByte(c, slashes)
  {
  }

  lemma ScalarIsOneLine(v: JSON, level: nat, o: Layout)
    requires !v.Array? && !v.Object?
    ensures 0x0A !in Print(v, level, o) && Print(v, level, o) == Print(v, 0, Layout(false, o.slashes))
  {
    match v
    case Number(l) => EscapeIsOneLine(l, o.slashes);
    case Str(s) => EscapeIsOneLine(s, o.slashes);
    case _ =>
  }

  /** The pretty print at any level is the pretty text, moved to the right. */
  lemma {:induction false} PrettyPrints(v: JSON, level: nat, o: Layout)
    requires o.pretty
    ensures Print(v, level, o) == Tabbed(Pretty(v, o.slashes), level)
    decreases v, 2
  {
    match v
    case Array(items) => ArrayPrints(items, level, o);
    case Object(members) => ObjectPrints(members, level, o);
    case _ =>
      ScalarIsOneLine(v, level, o);
      TabbedOneLine(Print(v, level, o), level);
  }

  /** Brackets around lines that end in a line break. */
  lemma TabbedBrackets(open: byte, body: bytes, close: byte, level: nat)
    requires open != 0x0A && close != 0x0A
    ensures Tabbed([open, 0x0A] + (body + [close]), level)
         == [open] + ([0x0A] + ((Spaces(level) + Tabbed(body, level)) + [close]))
  {
    TabbedJoin([open, 0x0A], body + [close], level);
    TabbedJoin(body, [close], level);
    TabbedJoin([open], [0x0A], level);
    FirstTabbed(open, level);
    FirstTabbed(0x0A, level);
    FirstTabbed(close, level);
    hide Tabbed, Spaces;
    assert [open] + [0x0A] == [open, 0x0A] && [open] + [] == [open] && [close] + [] == [close];
    var t := Tabbed(body, level);
    Assoc([open], [0x0A] + Spaces(level), t + [close]);
    Assoc([0x0A], Spaces(level), t + [close]);
    Assoc(Spaces(level), t, [close]);
  }

  lemma {:induction false} ArrayPrints(items: seq<JSON>, level: nat, o: Layout)
    requires o.pretty
    ensures Print(Array(items), level, o) == Tabbed(Pretty(Array(items), o.slashes), level)
    decreases items, 1
  {
    ArrayUnfolds(Array(items), level, o);
    hide Print, PrintItems, PrettyItems, Tabbed, Spaces, Indent;
    if items == [] {
      TabbedOneLine([0x5B, 0x5D], level);
    } else {
      ItemsPrint(items, level, o);
      IndentIsSpaces(level);
      var body := PrettyItems(items, o.slashes);
      TabbedBrackets(0x5B, body, 0x5D, level);
      Assoc(PrintItems(items, level + 1, o), Spaces(level), [RBRACKET]);
    }
  }

  lemma LineEndTabbed(more: bool, level: nat, o: Layout, rest: bytes)
    requires o.pretty
    ensures Tabbed(LineEnd(more) + rest, level) == Separator(more, o) + (Spaces(level) + Tabbed(rest, level))
  {
    TabbedJoin(LineEnd(more), rest, level);
    FirstTabbed(0x0A, level);
    if more {
      TabbedJoin([0x2C], [0x0A], level);
      FirstTabbed(0x2C, level);
      assert [0x2C] + [0x0A] == [0x2C, 0x0A];
    }
    hide Tabbed, Spaces;
    var sep := Separator(more, o);
    assert [0x2C] + [] == [0x2C];
    assert sep == if more then [0x2C] + [0x0A] else [0x0A];
    if more {
      Assoc([0x2C], [0x0A], Spaces(level));
    }
    Assoc(sep, Spaces(level), Tabbed(rest, level));
  }

  lemma {:induction false} ItemsPrint(items: seq<JSON>, level: nat, o: Layout)
    requires o.pretty
    ensures Spaces(level) + Tabbed(PrettyItems(items, o.slashes), level)
        == PrintItems(items, level + 1, o) + Spaces(level)
    decreases items, 0
  {
    var sp := Spaces(level);
    if items == [] {
      assert sp + [] == sp && [] + sp == sp;
    } else {
      var x, more, rest := items[0], |items| > 1, items[1..];
      var p, tail := Pretty(x, o.slashes), PrettyItems(rest, o.slashes);
      var lines := LineEnd(more) + tail;
      assert PrettyItems(items, o.slashes) == FOUR_SPACES + (Tabbed(p, 1) + lines);
      PrettyPrints(x, level + 1, o);
      ItemsPrint(rest, level, o);
      IndentIsSpaces(level + 1);
      var printed, sep, after := Print(x, level + 1, o), Separator(more, o), PrintItems(rest, level + 1, o);
      assert PrintItems(items, level + 1, o) == Spaces(level + 1) + (printed + (sep + after));
      hide Print, PrintItems, Pretty, PrettyItems, Tabbed, Spaces, Separator, Indent, LineEnd;
      EntryTabbed(p, lines, level);
      LineEndTabbed(more, level, o, tail);
      EntryEnds(sp, printed, sep, after, Tabbed(tail, level), Spaces(level + 1));
      SpacesSnoc(level);
      Assoc(sp, FOUR_SPACES, printed + (sep + (sp + Tabbed(tail, level))));
    }
  }

  lemma EntryTabbed(p: bytes, lines: bytes, level: nat)
    ensures Tabbed(FOUR_SPACES + (Tabbed(p, 1) + lines), level)
         == FOUR_SPACES + (Tabbed(p, level + 1) + Tabbed(lines, level))
  {
    TabbedJoin(FOUR_SPACES, Tabbed(p, 1) + lines, level);
    TabbedJoin(Tabbed(p, 1), lines, level);
    TabbedTwice(p, level);
    TabbedOneLine(FOUR_SPACES, level);
  }

  lemma EntryEnds(sp: bytes, p: bytes, sep: bytes, after: bytes, tail: bytes, margin: bytes)
    requires sp + tail == after + sp
    ensures margin + (p + (sep + (sp + tail))) == (margin + (p + (sep + after))) + sp
  {
    Assoc(margin, p + (sep + after), sp);
    Assoc(p, sep + after, sp);
    Assoc(sep, after, sp);
  }

  lemma {:induction false} ObjectPrints(members: Items<JSON>, level: nat, o: Layout)
    requires o.pretty
    ensures Print(Object(members), level, o) == Tabbed(Pretty(Object(members), o.slashes), level)
    decreases members, 1
  {
    ObjectUnfolds(Object(members), level, o);
    hide Print, PrintMembers, PrettyMembers, Tabbed, Spaces, Indent;
    if members == [] {
      TabbedOneLine([0x7B, 0x7D], level);
    } else {
      MembersPrint(members, level, o);
      IndentIsSpaces(level);
      var body := PrettyMembers(members, o.slashes);
      TabbedBrackets(0x7B, body, 0x7D, level);
      Assoc(PrintMembers(members, level + 1, o), Spaces(level), [RBRACE]);
    }
  }

  lemma NameTabbed(name: bytes, slashes: bool, rest: bytes, level: nat)
    ensures Tabbed(Quote(name, slashes) + ([0x3A, 0x20] + rest), level)
         == Quote(name, slashes) + ([0x3A, 0x20] + Tabbed(rest, level))
  {
    EscapeIsOneLine(name, slashes);
    var q := Quote(name, slashes);
    assert 0x0A !in q;
    hide Quote, Escape;
    TabbedJoin(q, [0x3A, 0x20] + rest, level);
    TabbedJoin([0x3A, 0x20], rest, level);
    TabbedOneLine(q, level);
    TabbedOneLine([0x3A, 0x20], level);
  }

  lemma {:induction false} MembersPrint(members: Items<JSON>, level: nat, o: Layout)
    requires o.pretty
    ensures Spaces(level) + Tabbed(PrettyMembers(members, o.slashes), level)
         == PrintMembers(members, level + 1, o) + Spaces(level)
    decreases members, 0
  {
    var sp := Spaces(level);
    if members == [] {
      assert sp + [] == sp && [] + sp == sp;
    } else {
      var m, more, rest := members[0], |members| > 1, members[1..];
      var q, p, tail := Quote(m.name, o.slashes), Pretty(m.value, o.slashes), PrettyMembers(rest, o.slashes);
      var lines := LineEnd(more) + tail;
      assert PrettyMembers(members, o.slashes) == FOUR_SPACES + (q + ([0x3A, 0x20] + (Tabbed(p, 1) + lines)));
      PrettyPrints(m.value, level + 1, o);
      MembersPrint(rest, level, o);
      IndentIsSpaces(level + 1);
      var printed, sep, after := Print(m.value, level + 1, o), Separator(more, o), PrintMembers(rest, level + 1, o);
      var colon: bytes := [0x3A, 0x20];
      assert PrintMembers(members, level + 1, o) == Spaces(level + 1) + (q + (colon + (printed + (sep + after))));
      hide Print, PrintMembers, Pretty, PrettyMembers, Quote, Tabbed, Spaces, Separator, Indent, LineEnd;
      MemberTabbed(m.name, o.slashes, p, lines, level);
      LineEndTabbed(more, level, o, tail);
      MemberEnds(sp, q, colon, printed, sep, after, Tabbed(tail, level), Spaces(level + 1));
      SpacesSnoc(level);
      Assoc(sp, FOUR_SPACES, q + (colon + (printed + (sep + (sp + Tabbed(tail, level))))));
    }
  }

  lemma MemberTabbed(name: bytes, slashes: bool, p: bytes, lines: bytes, level: nat)
    ensures Tabbed(FOUR_SPACES + (Quote(name, slashes) + ([0x3A, 0x20] + (Tabbed(p, 1) + lines))), level)
         == FOUR_SPACES + (Quote(name, slashes) + ([0x3A, 0x20] + (Tabbed(p, level + 1) + Tabbed(lines, level))))
  {
    var rest := Tabbed(p, 1) + lines;
    TabbedJoin(FOUR_SPACES, Quote(name, slashes) + ([0x3A, 0x20] + rest), level);
    NameTabbed(name, slashes, rest, level);
    TabbedJoin(Tabbed(p, 1), lines, level);
    TabbedTwice(p, level);
    TabbedOneLine(FOUR_SPACES, level);
  }

  lemma MemberEnds(sp: bytes, q: bytes, colon: bytes, p: bytes, sep: bytes, after: bytes, tail: bytes, margin: bytes)
    requires sp + tail == after + sp
    ensures margin + (q + (colon + (p + (sep + (sp + tail))))) == (margin + (q + (colon + (p + (sep + after))))) + sp
  {
    Assoc(margin, q + (colon + (p + (sep + after))), sp);
    Assoc(q, colon + (p + (sep + after)), sp);
    Assoc(colon, p + (sep + after), sp);
    Assoc(p, sep + after, sp);
    Assoc(sep, after, sp);
  }

  /** The pretty print of a whole tree. */
  lemma PrettyPrint(v: JSON, slashes: bool)
    ensures Print(v, 0, Layout(true, slashes)) == Pretty(v, slashes)
  {
    PrettyPrints(v, 0, Layout(true, slashes));
    TabbedNowhere(Pretty(v, slashes));
  }

  lemma {:induction false} TabbedNowhere(s: bytes)
    ensures Tabbed(s, 0) == s
    decreases |s|
  {
    if s != [] {
      TabbedNowhere(s[1..]);
      assert [] + s[1..] == s[1..] && [s[0]] + s[1..] == s;
    }
  }
}
