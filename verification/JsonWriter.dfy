/** The serializer: one recursive routine that counts, and with a buffer also writes through a moving cursor. */
module JsonWriter {
  import opened Bytes
  import opened ItemList
  import opened JsonString
  import opened JsonNumber
  import opened JsonText
  import opened JsonRoundTrip

  /** `buf` holds `text` from `pos` on; before it and past the byte after it nothing changed. */
  twostate predicate Wrote(buf: array?<byte>, pos: nat, text: bytes)
    reads if buf == null then {} else {buf}
  {
    buf != null ==>
      && pos + |text| <= buf.Length
      && buf[pos..pos + |text|] == text
      && (forall i :: 0 <= i < pos ==> buf[i] == old(buf[i]))
      && (forall i :: pos + |text| < i < buf.Length ==> buf[i] == old(buf[i]))
  }

  ghost predicate Terminated(buf: array?<byte>, end: nat)
    reads if buf == null then {} else {buf}
  {
    buf != null ==> end < buf.Length && buf[end] == 0
  }

  /** The byte after the text is left as it was. */
  twostate predicate NotTerminated(buf: array?<byte>, end: nat)
    reads if buf == null then {} else {buf}
  {
    buf != null && end < buf.Length ==> buf[end] == old(buf[end])
  }

  function Target(buf: array?<byte>): set<object> {
    if buf == null then {} else {buf}
  }

  /** `APPEND_STRING`: counts, copies and terminates. */
  method AppendString(buf: array?<byte>, pos: nat, lit: bytes) returns (end: nat)
    requires buf != null ==> pos + |lit| < buf.Length
    modifies Target(buf)
    ensures end == pos + |lit|
    ensures Wrote(buf, pos, lit) && Terminated(buf, end)
  {
    if buf != null {
      for k := 0 to |lit|
        invariant forall i :: 0 <= i < k ==> buf[pos + i] == lit[i]
        invariant forall i :: 0 <= i < pos || pos + k <= i < buf.Length ==> buf[i] == old(buf[i])
      {
        buf[pos + k] := lit[k];
      }
      buf[pos + |lit|] := 0;
    }
    end := pos + |lit|;
  }

  /** Appends after `done`, keeping it. */
  method Append(buf: array?<byte>, start: nat, ghost done: bytes, pos: nat, lit: bytes)
    returns (end: nat, ghost done': bytes)
    requires pos == start + |done|
    requires buf != null ==> pos + |lit| < buf.Length && buf[start..pos] == done
    modifies Target(buf)
    ensures end == pos + |lit| && done' == done + lit
    ensures buf != null ==> buf[start..end] == done'
    ensures buf != null ==> forall i :: 0 <= i < start || end < i < buf.Length ==> buf[i] == old(buf[i])
    ensures Terminated(buf, end)
  {
    end := AppendString(buf, pos, lit);
    done' := done + lit;
    if buf != null {
      assert buf[start..end] == buf[start..pos] + buf[pos..end];
    }
  }

  lemma {:induction false} EscapeSnoc(s: bytes, c: byte, slashes: bool)
    ensures Escape(s + [c], slashes) == Escape(s, slashes) + EscapeByte(c, slashes)
  {
    if s == [] {
      assert (s + [c])[1..] == [];
    } else {
      assert (s + [c])[1..] == s[1..] + [c];
      EscapeSnoc(s[1..], c, slashes);
    }
  }

  lemma {:induction false} EscapePrefix(s: bytes, i: nat, slashes: bool)
    requires i <= |s|
    ensures |Escape(s[..i], slashes)| <= |Escape(s, slashes)|
    ensures i < |s| ==> Escape(s[..i + 1], slashes) == Escape(s[..i], slashes) + EscapeByte(s[i], slashes)
    ensures i < |s| ==> |Escape(s[..i + 1], slashes)| <= |Escape(s, slashes)|
    decreases |s| - i
  {
    if i < |s| {
      assert s[..i + 1] == s[..i] + [s[i]];
      EscapeSnoc(s[..i], s[i], slashes);
      EscapePrefix(s, i + 1, slashes);
    } else {
      assert s[..i] == s;
    }
  }

  /** One turn of the escaping loop: a plain byte is stored as it is, an escape appended. */
  method PutByte(buf: array?<byte>, start: nat, ghost done: bytes, pos: nat, c: byte, slashes: bool)
    returns (end: nat, ghost done': bytes)
    requires pos == start + |done|
    requires buf != null ==> pos < buf.Length && buf[start..pos] == done
    requires buf != null && |EscapeByte(c, slashes)| > 1 ==> pos + |EscapeByte(c, slashes)| < buf.Length
    modifies Target(buf)
    ensures done' == done + EscapeByte(c, slashes) && end == start + |done'|
    ensures buf != null ==> end <= buf.Length && buf[start..end] == done'
    ensures buf != null ==> forall i :: 0 <= i < start || end < i < buf.Length ==> buf[i] == old(buf[i])
    ensures |EscapeByte(c, slashes)| == 1 ==> NotTerminated(buf, end)
  {
    var e := EscapeByte(c, slashes);
    if |e| == 1 {
      if buf != null {
        buf[pos] := c;
        assert buf[start..pos + 1] == buf[start..pos] + [c];
      }
      end, done' := pos + 1, done + [c];
    } else {
      end, done' := Append(buf, start, done, pos, e);
    }
  }

  lemma PlainByte(s: bytes, i: nat, slashes: bool)
    requires Plain(s) && i < |s|
    ensures |EscapeByte(s[i], slashes)| == 1 && |Escape(s, slashes)| == |s| && |Escape(s[..i], slashes)| == i
  {
    PlainStart(s, i);
    PlainOne(s[i], slashes);
    hide *;
    PlainUnescaped(s, slashes);
    PlainUnescaped(s[..i], slashes);
  }

  lemma PlainStart(s: bytes, i: nat)
    requires Plain(s) && i < |s|
    ensures Plain(s[..i]) && (NumberByte(s[i]) || IsLetter(s[i]))
  {
  }

  lemma PlainOne(c: byte, slashes: bool)
    requires NumberByte(c) || IsLetter(c)
    ensures |EscapeByte(c, slashes)| == 1
  {
  }

  /** The escaping loop. Without escapes it may fill the buffer to its last byte. */
  method AppendEscaped(buf: array?<byte>, start: nat, ghost done: bytes, pos: nat, s: bytes, slashes: bool)
    returns (end: nat, ghost done': bytes)
    requires pos == start + |done|
    requires buf != null ==>
      pos + |Escape(s, slashes)| < buf.Length || (Plain(s) && pos + |Escape(s, slashes)| <= buf.Length)
    requires buf != null ==> buf[start..pos] == done
    modifies Target(buf)
    ensures done' == done + Escape(s, slashes) && end == start + |done'|
    ensures buf != null ==> end <= buf.Length && buf[start..end] == done'
    ensures buf != null ==> forall i :: 0 <= i < start || end < i < buf.Length ==> buf[i] == old(buf[i])
    ensures Plain(s) ==> NotTerminated(buf, end)
  {
    hide Escape, EscapeByte, Plain;
    end, done' := pos, done;
    EscapeNothing(slashes);
    EscapePrefix(s, 0, slashes);
    for i := 0 to |s|
      invariant done' == done + Escape(s[..i], slashes) && end == start + |done'|
      invariant buf != null ==> end <= buf.Length && buf[start..end] == done'
      invariant buf != null ==> forall k :: 0 <= k < start || end < k < buf.Length ==> buf[k] == old(buf[k])
      invariant Plain(s) ==> NotTerminated(buf, end)
    {
      EscapePrefix(s, i, slashes);
      if Plain(s) {
        PlainByte(s, i, slashes);
      }
      end, done' := PutByte(buf, start, done', end, s[i], slashes);
      Assoc(done, Escape(s[..i], slashes), EscapeByte(s[i], slashes));
    }
    assert s[..|s|] == s;
  }

  /** `json_serialize_string`. */
  method SerializeString(s: bytes, quotes: bool, slashes: bool, buf: array?<byte>, start: nat) returns (end: nat)
    requires var text := if quotes then Quote(s, slashes) else Escape(s, slashes);
             buf != null ==> start + |text| < buf.Length || (!quotes && Plain(s) && start + |text| <= buf.Length)
    modifies Target(buf)
    ensures var text := if quotes then Quote(s, slashes) else Escape(s, slashes);
            end == start + |text| && Wrote(buf, start, text)
    ensures quotes ==> Terminated(buf, end)
    ensures !quotes && Plain(s) ==> NotTerminated(buf, end)
  {
    hide Escape, Plain;
    ghost var done: bytes := [];
    end := start;
    if quotes {
      end, done := Append(buf, start, done, end, [QUOTE]);
      assert done == [QUOTE];
    }
    end, done := AppendEscaped(buf, start, done, end, s, slashes);
    if quotes {
      end, done := Append(buf, start, done, end, [QUOTE]);
    } else {
      assert done == Escape(s, slashes);
    }
  }

  lemma EscapeNothing(slashes: bool)
    ensures Escape([], slashes) == []
  {
  }

  /** `APPEND_INDENT`, in pretty mode only. */
  method AppendMargin(buf: array?<byte>, start: nat, ghost done: bytes, pos: nat, level: nat, o: Layout)
    returns (end: nat, ghost done': bytes)
    requires pos == start + |done|
    requires buf != null ==> pos + |o.Margin(level)| < buf.Length && buf[start..pos] == done
    modifies Target(buf)
    ensures done' == done + o.Margin(level) && end == start + |done'|
    ensures buf != null ==> buf[start..end] == done'
    ensures buf != null ==> forall i :: 0 <= i < start || end < i < buf.Length ==> buf[i] == old(buf[i])
  {
    end, done' := pos, done;
    if o.pretty {
      IndentLength(level);
      for k := 0 to level
        invariant done' == done + Indent(k) && end == start + |done'| && |Indent(k)| == 4 * k
        invariant buf != null ==> buf[start..end] == done'
        invariant buf != null ==> forall i :: 0 <= i < start || end < i < buf.Length ==> buf[i] == old(buf[i])
      {
        IndentLength(k);
        IndentSnoc(k);
        end, done' := Append(buf, start, done', end, INDENT);
      }
    }
  }

  lemma {:induction false} IndentLength(level: nat)
    ensures |Indent(level)| == 4 * level
  {
    if level > 0 {
      IndentLength(level - 1);
    }
  }

  lemma {:induction false} IndentSnoc(level: nat)
    ensures Indent(level + 1) == Indent(level) + INDENT
  {
    if level > 0 {
      IndentSnoc(level - 1);
    }
  }

  /** A line break in pretty mode, after a comma when more follows. */
  method AppendSeparator(buf: array?<byte>, start: nat, ghost done: bytes, pos: nat, more: bool, o: Layout)
    returns (end: nat, ghost done': bytes)
    requires pos == start + |done|
    requires buf != null ==> pos + |Separator(more, o)| < buf.Length && buf[start..pos] == done
    modifies Target(buf)
    ensures done' == done + Separator(more, o) && end == start + |done'|
    ensures buf != null ==> buf[start..end] == done'
    ensures buf != null ==> forall i :: 0 <= i < start || end < i < buf.Length ==> buf[i] == old(buf[i])
  {
    end, done' := pos, done;
    if more {
      end, done' := Append(buf, start, done', end, [COMMA]);
    }
    if o.pretty {
      end, done' := Append(buf, start, done', end, [NEWLINE]);
    }
  }

  /** A quoted name or string after `done`. */
  method AppendQuoted(buf: array?<byte>, start: nat, ghost done: bytes, pos: nat, s: bytes, slashes: bool)
    returns (end: nat, ghost done': bytes)
    requires pos == start + |done|
    requires buf != null ==> pos + |Quote(s, slashes)| < buf.Length && buf[start..pos] == done
    modifies Target(buf)
    ensures done' == done + Quote(s, slashes) && end == start + |done'|
    ensures buf != null ==> buf[start..end] == done'
    ensures buf != null ==> forall i :: 0 <= i < start || end < i < buf.Length ==> buf[i] == old(buf[i])
  {
    hide Quote, Escape, Plain;
    end := SerializeString(s, true, slashes, buf, pos);
    done' := done + Quote(s, slashes);
    if buf != null {
      assert buf[start..end] == buf[start..pos] + buf[pos..end];
    }
  }

  function Scratch(buf: array?<byte>, numBuf: array?<byte>): set<object> {
    if buf != null then {buf} else Target(numBuf)
  }

  /** The bytes of the number buffer that are written for lexemes of up to `longest` bytes: none with a buffer. */
  function Touched(buf: array?<byte>, longest: nat): nat {
    if buf == null then longest else 0
  }

  /** A nested value after `done`. */
  method AppendValue(v: JSON, buf: array?<byte>, start: nat, ghost done: bytes, pos: nat, level: nat, o: Layout,
      numBuf: array?<byte>)
    returns (end: nat, ghost done': bytes, ghost used: nat)
    requires WellFormed(v) && (buf == null ==> numBuf != null && LongestNumber(v) <= numBuf.Length)
    requires pos == start + |done|
    requires buf != null ==> pos + |Print(v, level, o)| < buf.Length && buf[start..pos] == done
    modifies Scratch(buf, numBuf)
    ensures used == Touched(buf, LongestNumber(v))
    ensures done' == done + Print(v, level, o) && end == start + |done'|
    ensures buf != null ==> buf[start..end] == done'
    ensures buf != null ==> forall i :: 0 <= i < start || end < i < buf.Length ==> buf[i] == old(buf[i])
    decreases v, 2
  {
    hide WellFormed, LongestNumber, LongestInItems, LongestInMembers, Print;
    end, used := SerializeToBufferR(v, buf, pos, level, o, numBuf);
    done' := done + Print(v, level, o);
    if buf != null {
      assert buf[start..end] == buf[start..pos] + buf[pos..end];
    }
  }

  /** `json_serialize_to_buffer_r`: the length of the print, and with a buffer the print itself. */
  method SerializeToBufferR(v: JSON, buf: array?<byte>, start: nat, level: nat, o: Layout, numBuf: array?<byte>)
    returns (end: nat, ghost used: nat)
    requires WellFormed(v) && (buf == null ==> numBuf != null && LongestNumber(v) <= numBuf.Length)
    requires buf != null ==> start + |Print(v, level, o)| < buf.Length
    modifies Scratch(buf, numBuf)
    ensures used == Touched(buf, LongestNumber(v))
    ensures end == start + |Print(v, level, o)| && Wrote(buf, start, Print(v, level, o))
    ensures if v.Number? then NotTerminated(buf, end) else Terminated(buf, end)
    decreases v, 1
  {
    used := 0;
    match v
    case Null => end := AppendString(buf, start, NULL);
    case Bool(b) =>
      if b {
        end := AppendString(buf, start, TRUE);
      } else {
        end := AppendString(buf, start, FALSE);
      }
    case Number(l) =>
      ReadableIsPlain(l);
      PlainUnescaped(l, o.slashes);
      if buf == null {
        var written := SerializeString(l, false, o.slashes, numBuf, 0);
        end, used := start + written, written;
      } else {
        end := SerializeString(l, false, o.slashes, buf, start);
      }
    case Str(s) => end := SerializeString(s, true, o.slashes, buf, start);
    case Array(items) => end, used := SerializeArray(items, buf, start, level, o, numBuf);
    case Object(members) => end, used := SerializeObject(members, buf, start, level, o, numBuf);
  }

  function Opening(bracket: byte, more: bool, o: Layout): bytes {
    [bracket] + if more then o.Line() else []
  }

  method AppendOpening(buf: array?<byte>, start: nat, bracket: byte, more: bool, o: Layout)
    returns (end: nat, ghost done: bytes)
    requires buf != null ==> start + |Opening(bracket, more, o)| < buf.Length
    modifies Target(buf)
    ensures done == Opening(bracket, more, o) && end == start + |done|
    ensures buf != null ==> buf[start..end] == done
    ensures buf != null ==> forall i :: 0 <= i < start || end < i < buf.Length ==> buf[i] == old(buf[i])
  {
    end, done := Append(buf, start, [], start, [bracket]);
    if more && o.pretty {
      end, done := Append(buf, start, done, end, [NEWLINE]);
    }
  }

  method SerializeArray(items: seq<JSON>, buf: array?<byte>, start: nat, level: nat, o: Layout, numBuf: array?<byte>)
    returns (end: nat, ghost used: nat)
    requires forall x :: x in items ==> WellFormed(x)
    requires buf == null ==> numBuf != null && LongestInItems(items) <= numBuf.Length
    requires buf != null ==> start + |Print(Array(items), level, o)| < buf.Length
    modifies Scratch(buf, numBuf)
    ensures used == Touched(buf, LongestInItems(items))
    ensures var text := Print(Array(items), level, o);
            end == start + |text| && Wrote(buf, start, text) && Terminated(buf, end)
    decreases items, 1
  {
    ghost var text := Print(Array(items), level, o);
    ArrayText(items, level, o);
    hide WellFormed, LongestNumber, LongestInItems, LongestInMembers, Indent, Separator, PrintItems, Print;
    ghost var done;
    end, done := AppendOpening(buf, start, LBRACKET, |items| > 0, o);
    end, done, used := AppendItems(items, buf, start, done, end, level + 1, o, numBuf);
    if |items| > 0 {
      end, done := AppendMargin(buf, start, done, end, level, o);
    }
    end, done := Append(buf, start, done, end, [RBRACKET]);
  }

  lemma ArrayText(items: seq<JSON>, level: nat, o: Layout)
    ensures Print(Array(items), level, o)
         == Opening(LBRACKET, |items| > 0, o) + PrintItems(items, level + 1, o)
             + (if |items| > 0 then o.Margin(level) else []) + [RBRACKET]
  {
    if items != [] {
      var body, margin := PrintItems(items, level + 1, o), o.Margin(level);
      hide PrintItems, Indent;
      Assoc([LBRACKET], o.Line(), body + (margin + [RBRACKET]));
      Assoc([LBRACKET] + o.Line(), body, margin + [RBRACKET]);
      Assoc([LBRACKET] + o.Line() + body, margin, [RBRACKET]);
    }
  }

  /** The element loop. */
  method AppendItems(items: seq<JSON>, buf: array?<byte>, start: nat, ghost done: bytes, pos: nat, level: nat,
      o: Layout, numBuf: array?<byte>)
    returns (end: nat, ghost done': bytes, ghost used: nat)
    requires forall x :: x in items ==> WellFormed(x)
    requires buf == null ==> numBuf != null && LongestInItems(items) <= numBuf.Length
    requires pos == start + |done|
    requires buf != null ==> pos + |PrintItems(items, level, o)| < buf.Length && buf[start..pos] == done
    modifies Scratch(buf, numBuf)
    ensures used == Touched(buf, LongestInItems(items))
    ensures done' == done + PrintItems(items, level, o) && end == start + |done'|
    ensures buf != null ==> buf[start..end] == done'
    ensures buf != null ==> forall i :: 0 <= i < start || end < i < buf.Length ==> buf[i] == old(buf[i])
    decreases items, 0
  {
    hide WellFormed, LongestNumber, LongestInItems, LongestInMembers, Indent, Separator, PrintItems, Print, Quote;
    end, done', used := pos, done, 0;
    for i := 0 to |items|
      invariant end == start + |done'|
      invariant Touched(buf, LongestInItems(items)) == Max(used, Touched(buf, LongestInItems(items[i..])))
      invariant done + PrintItems(items, level, o) == done' + PrintItems(items[i..], level, o)
      invariant buf != null ==> buf[start..end] == done'
      invariant buf != null ==> forall k :: 0 <= k < start || end < k < buf.Length ==> buf[k] == old(buf[k])
    {
      ItemsTurn(items[i..], level, o, done');
      LongestItems(items[i..]);
      assert items[i..][1..] == items[i + 1..];
      ghost var now;
      end, done', now := AppendItem(items[i], i < |items| - 1, buf, start, done', end, level, o, numBuf);
      used := Max(used, now);
    }
    NoItems(level, o);
  }

  /** One turn of the element loop. */
  method AppendItem(v: JSON, more: bool, buf: array?<byte>, start: nat, ghost done: bytes, pos: nat, level: nat,
      o: Layout, numBuf: array?<byte>)
    returns (end: nat, ghost done': bytes, ghost used: nat)
    requires WellFormed(v) && (buf == null ==> numBuf != null && LongestNumber(v) <= numBuf.Length)
    requires pos == start + |done|
    requires buf != null ==>
      && pos + |o.Margin(level)| + |Print(v, level, o)| + |Separator(more, o)| < buf.Length
      && buf[start..pos] == done
    modifies Scratch(buf, numBuf)
    ensures used == Touched(buf, LongestNumber(v))
    ensures done' == done + o.Margin(level) + Print(v, level, o) + Separator(more, o) && end == start + |done'|
    ensures buf != null ==> buf[start..end] == done'
    ensures buf != null ==> forall i :: 0 <= i < start || end < i < buf.Length ==> buf[i] == old(buf[i])
    decreases v, 3
  {
    hide WellFormed, LongestNumber, LongestInItems, LongestInMembers, Print, Separator, Indent;
    end, done' := AppendMargin(buf, start, done, pos, level, o);
    end, done', used := AppendValue(v, buf, start, done', end, level, o, numBuf);
    end, done' := AppendSeparator(buf, start, done', end, more, o);
  }

  /** One turn of the member loop. */
  method AppendMember(m: Item<JSON>, more: bool, buf: array?<byte>, start: nat, ghost done: bytes, pos: nat,
      level: nat, o: Layout, numBuf: array?<byte>)
    returns (end: nat, ghost done': bytes, ghost used: nat)
    requires WellFormed(m.value) && (buf == null ==> numBuf != null && LongestNumber(m.value) <= numBuf.Length)
    requires pos == start + |done|
    requires buf != null ==>
      && pos + |o.Margin(level)| + |Quote(m.name, o.slashes)| + |o.Colon()| + |Print(m.value, level, o)|
         + |Separator(more, o)| < buf.Length
      && buf[start..pos] == done
    modifies Scratch(buf, numBuf)
    ensures used == Touched(buf, LongestNumber(m.value))
    ensures done' == done + o.Margin(level) + Quote(m.name, o.slashes) + o.Colon() + Print(m.value, level, o)
        + Separator(more, o)
    ensures end == start + |done'|
    ensures buf != null ==> buf[start..end] == done'
    ensures buf != null ==> forall i :: 0 <= i < start || end < i < buf.Length ==> buf[i] == old(buf[i])
    decreases m, 3
  {
    hide WellFormed, LongestNumber, LongestInItems, LongestInMembers, Print, Separator, Indent, Quote;
    end, done' := AppendMargin(buf, start, done, pos, level, o);
    end, done' := AppendQuoted(buf, start, done', end, m.name, o.slashes);
    end, done' := Append(buf, start, done', end, o.Colon());
    end, done', used := AppendValue(m.value, buf, start, done', end, level, o, numBuf);
    end, done' := AppendSeparator(buf, start, done', end, more, o);
  }

  lemma LongestItems(items: seq<JSON>)
    ensures LongestInItems([]) == 0
    ensures items != [] ==> LongestInItems(items) == Max(LongestNumber(items[0]), LongestInItems(items[1..]))
  {
  }

  lemma NoItems(level: nat, o: Layout)
    ensures PrintItems([], level, o) == [] && LongestInItems([]) == 0
  {
  }

  lemma ItemsTurn(items: seq<JSON>, level: nat, o: Layout, done: bytes)
    requires items != []
    ensures done + PrintItems(items, level, o)
         == done + o.Margin(level) + Print(items[0], level, o) + Separator(|items| > 1, o)
             + PrintItems(items[1..], level, o)
  {
    var m, p := o.Margin(level), Print(items[0], level, o);
    var sep, tail := Separator(|items| > 1, o), PrintItems(items[1..], level, o);
    assert PrintItems(items, level, o) == m + (p + (sep + tail));
    hide Print, PrintItems, Separator, Indent;
    Assoc(done, m, p + (sep + tail));
    Assoc(done + m, p, sep + tail);
    Assoc(done + m + p, sep, tail);
  }

  method SerializeObject(members: Items<JSON>, buf: array?<byte>, start: nat, level: nat, o: Layout,
      numBuf: array?<byte>)
    returns (end: nat, ghost used: nat)
    requires forall m :: m in members ==> WellFormed(m.value)
    requires buf == null ==> numBuf != null && LongestInMembers(members) <= numBuf.Length
    requires buf != null ==> start + |Print(Object(members), level, o)| < buf.Length
    modifies Scratch(buf, numBuf)
    ensures used == Touched(buf, LongestInMembers(members))
    ensures var text := Print(Object(members), level, o);
            end == start + |text| && Wrote(buf, start, text) && Terminated(buf, end)
    decreases members, 1
  {
    ghost var text := Print(Object(members), level, o);
    ObjectText(members, level, o);
    hide WellFormed, LongestNumber, LongestInItems, LongestInMembers, Indent, Separator, PrintMembers, Print;
    ghost var done;
    end, done := AppendOpening(buf, start, LBRACE, |members| > 0, o);
    end, done, used := AppendMembers(members, buf, start, done, end, level + 1, o, numBuf);
    if |members| > 0 {
      end, done := AppendMargin(buf, start, done, end, level, o);
    }
    end, done := Append(buf, start, done, end, [RBRACE]);
  }

  lemma ObjectText(members: Items<JSON>, level: nat, o: Layout)
    ensures Print(Object(members), level, o)
         == Opening(LBRACE, |members| > 0, o) + PrintMembers(members, level + 1, o)
             + (if |members| > 0 then o.Margin(level) else []) + [RBRACE]
  {
    if members != [] {
      var body, margin := PrintMembers(members, level + 1, o), o.Margin(level);
      hide PrintMembers, Indent;
      Assoc([LBRACE], o.Line(), body + (margin + [RBRACE]));
      Assoc([LBRACE] + o.Line(), body, margin + [RBRACE]);
      Assoc([LBRACE] + o.Line() + body, margin, [RBRACE]);
    }
  }

  /** The member loop. */
  method AppendMembers(members: Items<JSON>, buf: array?<byte>, start: nat, ghost done: bytes, pos: nat, level: nat,
      o: Layout, numBuf: array?<byte>)
    returns (end: nat, ghost done': bytes, ghost used: nat)
    requires forall m :: m in members ==> WellFormed(m.value)
    requires buf == null ==> numBuf != null && LongestInMembers(members) <= numBuf.Length
    requires pos == start + |done|
    requires buf != null ==> pos + |PrintMembers(members, level, o)| < buf.Length && buf[start..pos] == done
    modifies Scratch(buf, numBuf)
    ensures used == Touched(buf, LongestInMembers(members))
    ensures done' == done + PrintMembers(members, level, o) && end == start + |done'|
    ensures buf != null ==> buf[start..end] == done'
    ensures buf != null ==> forall i :: 0 <= i < start || end < i < buf.Length ==> buf[i] == old(buf[i])
    decreases members, 0
  {
    hide WellFormed, LongestNumber, LongestInItems, LongestInMembers, Indent, Separator, PrintMembers, Print, Quote;
    end, done', used := pos, done, 0;
    for i := 0 to |members|
      invariant end == start + |done'|
      invariant Touched(buf, LongestInMembers(members)) == Max(used, Touched(buf, LongestInMembers(members[i..])))
      invariant done + PrintMembers(members, level, o) == done' + PrintMembers(members[i..], level, o)
      invariant buf != null ==> buf[start..end] == done'
      invariant buf != null ==> forall k :: 0 <= k < start || end < k < buf.Length ==> buf[k] == old(buf[k])
    {
      MembersTurn(members[i..], level, o, done');
      LongestMembers(members[i..]);
      assert members[i..][1..] == members[i + 1..];
      ghost var now;
      end, done', now := AppendMember(members[i], i < |members| - 1, buf, start, done', end, level, o, numBuf);
      used := Max(used, now);
    }
    NoMembers(level, o);
  }

  lemma LongestMembers(members: Items<JSON>)
    ensures LongestInMembers([]) == 0
    ensures members != [] ==>
              LongestInMembers(members) == Max(LongestNumber(members[0].value), LongestInMembers(members[1..]))
  {
  }

  lemma NoMembers(level: nat, o: Layout)
    ensures PrintMembers([], level, o) == [] && LongestInMembers([]) == 0
  {
  }

  lemma MembersTurn(members: Items<JSON>, level: nat, o: Layout, done: bytes)
    requires members != []
    ensures done + PrintMembers(members, level, o)
         == done + o.Margin(level) + Quote(members[0].name, o.slashes) + o.Colon() + Print(members[0].value, level, o)
            + Separator(|members| > 1, o) + PrintMembers(members[1..], level, o)
  {
    var m, k, c, p := o.Margin(level), Quote(members[0].name, o.slashes), o.Colon(), Print(members[0].value, level, o);
    var sep, tail := Separator(|members| > 1, o), PrintMembers(members[1..], level, o);
    assert PrintMembers(members, level, o) == m + (k + (c + (p + (sep + tail))));
    hide Print, PrintMembers, Separator, Indent, Quote;
    Assoc(done, m, k + (c + (p + (sep + tail))));
    Assoc(done + m, k, c + (p + (sep + tail)));
    Assoc(done + m + k, c, p + (sep + tail));
    Assoc(done + m + k + c, p, sep + tail);
    Assoc(done + m + k + c + p, sep, tail);
  }

  lemma {:induction false} FitsIff(v: JSON)
    ensures FitsNumBuf(v) <==> LongestNumber(v) <= NUM_BUF_SIZE
    decreases v, 1
  {
    match v
    case Array(items) => FitsItems(items);
    case Object(members) => FitsMembers(members);
    case _ =>
  }

  lemma {:induction false} FitsItems(items: seq<JSON>)
    ensures (forall x :: x in items ==> FitsNumBuf(x)) <==> LongestInItems(items) <= NUM_BUF_SIZE
    decreases items, 0
  {
    if items != [] {
      FitsIff(items[0]);
      FitsItems(items[1..]);
      Uncons(items);
      hide FitsNumBuf;
    }
  }

  lemma {:induction false} FitsMembers(members: Items<JSON>)
    ensures (forall m :: m in members ==> FitsNumBuf(m.value)) <==> LongestInMembers(members) <= NUM_BUF_SIZE
    decreases members, 0
  {
    if members != [] {
      FitsIff(members[0].value);
      FitsMembers(members[1..]);
      Uncons(members);
      hide FitsNumBuf;
    }
  }

  /** The size pass. The library's number buffer has 64 bytes; here it is as long as the lexemes need, and `used` says
      how much of it is written. Within 64 bytes, the result is the print's length plus one. */
  method SerializationSize(v: JSON, o: Layout) returns (size: nat, ghost used: nat)
    requires WellFormed(v)
    ensures used == LongestNumber(v) && (used <= 64 <==> FitsNumBuf(v))
    ensures FitsNumBuf(v) ==> size == |Print(v, 0, o)| + 1
  {
    hide Print, WellFormed, FitsNumBuf, LongestNumber;
    FitsIff(v);
    var numBuf := new byte[Max(NUM_BUF_SIZE, LongestNumber(v))];
    var res;
    res, used := SerializeToBufferR(v, null, 0, 0, o, numBuf);
    size := res + 1;
  }

  /** Fails exactly when the buffer is shorter than the size pass asks for. */
  method SerializeToBuffer(v: JSON, o: Layout, buf: array<byte>) returns (ok: bool)
    requires WellFormed(v) && FitsNumBuf(v)
    modifies buf
    ensures ok <==> |Print(v, 0, o)| < buf.Length
    ensures !ok ==> buf[..] == old(buf[..])
    ensures ok ==> buf[..|Print(v, 0, o)|] == Print(v, 0, o)
    ensures ok && !v.Number? ==> buf[|Print(v, 0, o)|] == 0
    ensures ok && v.Number? ==> buf[|Print(v, 0, o)|] == old(buf[|Print(v, 0, o)|])
    ensures ok ==> forall i :: |Print(v, 0, o)| < i < buf.Length ==> buf[i] == old(buf[i])
  {
    hide Print, WellFormed, FitsNumBuf;
    var needed, used := SerializationSize(v, o);
    if buf.Length < needed {
      return false;
    }
    var _, none := SerializeToBufferR(v, buf, 0, 0, o, null);
    return true;
  }
}
