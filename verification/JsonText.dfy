/** JSON trees, their compact and pretty text, and the recursive-descent reader, as functions. */
module JsonText {
  import opened Bytes
  import opened ItemList
  import opened JsonString
  import opened JsonNumber

  /** A JSON value; an object keeps its items in insertion order, a number keeps its lexeme. */
  datatype JSON =
    | Null
    | Bool(b: bool)
    | Number(lexeme: bytes)
    | Str(chars: bytes)
    | Array(items: seq<JSON>)
    | Object(members: Items<JSON>)

  const MAX_NESTING: nat := 2048
  const NUM_BUF_SIZE: nat := 64

  const LBRACE: byte := 0x7B
  const RBRACE: byte := 0x7D
  const LBRACKET: byte := 0x5B
  const RBRACKET: byte := 0x5D
  const COMMA: byte := 0x2C
  const COLON: byte := 0x3A
  const NEWLINE: byte := 0x0A
  const SPACE: byte := 0x20

  const TRUE: bytes := [0x74, 0x72, 0x75, 0x65]
  const FALSE: bytes := [0x66, 0x61, 0x6C, 0x73, 0x65]
  const NULL: bytes := [0x6E, 0x75, 0x6C, 0x6C]
  const INDENT: bytes := [SPACE, SPACE, SPACE, SPACE]

  // Printing

  function Indent(level: nat): bytes {
    if level == 0 then [] else INDENT + Indent(level - 1)
  }

  function Quote(s: bytes, slashes: bool): bytes {
    [QUOTE] + Escape(s, slashes) + [QUOTE]
  }

  /** How the text is laid out. */
  datatype Layout = Layout(pretty: bool, slashes: bool) {
    function Line(): bytes {
      if pretty then [NEWLINE] else []
    }

    function Margin(level: nat): bytes {
      if pretty then Indent(level) else []
    }

    function Colon(): bytes {
      if pretty then [COLON, SPACE] else [COLON]
    }
  }

  function Print(v: JSON, level: nat, o: Layout): bytes
    decreases v, 1
  {
    match v
    case Null => NULL
    case Bool(b) => if b then TRUE else FALSE
    case Number(l) => Escape(l, o.slashes)
    case Str(s) => Quote(s, o.slashes)
    case Array(items) =>
      if items == [] then [LBRACKET, RBRACKET]
      else [LBRACKET] + (o.Line() + (PrintItems(items, level + 1, o) + (o.Margin(level) + [RBRACKET])))
    case Object(members) =>
      if members == [] then [LBRACE, RBRACE]
      else [LBRACE] + (o.Line() + (PrintMembers(members, level + 1, o) + (o.Margin(level) + [RBRACE])))
  }

  function Separator(more: bool, o: Layout): bytes {
    (if more then [COMMA] else []) + o.Line()
  }

  function PrintItems(items: seq<JSON>, level: nat, o: Layout): bytes
    decreases items, 0
  {
    if items == [] then []
    else o.Margin(level) + (Print(items[0], level, o) + (Separator(|items| > 1, o) + PrintItems(items[1..], level, o)))
  }

  function PrintMembers(members: Items<JSON>, level: nat, o: Layout): bytes
    decreases members, 0
  {
    if members == [] then []
    else o.Margin(level) + (Quote(members[0].name, o.slashes) + (o.Colon() + (Print(members[0].value, level, o)
         + (Separator(|members| > 1, o) + PrintMembers(members[1..], level, o)))))
  }

  // Reading

  predicate IsSpace(c: byte) {
    c == SPACE || 0x09 <= c <= 0x0D
  }

  function SkipSpace(s: bytes): (r: bytes)
    ensures |r| <= |s| && (r == [] || !IsSpace(r[0]))
  {
    if s != [] && IsSpace(s[0]) then SkipSpace(s[1..]) else s
  }

  datatype Parsed<+T> = Fail | Ok(value: T, rest: bytes)

  function ParseWord(s: bytes, word: bytes, v: JSON): (r: Parsed<JSON>)
    ensures r.Ok? ==> |r.rest| <= |s|
  {
    if word <= s then Ok(v, s[|word|..]) else Fail
  }

  function ParseNumber(s: bytes): (r: Parsed<JSON>)
    ensures r.Ok? ==> |r.rest| <= |s|
  {
    var l := s[..StrtodLen(s)];
    if Accepted(l) then Ok(Number(l), s[|l|..]) else Fail
  }

  function ParseString(s: bytes): (r: Parsed<JSON>)
    ensures r.Ok? ==> |r.rest| <= |s|
  {
    var q := GetQuoted(s);
    if q.NoString? then Fail else Ok(Str(q.chars), q.rest)
  }

  function ParseValue(s: bytes, nesting: nat): (r: Parsed<JSON>)
    ensures r.Ok? ==> |r.rest| <= |s|
    decreases |s|, 2
  {
    if nesting > MAX_NESTING then Fail
    else
      var t := SkipSpace(s);
      var c := At(t);
      if c == LBRACE then ParseObject(t, nesting + 1)
      else if c == LBRACKET then ParseArray(t, nesting + 1)
      else if c == QUOTE then ParseString(t)
      else if c == FALSE[0] || c == TRUE[0] then
        if TRUE <= t then ParseWord(t, TRUE, Bool(true)) else ParseWord(t, FALSE, Bool(false))
      else if c == MINUS || IsDigit(c) then ParseNumber(t)
      else if c == NULL[0] then ParseWord(t, NULL, Null)
      else Fail
  }

  function ParseArray(s: bytes, nesting: nat): (r: Parsed<JSON>)
    requires At(s) == LBRACKET
    ensures r.Ok? ==> |r.rest| <= |s|
    decreases |s|, 1
  {
    var t := SkipSpace(s[1..]);
    if At(t) == RBRACKET then Ok(Array([]), t[1..])
    else
      var items := ParseItems(t, nesting);
      if items.Fail? then Fail
      else
        var u := SkipSpace(items.rest);
        if At(u) == RBRACKET then Ok(Array(items.value), u[1..]) else Fail
  }

  /** Elements up to the first one not followed by a comma, or by a comma and a closing bracket. */
  function ParseItems(s: bytes, nesting: nat): (r: Parsed<seq<JSON>>)
    ensures r.Ok? ==> |r.rest| <= |s|
    decreases |s|, 3
  {
    if At(s) == 0 then Ok([], s)
    else
      var v := ParseValue(s, nesting);
      if v.Fail? then Fail
      else
        var t := SkipSpace(v.rest);
        if At(t) != COMMA then Ok([v.value], t)
        else
          var u := SkipSpace(t[1..]);
          if At(u) == RBRACKET then Ok([v.value], u)
          else
            var more := ParseItems(u, nesting);
            if more.Fail? then Fail else Ok([v.value] + more.value, more.rest)
  }

  function ParseObject(s: bytes, nesting: nat): (r: Parsed<JSON>)
    requires At(s) == LBRACE
    ensures r.Ok? ==> |r.rest| <= |s|
    decreases |s|, 1
  {
    var t := SkipSpace(s[1..]);
    if At(t) == RBRACE then Ok(Object([]), t[1..])
    else
      var members := ParseMembers(t, nesting);
      if members.Fail? then Fail
      else
        var u := SkipSpace(members.rest);
        if At(u) == RBRACE then Ok(Object(members.value), u[1..]) else Fail
  }

  function ParseMembers(s: bytes, nesting: nat): (r: Parsed<Items<JSON>>)
    ensures r.Ok? ==> |r.rest| <= |s|
    decreases |s|, 3
  {
    if At(s) == 0 then Ok([], s)
    else
      var m := ParseMember(s, nesting);
      if m.Fail? then Fail
      else
        var t := SkipSpace(m.rest);
        if At(t) != COMMA then Ok([m.value], t)
        else
          var u := SkipSpace(t[1..]);
          if At(u) == RBRACE then Ok([m.value], u)
          else
            var more := ParseMembers(u, nesting);
            if more.Fail? then Fail else Ok([m.value] + more.value, more.rest)
  }

  /** A name without zero bytes, a colon and a value. */
  function ParseMember(s: bytes, nesting: nat): (r: Parsed<Item<JSON>>)
    ensures r.Ok? ==> |r.rest| < |s|
    decreases |s|, 2
  {
    var key := GetQuoted(s);
    if key.NoString? || 0 in key.chars then Fail
    else
      var t := SkipSpace(key.rest);
      if At(t) != COLON then Fail
      else
        var v := ParseValue(t[1..], nesting);
        var name: cstring := key.chars;
        if v.Fail? then Fail else Ok(Item(name, v.value), v.rest)
  }

  /** The text behind a UTF-8 byte order mark. */
  function WithoutMark(s: bytes): bytes {
    if [0xEF, 0xBB, 0xBF] <= s then s[3..] else s
  }

  /** `json_parse_string`: a byte order mark is skipped. */
  function ParseText(s: bytes): Parsed<JSON> {
    ParseValue(WithoutMark(s), 0)
  }

  // Trees

  /** Every number in the tree is one the reader can have stored. */
  predicate WellFormed(v: JSON) {
    match v
    case Number(l) => Readable(l)
    case Array(items) => forall x :: x in items ==> WellFormed(x)
    case Object(members) => forall m :: m in members ==> WellFormed(m.value)
    case _ => true
  }

  /** Every number fits the buffer in which the size pass writes it. */
  predicate FitsNumBuf(v: JSON) {
    match v
    case Number(l) => |l| <= NUM_BUF_SIZE
    case Array(items) => forall x :: x in items ==> FitsNumBuf(x)
    case Object(members) => forall m :: m in members ==> FitsNumBuf(m.value)
    case _ => true
  }

  function Max(a: nat, b: nat): nat {
    if a <= b then b else a
  }

  /** Length of the longest number lexeme in the tree. */
  function LongestNumber(v: JSON): nat
    decreases v, 1
  {
    match v
    case Number(l) => |l|
    case Array(items) => LongestInItems(items)
    case Object(members) => LongestInMembers(members)
    case _ => 0
  }

  function LongestInItems(items: seq<JSON>): nat
    decreases items, 0
  {
    if items == [] then 0 else Max(LongestNumber(items[0]), LongestInItems(items[1..]))
  }

  function LongestInMembers(members: Items<JSON>): nat
    decreases members, 0
  {
    if members == [] then 0 else Max(LongestNumber(members[0].value), LongestInMembers(members[1..]))
  }

  /** How many containers enclose the deepest value. */
  function Height(v: JSON): nat
    decreases v, 1
  {
    match v
    case Array(items) => HeightItems(items)
    case Object(members) => HeightMembers(members)
    case _ => 0
  }

  function HeightItems(items: seq<JSON>): nat
    decreases items, 0
  {
    if items == [] then 0 else Max(1 + Height(items[0]), HeightItems(items[1..]))
  }

  function HeightMembers(members: Items<JSON>): nat
    decreases members, 0
  {
    if members == [] then 0 else Max(1 + Height(members[0].value), HeightMembers(members[1..]))
  }
}
