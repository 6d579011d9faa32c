/** Server-side includes: the byte-by-byte scanner of a page, and what a page means. */
module Ssi {
  import opened Bytes

  const BUF_LEN: nat := 8192
  const LT: byte := 0x3C
  const GT: byte := 0x3E
  /** `<!--#` */
  const SSI_START: bytes := [0x3C, 0x21, 0x2D, 0x2D, 0x23]
  const INCLUDE: bytes := [0x69, 0x6E, 0x63, 0x6C, 0x75, 0x64, 0x65]
  const EXEC: bytes := [0x65, 0x78, 0x65, 0x63]

  /** A byte of the page, a closed SSI tag, or the rest of a page from a tag that is too long for the buffer. */
  datatype Atom = Byte(value: byte) | Directive(tag: bytes) | TooLong(rest: bytes)

  function Plain(s: bytes): seq<Atom> {
    if s == [] then [] else [Byte(s[0])] + Plain(s[1..])
  }

  /** Index of the first `>`, or the length. */
  function Closing(s: bytes): (k: nat)
    ensures k <= |s| && (k < |s| ==> s[k] == GT) && GT !in s[..k]
  {
    if s == [] || s[0] == GT then 0
    else
      assert forall k :: 0 <= k <= |s[1..]| ==> s[..k + 1] == [s[0]] + s[1..][..k];
      1 + Closing(s[1..])
  }

  predicate IsSsi(tag: bytes) {
    SSI_START <= tag
  }

  function TagAtoms(tag: bytes): seq<Atom> {
    if IsSsi(tag) then [Directive(tag)] else Plain(tag)
  }

  /** What a page consists of, tag by tag. */
  function Atoms(s: bytes): seq<Atom>
    decreases |s|
  {
    if s == [] then []
    else if s[0] != LT then [Byte(s[0])] + Atoms(s[1..])
    else
      var k := Closing(s);
      if k >= BUF_LEN - 1 then [TooLong(s)]
      else if k == |s| then Plain(s)
      else TagAtoms(s[..k + 1]) + Atoms(s[k + 1..])
  }

  // Conservation

  function Content(a: Atom): bytes {
    match a
    case Byte(b) => [b]
    case Directive(tag) => tag
    case TooLong(rest) => rest
  }

  function Source(atoms: seq<Atom>): bytes {
    if atoms == [] then [] else Content(atoms[0]) + Source(atoms[1..])
  }

  lemma {:induction false} SourceAppend(a: seq<Atom>, b: seq<Atom>)
    ensures Source(a + b) == Source(a) + Source(b)
    decreases |a|
  {
    if a == [] {
      assert a + b == b;
    } else {
      assert (a + b)[1..] == a[1..] + b;
      SourceAppend(a[1..], b);
    }
  }

  lemma {:induction false} PlainSource(s: bytes)
    ensures Source(Plain(s)) == s && (forall a :: a in Plain(s) ==> a.Byte?)
    decreases |s|
  {
    if s != [] {
      PlainSource(s[1..]);
      assert Plain(s)[1..] == Plain(s[1..]);
    }
  }

  lemma SourceOne(a: Atom)
    ensures Source([a]) == Content(a) && Source([]) == []
  {
    assert [a][1..] == [] && Content(a) + [] == Content(a);
  }

  lemma TagSource(tag: bytes)
    requires tag != []
    ensures Source(TagAtoms(tag)) == tag
    ensures forall a :: a in TagAtoms(tag) && !a.Byte? ==> Content(a) != []
  {
    PlainSource(tag);
    assert tag + [] == tag;
  }

  /** Every byte of the page is in exactly one atom, in order. */
  lemma {:induction false} NothingLost(s: bytes)
    ensures Source(Atoms(s)) == s
    ensures forall a :: a in Atoms(s) && !a.Byte? ==> Content(a) != []
    decreases |s|
  {
    hide TagAtoms, Source;
    if s == [] {
      SourceOne(Byte(0));
    } else if s[0] != LT {
      NothingLost(s[1..]);
      SourceOne(Byte(s[0]));
      SourceAppend([Byte(s[0])], Atoms(s[1..]));
    } else {
      var k := Closing(s);
      if k >= BUF_LEN - 1 {
        SourceOne(TooLong(s));
      } else if k == |s| {
        PlainSource(s);
      } else {
        TagSource(s[..k + 1]);
        NothingLost(s[k + 1..]);
        SourceAppend(TagAtoms(s[..k + 1]), Atoms(s[k + 1..]));
        assert s[..k + 1] + s[k + 1..] == s;
      }
    }
  }

  // Pages that are sent as they are

  /** Every `<` before `i` has a `>` behind it. */
  ghost predicate NothingOpen(s: bytes, i: nat) {
    i <= |s| && forall j :: 0 <= j < i && s[j] == LT ==> exists k :: j < k < i && s[k] == GT
  }

  /** A tag opens at `i`: a `<` with no earlier one still open. */
  ghost predicate Opens(s: bytes, i: nat) {
    i < |s| && s[i] == LT && NothingOpen(s, i)
  }

  /** What stands at `i` starts with the SSI mark and is closed. */
  ghost predicate ClosedSsi(s: bytes, i: nat) {
    i <= |s| && SSI_START <= s[i..] && exists k :: i < k < |s| && s[k] == GT
  }

  /** The `<` at `i` is followed by 8190 bytes without a `>`. */
  ghost predicate TooLongTag(s: bytes, i: nat) {
    i + 8191 <= |s| && forall k :: i <= k < i + 8191 ==> s[k] != GT
  }

  /** No tag of the page is a closed SSI tag or too long. */
  ghost predicate Harmless(s: bytes) {
    forall i :: Opens(s, i) ==> !ClosedSsi(s, i) && !TooLongTag(s, i)
  }

  ghost predicate HarmlessFrom(s: bytes, n: nat) {
    forall i :: n <= i && Opens(s, i) ==> !ClosedSsi(s, i) && !TooLongTag(s, i)
  }

  ghost predicate AllBytes(atoms: seq<Atom>) {
    forall a :: a in atoms ==> a.Byte?
  }

  /** The first tag from `n` on, up to its `>` at `m` or the end. */
  lemma FirstTag(s: bytes, n: nat, m: nat)
    requires Opens(s, n) && m == n + Closing(s[n..])
    ensures forall i :: n < i <= m ==> !Opens(s, i)
    ensures TooLongTag(s, n) <==> m - n >= BUF_LEN - 1
    ensures m < |s| ==> NothingOpen(s, m + 1)
    ensures m == |s| ==> !ClosedSsi(s, n)
    ensures m < |s| ==> (ClosedSsi(s, n) <==> IsSsi(s[n..][..m - n + 1]))
  {
    var t := s[n..];
    assert forall x :: n <= x < m ==> s[x] == t[x - n] == t[..m - n][x - n] && t[..m - n][x - n] in t[..m - n];
    assert m < |s| ==> s[m] == t[m - n] == GT;
    assert m < |s| && SSI_START <= t ==> m - n >= 5;
    assert forall j :: n <= j <= m && m < |s| && s[j] == LT ==> j < m && s[m] == GT;
  }

  lemma AtomsAt(s: bytes, n: nat)
    requires n < |s|
    ensures s[n] != LT ==> (AllBytes(Atoms(s[n..])) <==> AllBytes(Atoms(s[n + 1..])))
    ensures s[n] == LT ==>
              var t, k := s[n..], Closing(s[n..]);
              AllBytes(Atoms(t)) <==>
              k < BUF_LEN - 1 && (k < |t| ==> !IsSsi(t[..k + 1]) && AllBytes(Atoms(s[n + k + 1..])))
  {
    hide IsSsi, Plain, AllBytes;
    var t := s[n..];
    if s[n] != LT {
      assert t[1..] == s[n + 1..];
      AllBytesJoin([Byte(t[0])], Atoms(t[1..]));
      OneAtom(Byte(t[0]));
    } else {
      var k := Closing(t);
      PlainIsBytes(t);
      OneAtom(TooLong(t));
      if k < |t| {
        var tag := t[..k + 1];
        PlainIsBytes(tag);
        OneAtom(Directive(tag));
        assert t[k + 1..] == s[n + k + 1..];
        AllBytesJoin(TagAtoms(tag), Atoms(t[k + 1..]));
      }
    }
  }

  lemma OneAtom(a: Atom)
    ensures AllBytes([a]) <==> a.Byte?
  {
    assert a in [a];
  }

  lemma PlainIsBytes(s: bytes)
    ensures AllBytes(Plain(s))
  {
    PlainSource(s);
  }

  lemma AllBytesJoin(a: seq<Atom>, b: seq<Atom>)
    ensures AllBytes(a + b) <==> AllBytes(a) && AllBytes(b)
  {
    assert forall x :: x in a || x in b <==> x in a + b;
  }

  lemma HarmlessStep(s: bytes, n: nat, m: nat)
    requires n < m && forall i :: n < i < m ==> !Opens(s, i)
    ensures HarmlessFrom(s, n) <==> (Opens(s, n) ==> !ClosedSsi(s, n) && !TooLongTag(s, n)) && HarmlessFrom(s, m)
  {
    hide Opens, ClosedSsi, TooLongTag;
    if HarmlessFrom(s, m) && !HarmlessFrom(s, n) {
      var i :| n <= i && Opens(s, i) && (ClosedSsi(s, i) || TooLongTag(s, i));
      assert i == n || i >= m;
    }
  }

  lemma NothingBehindEnd(s: bytes, n: nat)
    requires n >= |s|
    ensures HarmlessFrom(s, n) && Atoms([]) == []
  {
  }

  /** The scanner finds nothing but bytes exactly where no such tag is. */
  lemma {:induction false} HarmlessIsAllBytes(s: bytes, n: nat)
    requires NothingOpen(s, n)
    ensures HarmlessFrom(s, n) <==> AllBytes(Atoms(s[n..]))
    decreases |s| - n
  {
    hide HarmlessFrom, ClosedSsi, TooLongTag, IsSsi, Atoms;
    if n == |s| {
      NothingBehindEnd(s, n);
    } else if s[n] != LT {
      AtomsAt(s, n);
      StillNothingOpen(s, n);
      HarmlessStep(s, n, n + 1);
      HarmlessIsAllBytes(s, n + 1);
    } else {
      AtomsAt(s, n);
      var m := n + Closing(s[n..]);
      FirstTag(s, n, m);
      hide NothingOpen, AllBytes, Closing;
      HarmlessStep(s, n, m + 1);
      if m < |s| {
        HarmlessIsAllBytes(s, m + 1);
      } else {
        NothingBehindEnd(s, m + 1);
      }
    }
  }

  lemma StillNothingOpen(s: bytes, n: nat)
    requires n < |s| && NothingOpen(s, n) && s[n] != LT
    ensures NothingOpen(s, n + 1)
  {
  }

  // Nested pages

  datatype Target = Script(path: bytes) | Static(path: bytes) | Missing

  /** What lies outside: file contents, where an include leads from a page, and what a command prints. */
  datatype Env = Env(read: bytes -> bytes, find: (bytes, bytes) -> Target, run: bytes -> bytes)

  function Fuel(level: nat): nat {
    if level > 10 then 0 else 11 - level
  }

  /** What `send_ssi_file` writes for a page. */
  function Page(env: Env, path: bytes, level: nat): bytes
    decreases Fuel(level), 1, 0
  {
    if level > 10 then [] else Expand(env, path, level, Atoms(env.read(path)))
  }

  function Expand(env: Env, path: bytes, level: nat, atoms: seq<Atom>): bytes
    requires level <= 10
    decreases Fuel(level), 0, |atoms|
  {
    if atoms == [] then []
    else
      (match atoms[0]
       case Byte(b) => [b]
       case TooLong(_) => []
       case Directive(tag) => Obey(env, path, level, tag)) + Expand(env, path, level, atoms[1..])
  }

  /** What a closed SSI tag puts in its place. An include counts two levels: its own and the file's. */
  function Obey(env: Env, path: bytes, level: nat, tag: bytes): bytes
    requires level <= 10
    decreases Fuel(level), 0, 0
  {
    if |tag| > 12 && tag[5..12] == INCLUDE then
      match env.find(path, tag[12..])
      case Script(p) => Page(env, p, level + 2)
      case Static(p) => env.read(p)
      case Missing => []
    else if |tag| > 9 && tag[5..9] == EXEC then env.run(tag[9..])
    else []
  }

  lemma {:induction false} ExpandAppend(env: Env, path: bytes, level: nat, a: seq<Atom>, b: seq<Atom>)
    requires level <= 10
    ensures Expand(env, path, level, a + b) == Expand(env, path, level, a) + Expand(env, path, level, b)
    decreases |a|
  {
    if a == [] {
      assert a + b == b;
    } else {
      assert (a + b)[1..] == a[1..] + b;
      ExpandAppend(env, path, level, a[1..], b);
    }
  }

  lemma {:induction false} ExpandPlain(env: Env, path: bytes, level: nat, s: bytes)
    requires level <= 10
    ensures Expand(env, path, level, Plain(s)) == s
    decreases |s|
  {
    if s != [] {
      assert Plain(s)[1..] == Plain(s[1..]);
      ExpandPlain(env, path, level, s[1..]);
    }
  }

  lemma {:induction false} BytesExpand(env: Env, path: bytes, level: nat, atoms: seq<Atom>)
    requires level <= 10 && AllBytes(atoms)
    ensures Expand(env, path, level, atoms) == Source(atoms)
    decreases |atoms|
  {
    if atoms != [] {
      assert atoms[0].Byte?;
      BytesExpand(env, path, level, atoms[1..]);
    }
  }

  /** Nothing is written for directives and over-long tags when no include is found and no command prints. */
  lemma {:induction false} SilentIsShorter(env: Env, path: bytes, level: nat, atoms: seq<Atom>)
    requires level <= 10
    requires forall p, tag :: env.find(p, tag) == Missing
    requires forall cmd :: env.run(cmd) == []
    requires forall a :: a in atoms && !a.Byte? ==> Content(a) != []
    ensures |Expand(env, path, level, atoms)| <= |Source(atoms)|
    ensures !AllBytes(atoms) ==> |Expand(env, path, level, atoms)| < |Source(atoms)|
    decreases |atoms|
  {
    if atoms != [] {
      var a, rest := atoms[0], atoms[1..];
      assert atoms == [a] + rest && a in atoms && forall x :: x in rest ==> x in atoms;
      SilentIsShorter(env, path, level, rest);
      AllBytesJoin([a], rest);
      OneAtom(a);
      if a.Directive? {
        SilentTag(env, path, level, a.tag);
      }
      hide AllBytes, Obey;
      assert Source(atoms) == Content(a) + Source(rest);
    }
  }

  lemma SilentTag(env: Env, path: bytes, level: nat, tag: bytes)
    requires level <= 10
    requires forall p, text :: env.find(p, text) == Missing
    requires forall cmd :: env.run(cmd) == []
    ensures Obey(env, path, level, tag) == []
  {
  }

  /** A page without a closed SSI tag and without a tag that is too long is sent as it is. */
  lemma SentUnchanged(env: Env, path: bytes, level: nat)
    requires level <= 10 && Harmless(env.read(path))
    ensures Page(env, path, level) == env.read(path)
  {
    var s := env.read(path);
    assert s[0..] == s;
    HarmlessIsAllBytes(s, 0);
    BytesExpand(env, path, level, Atoms(s));
    NothingLost(s);
  }

  /** No other page is, unless what its tags stand for happens to make up for what they take away:
      where includes are missing and commands silent, the condition is exact. */
  lemma SentUnchangedIff(env: Env, path: bytes, level: nat)
    requires level <= 10
    requires forall p, tag :: env.find(p, tag) == Missing
    requires forall cmd :: env.run(cmd) == []
    ensures Page(env, path, level) == env.read(path) <==> Harmless(env.read(path))
  {
    var s := env.read(path);
    if Harmless(s) {
      SentUnchanged(env, path, level);
    } else {
      assert s[0..] == s;
      HarmlessIsAllBytes(s, 0);
      NothingLost(s);
      SilentIsShorter(env, path, level, Atoms(s));
    }
  }

  /** A condition that looks at every `<`, inside tags too. */
  lemma PlainlyHarmless(s: bytes)
    requires forall i :: 0 <= i < |s| ==> !ClosedSsi(s, i)
    requires forall i :: 0 <= i < |s| && s[i] == LT ==> !TooLongTag(s, i)
    ensures Harmless(s)
  {
  }

  function Repeat(s: bytes, n: nat): bytes {
    if n == 0 then [] else s + Repeat(s, n - 1)
  }

  lemma {:induction false} SelfInclude(env: Env, path: bytes, text: bytes, tag: bytes, level: nat, n: nat)
    requires Atoms(env.read(path)) == Plain(text) + [Directive(tag)]
    requires |tag| > 12 && tag[5..12] == INCLUDE && env.find(path, tag[12..]) == Script(path)
    requires level + 2 * n == 12
    ensures Page(env, path, level) == Repeat(text, n)
    decreases n
  {
    if n > 0 {
      SelfInclude(env, path, text, tag, level + 2, n - 1);
      ExpandAppend(env, path, level, Plain(text), [Directive(tag)]);
      ExpandPlain(env, path, level, text);
      ExpandOne(env, path, level, tag);
    }
  }

  lemma ExpandOne(env: Env, path: bytes, level: nat, tag: bytes)
    requires level <= 10
    ensures Expand(env, path, level, [Directive(tag)]) == Obey(env, path, level, tag)
  {
    hide Obey;
    assert [Directive(tag)][1..] == [];
    assert Obey(env, path, level, tag) + [] == Obey(env, path, level, tag);
  }

  /** Includes end: a page that includes itself is sent six times. */
  lemma SelfIncludeEnds(env: Env, path: bytes, text: bytes, tag: bytes)
    requires Atoms(env.read(path)) == Plain(text) + [Directive(tag)]
    requires |tag| > 12 && tag[5..12] == INCLUDE && env.find(path, tag[12..]) == Script(path)
    ensures Page(env, path, 0) == Repeat(text, 6)
  {
    SelfInclude(env, path, text, tag, 0, 6);
  }

  // The scanner

  /** What is still to be written: the buffered bytes and the rest of the file. */
  ghost function Pending(env: Env, path: bytes, level: nat, inTag: bool, held: bytes, rest: bytes): bytes
    requires level <= 10
  {
    if inTag then Expand(env, path, level, Atoms(held + rest)) else held + Expand(env, path, level, Atoms(rest))
  }

  lemma TagCloses(env: Env, path: bytes, level: nat, held: bytes, rest: bytes)
    requires level <= 10 && held != [] && held[0] == LT && GT !in held && |held| < BUF_LEN - 1
    requires rest != [] && rest[0] == GT
    ensures Pending(env, path, level, true, held, rest)
         == (if SSI_START <= held then Obey(env, path, level, held + [GT]) else held + [GT])
            + Pending(env, path, level, false, [], rest[1..])
  {
    var tag := held + [GT];
    AtomsOfTag(held, rest);
    ExpandTag(env, path, level, tag);
    ExpandAppend(env, path, level, TagAtoms(tag), Atoms(rest[1..]));
    hide Atoms, Obey, Expand, TagAtoms;
    NothingWritten(Expand(env, path, level, Atoms(rest[1..])));
  }

  lemma AtomsOfTag(held: bytes, rest: bytes)
    requires held != [] && held[0] == LT && GT !in held && |held| < BUF_LEN - 1
    requires rest != [] && rest[0] == GT
    ensures Atoms(held + rest) == TagAtoms(held + [GT]) + Atoms(rest[1..])
    ensures IsSsi(held + [GT]) <==> SSI_START <= held
  {
    var s, k := held + rest, |held|;
    TagWithin(held, rest);
    ClosingAt(s, k);
    SsiClosed(held);
    hide Closing, TagAtoms, IsSsi, Plain;
  }

  lemma TagWithin(held: bytes, rest: bytes)
    requires rest != [] && rest[0] == GT
    ensures var s, k := held + rest, |held|;
            s[..k] == held && s[k] == GT && s[..k + 1] == held + [GT] && s[k + 1..] == rest[1..]
  {
  }

  lemma SsiClosed(held: bytes)
    requires GT !in held
    ensures IsSsi(held + [GT]) <==> SSI_START <= held
  {
    var tag := held + [GT];
    assert forall i :: 0 <= i < |held| ==> tag[i] == held[i];
    assert tag[|held|] == GT && forall i :: 0 <= i < |SSI_START| ==> SSI_START[i] != GT;
  }

  lemma ExpandTag(env: Env, path: bytes, level: nat, tag: bytes)
    requires level <= 10
    ensures Expand(env, path, level, TagAtoms(tag)) == if IsSsi(tag) then Obey(env, path, level, tag) else tag
  {
    ExpandPlain(env, path, level, tag);
    ExpandOne(env, path, level, tag);
    hide Expand, Obey;
  }

  lemma ClosingAt(s: bytes, k: nat)
    requires k <= |s| && GT !in s[..k]
    ensures Closing(s) >= k
    ensures k == |s| || s[k] == GT ==> Closing(s) == k
  {
    var c := Closing(s);
    assert forall j :: 0 <= j < k ==> s[j] in s[..k];
    assert forall j :: 0 <= j < c ==> s[j] in s[..c];
  }

  lemma TagTooLong(env: Env, path: bytes, level: nat, held: bytes, rest: bytes)
    requires level <= 10 && held != [] && held[0] == LT && GT !in held && |held| == BUF_LEN - 1
    ensures Pending(env, path, level, true, held, rest) == []
  {
    var s := held + rest;
    assert s[..|held|] == held;
    ClosingAt(s, |held|);
    var atoms := Atoms(s);
    assert atoms == [TooLong(s)] && atoms[1..] == [];
    assert Expand(env, path, level, atoms[1..]) == [];
  }

  lemma TagLeftOpen(env: Env, path: bytes, level: nat, held: bytes)
    requires level <= 10 && held != [] && held[0] == LT && GT !in held && |held| < BUF_LEN - 1
    ensures Pending(env, path, level, true, held, []) == held
  {
    assert held + [] == held && held[..|held|] == held;
    ClosingAt(held, |held|);
    ExpandPlain(env, path, level, held);
  }

  lemma TextStep(env: Env, path: bytes, level: nat, held: bytes, rest: bytes)
    requires level <= 10 && rest != []
    ensures rest[0] != LT ==>
              Pending(env, path, level, false, held, rest)
                  == Pending(env, path, level, false, held + [rest[0]], rest[1..])
    ensures rest[0] == LT ==>
              Pending(env, path, level, false, held, rest) == held + Pending(env, path, level, true, [LT], rest[1..])
  {
    if rest[0] != LT {
      var atoms := Atoms(rest);
      assert atoms == [Byte(rest[0])] + Atoms(rest[1..]) && atoms[1..] == Atoms(rest[1..]);
      Assoc(held, [rest[0]], Expand(env, path, level, Atoms(rest[1..])));
    } else {
      assert [LT] + rest[1..] == rest;
    }
  }

  lemma TagStep(env: Env, path: bytes, level: nat, held: bytes, rest: bytes)
    requires level <= 10 && rest != []
    ensures Pending(env, path, level, true, held, rest) == Pending(env, path, level, true, held + [rest[0]], rest[1..])
  {
    assert held + rest == held + [rest[0]] + rest[1..];
  }

  lemma Flush(env: Env, path: bytes, level: nat, held: bytes, rest: bytes)
    requires level <= 10
    ensures Pending(env, path, level, false, held, rest) == held + Pending(env, path, level, false, [], rest)
  {
    var e := Expand(env, path, level, Atoms(rest));
    assert [] + e == e;
  }

  /** `do_ssi_include` and `do_ssi_exec`, or nothing for an unknown command. */
  method ObeyTag(env: Env, path: bytes, level: nat, tag: bytes) returns (out: bytes)
    requires level <= 10
    ensures out == Obey(env, path, level, tag)
    decreases Fuel(level), 0
  {
    if |tag| > 12 && tag[5..12] == INCLUDE {
      match env.find(path, tag[12..]) {
        case Script(p) => out := SendSsiFile(env, p, level + 2);
        case Static(p) => out := env.read(p);
        case Missing => out := [];
      }
    } else if |tag| > 9 && tag[5..9] == EXEC {
      out := env.run(tag[9..]);
    } else {
      out := [];
    }
  }

  /** A byte inside a tag: what it makes the scanner write, and whether the tag has become too long. */
  method TagByte(env: Env, path: bytes, level: nat, buf: array<byte>, held: nat, ssi: bool, ch: byte, ghost rest: bytes)
    returns (written: bytes, inTag: bool, inSsiTag: bool, len: nat, tooLong: bool)
    requires level <= 10 && buf.Length == BUF_LEN && held < BUF_LEN && Scanning(true, ssi, buf[..held])
    requires rest != [] && rest[0] == ch
    modifies buf
    ensures !tooLong ==> len < BUF_LEN && Scanning(inTag, inSsiTag, buf[..len])
    ensures Pending(env, path, level, true, old(buf[..held]), rest)
         == if tooLong then [] else written + Pending(env, path, level, inTag, buf[..len], rest[1..])
    decreases Fuel(level), 1
  {
    hide Pending, Obey;
    ghost var tag := buf[..held];
    buf[held] := ch;
    len := held + 1;
    assert buf[..len] == tag + [ch];
    if ch == GT {
      TagCloses(env, path, level, tag, rest);
      if ssi {
        buf[len] := 0;
        assert buf[..len] == tag + [GT];
        written := ObeyTag(env, path, level, buf[..len]);
      } else {
        written := buf[..len];
      }
      inTag, inSsiTag, len, tooLong := false, false, 0, false;
      assert buf[..len] == [];
    } else {
      TagStep(env, path, level, tag, rest);
      TagGrows(tag, ch, ssi);
      inTag, inSsiTag := true, ssi;
      assert len == 5 ==> buf[..5] == tag + [ch];
      if len == 5 && buf[..5] == SSI_START {
        inSsiTag := true;
      }
      written, tooLong := [], len + 2 > BUF_LEN;
      if tooLong {
        TagTooLong(env, path, level, buf[..len], rest[1..]);
      }
      NothingWritten(Pending(env, path, level, true, buf[..len], rest[1..]));
    }
  }

  lemma NothingWritten(t: bytes)
    ensures [] + t == t
  {
  }

  /** A byte outside tags. */
  method TextByte(ghost env: Env, ghost path: bytes, ghost level: nat, buf: array<byte>, held: nat, ch: byte,
      ghost rest: bytes)
    returns (written: bytes, inTag: bool, len: nat)
    requires level <= 10 && buf.Length == BUF_LEN && held < BUF_LEN
    requires rest != [] && rest[0] == ch
    modifies buf
    ensures len < BUF_LEN && Scanning(inTag, false, buf[..len])
    ensures Pending(env, path, level, false, old(buf[..held]), rest)
         == written + Pending(env, path, level, inTag, buf[..len], rest[1..])
  {
    hide Pending;
    ghost var text := buf[..held];
    TextStep(env, path, level, text, rest);
    if ch == LT {
      written := buf[..held];
      inTag, len := true, 1;
      buf[0] := LT;
      assert buf[..1] == [LT];
    } else {
      buf[held] := ch;
      written, inTag, len := [], false, held + 1;
      assert buf[..len] == text + [ch];
      NothingWritten(Pending(env, path, level, false, buf[..len], rest[1..]));
      if len == BUF_LEN {
        Flush(env, path, level, buf[..len], rest[1..]);
        written := buf[..len];
        len := 0;
        assert buf[..len] == [];
      }
    }
  }

  /** `send_ssi_file`, all writes to the connection one after the other. */
  method SendSsiFile(env: Env, path: bytes, level: nat) returns (out: bytes)
    ensures out == Page(env, path, level)
    decreases Fuel(level), 2
  {
    out := [];
    if level > 10 {
      return;
    }
    var file := env.read(path);
    var buf := new byte[BUF_LEN];
    var inTag, inSsiTag, len := false, false, 0;
    Begin(env, path, level);
    assert buf[..0] == [] && file[0..] == file;
    NothingWritten(Pending(env, path, level, false, [], file));
    hide Pending, Obey, Page, Expand, Atoms;
    for i := 0 to |file|
      invariant len < BUF_LEN
      invariant Page(env, path, level) == out + Pending(env, path, level, inTag, buf[..len], file[i..])
      invariant Scanning(inTag, inSsiTag, buf[..len])
    {
      ghost var done, rest := out, file[i..];
      assert rest[0] == file[i] && rest[1..] == file[i + 1..];
      var written, tooLong := [], false;
      if inTag {
        written, inTag, inSsiTag, len, tooLong := TagByte(env, path, level, buf, len, inSsiTag, file[i], rest);
      } else {
        written, inTag, len := TextByte(env, path, level, buf, len, file[i], rest);
      }
      if tooLong {
        assert out + [] == out;
        return;
      }
      out := out + written;
      Assoc(done, written, Pending(env, path, level, inTag, buf[..len], rest[1..]));
    }
    assert file[|file|..] == [];
    Ending(env, path, level, inTag, buf[..len]);
    out := out + buf[..len];
  }

  /** What the buffer holds between two bytes. */
  ghost predicate Scanning(inTag: bool, inSsiTag: bool, held: bytes) {
    if inTag then
      held != [] && held[0] == LT && GT !in held && |held| < BUF_LEN - 1 && (inSsiTag <==> SSI_START <= held)
    else !inSsiTag && |held| < BUF_LEN
  }

  lemma TagGrows(held: bytes, c: byte, inSsiTag: bool)
    requires Scanning(true, inSsiTag, held) && c != GT
    ensures var more := held + [c];
            && more[0] == LT && GT !in more
            && (|more| < BUF_LEN - 1 ==> Scanning(true, inSsiTag || more == SSI_START, more))
  {
    var more := held + [c];
    assert SSI_START <= more <==> SSI_START <= held || more == SSI_START;
  }

  lemma Begin(env: Env, path: bytes, level: nat)
    requires level <= 10
    ensures Page(env, path, level) == Pending(env, path, level, false, [], env.read(path))
  {
    assert forall t: bytes :: [] + t == t;
  }

  lemma Ending(env: Env, path: bytes, level: nat, inTag: bool, held: bytes)
    requires level <= 10
    requires inTag ==> held != [] && held[0] == LT && GT !in held && |held| < BUF_LEN - 1
    ensures Pending(env, path, level, inTag, held, []) == held
  {
    if inTag {
      TagLeftOpen(env, path, level, held);
    } else {
      assert held + [] == held;
    }
  }
}
