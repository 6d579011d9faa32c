/** The chunked transfer coding: what is sent, and what one read takes from the body stream. */
module ChunkedModel {
  import opened Bytes

  const CR: byte := 0x0D
  const LF: byte := 0x0A
  const CRLF: bytes := [CR, LF]
  const LENBUF_SIZE: nat := 64
  const ULONG_MAX: nat := 0xFFFF_FFFF_FFFF_FFFF

  predicate IsHexDigit(c: byte) {
    0x30 <= c <= 0x39 || 0x41 <= c <= 0x46 || 0x61 <= c <= 0x66
  }

  function HexDigitValue(c: byte): nat
    requires IsHexDigit(c)
  {
    if c <= 0x39 then c - 0x30 else if c <= 0x46 then c - 0x41 + 10 else c - 0x61 + 10
  }

  /** `%x` */
  function HexText(n: nat): (s: bytes)
    ensures s != []
  {
    var digit := if n % 0x10 < 10 then 0x30 + n % 0x10 else 0x61 + n % 0x10 - 10;
    if n < 0x10 then [digit] else HexText(n / 0x10) + [digit]
  }

  /** What `http_chunk` writes. */
  function Chunk(piece: bytes): bytes {
    HexText(|piece|) + CRLF + piece + CRLF
  }

  /** The pieces in order, then the empty one that ends the body. */
  function Encode(pieces: seq<bytes>): bytes {
    if pieces == [] then Chunk([]) else Chunk(pieces[0]) + Encode(pieces[1..])
  }

  function Concat(pieces: seq<bytes>): bytes {
    if pieces == [] then [] else pieces[0] + Concat(pieces[1..])
  }

  // Reading

  datatype State = Reading | Finished | Failed

  /** Progress through a body: the state, what is left of the current chunk, and the bytes still to come. */
  datatype Body = Body(state: State, remainder: nat, stream: bytes)

  datatype Line = BadLine(rest: bytes) | Line(size: nat, rest: bytes)

  /** `strtoul` in base 16 on the leading digits. */
  function LeadingHex(line: bytes, acc: nat): nat
    decreases |line|
  {
    if line == [] || !IsHexDigit(line[0]) then Min(acc, ULONG_MAX)
    else LeadingHex(line[1..], acc * 0x10 + HexDigitValue(line[0]))
  }

  /** The loop that collects a chunk size line; `line` is what it has so far. */
  function ScanLine(line: bytes, s: bytes): (r: Line)
    ensures |r.rest| <= |s|
    ensures r.Line? ==> |r.rest| < |s|
    decreases |s|
  {
    if |line| >= LENBUF_SIZE - 1 || s == [] then BadLine(s)
    else
      var c, i := s[0], |line|;
      if i > 0 && c == CR && line[i - 1] != CR then ScanLine(line + [c], s[1..])
      else if i > 1 && c == LF && line[i - 1] == CR then Line(LeadingHex(line, 0), s[1..])
      else if !IsHexDigit(c) then BadLine(s[1..])
      else ScanLine(line + [c], s[1..])
  }

  datatype Taken = Taken(n: int, body: Body)

  /** Bytes of the current chunk, and the line break behind it once they are used up; -1 for an error. */
  function TakeData(b: Body, len: nat): (t: Taken)
    requires b.state == Reading && b.remainder > 0 && len > 0
    ensures t.n >= 0 ==> 1 <= t.n <= Min(len, |b.stream|) && |t.body.stream| < |b.stream|
  {
    var k := Min(Min(b.remainder, len), |b.stream|);
    var rest, left := b.stream[k..], b.remainder - k;
    if k == 0 then Taken(-1, b.(state := Failed))
    else if left > 0 then Taken(k, Body(Reading, left, rest))
    else if CRLF <= rest then Taken(k, Body(Reading, 0, rest[2..]))
    else Taken(-1, Body(Failed, 0, rest[Min(2, |rest|)..]))
  }

  datatype Outcome = Outcome(ret: int, data: bytes, body: Body)

  /** `http_read` of `len` more bytes on a chunked body, `got` being what this call has stored already. */
  function Read(b: Body, len: nat, got: bytes): (o: Outcome)
    ensures -1 <= o.ret <= |o.data|
    decreases |b.stream|
  {
    if len == 0 then Outcome(|got|, got, b)
    else if b.state == Finished then Outcome(0, got, b)
    else if b.state == Failed then Outcome(-1, got, b)
    else if b.remainder > 0 then
      var t := TakeData(b, len);
      if t.n < 0 then Outcome(-1, got, t.body)
      else Read(t.body, len - t.n, got + b.stream[..t.n])
    else
      var line := ScanLine([], b.stream);
      if line.BadLine? then Outcome(-1, got, Body(Failed, 0, line.rest))
      else if line.size == 0 then Outcome(|got|, got, Body(Finished, 0, line.rest))
      else Read(Body(Reading, line.size, line.rest), len, got)
  }

  /** The results of a run of reads. */
  function ReadMany(b: Body, lens: seq<nat>): seq<bytes>
    decreases |lens|
  {
    if lens == [] then []
    else
      var o := Read(b, lens[0], []);
      [if o.ret < 0 then [] else o.data[..o.ret]] + ReadMany(o.body, lens[1..])
  }

  /** `content` cut into pieces of the given lengths, empty once it is used up. */
  function Slices(content: bytes, lens: seq<nat>): seq<bytes> {
    if lens == [] then []
    else
      var k := Min(lens[0], |content|);
      [content[..k]] + Slices(content[k..], lens[1..])
  }

  // Size lines

  lemma {:induction false} HexTextShort(n: nat, k: nat)
    requires k > 0 && n < Pow16(k)
    ensures |HexText(n)| <= k
  {
    if n >= 0x10 {
      assert k > 1;
      HexTextShort(n / 0x10, k - 1);
    }
  }

  function Pow16(k: nat): nat {
    if k == 0 then 1 else 0x10 * Pow16(k - 1)
  }

  function HexFold(s: bytes, acc: nat): nat
    requires forall i :: 0 <= i < |s| ==> IsHexDigit(s[i])
    decreases |s|
  {
    if s == [] then acc else HexFold(s[1..], acc * 0x10 + HexDigitValue(s[0]))
  }

  lemma {:induction false} HexFoldSnoc(s: bytes, c: byte, acc: nat)
    requires (forall i :: 0 <= i < |s| ==> IsHexDigit(s[i])) && IsHexDigit(c)
    ensures forall i :: 0 <= i < |s + [c]| ==> IsHexDigit((s + [c])[i])
    ensures HexFold(s + [c], acc) == HexFold(s, acc) * 0x10 + HexDigitValue(c)
    decreases |s|
  {
    if s == [] {
      assert (s + [c])[1..] == [];
    } else {
      assert (s + [c])[1..] == s[1..] + [c];
      HexFoldSnoc(s[1..], c, acc * 0x10 + HexDigitValue(s[0]));
    }
  }

  lemma {:induction false} LeadingHexStops(s: bytes, rest: bytes, acc: nat)
    requires forall i :: 0 <= i < |s| ==> IsHexDigit(s[i])
    requires rest != [] && !IsHexDigit(rest[0])
    ensures LeadingHex(s + rest, acc) == Min(HexFold(s, acc), ULONG_MAX)
    decreases |s|
  {
    if s == [] {
      assert s + rest == rest;
    } else {
      assert (s + rest)[1..] == s[1..] + rest;
      LeadingHexStops(s[1..], rest, acc * 0x10 + HexDigitValue(s[0]));
    }
  }

  /** The scanner takes a line of digits up to its line break. */
  lemma {:induction false} ScanTakesLine(line: bytes, digits: bytes, rest: bytes)
    requires forall i :: 0 <= i < |line| ==> IsHexDigit(line[i])
    requires forall i :: 0 <= i < |digits| ==> IsHexDigit(digits[i])
    requires 0 < |line + digits| < LENBUF_SIZE - 2
    ensures ScanLine(line, digits + CRLF + rest) == Line(Min(HexFold(line + digits, 0), ULONG_MAX), rest)
    decreases |digits|
  {
    var s := digits + CRLF + rest;
    if digits == [] {
      assert line + digits == line;
      assert s[0] == CR && s[1..] == [LF] + rest && s[1..][1..] == rest;
      assert ScanLine(line, s) == ScanLine(line + [CR], s[1..]);
      LeadingHexStops(line, [CR], 0);
    } else {
      assert s[1..] == digits[1..] + CRLF + rest;
      assert line + digits == line + [digits[0]] + digits[1..];
      ScanTakesLine(line + [digits[0]], digits[1..], rest);
    }
  }

  /** `line` spells `n` in base 16: letters in either case, any number of zeros in front. */
  predicate Spells(line: bytes, n: nat)
    decreases |line|
  {
    if line == [] then n == 0
    else
      var c := line[|line| - 1];
      SpellsDigit(c, n % 16) && Spells(line[..|line| - 1], n / 16)
  }

  lemma DigitReads(d: nat, c: byte)
    requires SpellsDigit(c, d)
    ensures IsHexDigit(c) && HexDigitValue(c) == d
  {
  }

  lemma {:induction false} SpelledReads(line: bytes, n: nat)
    requires Spells(line, n)
    ensures forall i :: 0 <= i < |line| ==> IsHexDigit(line[i])
    ensures HexFold(line, 0) == n
    decreases |line|
  {
    if line != [] {
      var init, c := line[..|line| - 1], line[|line| - 1];
      assert line == init + [c];
      DigitReads(n % 16, c);
      SpelledReads(init, n / 16);
      HexFoldSnoc(init, c, 0);
    }
  }

  /** A size line of up to 61 digits reads as the number it spells, however it is spelled. */
  lemma SizeLineReads(line: bytes, n: nat, rest: bytes)
    requires 0 < |line| <= 61 && Spells(line, n)
    ensures ScanLine([], line + CRLF + rest) == Line(Min(n, 0xFFFF_FFFF_FFFF_FFFF), rest)
  {
    SpelledReads(line, n);
    assert [] + line == line;
    ScanTakesLine([], line, rest);
  }

  lemma {:induction false} LongLineIsBad(line: bytes, digits: bytes, rest: bytes)
    requires forall i :: 0 <= i < |digits| ==> IsHexDigit(digits[i])
    requires |line| < LENBUF_SIZE && |line| + |digits| > 61 && (line == [] || IsHexDigit(line[|line| - 1]))
    ensures ScanLine(line, digits + CRLF + rest).BadLine?
    decreases |digits|
  {
    var s := digits + CRLF + rest;
    if |line| < 63 {
      if digits == [] {
        assert s[0] == CR;
      } else {
        assert s[1..] == digits[1..] + CRLF + rest && s[0] == digits[0];
        LongLineIsBad(line + [digits[0]], digits[1..], rest);
      }
    }
  }

  predicate TableDigit(c: byte) {
    c in LOWER_DIGITS || c in UPPER_DIGITS
  }

  lemma TableDigits(c: byte)
    ensures IsHexDigit(c) <==> TableDigit(c)
  {
    if 0x30 <= c <= 0x39 {
      assert LOWER_DIGITS[c - 0x30] == c;
    } else if 0x41 <= c <= 0x46 {
      assert UPPER_DIGITS[c - 0x41 + 10] == c;
    } else if 0x61 <= c <= 0x66 {
      assert LOWER_DIGITS[c - 0x61 + 10] == c;
    }
  }

  lemma {:induction false} StopsAtOther(line: bytes, digits: bytes, c: byte, rest: bytes)
    requires (forall i :: 0 <= i < |digits| ==> IsHexDigit(digits[i])) && !IsHexDigit(c)
    requires line == [] || IsHexDigit(line[|line| - 1])
    requires c != CR || line + digits == []
    ensures ScanLine(line, digits + [c] + rest).BadLine?
    decreases |digits|
  {
    var s := digits + [c] + rest;
    if |line| < 63 {
      if digits == [] {
        assert s[0] == c && line + digits == line;
      } else {
        assert s[1..] == digits[1..] + [c] + rest && s[0] == digits[0];
        assert line + [digits[0]] + digits[1..] == line + digits;
        StopsAtOther(line + [digits[0]], digits[1..], c, rest);
      }
    }
  }

  /** Digits and a line break are a size line exactly if there are 1 to 61 digits;
      digits and any other byte are none. */
  lemma SizeLineIff(digits: bytes, c: byte, rest: bytes)
    requires forall d :: d in digits ==> TableDigit(d)
    ensures ScanLine([], digits + CRLF + rest).Line? <==> 0 < |digits| <= 61
    ensures !TableDigit(c) && c != CR ==> ScanLine([], digits + [c] + rest).BadLine?
  {
    forall i | 0 <= i < |digits| ensures IsHexDigit(digits[i]) {
      TableDigits(digits[i]);
    }
    TableDigits(c);
    TableDigits(CR);
    assert [] + digits == digits;
    if |digits| > 61 {
      LongLineIsBad([], digits, rest);
    } else if digits == [] {
      assert digits + CRLF + rest == digits + [CR] + ([LF] + rest);
      StopsAtOther([], digits, CR, [LF] + rest);
    } else {
      ScanTakesLine([], digits, rest);
    }
    if !IsHexDigit(c) && c != CR {
      StopsAtOther([], digits, c, rest);
    }
  }

  /** The spelling of the sender. */
  lemma {:induction false} HexTextSpells(n: nat)
    ensures Spells(HexText(n), n)
  {
    var line := HexText(n);
    if n >= 16 {
      HexTextSpells(n / 16);
      assert line[..|line| - 1] == HexText(n / 16);
    } else {
      assert line[..0] == [];
    }
  }

  lemma SentSize(n: nat)
    requires n < 0x1_0000_0000
    ensures 0 < |HexText(n)| <= 8 && Spells(HexText(n), n)
  {
    assert Pow16(8) == 0x1_0000_0000 by {
      assert Pow16(2) == 0x100 && Pow16(4) == 0x10000 && Pow16(6) == 0x100_0000;
    }
    HexTextShort(n, 8);
    HexTextSpells(n);
  }

  // Bodies

  /** A chunk as it is on the wire: the spelling of its size, and its data. */
  datatype Sized = Sized(size: bytes, data: bytes)

  function BodyText(chunks: seq<Sized>, end: bytes): bytes {
    if chunks == [] then end + CRLF + CRLF
    else chunks[0].size + CRLF + chunks[0].data + CRLF + BodyText(chunks[1..], end)
  }

  function Content(chunks: seq<Sized>): bytes {
    if chunks == [] then [] else chunks[0].data + Content(chunks[1..])
  }

  predicate SizeLine(line: bytes, n: nat) {
    0 < |line| <= 61 && n <= ULONG_MAX && Spells(line, n)
  }

  /** Every size line spells the length of its data, which is not empty; the last one spells zero. */
  ghost predicate WellSized(chunks: seq<Sized>, end: bytes) {
    SizeLine(end, 0) && forall c :: c in chunks ==> c.data != [] && SizeLine(c.size, |c.data|)
  }

  /** The stream when `cur` is left of the current chunk and `chunks` are still to come. */
  function Wire(cur: bytes, chunks: seq<Sized>, end: bytes, tail: bytes): bytes {
    if cur == [] then BodyText(chunks, end) + tail else cur + CRLF + (BodyText(chunks, end) + tail)
  }

  lemma NextChunk(c: Sized, chunks: seq<Sized>, end: bytes, tail: bytes)
    requires c.data != [] && SizeLine(c.size, |c.data|)
    ensures ScanLine([], Wire([], [c] + chunks, end, tail)) == Line(|c.data|, Wire(c.data, chunks, end, tail))
  {
    var all := [c] + chunks;
    assert all[1..] == chunks;
    var rest := c.data + CRLF + (BodyText(chunks, end) + tail);
    assert BodyText(all, end) + tail == c.size + CRLF + rest;
    SizeLineReads(c.size, |c.data|, rest);
  }

  lemma LastChunk(end: bytes, tail: bytes)
    requires SizeLine(end, 0)
    ensures ScanLine([], Wire([], [], end, tail)) == Line(0, CRLF + tail)
  {
    assert BodyText([], end) + tail == end + CRLF + (CRLF + tail);
    SizeLineReads(end, 0, CRLF + tail);
  }

  /** Where a read of `len` bytes leaves a body whose remaining content is `cur` and then `chunks`. */
  ghost predicate Left(b: Body, content: bytes, tail: bytes) {
    || (content == [] && b.state == Finished && b.remainder == 0)
    || (exists cur, chunks, end :: LeftAs(b, content, tail, cur, chunks, end))
  }

  ghost predicate LeftAs(b: Body, content: bytes, tail: bytes, cur: bytes, chunks: seq<Sized>, end: bytes) {
    WellSized(chunks, end) && content == cur + Content(chunks)
        && b == Body(Reading, |cur|, Wire(cur, chunks, end, tail))
  }

  lemma ReadPartOfChunk(cur: bytes, chunks: seq<Sized>, end: bytes, tail: bytes, len: nat, got: bytes)
    requires 0 < len < |cur|
    ensures Read(Body(Reading, |cur|, Wire(cur, chunks, end, tail)), len, got)
         == Outcome(|got| + len, got + cur[..len], Body(Reading, |cur| - len, Wire(cur[len..], chunks, end, tail)))
  {
    hide BodyText;
    var s := Wire(cur, chunks, end, tail);
    assert s[..len] == cur[..len] && s[len..] == Wire(cur[len..], chunks, end, tail);
  }

  lemma ReadWholeChunk(cur: bytes, chunks: seq<Sized>, end: bytes, tail: bytes, len: nat, got: bytes)
    requires 0 < |cur| <= len
    ensures Read(Body(Reading, |cur|, Wire(cur, chunks, end, tail)), len, got)
         == Read(Body(Reading, 0, Wire([], chunks, end, tail)), len - |cur|, got + cur)
  {
    var s, next := Wire(cur, chunks, end, tail), BodyText(chunks, end) + tail;
    hide BodyText;
    assert s == cur + (CRLF + next);
    assert s[..|cur|] == cur && s[|cur|..] == CRLF + next && (CRLF + next)[2..] == next;
  }

  lemma ReadAcrossSize(chunks: seq<Sized>, end: bytes, tail: bytes, len: nat, got: bytes)
    requires WellSized(chunks, end) && chunks != [] && len > 0
    ensures Read(Body(Reading, 0, Wire([], chunks, end, tail)), len, got)
         == Read(Body(Reading, |chunks[0].data|, Wire(chunks[0].data, chunks[1..], end, tail)), len, got)
  {
    assert chunks == [chunks[0]] + chunks[1..];
    NextChunk(chunks[0], chunks[1..], end, tail);
    hide Wire, ScanLine;
  }

  lemma ReadEnd(end: bytes, tail: bytes, len: nat, got: bytes)
    requires len > 0 && SizeLine(end, 0)
    ensures Read(Body(Reading, 0, Wire([], [], end, tail)), len, got)
        == Outcome(|got|, got, Body(Finished, 0, CRLF + tail))
  {
    LastChunk(end, tail);
    hide Wire, ScanLine;
  }

  ghost predicate Delivers(o: Outcome, content: bytes, len: nat, got: bytes, tail: bytes) {
    var k := Min(len, |content|);
    o.ret == |got| + k && o.data == got + content[..k] && Left(o.body, content[k..], tail)
  }

  lemma DeliversMore(o: Outcome, cur: bytes, more: bytes, len: nat, got: bytes, tail: bytes)
    requires |cur| <= len && Delivers(o, more, len - |cur|, got + cur, tail)
    ensures Delivers(o, cur + more, len, got, tail)
  {
    hide Left;
    var n := Min(len - |cur|, |more|);
    var k := |cur| + n;
    assert (cur + more)[k..] == more[n..];
    assert got + cur + more[..n] == got + (cur + more)[..k];
  }

  lemma DeliversPart(cur: bytes, chunks: seq<Sized>, end: bytes, tail: bytes, len: nat, got: bytes)
    requires WellSized(chunks, end) && (len < |cur| || len == 0)
    ensures Delivers(Read(Body(Reading, |cur|, Wire(cur, chunks, end, tail)), len, got),
                     cur + Content(chunks), len, got, tail)
  {
    var content := cur + Content(chunks);
    if len == 0 {
      assert LeftAs(Body(Reading, |cur|, Wire(cur, chunks, end, tail)), content, tail, cur, chunks, end);
      assert content[0..] == content && got + content[..0] == got;
    } else {
      ReadPartOfChunk(cur, chunks, end, tail, len, got);
      hide Wire, Read, Content;
      assert content[len..] == cur[len..] + Content(chunks) && content[..len] == cur[..len];
      assert LeftAs(Body(Reading, |cur| - len, Wire(cur[len..], chunks, end, tail)), content[len..], tail,
                    cur[len..], chunks, end);
    }
  }

  /** One read: as much as was asked for, or all that is left; never a byte of the framing. */
  lemma {:induction false} ReadDelivers(cur: bytes, chunks: seq<Sized>, end: bytes, tail: bytes, len: nat, got: bytes)
    requires WellSized(chunks, end)
    ensures Delivers(Read(Body(Reading, |cur|, Wire(cur, chunks, end, tail)), len, got),
                     cur + Content(chunks), len, got, tail)
    decreases |chunks|, |cur|
  {
    hide Wire, Read;
    if len < |cur| || len == 0 {
      DeliversPart(cur, chunks, end, tail, len, got);
    } else if cur == [] && chunks == [] {
      ReadEnd(end, tail, len, got);
      assert got + [] == got;
    } else if cur == [] {
      ReadAcrossSize(chunks, end, tail, len, got);
      ReadDelivers(chunks[0].data, chunks[1..], end, tail, len, got);
      assert cur + Content(chunks) == chunks[0].data + Content(chunks[1..]);
    } else {
      hide Delivers, Content;
      ReadWholeChunk(cur, chunks, end, tail, len, got);
      ReadDelivers([], chunks, end, tail, len - |cur|, got + cur);
      assert [] + Content(chunks) == Content(chunks);
      DeliversMore(Read(Body(Reading, |cur|, Wire(cur, chunks, end, tail)), len, got), cur, Content(chunks), len, got,
          tail);
    }
  }

  lemma ReadLeft(b: Body, content: bytes, tail: bytes, len: nat)
    requires Left(b, content, tail) && len > 0
    ensures Delivers(Read(b, len, []), content, len, [], tail)
  {
    if cur, chunks, end :| LeftAs(b, content, tail, cur, chunks, end) {
      ReadDelivers(cur, chunks, end, tail, len, []);
    }
  }

  lemma {:induction false} ReadManyDelivers(b: Body, content: bytes, tail: bytes, lens: seq<nat>)
    requires Left(b, content, tail) && forall i :: 0 <= i < |lens| ==> lens[i] > 0
    ensures ReadMany(b, lens) == Slices(content, lens)
    decreases |lens|
  {
    if lens != [] {
      ReadLeft(b, content, tail, lens[0]);
      hide Read, Left;
      var o, k := Read(b, lens[0], []), Min(lens[0], |content|);
      assert [] + content[..k] == content[..k] && o.data[..k] == content[..k];
      ReadManyDelivers(o.body, content[k..], tail, lens[1..]);
    }
  }

  /** Reads of any positive lengths over a body give back exactly its data, then nothing, however the sizes are
      spelled. */
  lemma ReadsGiveContent(chunks: seq<Sized>, end: bytes, tail: bytes, lens: seq<nat>)
    requires WellSized(chunks, end) && forall i :: 0 <= i < |lens| ==> lens[i] > 0
    ensures ReadMany(Body(Reading, 0, BodyText(chunks, end) + tail), lens) == Slices(Content(chunks), lens)
  {
    var b := Body(Reading, 0, BodyText(chunks, end) + tail);
    assert LeftAs(b, Content(chunks), tail, [], chunks, end) by {
      assert [] + Content(chunks) == Content(chunks);
    }
    ReadManyDelivers(b, Content(chunks), tail, lens);
  }

  // What the library sends

  function AsSent(pieces: seq<bytes>): (chunks: seq<Sized>)
    ensures |chunks| == |pieces|
    ensures forall i :: 0 <= i < |pieces| ==> chunks[i] == Sized(HexText(|pieces[i]|), pieces[i])
  {
    seq(|pieces|, i requires 0 <= i < |pieces| => Sized(HexText(|pieces[i]|), pieces[i]))
  }

  ghost predicate Sendable(pieces: seq<bytes>) {
    forall p :: p in pieces ==> 0 < |p| < 0x1_0000_0000
  }

  lemma {:induction false} SentIsBody(pieces: seq<bytes>)
    ensures Encode(pieces) == BodyText(AsSent(pieces), HexText(0)) && Concat(pieces) == Content(AsSent(pieces))
    decreases |pieces|
  {
    if pieces == [] {
      assert HexText(0) + CRLF + [] + CRLF == HexText(0) + CRLF + CRLF;
    } else {
      assert AsSent(pieces)[1..] == AsSent(pieces[1..]);
      SentIsBody(pieces[1..]);
    }
  }

  lemma SentIsWellSized(pieces: seq<bytes>)
    requires Sendable(pieces)
    ensures WellSized(AsSent(pieces), HexText(0))
  {
    SentSize(0);
    forall c | c in AsSent(pieces) ensures c.data != [] && SizeLine(c.size, |c.data|) {
      var i :| 0 <= i < |pieces| && c == AsSent(pieces)[i];
      SentSize(|pieces[i]|);
    }
  }

  /** So what was sent in pieces is read back as their bytes. */
  lemma SentReadsBack(pieces: seq<bytes>, tail: bytes, lens: seq<nat>)
    requires Sendable(pieces) && forall i :: 0 <= i < |lens| ==> lens[i] > 0
    ensures ReadMany(Body(Reading, 0, Encode(pieces) + tail), lens) == Slices(Concat(pieces), lens)
  {
    SentIsBody(pieces);
    SentIsWellSized(pieces);
    ReadsGiveContent(AsSent(pieces), HexText(0), tail, lens);
  }
}
