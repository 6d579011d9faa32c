/** Finding the end of a message header, and reading until it is there. */
module HeaderScan {
  import opened Bytes
  import opened Socket

  const CR: byte := 0x0D
  const LF: byte := 0x0A

  /** A control character other than a line break. */
  predicate Malformed(c: byte) {
    c < 128 && c != CR && c != LF && !(0x20 <= c < 0x7F)
  }

  /** Length of the blank line that starts at `i`, 0 if none does. */
  function BlankLine(b: bytes, i: nat): (n: nat) {
    if i + 1 < |b| && b[i] == LF && b[i + 1] == LF then 2
    else if i + 3 < |b| && b[i] == CR && b[i + 1] == LF && b[i + 2] == CR && b[i + 3] == LF then 4
    else 0
  }

  /** `i` is the first place where the scan can stop. */
  ghost predicate StopsAt(b: bytes, i: nat) {
    && i < |b| && (Malformed(b[i]) || BlankLine(b, i) > 0)
    && forall j :: 0 <= j < i ==> !Malformed(b[j]) && BlankLine(b, j) == 0
  }

  function ScanFrom(b: bytes, i: nat): int
    requires i <= |b|
    decreases |b| - i
  {
    if i == |b| then 0
    else if Malformed(b[i]) then -1
    else if BlankLine(b, i) > 0 then i + BlankLine(b, i)
    else ScanFrom(b, i + 1)
  }

  function HeaderLength(b: bytes): int {
    ScanFrom(b, 0)
  }

  /** `get_http_header_len`. */
  method GetHeaderLength(buf: array<byte>, len: nat) returns (r: int)
    requires len <= buf.Length
    ensures r == HeaderLength(buf[..len])
  {
    ghost var b := buf[..len];
    for i := 0 to len
      invariant HeaderLength(b) == ScanFrom(b, i)
    {
      var c := buf[i];
      assert c == b[i];
      if c < 128 && c != CR && c != LF && !(0x20 <= c < 0x7F) {
        return -1;
      }
      if i < len - 1 {
        if buf[i] == LF && buf[i + 1] == LF {
          return i + 2;
        }
      }
      if i < len - 3 {
        if buf[i] == CR && buf[i + 1] == LF && buf[i + 2] == CR && buf[i + 3] == LF {
          return i + 4;
        }
      }
    }
    return 0;
  }

  lemma {:induction false} ScanStops(b: bytes, from: nat, i: nat)
    requires StopsAt(b, i) && from <= i
    ensures ScanFrom(b, from) == if Malformed(b[i]) then -1 else i + BlankLine(b, i)
    decreases i - from
  {
    if from < i {
      ScanStops(b, from + 1, i);
    }
  }

  lemma {:induction false} ScanFinds(b: bytes, from: nat) returns (i: nat)
    requires from <= |b| && ScanFrom(b, from) != 0
    requires forall j :: 0 <= j < from ==> !Malformed(b[j]) && BlankLine(b, j) == 0
    ensures StopsAt(b, i)
    decreases |b| - from
  {
    if Malformed(b[from]) || BlankLine(b, from) > 0 {
      i := from;
    } else {
      i := ScanFinds(b, from + 1);
    }
  }

  /** The answer is the end of the first blank line, or -1 for a control character before it;
      0 when neither is there. */
  lemma HeaderLengthMeaning(b: bytes)
    ensures HeaderLength(b) == 0 <==> forall i: nat :: !StopsAt(b, i)
    ensures forall i: nat :: StopsAt(b, i) ==> HeaderLength(b) == if Malformed(b[i]) then -1 else i + BlankLine(b, i)
    ensures -1 <= HeaderLength(b) <= |b|
  {
    forall i: nat | StopsAt(b, i) ensures HeaderLength(b) == if Malformed(b[i]) then -1 else i + BlankLine(b, i) {
      ScanStops(b, 0, i);
    }
    if HeaderLength(b) != 0 {
      var i := ScanFinds(b, 0);
      assert StopsAt(b, i);
    }
  }

  /** More bytes do not change an answer: no blank line can appear before the place where the scan stopped. */
  lemma MoreChangesNothing(b: bytes, more: bytes)
    requires HeaderLength(b) != 0
    ensures HeaderLength(b + more) == HeaderLength(b)
  {
    var i := ScanFinds(b, 0);
    var all := b + more;
    assert BlankLine(b, i) > 0 ==> BlankLine(all, i) == BlankLine(b, i);
    forall j | 0 <= j < i ensures !Malformed(all[j]) && BlankLine(all, j) == 0 {
      assert all[j] == b[j] && all[j + 1] == b[j + 1];
      assert j + 2 < |b| ==> all[j + 2] == b[j + 2];
      assert j + 3 < |b| ==> all[j + 3] == b[j + 3];
      assert BlankLine(b, j) == 0;
    }
    assert StopsAt(all, i);
    ScanStops(b, 0, i);
    ScanStops(all, 0, i);
  }

  /** What reading a message that starts with `total` ends with, in a buffer of `capacity` bytes. */
  function MessageLength(total: bytes, capacity: nat): int {
    var seen := total[..Min(capacity, |total|)];
    if HeaderLength(seen) != 0 then HeaderLength(seen) else if |total| >= capacity then -2 else -1
  }

  /** A control character other than a line break stands at `i`. */
  predicate ControlAt(b: bytes, i: nat) {
    i < |b| && b[i] != 0x0A && b[i] != 0x0D && (b[i] < 0x20 || b[i] == 0x7F)
  }

  /** A blank line: the two line breaks from `i` to `e`, both with or both without a carriage return. */
  predicate BlankLineFrom(b: bytes, i: nat, e: nat) {
    i <= e <= |b| && (b[i..e] == [0x0A, 0x0A] || b[i..e] == [0x0D, 0x0A, 0x0D, 0x0A])
  }

  ghost predicate BlankLineAt(b: bytes, i: nat) {
    exists e: nat :: BlankLineFrom(b, i, e)
  }

  /** Neither stands before `i`. */
  ghost predicate NothingBefore(b: bytes, i: nat) {
    forall j: nat :: j < i ==> !ControlAt(b, j) && !BlankLineAt(b, j)
  }

  lemma StopIsText(b: bytes, i: nat)
    ensures i < |b| && Malformed(b[i]) <==> ControlAt(b, i)
    ensures forall e: nat :: BlankLineFrom(b, i, e) <==> BlankLine(b, i) > 0 && e == i + BlankLine(b, i)
  {
    assert i + 2 <= |b| ==> b[i..i + 2] == [b[i], b[i + 1]];
    assert i + 4 <= |b| ==> b[i..i + 4] == [b[i], b[i + 1], b[i + 2], b[i + 3]];
  }

  lemma BlankIff(b: bytes, i: nat)
    ensures BlankLine(b, i) > 0 <==> BlankLineAt(b, i)
    ensures BlankLineAt(b, i) || ControlAt(b, i) ==> i < |b|
    ensures i < |b| ==> (Malformed(b[i]) <==> ControlAt(b, i))
  {
    StopIsText(b, i);
    BlankIsInside(b, i);
    if BlankLine(b, i) > 0 {
      assert BlankLineFrom(b, i, i + BlankLine(b, i));
    }
  }

  lemma StopsAtIff(b: bytes, i: nat)
    ensures StopsAt(b, i) <==> NothingBefore(b, i) && (ControlAt(b, i) || BlankLineAt(b, i))
  {
    hide Malformed, BlankLine, ControlAt, BlankLineAt;
    forall j: nat
      ensures BlankLine(b, j) > 0 <==> BlankLineAt(b, j)
      ensures BlankLineAt(b, j) || ControlAt(b, j) ==> j < |b|
      ensures j < |b| ==> (Malformed(b[j]) <==> ControlAt(b, j))
    {
      BlankIff(b, j);
    }
  }

  lemma BlankIsInside(b: bytes, i: nat)
    ensures BlankLine(b, i) > 0 ==> i < |b| && !Malformed(b[i])
  {
  }

  /** The header's length is the end of the first blank line, if no control character stands before it. */
  lemma HeaderEndsIff(b: bytes, e: nat)
    requires e > 0
    ensures HeaderLength(b) == e <==> exists i: nat :: NothingBefore(b, i) && BlankLineFrom(b, i, e)
  {
    HeaderLengthMeaning(b);
    hide HeaderLength, NothingBefore, StopsAt;
    if HeaderLength(b) == e {
      var i: nat :| StopsAt(b, i);
      StopsAtIff(b, i);
      StopIsText(b, i);
      BlankIsInside(b, i);
    }
    if i: nat :| NothingBefore(b, i) && BlankLineFrom(b, i, e) {
      StopsAtIff(b, i);
      StopIsText(b, i);
      BlankIsInside(b, i);
    }
  }

  lemma HeaderFailsIff(b: bytes)
    ensures HeaderLength(b) == -1 <==> exists i: nat :: NothingBefore(b, i) && ControlAt(b, i)
    ensures HeaderLength(b) == 0 <==> NothingBefore(b, |b|)
  {
    HeaderLengthMeaning(b);
    if HeaderLength(b) != 0 {
      var i: nat :| StopsAt(b, i);
      StopsAtIff(b, i);
      StopIsText(b, i);
      BlankIsInside(b, i);
    } else {
      NothingStops(b, |b|);
    }
    if i: nat :| NothingBefore(b, i) && ControlAt(b, i) {
      StopsAtIff(b, i);
      StopIsText(b, i);
    }
  }

  lemma {:induction false} NothingStops(b: bytes, n: nat)
    requires n <= |b| && forall i: nat :: !StopsAt(b, i)
    ensures NothingBefore(b, n)
    decreases n
  {
    if n > 0 {
      NothingStops(b, n - 1);
      StopsAtIff(b, n - 1);
    }
  }

  /** Reading ends with the end of the first blank line; with -1 for a control character before it, or if the bytes
      end before the buffer is full; with -2 if it is full and holds neither. */
  lemma MessageLengthMeaning(total: bytes, capacity: nat, e: nat)
    requires e > 0
    ensures var seen, r := total[..Min(capacity, |total|)], MessageLength(total, capacity);
            && (r == e <==> exists i: nat :: NothingBefore(seen, i) && BlankLineFrom(seen, i, e))
            && (r == -2 <==> NothingBefore(seen, |seen|) && |total| >= capacity)
            && (r == -1 <==> || (exists i: nat :: NothingBefore(seen, i) && ControlAt(seen, i))
                             || (NothingBefore(seen, |seen|) && |total| < capacity))
  {
    hide HeaderLength, NothingBefore, BlankLineFrom, ControlAt;
    var seen := total[..Min(capacity, |total|)];
    HeaderEndsIff(seen, e);
    HeaderFailsIff(seen);
    HeaderLengthMeaning(seen);
  }

  lemma DecidedEarly(total: bytes, n: nat, capacity: nat)
    requires n <= Min(capacity, |total|) && HeaderLength(total[..n]) != 0
    ensures MessageLength(total, capacity) == HeaderLength(total[..n])
  {
    var seen := total[..Min(capacity, |total|)];
    assert seen == total[..n] + seen[n..];
    MoreChangesNothing(total[..n], seen[n..]);
  }

  /** `read_message`: the result is a function of the bytes alone, however they arrive. */
  method ReadMessage(socket: Socket, buf: array<byte>, nread: nat) returns (requestLength: int, filled: nat)
    requires nread <= buf.Length
    modifies buf, socket
    ensures requestLength == MessageLength(old(buf[..nread]) + old(socket.pending), buf.Length)
    ensures nread <= filled <= buf.Length && requestLength <= filled
    ensures buf[..filled] + socket.pending == old(buf[..nread]) + old(socket.pending)
  {
    hide ScanFrom;
    ghost var total := buf[..nread] + socket.pending;
    filled := nread;
    requestLength := GetHeaderLength(buf, filled);
    while requestLength == 0
      invariant nread <= filled <= buf.Length
      invariant buf[..filled] + socket.pending == total
      invariant requestLength == HeaderLength(buf[..filled])
      decreases |socket.pending|, if requestLength == 0 then 1 else 0
    {
      assert total[..filled] == buf[..filled];
      if filled >= buf.Length {
        return -2, filled;
      }
      var n, chunk := socket.Read(buf.Length - filled);
      if n <= 0 {
        assert total == buf[..filled];
        return -1, filled;
      }
      ghost var before := buf[..filled];
      forall i | 0 <= i < n {
        buf[filled + i] := chunk[i];
      }
      assert buf[..filled + n] == before + chunk;
      filled := filled + n;
      requestLength := GetHeaderLength(buf, filled);
    }
    assert total[..filled] == buf[..filled];
    DecidedEarly(total, filled, buf.Length);
    HeaderLengthMeaning(buf[..filled]);
  }
}
