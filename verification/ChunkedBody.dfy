/** Reading a request body: a buffered prefix, then the socket, under a running budget. */
module ChunkedBody {
  import opened Bytes
  import opened Socket
  import opened ChunkedModel

  const INT_MAX: nat := 0x7FFF_FFFF
  const INT64_MAX: nat := 0x7FFF_FFFF_FFFF_FFFF

  lemma TakeTwice(s: bytes, rest: bytes, i: nat, j: nat, whole: bytes, first: bytes, second: bytes)
    requires i + j <= |s| && rest == s[i..]
    requires whole == first + second && first == s[..i] && second == rest[..j]
    ensures whole == s[..i + j] && rest[j..] == s[i + j..]
  {
  }

  lemma DropFront(a: bytes, b: bytes, k: nat)
    requires k <= |a|
    ensures (a + b)[..k] == a[..k] && (a + b)[k..] == a[k..] + b
  {
  }

  lemma TailOfSlice(a: array<byte>, i: nat, j: nat, k: nat)
    requires i <= j <= k <= a.Length
    ensures a[j..k] == a[i..k][j - i..]
  {
  }

  lemma SplitSlice(a: array<byte>, i: nat, j: nat, k: nat)
    requires i <= j <= k <= a.Length
    ensures a[i..k] == a[i..j] + a[j..k]
  {
  }

  class Conn {
    var buf: array<byte>
    var requestLen: nat
    var dataLen: nat
    var consumedContent: nat
    var contentLen: int
    var chunkRemainder: nat
    /** 0: not chunked, 1: reading chunks, 2: all read, 3: error. */
    var isChunked: nat
    var socket: Socket

    /** A request whose headers are read, body bytes from `request` on already buffered. */
    constructor (buffer: array<byte>, request: nat, filled: nat, sock: Socket)
      requires request <= filled <= buffer.Length
      ensures Chunked() && View() == Body(Reading, 0, buffer[request..filled] + sock.pending)
      ensures buf == buffer && socket == sock
    {
      buf, requestLen, dataLen, socket := buffer, request, filled, sock;
      consumedContent, contentLen, chunkRemainder, isChunked := 0, 0, 0, 1;
    }

    ghost predicate Valid()
      reads this`requestLen, this`dataLen, this`buf
    {
      requestLen <= dataLen <= buf.Length
    }

    /** Body bytes still to come: buffered ones first. */
    ghost function Stream(): bytes
      requires Valid()
      reads this`requestLen, this`dataLen, this`consumedContent, this`buf, this`socket, buf, socket
    {
      (if consumedContent < dataLen - requestLen then buf[requestLen + consumedContent..dataLen] else [])
          + socket.pending
    }

    /** In chunked mode the budget is used up, except once the stream has ended. */
    ghost predicate BudgetSpent()
      requires Valid()
      reads this`requestLen, this`dataLen, this`consumedContent, this`contentLen, this`buf, this`socket, buf, socket
    {
      contentLen >= consumedContent && (contentLen > consumedContent ==> Stream() == [])
    }

    ghost predicate Chunked()
      reads this, buf, socket
    {
      Valid() && 0 < isChunked <= 3 && BudgetSpent()
    }

    ghost function View(): Body
      requires Valid()
      reads this, buf, socket
    {
      Body(if isChunked == 2 then Finished else if isChunked == 3 then Failed else Reading, chunkRemainder, Stream())
    }

    /** `_read_all`: from the socket until enough has come or it ends. */
    method ReadAll(dst: array<byte>, at: nat, len: nat) returns (n: int)
      requires at + len <= dst.Length
      modifies this`consumedContent, dst, socket
      ensures n == if len == 0 then 0 else if old(socket.pending) == [] then -1 else Min(len, |old(socket.pending)|)
      ensures n >= 0 ==> dst[at..at + n] == old(socket.pending)[..n] && socket.pending == old(socket.pending)[n..]
      ensures n < 0 ==> socket.pending == []
      ensures consumedContent == old(consumedContent) + if n < 0 then 0 else n
      ensures forall i :: 0 <= i < at ==> dst[i] == old(dst[i])
    {
      ghost var all := socket.pending;
      var nread: nat, left: nat := 0, len;
      while left > 0
        invariant nread + left == len && nread + |socket.pending| == |all|
        invariant dst[at..at + nread] == all[..nread] && socket.pending == all[nread..]
        invariant consumedContent == old(consumedContent) + nread
        invariant forall i :: 0 <= i < at ==> dst[i] == old(dst[i])
      {
        ghost var done := dst[at..at + nread];
        var k, chunk := socket.Read(left);
        if k < 0 {
          return if nread == 0 then k else nread;
        }
        forall i | 0 <= i < k {
          dst[at + nread + i] := chunk[i];
        }
        assert dst[at..at + nread + k] == done + chunk;
        assert all[..nread + k] == all[..nread] + chunk;
        consumedContent := consumedContent + k;
        nread := nread + k;
        left := left - k;
      }
      return nread;
    }

    /** How many of `len` bytes the budget admits. */
    function Want(len: nat): nat
      reads this
    {
      var budget := if contentLen < 0 then INT64_MAX else contentLen;
      if consumedContent < budget then Min(Min(len, INT_MAX), budget - consumedContent) else 0
    }

    /** `memcpy` out of the buffer. */
    static method CopyBytes(src: array<byte>, from: nat, dst: array<byte>, at: nat, take: nat)
      requires src != dst && from + take <= src.Length && at + take <= dst.Length
      modifies dst
      ensures dst[at..at + take] == src[from..from + take]
      ensures forall i :: 0 <= i < at ==> dst[i] == old(dst[i])
    {
      forall i | 0 <= i < take {
        dst[at + i] := src[from + i];
      }
    }

    /** The buffered part of a read. */
    method CopyBuffered(dst: array<byte>, at: nat, take: nat)
      requires Valid() && at + take <= dst.Length && dst != buf && requestLen + consumedContent + take <= dataLen
      modifies this`consumedContent, dst
      ensures Valid() && Stream() == old(Stream())[take..]
      ensures dst[at..at + take] == old(Stream())[..take]
      ensures consumedContent == old(consumedContent) + take
      ensures forall i :: 0 <= i < at ==> dst[i] == old(dst[i])
    {
      QueuedFirst();
      hide Stream;
      var from := requestLen + consumedContent;
      ghost var queued, network := buf[from..dataLen], socket.pending;
      CopyBytes(buf, from, dst, at, take);
      assert buf[from..from + take] == queued[..take];
      consumedContent := consumedContent + take;
      QueuedFirst();
      TailOfSlice(buf, from, from + take, dataLen);
      DropFront(queued, network, take);
    }

    lemma QueuedFirst()
      requires Valid() && requestLen + consumedContent <= dataLen
      ensures Stream() == buf[requestLen + consumedContent..dataLen] + socket.pending
    {
    }

    lemma Drained()
      requires Valid()
      ensures var queued := dataLen - requestLen - consumedContent;
              if queued <= 0 then Stream() == socket.pending else |Stream()| >= queued
    {
    }

    /** The rest of a read that starts with buffered bytes. */
    method ReadOn(dst: array<byte>, at: nat, want: nat) returns (n: nat)
      requires Valid() && at + want <= dst.Length && dst != buf && want > 0 && requestLen + consumedContent < dataLen
      modifies this`consumedContent, dst, socket
      ensures n == Min(want, |old(Stream())|)
      ensures dst[at..at + n] == old(Stream())[..n] && Stream() == old(Stream())[n..]
      ensures consumedContent == old(consumedContent) + n
      ensures forall i :: 0 <= i < at ==> dst[i] == old(dst[i])
    {
      hide Stream;
      ghost var s := Stream();
      Drained();
      var take := Min(want, dataLen - requestLen - consumedContent);
      CopyBuffered(dst, at, take);
      if take == want {
        return take;
      }
      ghost var first, rest := dst[at..at + take], socket.pending;
      Drained();
      var more := ReadAll(dst, at + take, want - take);
      Drained();
      assert dst[at..at + take] == first;
      if more < 0 {
        return take;
      }
      ghost var whole, second := dst[at..at + take + more], dst[at + take..at + take + more];
      SplitSlice(dst, at, at + take, at + take + more);
      TakeTwice(s, rest, take, more, whole, first, second);
      return take + more;
    }

    /** `_read_inner`: within the budget, buffered bytes and then the socket. */
    method ReadInner(dst: array<byte>, at: nat, len: nat) returns (n: int)
      requires Valid() && at + len <= dst.Length && dst != buf
      modifies this`consumedContent, dst, socket
      ensures n == if old(Want(len)) == 0 then 0
                  else if old(Stream()) == [] then -1
                  else Min(old(Want(len)), |old(Stream())|)
      ensures n >= 0 ==> dst[at..at + n] == old(Stream())[..n] && Stream() == old(Stream())[n..]
      ensures n < 0 ==> Stream() == []
      ensures consumedContent == old(consumedContent) + if n < 0 then 0 else n
      ensures forall i :: 0 <= i < at ==> dst[i] == old(dst[i])
    {
      var want := Want(len);
      if want == 0 {
        return 0;
      }
      if requestLen + consumedContent < dataLen {
        n := ReadOn(dst, at, want);
      } else {
        n := ReadAll(dst, at, want);
      }
    }

    /** `http_getc`: one byte under a budget raised by one; 0 at the end of the stream. */
    method Getc() returns (c: byte)
      requires Chunked()
      modifies this`consumedContent, this`contentLen, socket
      ensures Chunked()
      ensures c == if old(Stream()) == [] then 0 else old(Stream())[0]
      ensures Stream() == if old(Stream()) == [] then [] else old(Stream())[1..]
    {
      hide Stream;
      var one := new byte[1];
      ghost var s := Stream();
      contentLen := contentLen + 1;
      assert Stream() == s && Want(1) == 1;
      var n := ReadInner(one, 0, 1);
      if n <= 0 {
        return 0;
      }
      assert one[0..1] == s[..1];
      return one[0];
    }

    /** The chunk size line, collected byte by byte. */
    method ReadSizeLine() returns (ok: bool, size: nat)
      requires Chunked()
      modifies this`consumedContent, this`contentLen, socket
      ensures Chunked()
      ensures var line := ScanLine([], old(Stream()));
              (ok <==> line.Line?) && (ok ==> size == line.size) && Stream() == line.rest
    {
      hide Stream, BudgetSpent, LeadingHex;
      ghost var s := Stream();
      var lenbuf := new byte[LENBUF_SIZE];
      assert lenbuf[..0] == [];
      for i := 0 to LENBUF_SIZE - 1
        invariant Chunked()
        invariant ScanLine([], s) == ScanLine(lenbuf[..i], Stream())
      {
        ghost var line := lenbuf[..i];
        lenbuf[i] := Getc();
        assert lenbuf[..i] == line && lenbuf[..i + 1] == line + [lenbuf[i]];
        if i > 0 && lenbuf[i] == CR && lenbuf[i - 1] != CR {
          continue;
        }
        if i > 1 && lenbuf[i] == LF && lenbuf[i - 1] == CR {
          return true, LeadingHex(lenbuf[..i], 0);
        }
        if !IsHexDigit(lenbuf[i]) {
          return false, 0;
        }
      }
      return false, 0;
    }

    /** The line break behind a chunk. */
    method SkipLineBreak() returns (ok: bool)
      requires Chunked()
      modifies this`consumedContent, this`contentLen, socket
      ensures Chunked()
      ensures ok <==> CRLF <= old(Stream())
      ensures Stream() == old(Stream())[Min(2, |old(Stream())|)..]
    {
      hide Stream, BudgetSpent;
      ghost var s := Stream();
      var x1 := Getc();
      var x2 := Getc();
      assert |s| >= 2 ==> s[1..][1..] == s[2..] && s[1..][0] == s[1];
      return x1 == CR && x2 == LF;
    }

    /** Bytes of the current chunk, under a budget raised by as many. */
    method ReadCurrent(dst: array<byte>, at: nat, len: nat) returns (n: int)
      requires Chunked() && len > 0 && len <= INT_MAX && at + len <= dst.Length && dst != buf
      modifies this`consumedContent, this`contentLen, dst, socket
      ensures Chunked()
      ensures n == if old(Stream()) == [] then -1 else Min(len, |old(Stream())|)
      ensures n >= 0 ==> dst[at..at + n] == old(Stream())[..n] && Stream() == old(Stream())[n..]
      ensures n < 0 ==> Stream() == []
      ensures forall i :: 0 <= i < at ==> dst[i] == old(dst[i])
    {
      hide Stream;
      ghost var s := Stream();
      contentLen := contentLen + len;
      assert Stream() == s;
      assert s != [] ==> Want(len) == len;
      n := ReadInner(dst, at, len);
    }

    /** One turn inside a chunk. */
    method ReadChunkData(dst: array<byte>, at: nat, len: nat) returns (n: int)
      requires Chunked() && isChunked == 1 && chunkRemainder > 0
      requires 0 < len <= INT_MAX && at + len <= dst.Length && dst != buf
      modifies this`consumedContent, this`contentLen, this`chunkRemainder, this`isChunked, dst, socket
      ensures Chunked()
      ensures Taken(n, View()) == TakeData(old(View()), len)
      ensures n >= 0 ==> dst[at..at + n] == old(Stream())[..n]
      ensures forall i :: 0 <= i < at ==> dst[i] == old(dst[i])
    {
      hide Stream;
      var readNow := Min(chunkRemainder, len);
      var ret := ReadCurrent(dst, at, readNow);
      if ret < 1 {
        isChunked := 3;
        return -1;
      }
      chunkRemainder := chunkRemainder - ret;
      if chunkRemainder == 0 {
        var ok := SkipLineBreak();
        if !ok {
          isChunked := 3;
          return -1;
        }
      }
      return ret;
    }

    /** `http_read`. */
    method HttpRead(dst: array<byte>, len: nat) returns (ret: int)
      requires Chunked() && len <= dst.Length && dst != buf
      modifies this`consumedContent, this`contentLen, this`chunkRemainder, this`isChunked, dst, socket
      ensures Chunked()
      ensures var o := Read(old(View()), Min(len, INT_MAX), []);
              ret == o.ret <= len && View() == o.body && (ret >= 0 ==> dst[..ret] == o.data[..ret])
    {
      hide ScanLine, TakeData, Stream, BudgetSpent;
      var left: nat, allRead: nat := Min(len, INT_MAX), 0;
      ghost var b := View();
      assert dst[..0] == [];
      while left > 0
        invariant Chunked() && allRead + left == Min(len, INT_MAX)
        invariant Read(b, Min(len, INT_MAX), []) == Read(View(), left, dst[..allRead])
        decreases if isChunked == 1 then 1 else 0, |Stream()|
      {
        ghost var got := dst[..allRead];
        if isChunked == 2 {
          return 0;
        }
        if isChunked == 3 {
          return -1;
        }
        if chunkRemainder > 0 {
          var n := ReadChunkData(dst, allRead, left);
          if n < 0 {
            return -1;
          }
          assert dst[..allRead] == got;
          assert dst[..allRead + n] == got + dst[allRead..allRead + n];
          allRead := allRead + n;
          left := left - n;
        } else {
          var ok, size := ReadSizeLine();
          if !ok {
            isChunked := 3;
            return -1;
          }
          if size == 0 {
            isChunked := 2;
            break;
          }
          chunkRemainder := size;
        }
      }
      return allRead;
    }
  }
}
