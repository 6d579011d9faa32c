/** WebSocket framing as the server runs it: masking by words, header filling, and the reader's queue. */
module WebSocket {
  import opened Bytes
  import opened Socket
  import opened WebSocketModel

  /** A 32-bit word in memory, least significant byte first. */
  function Word(b0: nat, b1: nat, b2: nat, b3: nat): nat {
    b0 + 0x100 * (b1 + 0x100 * (b2 + 0x100 * b3))
  }

  predicate IsWord(w: nat) {
    w < 0x100000000
  }

  function WordBytes(w: nat): (r: bytes)
    requires IsWord(w)
    ensures |r| == 4
  {
    [w % 0x100, w / 0x100 % 0x100, w / 0x100 / 0x100 % 0x100, w / 0x100 / 0x100 / 0x100]
  }

  lemma WordOfBytes(w: nat)
    requires IsWord(w)
    ensures var k := WordBytes(w); w == Word(k[0], k[1], k[2], k[3])
  {
  }

  lemma BytesOfWord(b0: byte, b1: byte, b2: byte, b3: byte)
    ensures IsWord(Word(b0, b1, b2, b3)) && WordBytes(Word(b0, b1, b2, b3)) == [b0, b1, b2, b3]
  {
    var h: nat := b2 + 0x100 * b3;
    var m: nat := b1 + 0x100 * h;
    assert (b0 + 0x100 * m) / 0x100 == m && m / 0x100 == h && h / 0x100 == b3;
  }

  /** Exclusive or on words acts on each of their bytes. */
  lemma WordXor(a0: byte, a1: byte, a2: byte, a3: byte, k0: byte, k1: byte, k2: byte, k3: byte)
    ensures Xor(Word(a0, a1, a2, a3), Word(k0, k1, k2, k3)) == Word(Xor(a0, k0), Xor(a1, k1), Xor(a2, k2), Xor(a3, k3))
  {
    hide Xor;
    var a23: nat, k23: nat := a2 + 0x100 * a3, k2 + 0x100 * k3;
    XorSplitByte(a2, k2, a3, k3);
    XorSplitByte(a1, k1, a23, k23);
    XorSplitByte(a0, k0, a1 + 0x100 * a23, k1 + 0x100 * k23);
  }

  method StoreWord(out: array<byte>, i: nat, w: nat)
    requires IsWord(w) && i + 4 <= out.Length
    modifies out
    ensures out[i..i + 4] == WordBytes(w)
    ensures forall j :: 0 <= j < i || i + 4 <= j < out.Length ==> out[j] == old(out[j])
  {
    out[i] := w % 0x100;
    out[i + 1] := w / 0x100 % 0x100;
    out[i + 2] := w / 0x100 / 0x100 % 0x100;
    out[i + 3] := w / 0x100 / 0x100 / 0x100;
  }

  lemma MaskedFour(data: bytes, k: bytes, i: nat)
    requires |k| == 4 && i + 4 <= |data| && i % 4 == 0
    ensures Masked(data, k)[i..i + 4]
         == [XorByte(data[i], k[0]), XorByte(data[i + 1], k[1]), XorByte(data[i + 2], k[2]), XorByte(data[i + 3], k[3])]
  {
    hide XorByte;
    assert (i + 1) % 4 == 1 && (i + 2) % 4 == 2 && (i + 3) % 4 == 3;
  }

  lemma MaskedWord(data: bytes, i: nat, key: nat)
    requires IsWord(key) && i + 4 <= |data| && i % 4 == 0
    ensures var w := Xor(Word(data[i], data[i + 1], data[i + 2], data[i + 3]), key);
            IsWord(w) && WordBytes(w) == Masked(data, WordBytes(key))[i..i + 4]
  {
    var k := WordBytes(key);
    WordOfBytes(key);
    WordXor(data[i], data[i + 1], data[i + 2], data[i + 3], k[0], k[1], k[2], k[3]);
    hide Xor, Word, WordBytes, IsWord, Masked;
    var x0, x1 := XorByte(data[i], k[0]), XorByte(data[i + 1], k[1]);
    var x2, x3 := XorByte(data[i + 2], k[2]), XorByte(data[i + 3], k[3]);
    BytesOfWord(x0, x1, x2, x3);
    MaskedFour(data, k, i);
  }

  /** The word loop of `mask_data`. */
  method MaskWords(data: bytes, key: nat, out: array<byte>) returns (i: nat)
    requires IsWord(key) && out.Length == |data| > 3
    modifies out
    ensures i <= |data| && out[..i] == Masked(data, WordBytes(key))[..i]
  {
    hide Word, XorByte, Xor, WordBytes, Masked, IsWord;
    ghost var m := Masked(data, WordBytes(key));
    i := 0;
    while i < |data| - 3
      invariant i % 4 == 0 && i <= |data|
      invariant out[..i] == m[..i]
    {
      MaskedWord(data, i, key);
      StoreWord(out, i, Xor(Word(data[i], data[i + 1], data[i + 2], data[i + 3]), key));
      assert out[..i + 4] == out[..i] + out[i..i + 4];
      assert m[..i + 4] == m[..i] + m[i..i + 4];
      i := i + 4;
    }
  }

  /** `mask_data`: four bytes at a time while the input is aligned, the rest one by one. */
  method MaskData(data: bytes, key: nat, aligned: bool) returns (out: array<byte>)
    requires IsWord(key)
    ensures fresh(out) && out[..] == Masked(data, WordBytes(key))
  {
    hide Word, XorByte, Xor;
    out := new byte[|data|];
    ghost var m := Masked(data, WordBytes(key));
    var i := 0;
    if |data| > 3 && aligned {
      i := MaskWords(data, key, out);
    }
    var k := WordBytes(key);
    while i < |data|
      invariant i <= |data|
      invariant out[..i] == m[..i]
    {
      out[i] := XorByte(data[i], k[i % 4]);
      assert out[..i + 1] == out[..i] + [out[i]];
      assert m[..i + 1] == m[..i] + [m[i]];
      i := i + 1;
    }
    assert out[..] == out[..|data|] && m == m[..|data|];
  }

  /** The length bytes of the header, without the mask bit. */
  method FillLength(header: array<byte>, n: nat) returns (headerLen: nat)
    requires header.Length == 14 && n < SIZE_LIMIT
    modifies header
    ensures header[0] == old(header[0]) && headerLen == 1 + |LengthField(n, false)| <= 10
    ensures header[1..headerLen] == LengthField(n, false)
  {
    if n < 126 {
      header[1] := n;
      headerLen := 2;
    } else if n <= 0xFFFF {
      header[1] := 126;
      header[2] := n / 0x100;
      header[3] := n % 0x100;
      headerLen := 4;
      ShortLength(n);
    } else {
      header[1] := 127;
      StoreNetworkWord(header, 2, n / WORD);
      ghost var high := header[2..6];
      StoreNetworkWord(header, 6, n % WORD);
      headerLen := 10;
      LongLength(n);
      hide BigEndian;
      assert header[2..6] == high && header[1..10] == [header[1]] + (header[2..6] + header[6..10]);
    }
    hide BigEndian;
  }

  const WORD: nat := 0x1_0000_0000

  /** `htonl` and `memcpy` */
  method StoreNetworkWord(header: array<byte>, i: nat, w: nat)
    requires i + 4 <= header.Length && w < WORD
    modifies header
    ensures header[i..i + 4] == BigEndian(w, 4)
    ensures forall j :: 0 <= j < i || i + 4 <= j < header.Length ==> header[j] == old(header[j])
  {
    header[i] := w / 0x100 / 0x100 / 0x100;
    header[i + 1] := w / 0x100 / 0x100 % 0x100;
    header[i + 2] := w / 0x100 % 0x100;
    header[i + 3] := w % 0x100;
    FourBytes(w);
    hide BigEndian;
  }

  lemma FourBytes(w: nat)
    requires w < WORD
    ensures BigEndian(w, 4) == [w / 0x100 / 0x100 / 0x100, w / 0x100 / 0x100 % 0x100, w / 0x100 % 0x100, w % 0x100]
  {
    var a, b, c := w / 0x100, w / 0x100 / 0x100, w / 0x100 / 0x100 / 0x100;
    assert BigEndian(w, 4) == BigEndian(a, 3) + [w % 0x100];
    assert BigEndian(a, 3) == BigEndian(b, 2) + [a % 0x100];
    assert BigEndian(b, 2) == BigEndian(c, 1) + [b % 0x100];
    assert BigEndian(c, 1) == BigEndian(0, 0) + [c];
  }

  method SetMaskBit(header: array<byte>, headerLen: nat, ghost n: nat)
    requires header.Length == 14 && n < SIZE_LIMIT && 2 <= headerLen <= 10
    requires header[1..headerLen] == LengthField(n, false)
    modifies header
    ensures header[1..headerLen] == LengthField(n, true) && header[0] == old(header[0])
  {
    MaskBit(n);
    hide LengthField;
    ghost var plain, masked := LengthField(n, false), LengthField(n, true);
    assert header[1] == plain[0];
    header[1] := header[1] + 0x80;
    assert header[2..headerLen] == plain[1..];
    assert header[1..headerLen] == [header[1]] + header[2..headerLen] && masked == [masked[0]] + masked[1..];
  }

  lemma HeaderParts(header: array<byte>, n: nat)
    requires 1 <= n && n + 4 <= header.Length
    ensures header[..n + 4] == [header[0]] + header[1..n] + header[n..n + 4]
  {
  }

  /** `http_websocket_write_exec` without deflate: fills a 14-byte header, then sends it and the payload as given. */
  method WriteExec(opcode: nat, data: bytes, maskingKey: nat) returns (wire: bytes)
    requires IsWord(maskingKey) && |data| <= MAX_PLAIN
    ensures var key := if maskingKey == 0 then [] else WordBytes(maskingKey);
            wire == Header(Frame(opcode, data, key)) + data
  {
    var header := new byte[14];
    header[0] := 0x80 + opcode % 0x10;
    var headerLen := FillLength(header, |data|);
    ghost var field, key := LengthField(|data|, false), if maskingKey == 0 then [] else WordBytes(maskingKey);
    if maskingKey != 0 {
      hide LengthField, WordBytes;
      SetMaskBit(header, headerLen, |data|);
      field := LengthField(|data|, true);
      StoreWord(header, headerLen, maskingKey);
      assert header[1..headerLen] == field;
      HeaderParts(header, headerLen);
      headerLen := headerLen + 4;
    } else {
      assert header[..headerLen] == [header[0]] + header[1..headerLen] + [];
    }
    wire := header[..headerLen] + data;
  }

  lemma MaskBit(n: nat)
    ensures var plain, masked := LengthField(n, false), LengthField(n, true);
            |plain| == |masked| > 0 && plain[0] < 0x80 && masked[0] == 0x80 + plain[0] && masked[1..] == plain[1..]
  {
  }

  lemma ShortLength(n: nat)
    requires n <= 0xFFFF
    ensures BigEndian(n, 2) == [n / 0x100, n % 0x100]
  {
    assert BigEndian(n / 0x100, 1) == BigEndian(n / 0x100 / 0x100, 0) + [n / 0x100];
  }

  /** Eight bytes in network order are two words in network order. */
  lemma LongLength(n: nat)
    requires n < SIZE_LIMIT
    ensures n / WORD < WORD && BigEndian(n, 8) == BigEndian(n / WORD, 4) + BigEndian(n % WORD, 4)
  {
    var q, r := n / WORD, n % WORD;
    FourBytes(r);
    var n1, n2, n3, n4 := n / 0x100, n / 0x100 / 0x100, n / 0x100 / 0x100 / 0x100, n / 0x100 / 0x100 / 0x100 / 0x100;
    assert n4 == q;
    assert BigEndian(n, 8) == BigEndian(n1, 7) + [n % 0x100];
    assert BigEndian(n1, 7) == BigEndian(n2, 6) + [n1 % 0x100];
    assert BigEndian(n2, 6) == BigEndian(n3, 5) + [n2 % 0x100];
    assert BigEndian(n3, 5) == BigEndian(q, 4) + [n3 % 0x100];
    hide BigEndian;
    assert n == q * WORD + r;
    assert n % 0x100 == r % 0x100 && n1 == q * 0x100_0000 + r / 0x100;
    assert n1 % 0x100 == r / 0x100 % 0x100 && n2 == q * 0x1_0000 + r / 0x100 / 0x100;
    assert n2 % 0x100 == r / 0x100 / 0x100 % 0x100 && n3 == q * 0x100 + r / 0x100 / 0x100 / 0x100;
    assert n3 % 0x100 == r / 0x100 / 0x100 / 0x100;
  }

  /** `http_websocket_client_write`: masks a copy, then writes it. */
  method ClientWrite(opcode: nat, data: bytes, maskingKey: nat, aligned: bool) returns (wire: bytes)
    requires IsWord(maskingKey) && maskingKey != 0 && opcode < 16 && |data| <= MAX_PLAIN
    ensures wire == Encode(Frame(opcode, data, WordBytes(maskingKey)))
  {
    var masked := MaskData(data, maskingKey, aligned);
    hide BigEndian, Masked;
    wire := WriteExec(opcode, masked[..], maskingKey);
    assert |masked[..]| == |data|;
  }

  lemma PayloadUnfolds(s: bytes, h: Head)
    requires h.Head? && h.headerLen + h.dataLen <= |s| && h.maskLen <= h.headerLen
    requires h.maskLen == 0 || h.maskLen == 4
    ensures var data := s[h.headerLen..h.headerLen + h.dataLen];
            && (h.maskLen == 0 ==> Payload(s, h) == data)
            && (h.maskLen > 0 ==> Payload(s, h) == Masked(data, s[h.headerLen - h.maskLen..h.headerLen]))
  {
  }

  lemma PartOfSlice(a: array<byte>, i: nat, j: nat, from: nat, to: nat)
    requires from <= to && i + to <= j <= a.Length
    ensures a[i + from..i + to] == a[i..j][from..to]
  {
    var s, t := a[i..j], a[i + from..i + to];
    assert forall k :: 0 <= k < to - from ==> t[k] == a[i + from + k] == s[from + k] == s[from..to][k];
    assert |t| == |s[from..to]|;
  }

  /** A connection reading frames: the request stays in front of the buffer, the frame queue follows it. */
  class WsReader {
    var buf: array<byte>
    var requestLen: nat
    var dataLen: nat
    var socket: Socket

    constructor (buffer: array<byte>, request: nat, filled: nat, sock: Socket)
      requires request <= filled <= buffer.Length && request + 14 <= buffer.Length
      ensures Valid() && Stream() == buffer[request..filled] + sock.pending
      ensures buf == buffer && socket == sock
    {
      buf, requestLen, dataLen, socket := buffer, request, filled, sock;
    }

    ghost predicate Valid()
      reads this
    {
      requestLen <= dataLen <= buf.Length && requestLen + 14 <= buf.Length
    }

    /** What is still to be read: the queue, then the network. */
    ghost function Stream(): bytes
      requires Valid()
      reads this, buf, socket
    {
      buf[requestLen..dataLen] + socket.pending
    }

    /** The header at the front of the queue, from however many bytes are there. */
    method DecodeHead() returns (h: Head)
      requires Valid()
      ensures h == ParseHead(buf[requestLen..dataLen])
    {
      ghost var b := buf[..];
      ghost var s := b[requestLen..dataLen];
      assert s == buf[requestLen..dataLen];
      var q, bodyLen := requestLen, dataLen - requestLen;
      var headerLen, maskLen, payloadLen := 0, 0, 0;
      if bodyLen >= 2 {
        var len := buf[q + 1] % 0x80;
        maskLen := if buf[q + 1] >= 0x80 then 4 else 0;
        if len < 126 && bodyLen >= maskLen {
          payloadLen := len;
          headerLen := 2 + maskLen;
        } else if len == 126 && bodyLen >= 4 + maskLen {
          headerLen := 4 + maskLen;
          payloadLen := FromBigEndian(buf[q + 2..q + 4]);
          SliceOfSlice(b, q, dataLen, 2, 4);
          assert buf[q + 2..q + 4] == b[q + 2..q + 4];
        } else if bodyLen >= 10 + maskLen {
          headerLen := 10 + maskLen;
          payloadLen := FromBigEndian(buf[q + 2..q + 6]) * 0x100000000 + FromBigEndian(buf[q + 6..q + 10]);
          ReadTwoWords(s[2..10]);
          SliceOfSlice(b, q, dataLen, 2, 10);
          SliceOfSlice(b, q + 2, q + 10, 0, 4);
          SliceOfSlice(b, q + 2, q + 10, 4, 8);
          assert buf[q + 2..q + 6] == b[q + 2..q + 6] && buf[q + 6..q + 10] == b[q + 6..q + 10];
          if payloadLen > MAX_LENGTH {
            return TooLong;
          }
        }
      }
      if headerLen > 0 && bodyLen >= headerLen {
        return Head(headerLen, maskLen, payloadLen);
      }
      return Incomplete;
    }

    /** The read loop: fills `data` from `filled` on. */
    method FillFrom(data: array<byte>, filled: nat) returns (ok: bool)
      requires filled <= data.Length
      modifies data, socket
      ensures ok <==> data.Length - filled <= |old(socket.pending)|
      ensures ok ==> data[..] == old(data[..filled]) + old(socket.pending)[..data.Length - filled]
      ensures ok ==> socket.pending == old(socket.pending)[data.Length - filled..]
    {
      var len := filled;
      ghost var head, all := data[..filled], socket.pending;
      while len < data.Length
        invariant filled <= len <= data.Length && len - filled + |socket.pending| == |all|
        invariant socket.pending == all[len - filled..]
        invariant data[..len] == head + all[..len - filled]
      {
        ghost var done := data[..len];
        var n, chunk := socket.Read(data.Length - len);
        if n < 0 {
          return false;
        }
        forall i | 0 <= i < n {
          data[len + i] := chunk[i];
        }
        assert data[..len + n] == done + chunk;
        assert all[..len + n - filled] == all[..len - filled] + chunk;
        len := len + n;
      }
      assert data[..] == data[..len];
      ok := true;
    }

    /** The payload of a frame not wholly queued: the queued part, then as many reads as it takes. */
    method PullRest(h: Head) returns (ok: bool, data: array<byte>)
      requires Valid() && h.Head? && requestLen + h.headerLen <= dataLen < requestLen + h.headerLen + h.dataLen
      modifies this`dataLen, socket
      ensures Valid() && fresh(data)
      ensures ok <==> h.headerLen + h.dataLen <= |old(Stream())|
      ensures ok ==> data[..] == old(Stream())[h.headerLen..h.headerLen + h.dataLen]
      ensures ok ==> Stream() == old(Stream())[h.headerLen + h.dataLen..]
    {
      ghost var b, pending := buf[requestLen..dataLen], socket.pending;
      data := new byte[h.dataLen];
      var from, len := requestLen + h.headerLen, dataLen - (requestLen + h.headerLen);
      forall i | 0 <= i < len {
        data[i] := buf[from + i];
      }
      assert data[..len] == b[h.headerLen..];
      ok := FillFrom(data, len);
      if ok {
        dataLen := requestLen;
        assert (b + pending)[h.headerLen..h.headerLen + h.dataLen] == b[h.headerLen..] + pending[..h.dataLen - len];
      }
    }

    /** Copies a wholly queued payload and moves the queue forward over its frame. */
    method TakeQueued(h: Head) returns (data: array<byte>)
      requires Valid() && h.Head? && requestLen + h.headerLen + h.dataLen <= dataLen
      modifies this`dataLen, buf
      ensures Valid() && fresh(data)
      ensures data[..] == old(Stream())[h.headerLen..h.headerLen + h.dataLen]
      ensures Stream() == old(Stream())[h.headerLen + h.dataLen..]
    {
      ghost var b, pending := buf[requestLen..dataLen], socket.pending;
      data := new byte[h.dataLen];
      var q, len := requestLen, h.headerLen + h.dataLen;
      forall i | 0 <= i < h.dataLen {
        data[i] := buf[q + h.headerLen + i];
      }
      assert data[..] == b[h.headerLen..len];
      var left := dataLen - q - len;
      forall i | 0 <= i < left {
        buf[q + i] := buf[q + len + i];
      }
      dataLen := dataLen - len;
      assert buf[q..dataLen] == b[len..];
      PartOfFirst(b, pending, h.headerLen, len);
    }

    lemma QueuedInStream(from: nat, to: nat)
      requires Valid() && from <= to && requestLen + to <= dataLen
      ensures buf[requestLen + from..requestLen + to] == Stream()[from..to]
    {
      var queue := buf[requestLen..dataLen];
      PartOfSlice(buf, requestLen, dataLen, from, to);
      PartOfFirst(queue, socket.pending, from, to);
    }

    /** The payload as it came, out of the queue or with the network's help. */
    method FetchPayload(h: Head) returns (ok: bool, data: array<byte>)
      requires Valid() && h.Head? && requestLen + h.headerLen <= dataLen
      modifies this`dataLen, buf, socket
      ensures Valid() && fresh(data)
      ensures ok <==> h.headerLen + h.dataLen <= |old(Stream())|
      ensures ok ==> data[..] == old(Stream())[h.headerLen..h.headerLen + h.dataLen]
      ensures ok ==> Stream() == old(Stream())[h.headerLen + h.dataLen..]
    {
      if requestLen + h.headerLen + h.dataLen > dataLen {
        ok, data := PullRest(h);
      } else {
        ok := true;
        data := TakeQueued(h);
      }
    }

    /** One frame off the stream: payload, queue and mask handled; fails when the stream ends inside it. */
    method ReceiveFrame(h: Head) returns (ok: bool, m: Message)
      requires Valid() && h.Head? && h == ParseHead(buf[requestLen..dataLen])
      modifies this`dataLen, buf, socket
      ensures Valid()
      ensures ok <==> h.headerLen + h.dataLen <= |old(Stream())|
      ensures ok ==> m == Message(old(Stream())[0], Payload(old(Stream()), h))
      ensures ok ==> Stream() == old(Stream())[h.headerLen + h.dataLen..]
    {
      ghost var s := Stream();
      hide ParseHead, XorByte, Masked, Payload;
      var mop := buf[requestLen];
      var mask := buf[requestLen + h.headerLen - h.maskLen..requestLen + h.headerLen];
      QueuedInStream(h.headerLen - h.maskLen, h.headerLen);
      assert mop == s[0];
      var data;
      ok, data := FetchPayload(h);
      if !ok {
        return false, Message(mop, []);
      }
      PayloadUnfolds(s, h);
      if h.maskLen > 0 {
        Unmask(data, mask);
      }
      m := Message(mop, data[..]);
    }

    /** One turn of the reader loop: a message, nothing yet, or the end. */
    method Turn(accepts: Message -> bool) returns (more: bool, ms: seq<Message>)
      requires Valid()
      modifies this`dataLen, buf, socket
      ensures Valid()
      ensures Deliver(old(Stream()), accepts) == ms + if more then Deliver(Stream(), accepts) else []
      ensures more ==>
                || |Stream()| < |old(Stream())|
                || (|Stream()| == |old(Stream())| && |socket.pending| < |old(socket.pending)|)
    {
      hide ParseHead, Deliver, Payload, IsClose;
      ghost var s, queue := Stream(), buf[requestLen..dataLen];
      var h := DecodeHead();
      DeliverUnfolds(s, accepts);
      if h.Incomplete? {
        IncompleteIsShort(queue);
        assert socket.pending == [] ==> s == queue;
        var n, chunk := socket.Read(buf.Length - dataLen);
        if n < 0 {
          return false, [];
        }
        Enqueue(chunk, s);
        return true, [];
      }
      HeadStable(queue, socket.pending);
      if h.TooLong? {
        return false, [];
      }
      var ok, m := ReceiveFrame(h);
      if !ok {
        return false, [];
      }
      return accepts(m) && !IsClose(m), [m];
    }

    /** `http_read_websocket` without inflate and ping filtering. */
    method ReadWebsocket(accepts: Message -> bool) returns (delivered: seq<Message>)
      requires requestLen + 14 <= buf.Length && dataLen <= buf.Length
      modifies this`dataLen, buf, socket
      ensures old(dataLen < requestLen) ==> delivered == []
      ensures old(requestLen <= dataLen) ==> delivered == Deliver(old(Stream()), accepts)
    {
      hide Deliver;
      delivered := [];
      if dataLen < requestLen {
        return;
      }
      var more := true;
      ghost var all := Stream();
      while more
        invariant Valid()
        invariant delivered + (if more then Deliver(Stream(), accepts) else []) == Deliver(all, accepts)
        decreases if more then 1 else 0, |Stream()|, |socket.pending|
      {
        ghost var before := delivered;
        var ms;
        more, ms := Turn(accepts);
        Assoc(before, ms, if more then Deliver(Stream(), accepts) else []);
        delivered := delivered + ms;
      }
    }

    method Enqueue(chunk: bytes, ghost s: bytes)
      requires Valid() && dataLen + |chunk| <= buf.Length
      requires s == buf[requestLen..dataLen] + (chunk + socket.pending)
      modifies this`dataLen, buf
      ensures Valid() && Stream() == s
    {
      var q := dataLen;
      forall i | 0 <= i < |chunk| {
        buf[q + i] := chunk[i];
      }
      dataLen := q + |chunk|;
      assert buf[requestLen..dataLen] == old(buf[requestLen..dataLen]) + chunk;
    }
  }

  /** In place, byte by byte. */
  method Unmask(data: array<byte>, mask: bytes)
    requires |mask| == 4
    modifies data
    ensures data[..] == Masked(old(data[..]), mask)
  {
    for i := 0 to data.Length
      invariant forall j :: 0 <= j < i ==> data[j] == XorByte(old(data[j]), mask[j % 4])
      invariant forall j :: i <= j < data.Length ==> data[j] == old(data[j])
    {
      data[i] := XorByte(data[i], mask[i % 4]);
    }
  }
}
