/** WebSocket frames: what the encoder sends and what the reader takes from a byte stream. */
module WebSocketModel {
  import opened Bytes

  const OPCODE_CLOSE: nat := 0x8
  /** Longer payloads are deflated, if the peer accepts that; if it does not, nothing is sent behind the header. */
  const MAX_PLAIN: nat := 100 * 1024
  const MAX_LENGTH: nat := 0x7FFF0000
  const SIZE_LIMIT: nat := 0x1_0000_0000_0000_0000

  /** A frame to send: opcode, payload, and the masking key in memory order or none. */
  datatype Frame = Frame(opcode: nat, payload: bytes, key: bytes)

  predicate Sendable(f: Frame) {
    f.opcode < 16 && |f.payload| <= 102_400 && (|f.key| == 0 || |f.key| == 4)
  }

  function Masked(data: bytes, key: bytes): (r: bytes)
    requires |key| == 4
    ensures |r| == |data|
  {
    seq(|data|, i requires 0 <= i < |data| => XorByte(data[i], key[i % 4]))
  }

  /** `n` in network byte order. */
  function BigEndian(n: nat, width: nat): (r: bytes)
    ensures |r| == width
  {
    if width == 0 then [] else BigEndian(n / 0x100, width - 1) + [n % 0x100]
  }

  function FromBigEndian(s: bytes): nat {
    if s == [] then 0 else FromBigEndian(s[..|s| - 1]) * 0x100 + s[|s| - 1]
  }

  /** The second byte and the extended length: section 5.2 of RFC 6455. */
  function LengthField(n: nat, masked: bool): bytes {
    var bit := if masked then 0x80 else 0;
    if n < 126 then [bit + n]
    else if n <= 0xFFFF then [bit + 126] + BigEndian(n, 2)
    else [bit + 127] + BigEndian(n, 8)
  }

  function FirstByte(opcode: nat): byte {
    0x80 + opcode % 0x10
  }

  function Header(f: Frame): bytes {
    [FirstByte(f.opcode)] + LengthField(|f.payload|, f.key != []) + f.key
  }

  function Encode(f: Frame): bytes
    requires Sendable(f)
  {
    Header(f) + if f.key == [] then f.payload else Masked(f.payload, f.key)
  }

  function EncodeAll(fs: seq<Frame>): bytes
    requires forall f :: f in fs ==> Sendable(f)
  {
    if fs == [] then [] else Encode(fs[0]) + EncodeAll(fs[1..])
  }

  /** What the callback gets: the first header byte and the unmasked payload. */
  datatype Message = Message(mop: byte, payload: bytes)

  /** How the bytes at the front of the queue read. */
  datatype Head = Incomplete | TooLong | Head(headerLen: nat, maskLen: nat, dataLen: nat)

  function MaskLen(s: bytes): nat
    requires |s| >= 2
  {
    if s[1] >= 0x80 then 4 else 0
  }

  function ParseHead(s: bytes): (h: Head)
    ensures h.Head? ==> 2 + h.maskLen <= h.headerLen <= |s| && (h.maskLen == 0 || h.maskLen == 4)
  {
    if |s| < 2 then Incomplete
    else
      var len, mask := s[1] % 0x80, MaskLen(s);
      if len < 126 then
        if |s| < 2 + mask then Incomplete else Head(2 + mask, mask, len)
      else if len == 126 then
        if |s| < 4 + mask then Incomplete else Head(4 + mask, mask, FromBigEndian(s[2..4]))
      else if |s| < 10 + mask then Incomplete
      else if FromBigEndian(s[2..10]) > MAX_LENGTH then TooLong
      else Head(10 + mask, mask, FromBigEndian(s[2..10]))
  }

  function Payload(s: bytes, h: Head): bytes
    requires h.Head? && h.headerLen + h.dataLen <= |s| && h.maskLen <= h.headerLen
    requires h.maskLen == 0 || h.maskLen == 4
  {
    var data := s[h.headerLen..h.headerLen + h.dataLen];
    if h.maskLen == 0 then data else Masked(data, s[h.headerLen - 4..h.headerLen])
  }

  predicate IsClose(m: Message) {
    m.mop % 0x10 == OPCODE_CLOSE
  }

  /** The messages a stream delivers, up to a close, a refusal by the callback, or a frame that never ends. */
  function Deliver(s: bytes, accepts: Message -> bool): seq<Message>
    decreases |s|
  {
    var h := ParseHead(s);
    if !h.Head? || |s| < h.headerLen + h.dataLen then []
    else
      var m := Message(s[0], Payload(s, h));
      [m] + if accepts(m) && !IsClose(m) then Deliver(s[h.headerLen + h.dataLen..], accepts) else []
  }

  function MessageOf(f: Frame): Message {
    Message(FirstByte(f.opcode), f.payload)
  }

  /** The frames sent, as messages, up to and including the first one that ends the session. */
  function Session(fs: seq<Frame>, accepts: Message -> bool): seq<Message> {
    if fs == [] then []
    else
      var m := MessageOf(fs[0]);
      [m] + if accepts(m) && !IsClose(m) then Session(fs[1..], accepts) else []
  }

  /** Some frame is a close or is refused by the callback. */
  predicate Ends(fs: seq<Frame>, accepts: Message -> bool) {
    fs != [] && (!accepts(MessageOf(fs[0])) || IsClose(MessageOf(fs[0])) || Ends(fs[1..], accepts))
  }

  function Pow256(width: nat): (r: nat)
    ensures r > 0
  {
    if width == 0 then 1 else 0x100 * Pow256(width - 1)
  }

  lemma {:induction false} BigEndianReads(n: nat, width: nat)
    requires n < Pow256(width)
    ensures FromBigEndian(BigEndian(n, width)) == n
  {
    if width > 0 {
      BigEndianReads(n / 0x100, width - 1);
      assert BigEndian(n, width)[..width - 1] == BigEndian(n / 0x100, width - 1);
    }
  }

  /** The byte of `n` at each place: the highest first. */
  lemma {:induction false} BigEndianAt(n: nat, width: nat, i: nat)
    requires i < width
    ensures BigEndian(n, width)[width - 1 - i] == n / Pow256(i) % 0x100
    decreases width
  {
    if i > 0 {
      BigEndianAt(n / 0x100, width - 1, i - 1);
      DivideTwice(n, Pow256(i - 1));
    }
  }

  lemma DivideTwice(n: nat, p: nat)
    requires p > 0
    ensures n / 0x100 / p == n / (0x100 * p)
  {
    var q := n / 0x100 / p;
    var low := n / 0x100 - q * p;
    assert 0 <= low < p;
    assert n == q * (0x100 * p) + (0x100 * low + n % 0x100) by {
      assert 0x100 * (q * p) == q * (0x100 * p);
    }
    QuotientUnique(n, 0x100 * p, q, 0x100 * low + n % 0x100);
  }

  /** The bytes of the header's second part, one by one. */
  lemma LengthFieldBytes(n: nat, masked: bool)
    requires n < SIZE_LIMIT
    ensures var bit, field := if masked then 0x80 else 0, LengthField(n, masked);
            && (n < 126 ==> field == [bit + n])
            && (126 <= n < 0x1_0000 ==> field == [bit + 126, n / 0x100, n % 0x100])
            && (n >= 0x1_0000 ==> |field| == 9 && field[0] == bit + 127
                                  && forall i :: 0 <= i < 8 ==> field[8 - i] == n / Pow256(i) % 0x100)
  {
    if 126 <= n < 0x1_0000 {
      assert BigEndian(n, 2) == BigEndian(n / 0x100, 1) + [n % 0x100];
      assert BigEndian(n / 0x100, 1) == [] + [n / 0x100 % 0x100];
    } else if n >= 0x1_0000 {
      var field := LengthField(n, masked);
      hide BigEndian, Pow256;
      forall i | 0 <= i < 8 ensures field[8 - i] == n / Pow256(i) % 0x100 {
        BigEndianAt(n, 8, i);
      }
    }
  }

  lemma MaskTwice(data: bytes, key: bytes)
    requires |key| == 4
    ensures Masked(Masked(data, key), key) == data
  {
    forall i | 0 <= i < |data|
      ensures Masked(Masked(data, key), key)[i] == data[i]
    {
      XorCancels(data[i], key[i % 4]);
    }
  }

  lemma ExtendedLengthReads(n: nat, width: nat)
    requires (width == 2 && n <= 0xFFFF) || (width == 8 && n < SIZE_LIMIT)
    ensures FromBigEndian(BigEndian(n, width)) == n
  {
    assert Pow256(1) == 0x100;
    assert Pow256(3) == 0x1000000;
    assert Pow256(5) == 0x100_0000_0000;
    assert Pow256(7) == 0x100_0000_0000_0000;
    BigEndianReads(n, width);
  }

  /** Each length form reads back, for every length a `size_t` can hold; the reader refuses the largest ones. */
  lemma LengthReads(first: byte, n: nat, key: bytes, rest: bytes)
    requires n < SIZE_LIMIT && (|key| == 0 || |key| == 4)
    ensures var field := LengthField(n, key != []);
            ParseHead([first] + field + key + rest)
            == if n > 0x7FFF_0000 then TooLong else Head(1 + |field| + |key|, |key|, n)
  {
    hide BigEndian, FromBigEndian;
    var field := LengthField(n, key != []);
    var s := [first] + field + key + rest;
    assert s[1] == field[0];
    if 126 <= n <= 0xFFFF {
      assert s[2..4] == BigEndian(n, 2);
      ExtendedLengthReads(n, 2);
    } else if n > 0xFFFF {
      assert s[2..10] == BigEndian(n, 8);
      ExtendedLengthReads(n, 8);
    }
  }

  /** A sent header reads back as its three lengths, whatever follows. */
  lemma HeaderReads(f: Frame, rest: bytes)
    requires Sendable(f)
    ensures ParseHead(Header(f) + rest) == Head(|Header(f)|, |f.key|, |f.payload|)
    ensures (Header(f) + rest)[0] == FirstByte(f.opcode)
    ensures f.key != [] ==> (Header(f) + rest)[|Header(f)| - 4..|Header(f)|] == f.key
  {
    LengthReads(FirstByte(f.opcode), |f.payload|, f.key, rest);
    hide ParseHead, LengthField;
    var field := LengthField(|f.payload|, f.key != []);
    assert Header(f) == [FirstByte(f.opcode)] + field + f.key;
  }

  lemma FrameReads(f: Frame, rest: bytes)
    requires Sendable(f)
    ensures var h := ParseHead(Encode(f) + rest);
            && h == Head(|Header(f)|, |f.key|, |f.payload|)
            && h.headerLen + h.dataLen == |Encode(f)|
            && Payload(Encode(f) + rest, h) == f.payload
            && (Encode(f) + rest)[0] == FirstByte(f.opcode)
            && (Encode(f) + rest)[|Encode(f)|..] == rest
  {
    var data := if f.key == [] then f.payload else Masked(f.payload, f.key);
    var s := Encode(f) + rest;
    hide Header, ParseHead;
    assert s == Header(f) + (data + rest);
    HeaderReads(f, data + rest);
    assert s[|Header(f)|..|Header(f)| + |data|] == data;
    if f.key != [] {
      MaskTwice(f.payload, f.key);
    }
  }

  predicate GoesOn(m: Message, accepts: Message -> bool) {
    accepts(m) && !IsClose(m)
  }

  lemma DeliverFrame(f: Frame, rest: bytes, accepts: Message -> bool)
    requires Sendable(f)
    ensures Deliver(Encode(f) + rest, accepts)
         == [MessageOf(f)] + if GoesOn(MessageOf(f), accepts) then Deliver(rest, accepts) else []
  {
    FrameReads(f, rest);
    hide Encode, ParseHead, Payload;
  }

  /** Frames laid end to end are delivered as they were sent, up to the first that ends the session;
      if none does, delivery goes on with whatever follows. */
  lemma {:induction false} FramesArrive(fs: seq<Frame>, rest: bytes, accepts: Message -> bool)
    requires forall f :: f in fs ==> Sendable(f)
    ensures Deliver(EncodeAll(fs) + rest, accepts)
         == Session(fs, accepts) + if Ends(fs, accepts) then [] else Deliver(rest, accepts)
  {
    if fs == [] {
      assert EncodeAll(fs) + rest == rest;
    } else {
      var tail, m := EncodeAll(fs[1..]) + rest, MessageOf(fs[0]);
      Assoc(Encode(fs[0]), EncodeAll(fs[1..]), rest);
      DeliverFrame(fs[0], tail, accepts);
      FramesArrive(fs[1..], rest, accepts);
      hide Encode, Deliver, IsClose, MessageOf;
      Assoc([m], Session(fs[1..], accepts), if Ends(fs[1..], accepts) then [] else Deliver(rest, accepts));
    }
  }

  /** More bytes behind a complete header change nothing about it. */
  lemma HeadStable(s: bytes, t: bytes)
    requires !ParseHead(s).Incomplete?
    ensures ParseHead(s + t) == ParseHead(s) && (s + t)[0] == s[0]
  {
    assert s[0] == (s + t)[0] && s[1] == (s + t)[1];
    if |s| >= 4 {
      assert (s + t)[2..4] == s[2..4];
    }
    if |s| >= 10 {
      assert (s + t)[2..10] == s[2..10];
    }
  }

  lemma ReadTwoWords(s: bytes)
    requires |s| == 8
    ensures FromBigEndian(s) == FromBigEndian(s[..4]) * 0x100000000 + FromBigEndian(s[4..])
  {
    var a, b := s[..4], s[4..];
    assert s[..7][..6] == s[..6] && s[..6][..5] == s[..5] && s[..5][..4] == a;
    assert FromBigEndian(s[..5]) == FromBigEndian(a) * 0x100 + s[4];
    assert FromBigEndian(s[..6]) == FromBigEndian(s[..5]) * 0x100 + s[5];
    assert FromBigEndian(s[..7]) == FromBigEndian(s[..6]) * 0x100 + s[6];
    assert b[..3][..2] == b[..2] && b[..2][..1] == b[..1] && b[..1][..0] == [];
    assert FromBigEndian(b[..1]) == s[4];
    assert FromBigEndian(b[..2]) == FromBigEndian(b[..1]) * 0x100 + s[5];
    assert FromBigEndian(b[..3]) == FromBigEndian(b[..2]) * 0x100 + s[6];
  }

  lemma IncompleteIsShort(s: bytes)
    requires ParseHead(s).Incomplete?
    ensures |s| < 14
  {
  }

  lemma DeliverUnfolds(s: bytes, accepts: Message -> bool)
    ensures Deliver(s, accepts) ==
            var h := ParseHead(s);
            if !h.Head? || |s| < h.headerLen + h.dataLen then []
            else
              var m := Message(s[0], Payload(s, h));
              [m] + if accepts(m) && !IsClose(m) then Deliver(s[h.headerLen + h.dataLen..], accepts) else []
  {
  }

  /** The first example of section 5.7 of RFC 6455, and the header of the second. */
  lemma HelloFrames()
    ensures var hello, key := [0x48, 0x65, 0x6C, 0x6C, 0x6F], [0x37, 0xFA, 0x21, 0x3D];
            && Encode(Frame(1, hello, [])) == [0x81, 0x05] + hello
            && Header(Frame(1, hello, key)) == [0x81, 0x85] + key
  {
    hide BigEndian;
  }

  function Messages(fs: seq<Frame>): (ms: seq<Message>)
    ensures |ms| == |fs|
    ensures forall i :: 0 <= i < |fs| ==> ms[i] == MessageOf(fs[i])
  {
    seq(|fs|, i requires 0 <= i < |fs| => MessageOf(fs[i]))
  }

  /** A session ends with the first frame that has opcode 8 or that the callback refuses. */
  ghost predicate EndsSession(f: Frame, accepts: Message -> bool) {
    f.opcode % 16 == 8 || !accepts(MessageOf(f))
  }

  lemma {:induction false} SessionEnds(fs: seq<Frame>, accepts: Message -> bool, k: nat)
    requires k <= |fs| && forall i :: 0 <= i < k ==> !EndsSession(fs[i], accepts)
    ensures k == |fs| ==> Session(fs, accepts) == Messages(fs)
    ensures k < |fs| && EndsSession(fs[k], accepts) ==> Session(fs, accepts) == Messages(fs[..k + 1])
    decreases |fs|
  {
    if fs != [] {
      assert MessageOf(fs[0]).mop % 0x10 == fs[0].opcode % 0x10;
      if k > 0 {
        SessionEnds(fs[1..], accepts, k - 1);
        assert Messages(fs) == [MessageOf(fs[0])] + Messages(fs[1..]);
        assert k < |fs| ==> Messages(fs[..k + 1]) == [MessageOf(fs[0])] + Messages(fs[1..][..k]);
      } else {
        assert Messages(fs[..1]) == [MessageOf(fs[0])];
      }
    }
  }

  /** Masking flips the bits that are set in the key, byte by byte, the key's four bytes in turn. */
  lemma MaskedBits(data: bytes, key: bytes, i: nat, k: nat)
    requires |key| == 4 && i < |data|
    ensures Masked(data, key)[i] / Pow2(k) % 2
         == if data[i] / Pow2(k) % 2 == key[i % 4] / Pow2(k) % 2 then 0 else 1
  {
    XorBits(data[i], key[i % 4], k);
  }
}
