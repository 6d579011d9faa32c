/** Senders and receivers put together, over a network that cuts the bytes up as it likes. */
module Delivery {
  import opened Bytes
  import opened Socket
  import WM = WebSocketModel
  import WS = WebSocket
  import CM = ChunkedModel
  import CB = ChunkedBody
  import JT = JsonText
  import JW = JsonWriter
  import JR = JsonReader
  import JsonRoundTrip

  /** A key the server draws is not zero, as zero stands for no mask. */
  ghost predicate KeyNotZero(f: WM.Frame) {
    f.key == [] || f.key != [0, 0, 0, 0]
  }

  method SendFrame(f: WM.Frame, aligned: bool) returns (wire: bytes)
    requires WM.Sendable(f) && KeyNotZero(f)
    ensures wire == WM.Encode(f)
  {
    if f.key == [] {
      wire := WS.WriteExec(f.opcode, f.payload, 0);
    } else {
      var key := WS.Word(f.key[0], f.key[1], f.key[2], f.key[3]);
      WS.BytesOfWord(f.key[0], f.key[1], f.key[2], f.key[3]);
      assert f.key == [f.key[0], f.key[1], f.key[2], f.key[3]];
      wire := WS.ClientWrite(f.opcode, f.payload, key, aligned);
    }
  }

  lemma {:induction false} EncodeAllSnoc(fs: seq<WM.Frame>, f: WM.Frame)
    requires WM.Sendable(f) && forall g :: g in fs ==> WM.Sendable(g)
    ensures forall g :: g in fs + [f] ==> WM.Sendable(g)
    ensures WM.EncodeAll(fs + [f]) == WM.EncodeAll(fs) + WM.Encode(f)
    decreases |fs|
  {
    hide WM.Encode, WM.Sendable;
    if fs == [] {
      assert (fs + [f])[1..] == [];
    } else {
      assert (fs + [f])[1..] == fs[1..] + [f];
      EncodeAllSnoc(fs[1..], f);
    }
  }

  /** Frames written one after the other, some of them perhaps in the receiver's buffer already, the rest arriving in
      pieces, come out as the same opcodes and payloads up to the first that ends the session. */
  method ExchangeFrames(fs: seq<WM.Frame>, aligned: bool, early: nat, capacity: nat, pieces: seq<nat>,
                        accepts: WM.Message -> bool)
    returns (delivered: seq<WM.Message>)
    requires forall f :: f in fs ==> WM.Sendable(f) && KeyNotZero(f)
    requires early <= capacity && 14 <= capacity
    ensures delivered == WM.Session(fs, accepts)
  {
    hide WM.Encode, WM.Sendable, WM.Deliver;
    var wire: bytes := [];
    for i := 0 to |fs|
      invariant wire == WM.EncodeAll(fs[..i])
    {
      var sent := SendFrame(fs[i], aligned);
      EncodeAllSnoc(fs[..i], fs[i]);
      TakeOneMore(fs, i);
      wire := wire + sent;
    }
    assert fs[..|fs|] == fs;
    var k := Min(early, |wire|);
    var buffer := Buffered(wire[..k], capacity);
    var socket := new Socket(wire[k..], pieces);
    var reader := new WS.WsReader(buffer, 0, k, socket);
    assert reader.Stream() == wire;
    delivered := reader.ReadWebsocket(accepts);
    WM.FramesArrive(fs, [], accepts);
    NothingDelivers(accepts);
    assert wire + [] == wire;
    assert WM.Session(fs, accepts) + [] == WM.Session(fs, accepts);
  }

  lemma NothingDelivers(accepts: WM.Message -> bool)
    ensures WM.Deliver([], accepts) == []
  {
  }

  method Buffered(s: bytes, capacity: nat) returns (buffer: array<byte>)
    requires |s| <= capacity
    ensures fresh(buffer) && buffer.Length == capacity && buffer[0..|s|] == s
  {
    buffer := new byte[capacity];
    forall i | 0 <= i < |s| {
      buffer[i] := s[i];
    }
  }

  /** `http_chunk`: the size line, the piece, a line break. */
  method SendChunk(piece: bytes) returns (wire: bytes)
    ensures wire == CM.Chunk(piece)
  {
    wire := CM.HexText(|piece|) + CM.CRLF;
    wire := wire + piece;
    wire := wire + CM.CRLF;
  }

  lemma {:induction false} EncodeSnoc(pieces: seq<bytes>, i: nat)
    requires i <= |pieces|
    ensures CM.Encode(pieces) == Chunks(pieces[..i]) + CM.Encode(pieces[i..])
    decreases i
  {
    hide CM.Chunk;
    if i == 0 {
      assert pieces[0..] == pieces && [] + CM.Encode(pieces) == CM.Encode(pieces);
    } else {
      assert pieces[..i][1..] == pieces[1..][..i - 1] && pieces[1..][i - 1..] == pieces[i..];
      EncodeSnoc(pieces[1..], i - 1);
      Assoc(CM.Chunk(pieces[0]), Chunks(pieces[1..][..i - 1]), CM.Encode(pieces[i..]));
    }
  }

  ghost function Chunks(pieces: seq<bytes>): bytes {
    if pieces == [] then [] else CM.Chunk(pieces[0]) + Chunks(pieces[1..])
  }

  lemma {:induction false} ChunksSnoc(pieces: seq<bytes>, p: bytes)
    ensures Chunks(pieces + [p]) == Chunks(pieces) + CM.Chunk(p)
    decreases |pieces|
  {
    hide CM.Chunk;
    if pieces == [] {
      assert (pieces + [p])[1..] == [];
      assert CM.Chunk(p) + [] == CM.Chunk(p) && [] + CM.Chunk(p) == CM.Chunk(p);
    } else {
      assert (pieces + [p])[1..] == pieces[1..] + [p];
      ChunksSnoc(pieces[1..], p);
      Assoc(CM.Chunk(pieces[0]), Chunks(pieces[1..]), CM.Chunk(p));
    }
  }

  method SendChunks(pieces: seq<bytes>) returns (wire: bytes)
    ensures wire == CM.Encode(pieces)
  {
    hide CM.Chunk, CM.Encode;
    wire := [];
    for i := 0 to |pieces|
      invariant wire == Chunks(pieces[..i])
    {
      var sent := SendChunk(pieces[i]);
      ChunksSnoc(pieces[..i], pieces[i]);
      TakeOneMore(pieces, i);
      wire := wire + sent;
    }
    var last := SendChunk([]);
    wire := wire + last;
    EncodeSnoc(pieces, |pieces|);
    EncodeNone();
    assert pieces[..|pieces|] == pieces && pieces[|pieces|..] == [];
  }

  /** A read never asks for more than an `int` can count. */
  function Clipped(lens: seq<nat>): (r: seq<nat>)
    ensures |r| == |lens|
  {
    seq(|lens|, i requires 0 <= i < |lens| => Min(lens[i], CB.INT_MAX))
  }

  method ReadPieces(conn: CB.Conn, lens: seq<nat>) returns (got: seq<bytes>)
    requires conn.Chunked()
    modifies conn, conn.socket
    ensures got == CM.ReadMany(old(conn.View()), Clipped(lens))
  {
    hide CM.Read, CB.Conn.Stream, CB.Conn.BudgetSpent;
    got := [];
    ghost var start, sizes := conn.View(), Clipped(lens);
    assert sizes[0..] == sizes && [] + CM.ReadMany(start, sizes) == CM.ReadMany(start, sizes);
    for i := 0 to |lens|
      invariant conn.Chunked() && conn.buf == old(conn.buf) && conn.socket == old(conn.socket)
      invariant got + CM.ReadMany(conn.View(), sizes[i..]) == CM.ReadMany(start, sizes)
    {
      ghost var before := conn.View();
      var dst := new byte[lens[i]];
      var ret := conn.HttpRead(dst, lens[i]);
      var piece := if ret < 0 then [] else dst[..ret];
      ReadManyUnfolds(before, sizes, i);
      Assoc(got, [piece], CM.ReadMany(conn.View(), sizes[i + 1..]));
      got := got + [piece];
    }
    assert sizes[|lens|..] == [] && got + [] == got;
  }

  /** Pieces sent chunk by chunk and closed by an empty one, read back with any positive lengths over any split
      between buffer and network, give exactly their bytes and then nothing. */
  method ExchangeChunks(pieces: seq<bytes>, lens: seq<nat>, early: nat, arrivals: seq<nat>) returns (got: seq<bytes>)
    requires CM.Sendable(pieces) && forall i :: 0 <= i < |lens| ==> 0 < lens[i]
    ensures got == CM.Slices(CM.Concat(pieces), Clipped(lens))
  {
    hide CM.Chunk, CM.Encode, CM.Read, CM.Slices;
    var wire := SendChunks(pieces);
    CM.SentReadsBack(pieces, [], Clipped(lens));
    assert wire + [] == wire;
    hide *;
    var conn := Receive(wire, early, arrivals);
    got := ReadPieces(conn, lens);
  }

  /** A connection on which some of the bytes have come with the header and the others are still to arrive. */
  method Receive(wire: bytes, early: nat, arrivals: seq<nat>) returns (conn: CB.Conn)
    ensures conn.Chunked() && conn.View() == CM.Body(CM.Reading, 0, wire)
    ensures fresh(conn) && fresh(conn.socket)
  {
    var k := Min(early, |wire|);
    var buffer := Buffered(wire[..k], k);
    var socket := new Socket(wire[k..], arrivals);
    conn := new CB.Conn(buffer, 0, k, socket);
    assert buffer[0..k] + socket.pending == wire;
  }

  lemma EncodeNone()
    ensures CM.Encode([]) == CM.Chunk([])
  {
  }

  lemma ReadManyUnfolds(b: CM.Body, lens: seq<nat>, i: nat)
    requires i < |lens|
    ensures var o := CM.Read(b, lens[i], []);
            CM.ReadMany(b, lens[i..]) == [if o.ret < 0 then [] else o.data[..o.ret]]
                + CM.ReadMany(o.body, lens[i + 1..])
  {
    assert lens[i..][1..] == lens[i + 1..];
  }

  /** A tree written to a buffer of the size the size pass asks for, and read back from there. */
  method ExchangeTree(v: JT.JSON, o: JT.Layout) returns (r: Option<JT.JSON>)
    requires JT.WellFormed(v) && JT.FitsNumBuf(v)
    ensures r == if JT.Height(v) <= 2048 then Some(v) else None
  {
    hide JT.Print, JT.WellFormed, JT.FitsNumBuf, JT.ParseText, JT.Height;
    var size, used := JW.SerializationSize(v, o);
    var buf := new byte[size];
    var ok := JW.SerializeToBuffer(v, o, buf);
    JsonRoundTrip.PrintedTextParses(v, o);
    r := JR.ParseTextAt(buf[..size - 1]);
  }
}
