/** The network side of a connection: bytes still to come, delivered in pieces of any positive size. */
module Socket {
  import opened Bytes

  class Socket {
    var pending: bytes
    var pieces: seq<nat>

    constructor (stream: bytes, sizes: seq<nat>)
      ensures pending == stream && pieces == sizes
    {
      pending, pieces := stream, sizes;
    }

    /** `tls_reader`: at least one byte while the stream lasts, then an error. How much comes at once
        is up to `pieces`, about which nothing is assumed. */
    method Read(max: nat) returns (n: int, chunk: bytes)
      requires max > 0
      modifies this
      ensures old(pending) == [] ==> n == -1 && chunk == [] && pending == []
      ensures old(pending) != [] ==> 1 <= n <= max && n <= |old(pending)|
      ensures old(pending) != [] ==> chunk == old(pending)[..n] && pending == old(pending)[n..]
    {
      if pending == [] {
        return -1, [];
      }
      n := Min(max, |pending|);
      if pieces != [] {
        n := Min(n, pieces[0] + 1);
        pieces := pieces[1..];
      }
      chunk, pending := pending[..n], pending[n..];
    }
  }
}
