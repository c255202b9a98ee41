/** A stream socket whose receive call may split the bytes anywhere. */
module Sockets {
  import opened Wrappers
  import opened Bytes

  class Socket {
    /** What the peer has sent or will send before it closes, not yet received. */
    var incoming: seq<byte>

    constructor (stream: seq<byte>)
      ensures incoming == stream
    {
      incoming := stream;
    }

    /** recv(count): some nonempty prefix of what is to come, of at most `count` bytes; nothing
        only when nothing was asked for or the stream has ended. */
    method Recv(count: nat) returns (chunk: seq<byte>)
      modifies this
      ensures chunk + incoming == old(incoming) && |chunk| <= count
      ensures chunk == [] ==> count == 0 || old(incoming) == []
    {
      if count == 0 || incoming == [] { return []; }
      var n :| 1 <= n <= count && n <= |incoming|;
      chunk := incoming[..n];
      incoming := incoming[n..];
    }
  }
}
