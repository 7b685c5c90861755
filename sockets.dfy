/** An abstract TCP stream socket, as much of it as SocketCommunicator uses.

    What the far end will send is fixed when the connection is made: the
    bytes `inbound`, after which the stream either ends in an orderly way
    (recv returns b'') or fails (recv raises, `resets`). How those bytes are
    split into chunks is left open: every recv may return any number of them
    between 1 and the number asked for. Whether bind, accept, connect and
    sendall succeed is decided by the caller-supplied outcome of each step. */
module Sockets {
  import opened Framing

  datatype Option<+T> = None | Some(value: T)

  /** A (host, port) pair, as accept returns it and as bind and connect take it. */
  datatype Address = Address(host: string, port: int)

  /** The far end of a connection: what it will send, and how its stream ends. */
  datatype Peer = Peer(stream: seq<byte>, resets: bool)

  /** A connection arriving at a listening socket. */
  datatype Arrival = Arrival(addr: Address, peer: Peer)

  /** What one call of recv gives: a byte string (empty at end of stream),
      or the exception it raises. */
  datatype Received = Bytes(bytes: seq<byte>) | Raised

  class Socket {
    /** False once close() was called (fileno() is then -1). */
    var open: bool
    /** Bytes the far end has sent that have not been read yet. */
    var inbound: seq<byte>
    /** Whether the stream fails, rather than ends, after `inbound`. */
    var resets: bool
    /** Every byte written by sendall so far. */
    var outbound: seq<byte>

    /** socket.socket(AF_INET, SOCK_STREAM): open and not yet connected. */
    constructor ()
      ensures open && inbound == [] && !resets && outbound == []
    {
      open, inbound, resets, outbound := true, [], false, [];
    }

    /** The connection socket accept() returns for a peer. */
    constructor Accepted(peer: Peer)
      ensures open && inbound == peer.stream && resets == peer.resets && outbound == []
    {
      open, inbound, resets, outbound := true, peer.stream, peer.resets, [];
    }

    /** accept(): a fresh connected socket, or an exception (null) when no
        connection arrives or this socket is closed. */
    method Accept(arrival: Option<Arrival>) returns (c: Socket?)
      ensures (c != null) == (open && arrival.Some?)
      ensures c != null ==> fresh(c) && c.open && c.outbound == []
      ensures c != null ==> c.inbound == arrival.value.peer.stream && c.resets == arrival.value.peer.resets
    {
      if open && arrival.Some? {
        c := new Socket.Accepted(arrival.value.peer);
      } else {
        c := null;
      }
    }

    /** connect(): succeeds only on an open socket whose peer answers; on
        success the peer's stream becomes this socket's input. */
    method Connect(peer: Option<Peer>) returns (ok: bool)
      modifies this
      ensures ok == (old(open) && peer.Some?)
      ensures open == old(open) && outbound == old(outbound)
      ensures ok ==> inbound == peer.value.stream && resets == peer.value.resets
      ensures !ok ==> inbound == old(inbound) && resets == old(resets)
    {
      ok := open && peer.Some?;
      if ok {
        inbound, resets := peer.value.stream, peer.value.resets;
      }
    }

    /** recv(k): between 1 and k of the next bytes while there are any;
        b'' at an orderly end (and for k == 0); an exception on a closed
        socket or a failing stream. No byte beyond the k asked for is taken. */
    method Recv(k: nat) returns (r: Received)
      modifies this
      ensures open == old(open) && resets == old(resets) && outbound == old(outbound)
      ensures !old(open) ==> r == Raised && inbound == old(inbound)
      ensures old(open) && k == 0 ==> r == Bytes([]) && inbound == old(inbound)
      ensures old(open) && k > 0 && old(inbound) == [] ==>
                r == (if resets then Raised else Bytes([])) && inbound == []
      ensures old(open) && k > 0 && old(inbound) != [] ==>
                && r.Bytes?
                && 1 <= |r.bytes| <= k
                && old(inbound) == r.bytes + inbound
    {
      if !open {
        r := Raised;
      } else if k == 0 {
        r := Bytes([]);
      } else if inbound == [] {
        r := if resets then Raised else Bytes([]);
      } else {
        var m: nat :| 1 <= m <= k && m <= |inbound|;
        r := Bytes(inbound[..m]);
        inbound := inbound[m..];
      }
    }

    /** sendall(data): every byte is written, or an exception is raised
        (a closed socket, or a write the network refuses). */
    method SendAll(data: seq<byte>, fails: bool) returns (ok: bool)
      modifies this
      ensures ok == (old(open) && !fails)
      ensures open == old(open) && inbound == old(inbound) && resets == old(resets)
      ensures outbound == if ok then old(outbound) + data else old(outbound)
    {
      ok := open && !fails;
      if ok {
        outbound := outbound + data;
      }
    }

    /** close(): releases the socket; closing twice is harmless. */
    method Close()
      modifies this
      ensures !open
      ensures inbound == old(inbound) && resets == old(resets) && outbound == old(outbound)
    {
      open := false;
    }
  }
}
