/** SocketCommunicator: one end of a point-to-point link that either
    listens for one peer (start_server) or connects to one (start_client),
    then reads length-prefixed frames until the stream ends, and sends
    frames on request (send_data).

    The Qt signals become two sequences that only grow: `log` for
    log_text_signal and `received` for update_text_signal (one entry per
    payload handed to it). Every method runs as one sequential step. */
module Communication {
  import opened Framing
  import opened Sockets

  /** The lines log_text_signal carries, one constructor per message. */
  datatype LogEntry =
    | ListeningOn            // "[INFO] Listening on host:port..."
    | AlreadyConnected       // "[INFO] Connected!"
    | ConnectedBy(addr: Address)
    | Connecting             // "[INFO] Connect host:port"
    | ConnectFailed          // "[ERROR] Connection failed: ..."
    | SendFailed             // "[ERROR] Error sending data: ..."
    | ReceiveFailed          // "[ERROR] ..." from the receive loop
    | ConnectionClosed       // "[INFO] Connection is closed."

  /** What a Python call ends with: its return value, or an exception that
      escapes it. */
  datatype Outcome = ReturnsTrue | ReturnsFalse | ReturnsNone | Raises

  /** The connection state as the start guards and close_connection see it. */
  datatype Session = Session(listening: bool, connected: bool, sockOpen: bool, log: seq<LogEntry>)

  /** The one informational line a start method emits when it refuses to act. */
  function Refusal(listening: bool): LogEntry
  {
    if listening then ListeningOn else AlreadyConnected
  }

  /** Whether start_server and start_client refuse to act. */
  predicate Busy(s: Session)
  {
    s.listening || s.connected
  }

  /** close_connection: always logs; releases the connection and the socket
      only when there is a connection. */
  function AfterClose(s: Session): (t: Session)
    ensures !t.connected && t.listening == s.listening
    ensures t.log == s.log + [ConnectionClosed]
    ensures t.sockOpen == (s.sockOpen && !s.connected)
  {
    var logged := s.(log := s.log + [ConnectionClosed]);
    if s.connected then logged.(connected := false, sockOpen := false) else logged
  }

  /** A second close_connection only adds the log line: it releases nothing. */
  lemma CloseIdempotent(s: Session)
    ensures AfterClose(AfterClose(s)) == AfterClose(s).(log := AfterClose(s).log + [ConnectionClosed])
  {
  }

  /** close_connection called k times in a row. */
  function CloseRepeatedly(s: Session, k: nat): Session
  {
    if k == 0 then s else AfterClose(CloseRepeatedly(s, k - 1))
  }

  /** However often close_connection is called, the state is that of the
      first call; only the log keeps growing, by one line per call. */
  lemma {:induction false} CloseRepeatedlyOnce(s: Session, k: nat)
    requires k >= 1
    ensures CloseRepeatedly(s, k) == AfterClose(s).(log := s.log + seq(k, _ => ConnectionClosed))
  {
    if k == 1 {
      assert seq(1, _ => ConnectionClosed) == [ConnectionClosed];
    } else {
      CloseRepeatedlyOnce(s, k - 1);
      assert seq(k, _ => ConnectionClosed) == seq(k - 1, _ => ConnectionClosed) + [ConnectionClosed];
    }
  }

  /** The log lines the receive loop adds: one error when the stream fails,
      nothing when it ends in an orderly way. */
  function ReceiveTail(resets: bool): seq<LogEntry>
  {
    if resets then [ReceiveFailed] else []
  }

  class SocketCommunicator {
    const host: string
    const port: int
    var sock: Socket
    var conn: Socket?
    var addr: Option<Address>
    var listening: bool
    /** Every line emitted on log_text_signal, oldest first. */
    var log: seq<LogEntry>
    /** Every payload emitted on update_text_signal, oldest first. */
    var received: seq<seq<byte>>

    /** Never listening and connected at once; a connection is open while held. */
    ghost predicate Valid()
      reads this, conn
    {
      && (conn != null ==> conn.open)
      && !(listening && conn != null)
    }

    function View(): Session
      reads this, sock
    {
      Session(listening, conn != null, sock.open, log)
    }

    constructor (host: string, port: int)
      ensures Valid()
      ensures this.host == host && this.port == port
      ensures fresh(sock) && sock.open && sock.inbound == [] && !sock.resets && sock.outbound == []
      ensures conn == null && addr == None && !listening
      ensures log == [] && received == []
    {
      this.host, this.port := host, port;
      sock := new Socket();
      conn, addr, listening := null, None, false;
      log, received := [], [];
    }

    /** recvall(n): reads from the connection until n bytes are collected,
        asking each recv for no more than the bytes still missing. */
    method RecvAll(n: nat) returns (r: ReadResult)
      requires conn != null && conn.open
      modifies conn
      ensures conn.open && conn.resets == old(conn.resets) && conn.outbound == old(conn.outbound)
      ensures r == ReadExactly(old(conn.inbound), conn.resets, n)
      ensures conn.inbound == Unread(old(conn.inbound), n)
    {
      var data: seq<byte> := [];
      while |data| < n
        invariant conn.open && conn.resets == old(conn.resets) && conn.outbound == old(conn.outbound)
        invariant |data| <= n
        invariant old(conn.inbound) == data + conn.inbound
        decreases n - |data|
      {
        var packet := conn.Recv(n - |data|);
        if packet.Raised? || packet.bytes == [] {
          assert conn.inbound == [];
          return if packet.Raised? then IoError else EndOfStream;
        }
        data := data + packet.bytes;
      }
      assert old(conn.inbound)[..n] == data;
      assert old(conn.inbound)[n..] == conn.inbound;
      return Complete(data);
    }

    /** One turn of the loop in receive_data: recvall(4) for the prefix,
        then recvall of the announced length, emitting the payload unless it
        is empty. An exception from recv is logged and ends the loop. */
    method ReceiveFrame() returns (goesOn: bool)
      requires conn != null && conn.open
      modifies this, conn
      ensures conn == old(conn) && sock == old(sock) && listening == old(listening) && addr == old(addr)
      ensures conn.open && conn.resets == old(conn.resets) && conn.outbound == old(conn.outbound)
      ensures var t := ReceiveTurn(old(conn.inbound), conn.resets);
        && goesOn == t.goesOn
        && conn.inbound == t.rest
        && received == old(received) + t.emitted
        && log == old(log) + (if !goesOn && conn.resets then [ReceiveFailed] else [])
    {
      var prefix := RecvAll(4);
      if !prefix.Complete? {
        if prefix.IoError? {
          log := log + [ReceiveFailed];
        }
        return false;
      }
      var length := Unbe32(prefix.data);
      var payload := RecvAll(length);
      match payload
      case IoError =>
        log := log + [ReceiveFailed];
        return false;
      case EndOfStream =>
        return true;
      case Complete(data) =>
        if |data| > 0 {
          received := received + [data];
        }
        return true;
    }

    /** receive_data: reads frames while there is a connection, emits each
        non-empty payload, and leaves the loop at the first read the stream
        cannot complete. The connection is left as it is. */
    method ReceiveData()
      requires Valid()
      modifies this, conn
      ensures Valid()
      ensures conn == old(conn) && sock == old(sock) && listening == old(listening) && addr == old(addr)
      ensures conn == null ==> log == old(log) && received == old(received)
      ensures conn != null ==>
                && conn.open && conn.inbound == []
                && conn.resets == old(conn.resets) && conn.outbound == old(conn.outbound)
                && received == old(received) + Delivered(old(conn.inbound))
                && log == old(log) + ReceiveTail(conn.resets)
    {
      ghost var total := if conn != null then old(received) + Delivered(conn.inbound) else old(received);
      while conn != null
        invariant conn == old(conn) && sock == old(sock) && listening == old(listening) && addr == old(addr)
        invariant conn != null ==> conn.open && conn.resets == old(conn.resets) && conn.outbound == old(conn.outbound)
        invariant conn != null ==> received + Delivered(conn.inbound) == total
        invariant conn == null ==> received == old(received)
        invariant log == old(log)
        decreases if conn != null then |conn.inbound| else 0
      {
        DeliveredTurn(received, conn.inbound, conn.resets);
        var goesOn := ReceiveFrame();
        if !goesOn {
          assert received + [] == received;
          break;
        }
      }
    }

    /** start_server: refuses while listening or connected; otherwise binds
        (on a new socket if the old one was closed), listens, accepts one
        peer and runs the receive loop on that connection until its stream
        ends. An exception from bind or accept escapes the call. */
    method StartServer(bindOk: bool, arrival: Option<Arrival>) returns (r: Outcome)
      requires Valid()
      modifies this
      ensures Valid()
      ensures Busy(old(View())) ==>
                && r == ReturnsFalse
                && log == old(log) + [Refusal(old(listening))]
                && sock == old(sock) && conn == old(conn) && addr == old(addr)
                && listening == old(listening) && received == old(received)
      ensures !Busy(old(View())) ==>
                && sock.open
                && (old(sock.open) ==> sock == old(sock))
                && (!old(sock.open) ==> fresh(sock) && sock.inbound == [] && sock.outbound == [])
      ensures !Busy(old(View())) && !bindOk ==>
                && r == Raises && !listening && conn == null
                && log == old(log) && addr == old(addr) && received == old(received)
      ensures !Busy(old(View())) && bindOk && arrival.None? ==>
                && r == Raises && listening && conn == null
                && log == old(log) + [ListeningOn] && addr == old(addr) && received == old(received)
      ensures !Busy(old(View())) && bindOk && arrival.Some? ==>
                && r == ReturnsTrue && !listening
                && conn != null && fresh(conn) && conn != sock
                && addr == Some(arrival.value.addr)
                && conn.inbound == [] && conn.outbound == [] && conn.resets == arrival.value.peer.resets
                && received == old(received) + Delivered(arrival.value.peer.stream)
                && log == old(log) + [ListeningOn, ConnectedBy(arrival.value.addr)]
                          + ReceiveTail(arrival.value.peer.resets)
    {
      if listening || conn != null {
        log := log + [Refusal(listening)];
        return ReturnsFalse;
      }
      if !sock.open {
        sock := new Socket();
      }
      if !bindOk {
        return Raises;
      }
      listening := true;
      log := log + [ListeningOn];
      var c := sock.Accept(arrival);
      if c == null {
        return Raises;
      }
      conn, addr := c, Some(arrival.value.addr);
      listening := false;
      log := log + [ConnectedBy(arrival.value.addr)];
      ReceiveData();
      return ReturnsTrue;
    }

    /** start_client: refuses while listening or connected; otherwise
        connects the socket to the peer and, once connected, uses it as the
        connection and runs the receive loop until its stream ends. A failed
        connect is logged and leaves the communicator unconnected. There is
        no step that replaces a closed socket, so after a close_connection
        that closed a connection every connect fails until a start_server
        has replaced the socket. */
    method StartClient(peer: Option<Peer>) returns (r: Outcome)
      requires Valid()
      modifies this, sock
      ensures Valid()
      ensures sock == old(sock) && listening == old(listening) && addr == old(addr)
      ensures Busy(old(View())) ==>
                && r == ReturnsNone
                && log == old(log) + [Refusal(old(listening))]
                && conn == old(conn) && received == old(received)
                && sock.inbound == old(sock.inbound) && sock.resets == old(sock.resets)
      ensures !Busy(old(View())) && !(old(sock.open) && peer.Some?) ==>
                && r == ReturnsFalse && conn == null
                && log == old(log) + [Connecting, ConnectFailed]
                && received == old(received)
                && sock.inbound == old(sock.inbound) && sock.resets == old(sock.resets)
      ensures !Busy(old(View())) && old(sock.open) && peer.Some? ==>
                && r == ReturnsNone && conn == sock
                && sock.inbound == [] && sock.resets == peer.value.resets
                && received == old(received) + Delivered(peer.value.stream)
                && log == old(log) + [Connecting] + ReceiveTail(peer.value.resets)
      ensures sock.open == old(sock.open) && sock.outbound == old(sock.outbound)
    {
      if listening || conn != null {
        log := log + [Refusal(listening)];
        return ReturnsNone;
      }
      log := log + [Connecting];
      var ok := sock.Connect(peer);
      if !ok {
        log := log + [ConnectFailed];
        return ReturnsFalse;
      }
      conn := sock;
      ReceiveData();
      return ReturnsNone;
    }

    /** send_data: frames the serialized payload and writes it with sendall
        when there is a connection; a failing write is logged and closes the
        connection. Without a connection nothing happens. */
    method SendData(payload: seq<byte>, writeFails: bool)
      requires Valid()
      requires |payload| < U32_LIMIT
      modifies this, sock, conn
      ensures Valid()
      ensures sock == old(sock) && addr == old(addr) && received == old(received)
      ensures old(conn) == null ==> unchanged(this, sock)
      ensures old(conn) != null && !writeFails ==>
                && conn == old(conn) && log == old(log) && listening == old(listening)
                && conn.outbound == old(conn.outbound) + Frame(payload)
                && conn.inbound == old(conn.inbound) && conn.resets == old(conn.resets) && conn.open
                && (sock != conn ==> unchanged(sock))
      ensures old(conn) != null && writeFails ==>
                && View() == AfterClose(old(View()).(log := old(log) + [SendFailed]))
                && !old(conn).open
                && old(conn).outbound == old(conn.outbound)
                && old(conn).inbound == old(conn.inbound) && old(conn).resets == old(conn.resets)
                && sock.inbound == old(sock.inbound) && sock.outbound == old(sock.outbound)
                && sock.resets == old(sock.resets)
    {
      var frame := Frame(payload);
      if conn != null {
        var ok := conn.SendAll(frame, writeFails);
        if !ok {
          log := log + [SendFailed];
          CloseConnection();
        }
      }
    }

    /** close_connection. */
    method CloseConnection()
      requires Valid()
      modifies this, sock, conn
      ensures Valid()
      ensures View() == AfterClose(old(View()))
      ensures sock == old(sock) && addr == old(addr) && received == old(received)
      ensures old(conn) != null ==> !old(conn).open
      ensures old(conn) != null ==> old(conn).inbound == old(conn.inbound) && old(conn).outbound == old(conn.outbound)
      ensures old(conn) != null ==> old(conn).resets == old(conn.resets)
      ensures old(conn) == null ==> sock.open == old(sock.open)
      ensures sock.inbound == old(sock.inbound) && sock.outbound == old(sock.outbound)
      ensures sock.resets == old(sock.resets)
    {
      log := log + [ConnectionClosed];
      if conn != null {
        conn.Close();
        conn := null;
      } else {
        return;
      }
      sock.Close();
    }
  }
}
