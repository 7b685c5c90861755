# SocketCommunicator, modelled in Dafny

This project models `SocketCommunicator`, the transport of a two-peer
messaging application. One communicator either listens for a single peer
(`start_server`) or connects to one (`start_client`). Once connected it runs
a receive loop. The loop reads length-prefixed frames and emits each
non-empty payload on a Qt signal. `send_data` writes one frame per call, and
`close_connection` releases the connection.

The model has three modules, one per concern:

- `Framing` (framing.dfy) is the wire format and is pure. `Be32`/`Unbe32`
  are `struct.pack('!I')` and `struct.unpack('!I')`. `Frame` is the bytes
  `send_data` writes. `ReadExactly`/`Unread` specify `recvall`.
  `ReceiveTurn` specifies one turn of the receive loop, and `Delivered`
  gives every payload the loop emits from a given byte stream.
- `Sockets` (sockets.dfy) is an abstract stream socket. The far end's bytes
  (`inbound`) are fixed when the connection is made. The stream then either
  ends in order or fails (`resets`). Each `recv(k)` returns any number of
  the next bytes between 1 and `k`, chosen nondeterministically. So every
  result proved about the readers holds for every way of splitting the
  stream into chunks. Whether bind, accept, connect and sendall succeed is a
  parameter of each step.
- `Communication` (communicator.dfy) is the class `SocketCommunicator`. Its
  fields are `sock`, `conn`, `addr` and `listening`, as in the source. The
  two Qt signals become `log` (a sequence of `LogEntry`) and `received` (a
  sequence of payloads). `AfterClose` is a pure specification of
  `close_connection` on the connection state.

The pickled payload is treated as opaque bytes.

In several places the code behaves differently from what a reader might
expect of such a channel. The model follows the code:

- When the receive loop ends, the connection is not closed. `conn` stays
  set, so a later `start_server` or `start_client` is refused with
  "Connected!".
- A payload cut short by an orderly end of stream is not an error. `recvall`
  returns None, nothing is emitted, and the loop goes round once more. It
  stops at the next prefix read. Only an exception raised by `recv` is
  logged.
- `send_data` without a connection does nothing and logs nothing.
- `close_connection` logs "Connection is closed." on every call, even when
  there is nothing to close.
- If `accept` raises, the exception escapes `start_server` with `listening`
  still True. Every later start is then refused.
- `start_client` has no step that replaces a closed socket, unlike
  `start_server`. After a `close_connection` that closed a connection,
  `start_client` fails to connect until a `start_server` has replaced the
  closed socket. A `close_connection` with no connection leaves the socket
  open.
- `start_client` returns None both when it refuses and after a successful
  session. It returns False only when connect fails.

## Model

| member | source | states |
|---|---|---|
| Framing.Be32 | Socket/SocketCommunicator.py:61 | packing a length below 2^32 yields exactly four bytes |
| Framing.Unbe32 | Socket/SocketCommunicator.py:75 | unpacking four bytes yields a length below 2^32 |
| Framing.Be32Unbe32 | Socket/SocketCommunicator.py:61-75 | the receiver's unpack of the sender's pack gives back the payload length, for every length below 2^32 |
| Framing.Unbe32Be32 | Socket/SocketCommunicator.py:75 | every 4-byte prefix is the packing of the length it decodes to, so the length encoding is a bijection |
| Framing.Frame | Socket/SocketCommunicator.py:59-64 | the frame is 4 + len(payload) bytes; its first four bytes decode to len(payload); the rest is the payload unchanged |
| Framing.FramesAppend | Socket/SocketCommunicator.py:59-64 | successive send_data calls put the concatenation of their frames on the wire, in call order |
| Framing.NonEmptyAll | Socket/SocketCommunicator.py:77-79 | when no payload is empty, the receiver's emptiness filter drops nothing |
| Framing.ReadFrame | Socket/SocketCommunicator.py:72-76 | on a frame followed by any bytes: recvall(4) completes and decodes to the payload length, the next recvall returns exactly the payload, and the following bytes stay unread |
| Framing.ReceiveTurn | Socket/SocketCommunicator.py:71-82 | a turn that goes on consumes at least one byte (so the loop terminates); a turn that stops emits nothing and has consumed the whole stream |
| Framing.DeliveredTurn | Socket/SocketCommunicator.py:69-82 | the loop's output is its first turn's output followed by the loop's output on the bytes that turn left; a stopping turn leaves nothing to emit |
| Framing.DeliveredFrame | Socket/SocketCommunicator.py:72-79 | one complete frame emits its payload (nothing if empty) and the loop continues right after it |
| Framing.DeliveredFrames | Socket/SocketCommunicator.py:69-82 | framing round trip: for any frames followed by any bytes, the loop emits every non-empty payload in order, then whatever the trailing bytes give |
| Framing.DeliveredTruncated | Socket/SocketCommunicator.py:72-79 | a frame cut short anywhere (inside the prefix or the payload) emits nothing |
| Framing.DeliveredThenTruncated | Socket/SocketCommunicator.py:69-82 | complete frames followed by a truncated one emit exactly the complete frames' non-empty payloads |
| Sockets.Socket.constructor | Socket/SocketCommunicator.py:15 | a new socket is open, with nothing read or written |
| Sockets.Socket.Accepted | Socket/SocketCommunicator.py:35 | the socket accept hands out is open and delivers the peer's stream |
| Sockets.Socket.Accept | Socket/SocketCommunicator.py:35 | accept returns a fresh connection exactly when the socket is open and a peer arrives; otherwise it raises |
| Sockets.Socket.Connect | Socket/SocketCommunicator.py:52 | connect succeeds exactly on an open socket whose peer answers; only then does the socket deliver the peer's stream |
| Sockets.Socket.Recv | Socket/SocketCommunicator.py:87 | recv(k) returns between 1 and k of the next bytes, in order, while any remain; b'' at an orderly end; an exception on a failing stream or closed socket |
| Sockets.Socket.SendAll | Socket/SocketCommunicator.py:64 | sendall appends all the bytes to the output, or raises and writes nothing |
| Sockets.Socket.Close | Socket/SocketCommunicator.py:96-100 | close leaves the socket closed and its data untouched |
| Communication.AfterClose | Socket/SocketCommunicator.py:93-100 | after close_connection there is no connection, the log has one more "closed" line, listening is unchanged, and the socket is closed exactly when there was a connection |
| Communication.CloseIdempotent | Socket/SocketCommunicator.py:93-100 | a second close_connection only adds a log line and releases nothing |
| Communication.CloseRepeatedlyOnce | Socket/SocketCommunicator.py:93-100 | k >= 1 calls of close_connection leave the state of one call, with k "closed" log lines |
| Communication.SocketCommunicator.constructor | Socket/SocketCommunicator.py:11-18 | starts with an open socket, no connection, no address, not listening, empty logs |
| Communication.SocketCommunicator.RecvAll | Socket/SocketCommunicator.py:84-91 | recvall(n) returns exactly the first n bytes for any chunking, and consumes no byte beyond them; n == 0 returns b'' without reading; early end gives None (or the exception) with the stream consumed |
| Communication.SocketCommunicator.ReceiveFrame | Socket/SocketCommunicator.py:71-82 | one turn of the loop does what ReceiveTurn specifies, and logs one error exactly when it stops on a failing stream |
| Communication.SocketCommunicator.ReceiveData | Socket/SocketCommunicator.py:69-82 | the loop emits exactly the payloads Delivered gives for the stream, logs one error only if the stream fails, consumes the stream, and leaves conn, sock, addr and listening as they were |
| Communication.SocketCommunicator.StartServer | Socket/SocketCommunicator.py:20-40 | while listening or connected: one info line, False, no field changes; otherwise replaces a closed socket, and bind failure, accept failure (listening left True) and a served session each end in the stated state |
| Communication.SocketCommunicator.StartClient | Socket/SocketCommunicator.py:42-57 | while listening or connected: one info line, None, no field changes; a failed connect logs one error, returns False and leaves conn unset; a successful one sets conn to the socket and runs the loop |
| Communication.SocketCommunicator.SendData | Socket/SocketCommunicator.py:59-67 | without a connection nothing changes; a successful write appends exactly one frame to the connection's output and changes nothing else (a separate listening socket is untouched); a failed write logs one error, then closes as close_connection does, and leaves every stream of both sockets as it was |
| Communication.SocketCommunicator.CloseConnection | Socket/SocketCommunicator.py:93-100 | the new state is AfterClose of the old one; the connection object is closed when there was one; the input, output and end-of-stream kind of both sockets are unchanged |

## Left out

- Serialization with `pickle.dumps`/`pickle.loads`: payloads are opaque bytes. A `pickle.loads` that raises would be logged and would end the loop; the model does not capture this and emits every complete non-empty payload.
- Message text of the Qt signals: each log line is a `LogEntry` constructor that names its kind (and the peer address for "Connected by"). The text of exceptions is not kept.
- Threading and blocking: each method is one sequential step. A connection's input is everything the peer sends before its end. A peer that stays silent without closing would block `recv` or `accept` forever; this is not modelled. Races between `send_data` and the receive loop are not modelled.
- Operating-system behaviour of `bind`, `listen`, `accept`, `connect` and `sendall`: their success is a parameter of the step. `listen(1)` is folded into the bind step.
- Sockets.Socket.SendAll: a failing `sendall` is modelled as writing nothing, although a real one may have written part of the bytes before raising.
- Communication.SocketCommunicator.SendData: requires a payload shorter than 2^32 bytes. For longer payloads `struct.pack` raises before the connection is even checked.
- No cap on the announced length: a huge length prefix makes `recv(n - len(data))` ask for a buffer of that size, which may raise `MemoryError`; the loop would log it and stop. `Delivered` instead waits for that many bytes and emits nothing if they never come.
- The `host` and `port` fields only appear in log lines and in the bind/connect calls. They are kept as constants and are not otherwise used.
- App.py (Qt window wiring, buttons, video and audio threads) is not part of this model. The Server/Client thread wrappers are not part of this model either.
- `QMessageBox` is imported but never used.
