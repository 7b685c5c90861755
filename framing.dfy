/** The wire format of SocketCommunicator: every message travels as a
    4-byte unsigned big-endian length (struct '!I') followed by exactly that
    many payload bytes. The payload itself (the pickled object) is opaque here.

    Besides the encoder and decoder of one frame, this module holds the pure
    specifications of the two reading loops: ReadExactly for recvall and
    Delivered for the receive loop of receive_data. */
module Framing {

  type byte = x: int | 0 <= x < 256

  /** struct.pack('!I', n) accepts exactly the n with 0 <= n < 2^32. */
  const U32_LIMIT: nat := 0x1_0000_0000

  /** struct.pack('!I', n): the four bytes of n, most significant first. */
  function Be32(n: nat): (r: seq<byte>)
    requires n < U32_LIMIT
    ensures |r| == 4
  {
    var b3, n1 := n % 0x100, n / 0x100;
    var b2, n2 := n1 % 0x100, n1 / 0x100;
    var b1, b0 := n2 % 0x100, n2 / 0x100;
    [b0, b1, b2, b3]
  }

  /** struct.unpack('!I', b)[0]: the value of four bytes read most significant first. */
  function Unbe32(b: seq<byte>): (n: nat)
    requires |b| == 4
    ensures n < U32_LIMIT
  {
    (b[0] as int) * 0x100_0000 + (b[1] as int) * 0x1_0000 + (b[2] as int) * 0x100 + b[3]
  }

  /** Unpacking a packed length gives the length back. */
  lemma Be32Unbe32(n: nat)
    requires n < U32_LIMIT
    ensures Unbe32(Be32(n)) == n
  {
    var n1 := n / 0x100;
    var n2 := n1 / 0x100;
    assert n == n1 * 0x100 + n % 0x100;
    assert n1 == n2 * 0x100 + n1 % 0x100;
    assert n2 == (n2 / 0x100) * 0x100 + n2 % 0x100;
    assert Be32(n) == [n2 / 0x100, n2 % 0x100, n1 % 0x100, n % 0x100];
  }

  /** Packing an unpacked prefix gives the same four bytes back, so the
      encoding of a length is unique. */
  lemma Unbe32Be32(b: seq<byte>)
    requires |b| == 4
    ensures Be32(Unbe32(b)) == b
  {
    var n := Unbe32(b);
    var b0: int, b1: int, b2: int, b3: int := b[0], b[1], b[2], b[3];
    var n1 := b0 * 0x1_0000 + b1 * 0x100 + b2;
    var n2 := b0 * 0x100 + b1;
    assert n == n1 * 0x100 + b3;
    assert n / 0x100 == n1 && n % 0x100 == b3;
    assert n1 == n2 * 0x100 + b2;
    assert n1 / 0x100 == n2 && n1 % 0x100 == b2;
    assert n2 / 0x100 == b0 && n2 % 0x100 == b1;
  }

  /** The bytes send_data hands to sendall for one payload: the packed
      length followed by the payload. */
  function Frame(payload: seq<byte>): (f: seq<byte>)
    requires |payload| < U32_LIMIT
    ensures |f| == 4 + |payload|
    ensures Unbe32(f[..4]) == |payload|
    ensures f[4..] == payload
  {
    Be32Unbe32(|payload|);
    var f := Be32(|payload|) + payload;
    assert f[..4] == Be32(|payload|);
    f
  }

  /** Payloads that each fit a 4-byte length prefix. */
  ghost predicate Sendable(ps: seq<seq<byte>>)
  {
    forall i :: 0 <= i < |ps| ==> |ps[i]| < U32_LIMIT
  }

  /** The byte stream produced by sending each payload of ps in turn. */
  function Frames(ps: seq<seq<byte>>): seq<byte>
    requires Sendable(ps)
  {
    if ps == [] then [] else Frame(ps[0]) + Frames(ps[1..])
  }

  /** The payloads of ps that are not empty, in order. */
  function NonEmpty(ps: seq<seq<byte>>): seq<seq<byte>>
  {
    if ps == [] then []
    else if ps[0] == [] then NonEmpty(ps[1..])
    else [ps[0]] + NonEmpty(ps[1..])
  }

  /** Each send_data call appends one frame: sending ps and then p puts
      the frames of ps + [p] on the wire. */
  lemma {:induction false} FramesAppend(ps: seq<seq<byte>>, p: seq<byte>)
    requires Sendable(ps)
    requires |p| < U32_LIMIT
    ensures Sendable(ps + [p])
    ensures Frames(ps + [p]) == Frames(ps) + Frame(p)
  {
    assert forall i :: 0 <= i < |ps| ==> (ps + [p])[i] == ps[i];
    if ps == [] {
      assert ps + [p] == [p];
      assert Frames([p]) == Frame(p) + Frames([]);
    } else {
      assert (ps + [p])[1..] == ps[1..] + [p];
      FramesAppend(ps[1..], p);
    }
  }

  /** A serializer never produces an empty payload, and then nothing is
      filtered out. */
  lemma {:induction false} NonEmptyAll(ps: seq<seq<byte>>)
    requires forall i :: 0 <= i < |ps| ==> ps[i] != []
    ensures NonEmpty(ps) == ps
  {
    if ps != [] {
      NonEmptyAll(ps[1..]);
    }
  }

  /** What recvall(n) returns: the bytes, None on an orderly end of stream,
      or the exception of a failing recv. */
  datatype ReadResult = Complete(data: seq<byte>) | EndOfStream | IoError

  /** The outcome of recvall(n) on a connection that still has the bytes s
      to deliver, after which it either closes (resets false) or fails
      (resets true). */
  function ReadExactly(s: seq<byte>, resets: bool, n: nat): ReadResult
  {
    if n <= |s| then Complete(s[..n])
    else if resets then IoError
    else EndOfStream
  }

  /** The bytes left on the connection after recvall(n): everything is
      consumed when the stream ends early. */
  function Unread(s: seq<byte>, n: nat): seq<byte>
  {
    if n <= |s| then s[n..] else []
  }

  /** The payloads the receive loop of receive_data emits when the
      connection delivers the bytes s: frames are read one after another,
      an empty payload emits nothing, and the loop stops at the first
      prefix or payload that the stream cannot complete. */
  function Delivered(s: seq<byte>): seq<seq<byte>>
    decreases |s|
  {
    if |s| < 4 then []
    else
      var n := Unbe32(s[..4]);
      var body := s[4..];
      if |body| < n then []
      else (if n == 0 then [] else [body[..n]]) + Delivered(body[n..])
  }

  /** One turn of the receive loop: the payloads it emits (none or one),
      the bytes it leaves unread, and whether the loop goes on. */
  datatype Turn = Turn(emitted: seq<seq<byte>>, rest: seq<byte>, goesOn: bool)

  /** One turn of the receive loop on a connection that has the bytes s to
      deliver: read the prefix, then the payload it announces. The loop stops
      when the prefix cannot be read, or when the payload read raises; a
      payload cut short by an orderly end emits nothing and the loop goes on. */
  function ReceiveTurn(s: seq<byte>, resets: bool): (t: Turn)
    ensures t.goesOn ==> |t.rest| < |s|
    ensures !t.goesOn ==> t.emitted == [] && t.rest == []
  {
    match ReadExactly(s, resets, 4)
    case Complete(prefix) =>
      var n := Unbe32(prefix);
      var body := Unread(s, 4);
      (match ReadExactly(body, resets, n)
       case Complete(payload) => Turn(if payload == [] then [] else [payload], Unread(body, n), true)
       case EndOfStream => Turn([], [], true)
       case IoError => Turn([], [], false))
    case _ => Turn([], [], false)
  }

  /** The receive loop is its turns repeated: a turn that goes on has
      emitted exactly what the loop would have emitted before the bytes it
      leaves; a turn that stops leaves nothing that the loop would emit. */
  lemma DeliveredTurn(already: seq<seq<byte>>, s: seq<byte>, resets: bool)
    ensures var t := ReceiveTurn(s, resets);
      if t.goesOn then (already + t.emitted) + Delivered(t.rest) == already + Delivered(s)
      else Delivered(s) == []
  {
    var t := ReceiveTurn(s, resets);
    if |s| < 4 {
      assert t == Turn([], [], false);
    } else {
      var n := Unbe32(s[..4]);
      var body := s[4..];
      assert ReadExactly(s, resets, 4) == Complete(s[..4]) && Unread(s, 4) == body;
      if n <= |body| {
        var e := if n == 0 then [] else [body[..n]];
        assert t == Turn(e, body[n..], true);
        assert Delivered(s) == e + Delivered(body[n..]);
      } else if resets {
        assert t == Turn([], [], false);
      } else {
        assert t == Turn([], [], true);
        assert (already + []) + Delivered([]) == already + [];
      }
    }
  }

  /** Reading one frame: the 4-byte prefix gives back the payload length,
      the next read returns exactly the payload, and the bytes after the
      frame are left unread. */
  lemma ReadFrame(payload: seq<byte>, next: seq<byte>, resets: bool)
    requires |payload| < U32_LIMIT
    ensures var s := Frame(payload) + next;
      && ReadExactly(s, resets, 4).Complete?
      && Unbe32(ReadExactly(s, resets, 4).data) == |payload|
      && ReadExactly(Unread(s, 4), resets, |payload|) == Complete(payload)
      && Unread(Unread(s, 4), |payload|) == next
  {
    var f := Frame(payload);
    var s := f + next;
    assert s[..4] == f[..4];
    assert s[4..] == payload + next;
    assert (payload + next)[..|payload|] == payload;
    assert (payload + next)[|payload|..] == next;
  }

  /** One complete frame: its payload is emitted unless it is empty, and
      the loop goes on with the bytes after it. */
  lemma DeliveredFrame(payload: seq<byte>, rest: seq<byte>)
    requires |payload| < U32_LIMIT
    ensures Delivered(Frame(payload) + rest)
         == (if payload == [] then [] else [payload]) + Delivered(rest)
  {
    var f := Frame(payload);
    var s := f + rest;
    assert s[..4] == f[..4];
    assert s[4..] == payload + rest;
    assert (payload + rest)[..|payload|] == payload;
    assert (payload + rest)[|payload|..] == rest;
  }

  /** Framing round trip over a whole stream: the receive loop emits every
      non-empty payload that was sent, in order, and then reads on into
      whatever follows. */
  lemma {:induction false} DeliveredFrames(ps: seq<seq<byte>>, tail: seq<byte>)
    requires Sendable(ps)
    ensures Delivered(Frames(ps) + tail) == NonEmpty(ps) + Delivered(tail)
  {
    if ps != [] {
      var first := if ps[0] == [] then [] else [ps[0]];
      var rest := Frames(ps[1..]);
      assert Delivered(Frames(ps) + tail) == first + Delivered(rest + tail) by {
        assert Frames(ps) + tail == Frame(ps[0]) + (rest + tail);
        DeliveredFrame(ps[0], rest + tail);
      }
      assert Delivered(rest + tail) == NonEmpty(ps[1..]) + Delivered(tail) by {
        DeliveredFrames(ps[1..], tail);
      }
      assert NonEmpty(ps) == first + NonEmpty(ps[1..]);
    } else {
      assert Frames(ps) + tail == tail;
    }
  }

  /** A frame cut short by the end of the stream is never delivered. */
  lemma DeliveredTruncated(payload: seq<byte>, k: nat)
    requires |payload| < U32_LIMIT
    requires k < 4 + |payload|
    ensures Delivered(Frame(payload)[..k]) == []
  {
    var f := Frame(payload);
    if k >= 4 {
      assert f[..k][..4] == f[..4];
      assert |f[..k][4..]| == k - 4;
    }
  }

  /** Sending payloads and then half a frame: the receiver emits exactly
      the non-empty payloads of the complete frames. */
  lemma DeliveredThenTruncated(ps: seq<seq<byte>>, payload: seq<byte>, k: nat)
    requires Sendable(ps)
    requires |payload| < U32_LIMIT
    requires k < 4 + |payload|
    ensures Delivered(Frames(ps) + Frame(payload)[..k]) == NonEmpty(ps)
  {
    DeliveredFrames(ps, Frame(payload)[..k]);
    DeliveredTruncated(payload, k);
  }
}
