// The incremental reader of src/ipc_socket.c: `ipc_client_handle_readable` over short reads.

module IpcClients {
  import opened IpcFraming

  /** What one `read` finds: at most `k` bytes (at least one if there are any), nothing yet, end, failure. */
  datatype Answer = Upto(k: nat) | Again | Eof | Fail

  datatype Got = Data(bytes: seq<Byte>) | Nothing | Closed

  /** A connection: the bytes the peer will ever send, and how many have been read. */
  class Socket {
    const stream: seq<Byte>
    var position: nat

    ghost predicate Valid()
      reads this
    {
      position <= |stream|
    }

    constructor (bytes: seq<Byte>)
      ensures Valid() && stream == bytes && position == 0
    {
      stream := bytes;
      position := 0;
    }

    /** `read(fd, buffer, want)` on a non-blocking descriptor. */
    method Read(want: nat, answer: Answer) returns (got: Got)
      requires Valid() && want > 0
      modifies this
      ensures Valid()
      ensures match got
              case Data(bytes) =>
                && answer.Upto? && 0 < |bytes| <= want
                && position == old(position) + |bytes| && bytes == stream[old(position)..position]
              case Nothing =>
                position == old(position) && (answer == Again || (answer.Upto? && position == |stream|))
              case Closed => position == old(position) && (answer == Eof || answer == Fail)
    {
      match answer
      case Upto(k) =>
        var n := if k < 1 then 1 else k;
        if n > want {
          n := want;
        }
        if n > |stream| - position {
          n := |stream| - position;
        }
        if n == 0 {
          return Nothing;
        }
        position := position + n;
        return Data(stream[position - n..position]);
      case Again =>
        return Nothing;
      case Eof =>
        return Closed;
      case Fail =>
        return Closed;
    }
  }

  /** One callback: the event mask, and the kernel's answers to its at most two reads. */
  datatype Wake = Wake(error: bool, readable: bool, first: Answer, second: Answer)

  /** The callback sees neither an error event nor end of file nor a failed read. */
  predicate Clean(w: Wake) {
    !w.error && w.first != Eof && w.first != Fail && w.second != Eof && w.second != Fail
  }

  class IpcClient {
    const sock: Socket
    const hdrBuf: array<Byte>
    var hdrLen: nat
    var payload: array<Byte>
    var payloadSize: nat
    var payloadLen: nat
    var msgType: nat
    var headerDone: bool
    var open: bool
    var dispatched: seq<Message>

    /** The bytes of the frame that is being read. */
    ghost function Pending(): seq<Byte>
      reads this, hdrBuf, payload
      requires hdrLen <= hdrBuf.Length && payloadLen <= payload.Length
    {
      hdrBuf[..hdrLen] + (if headerDone then payload[..payloadLen] else [])
    }

    /** A header has arrived; `payload_len < payload_size <= payload_alloc`, at most 65536. */
    ghost predicate PayloadOk()
      reads this, hdrBuf, payload
    {
      && hdrBuf.Length == HEADER_SIZE && hdrLen == HEADER_SIZE
      && hdrBuf[..][..MAGIC_LEN] == MAGIC
      && payloadSize == SizeOf(hdrBuf[..]) && msgType == KindOf(hdrBuf[..])
      && payloadLen < payloadSize <= payload.Length
    }

    ghost predicate HeaderOk()
      reads this
    {
      hdrLen < HEADER_SIZE && payloadLen == 0 && payloadSize == 0
    }

    /** Between callbacks: what was dispatched and what is buffered is the parse of what was read. */
    ghost predicate Valid()
      reads this, sock, hdrBuf, payload
    {
      && sock.Valid()
      && hdrBuf.Length == HEADER_SIZE && hdrBuf != payload && payload.Length <= MAX_PAYLOAD
      && hdrLen <= HEADER_SIZE && payloadLen <= payload.Length
      && (open ==>
            && (if headerDone then PayloadOk() else HeaderOk())
            && Parse(sock.stream[..sock.position]) == Parsed(dispatched, Pending(), false))
      && (!open ==> Parse(sock.stream[..sock.position]).messages == dispatched)
    }

    constructor (s: Socket)
      requires s.position == 0
      ensures Valid() && sock == s && open && dispatched == [] && fresh(hdrBuf) && fresh(payload)
    {
      sock := s;
      hdrBuf := new Byte[HEADER_SIZE](_ => 0);
      hdrLen, payloadSize, payloadLen, msgType, headerDone := 0, 0, 0, 0, false;
      payload := new Byte[0];
      open := true;
      dispatched := [];
      new;
      assert sock.stream[..0] == [];
    }

    /** Decodes a complete header and makes room for its payload. */
    method ParseHeader()
      requires hdrBuf.Length == HEADER_SIZE && payload.Length <= MAX_PAYLOAD && hdrBuf != payload
      modifies this
      ensures open == old(open) && dispatched == old(dispatched) && hdrLen == old(hdrLen)
      ensures headerDone && payloadSize == SizeOf(hdrBuf[..]) && msgType == KindOf(hdrBuf[..])
      ensures payloadSize <= payload.Length <= MAX_PAYLOAD && hdrBuf != payload
      ensures payload == old(payload) || fresh(payload)
      ensures payloadLen == if payloadSize > 0 then 0 else old(payloadLen)
    {
      assert hdrBuf[MAGIC_LEN..MAGIC_LEN + 4] == hdrBuf[..][MAGIC_LEN..MAGIC_LEN + 4];
      assert hdrBuf[MAGIC_LEN + 4..HEADER_SIZE] == hdrBuf[..][MAGIC_LEN + 4..HEADER_SIZE];
      payloadSize := Decode32(hdrBuf[MAGIC_LEN..MAGIC_LEN + 4]);
      msgType := Decode32(hdrBuf[MAGIC_LEN + 4..HEADER_SIZE]);
      if payloadSize > 0 {
        if payloadSize > MAX_PAYLOAD {
          payloadSize := MAX_PAYLOAD;
        }
        if payloadSize > payload.Length {
          var size := payloadSize + 1;
          if size > MAX_PAYLOAD {
            size := MAX_PAYLOAD;
          }
          payload := new Byte[size](_ => 0);
        }
        payloadLen := 0;
      }
      headerDone := true;
    }

    /** The header branch of the callback. `done` tells whether it goes on to the payload. */
    method ReadHeader(answer: Answer) returns (done: bool)
      requires Valid() && open && !headerDone
      modifies this, sock, hdrBuf
      ensures sock.Valid() && sock.position >= old(sock.position)
      ensures dispatched == old(dispatched) && (payload == old(payload) || fresh(payload))
      ensures !done ==> Valid()
      ensures !done && answer != Eof && answer != Fail ==>
                (open <==> !Parse(sock.stream[..sock.position]).bad)
      ensures answer.Upto? && old(sock.position) < |sock.stream| ==> sock.position > old(sock.position)
      ensures done ==>
                && open && headerDone && hdrLen == HEADER_SIZE && payloadLen == 0
                && hdrBuf != payload && payload.Length <= MAX_PAYLOAD
                && hdrBuf[..][..MAGIC_LEN] == MAGIC
                && payloadSize == SizeOf(hdrBuf[..]) && msgType == KindOf(hdrBuf[..])
                && payloadSize <= payload.Length
                && Frame(sock.stream[..sock.position], dispatched, hdrBuf[..])
    {
      ghost var before, pending := sock.stream[..sock.position], hdrBuf[..hdrLen];
      assert Pending() == pending;
      var got := sock.Read(HEADER_SIZE - hdrLen, answer);
      if got == Closed {
        open := false;
        return false;
      }
      if got == Nothing {
        return false;
      }
      var bytes := got.bytes;
      Put(hdrBuf, hdrLen, bytes);
      hdrLen := hdrLen + |bytes|;
      assert sock.stream[..sock.position] == before + bytes;
      HeaderBytes(before, dispatched, pending, bytes);
      if hdrLen < HEADER_SIZE {
        assert Pending() == pending + bytes;
        return false;
      }
      assert hdrBuf[..hdrLen] == hdrBuf[..] && hdrBuf[..MAGIC_LEN] == hdrBuf[..][..MAGIC_LEN];
      if hdrBuf[..MAGIC_LEN] != MAGIC {
        open := false;
        return false;
      }
      ParseHeader();
      return true;
    }

    /** One read into the payload buffer. */
    method FillPayload(answer: Answer) returns (got: Got)
      requires Valid() && open && headerDone
      modifies this`payloadLen, sock, payload
      ensures sock.Valid() && hdrBuf[..] == old(hdrBuf[..]) && payloadLen <= payloadSize
      ensures got.Data? ==>
                && answer.Upto? && 0 < |got.bytes| && sock.position == old(sock.position) + |got.bytes|
                && sock.stream[..sock.position] == old(sock.stream[..sock.position]) + got.bytes
                && payloadLen == old(payloadLen) + |got.bytes|
                && payload[..payloadLen] == old(payload[..payloadLen]) + got.bytes
      ensures !got.Data? ==>
                && sock.position == old(sock.position) && payloadLen == old(payloadLen)
                && payload[..] == old(payload[..]) && (answer.Upto? ==> sock.position == |sock.stream|)
      ensures got == Closed <==> answer == Eof || answer == Fail
    {
      got := sock.Read(payloadSize - payloadLen, answer);
      if got.Data? {
        Put(payload, payloadLen, got.bytes);
        payloadLen := payloadLen + |got.bytes|;
      }
    }

    /** The payload branch. `done` tells whether a whole message has been received. */
    method ReadPayload(answer: Answer) returns (done: bool)
      requires Valid() && open && headerDone
      modifies this, sock, payload
      ensures sock.Valid() && sock.position >= old(sock.position)
      ensures hdrBuf[..] == old(hdrBuf[..]) && payload == old(payload)
      ensures dispatched == old(dispatched) && payloadSize == old(payloadSize) && msgType == old(msgType)
      ensures !done ==> Valid() && (answer != Eof && answer != Fail ==> open)
      ensures answer.Upto? && old(sock.position) < |sock.stream| ==> sock.position > old(sock.position)
      ensures done ==>
                && open && headerDone && hdrLen == HEADER_SIZE
                && payloadLen == payloadSize <= payload.Length
                && Frame(sock.stream[..sock.position], dispatched, hdrBuf[..] + payload[..payloadSize])
    {
      ghost var before, header, part := sock.stream[..sock.position], hdrBuf[..], payload[..payloadLen];
      assert hdrBuf[..hdrLen] == header;
      var got := FillPayload(answer);
      if got == Closed {
        open := false;
        return false;
      }
      if got == Nothing {
        assert payload[..payloadLen] == payload[..][..payloadLen] == part;
        return false;
      }
      PayloadBytes(before, dispatched, header, part, got.bytes);
      if payloadLen < payloadSize {
        assert hdrBuf[..hdrLen] == header;
        return false;
      }
      return true;
    }

    /** The end of the callback: the message is handed on and the state reset for the next one. */
    method Dispatch()
      requires sock.Valid() && open && headerDone
      requires hdrBuf.Length == HEADER_SIZE && hdrBuf != payload && payload.Length <= MAX_PAYLOAD
      requires hdrBuf[..][..MAGIC_LEN] == MAGIC
      requires payloadSize == SizeOf(hdrBuf[..]) && msgType == KindOf(hdrBuf[..])
      requires payloadSize <= payload.Length
      requires Frame(sock.stream[..sock.position], dispatched, hdrBuf[..] + payload[..payloadSize])
      modifies this
      ensures Valid() && open && sock.position == old(sock.position) && payload == old(payload)
      ensures dispatched == old(dispatched) + [Message(old(msgType), old(payload[..payloadSize]))]
    {
      WholeFrame(sock.stream[..sock.position], dispatched, hdrBuf[..], payload[..payloadSize]);
      dispatched := dispatched + [Message(msgType, payload[..payloadSize])];
      hdrLen := 0;
      headerDone := false;
      payloadLen := 0;
      payloadSize := 0;
      assert hdrBuf[..0] == [];
    }

    /** `ipc_client_handle_readable` */
    method HandleReadable(wake: Wake)
      requires Valid() && open
      modifies this, sock, hdrBuf, payload
      ensures Valid() && sock.position >= old(sock.position) && (payload == old(payload) || fresh(payload))
      ensures old(dispatched) <= dispatched
      ensures Clean(wake) ==> (open <==> !Parse(sock.stream[..sock.position]).bad)
      ensures !wake.error && wake.readable && wake.first.Upto? && old(sock.position) < |sock.stream| ==>
                sock.position > old(sock.position)
    {
      if wake.error {
        open := false;
        return;
      }
      if !wake.readable {
        return;
      }
      var answer := wake.first;
      if !headerDone {
        var more := ReadHeader(answer);
        if !more {
          return;
        }
        answer := wake.second;
        if payloadSize == 0 {
          assert hdrBuf[..] + payload[..payloadSize] == hdrBuf[..];
          Dispatch();
          return;
        }
        PartialFrame(sock.stream[..sock.position], dispatched, hdrBuf[..]);
        assert Pending() == hdrBuf[..];
      }
      var whole := ReadPayload(answer);
      if whole {
        Dispatch();
      }
    }
  }

  /** What `read` does to its buffer. */
  method Put(buffer: array<Byte>, at: nat, bytes: seq<Byte>)
    requires at + |bytes| <= buffer.Length
    modifies buffer
    ensures buffer[..at + |bytes|] == old(buffer[..at]) + bytes
  {
    forall i | 0 <= i < |bytes| {
      buffer[at + i] := bytes[i];
    }
  }

  /** After `dispatched`, what has been read goes on with `frame` and nothing else. */
  ghost predicate Frame(bytes: seq<Byte>, dispatched: seq<Message>, frame: seq<Byte>) {
    Parse(bytes) == var q := Parse(frame); Parsed(dispatched + q.messages, q.rest, q.bad)
  }

  /** More bytes of a header: still incomplete, complete with a wrong magic, or the start of a frame. */
  lemma HeaderBytes(before: seq<Byte>, dispatched: seq<Message>, pending: seq<Byte>, bytes: seq<Byte>)
    requires Parse(before) == Parsed(dispatched, pending, false)
    requires |pending| < HEADER_SIZE && |pending + bytes| <= HEADER_SIZE
    ensures Frame(before + bytes, dispatched, pending + bytes)
    ensures |pending + bytes| < HEADER_SIZE ==> Parse(before + bytes) == Parsed(dispatched, pending + bytes, false)
    ensures BadMagic(pending + bytes) ==> Parse(before + bytes).messages == dispatched && Parse(before + bytes).bad
  {
    ParseAppend(before, bytes);
  }

  /** What is read next continues the incomplete frame. */
  lemma AppendFrame(before: seq<Byte>, dispatched: seq<Message>, pending: seq<Byte>, bytes: seq<Byte>)
    requires Parse(before) == Parsed(dispatched, pending, false)
    ensures Frame(before + bytes, dispatched, pending + bytes)
  {
    ParseAppend(before, bytes);
  }

  /** More bytes of a payload. */
  lemma PayloadBytes(before: seq<Byte>, dispatched: seq<Message>, header: seq<Byte>, part: seq<Byte>,
                     bytes: seq<Byte>)
    requires |header| == HEADER_SIZE && header[..MAGIC_LEN] == MAGIC
    requires Parse(before) == Parsed(dispatched, header + part, false)
    ensures Frame(before + bytes, dispatched, header + (part + bytes))
    ensures |part + bytes| < SizeOf(header) ==>
              Parse(before + bytes) == Parsed(dispatched, header + (part + bytes), false)
  {
    assert (header + part) + bytes == header + (part + bytes);
    AppendFrame(before, dispatched, header + part, bytes);
    if |part + bytes| < SizeOf(header) {
      IncompleteFrame(header, part + bytes);
    }
  }

  lemma IncompleteFrame(header: seq<Byte>, body: seq<Byte>)
    requires |header| == HEADER_SIZE && header[..MAGIC_LEN] == MAGIC && |body| < SizeOf(header)
    ensures Parse(header + body) == Parsed([], header + body, false)
  {
    HeaderPrefix(header, body);
  }

  lemma WholeFrame(bytes: seq<Byte>, dispatched: seq<Message>, header: seq<Byte>, body: seq<Byte>)
    requires |header| == HEADER_SIZE && header[..MAGIC_LEN] == MAGIC && |body| == SizeOf(header)
    requires Frame(bytes, dispatched, header + body)
    ensures Parse(bytes) == Parsed(dispatched + [Message(KindOf(header), body)], [], false)
  {
    HeaderPrefix(header, body);
    var f := header + body;
    assert f[HEADER_SIZE..HEADER_SIZE + |body|] == body;
    assert Complete(f) && First(f) == Message(KindOf(header), body);
    assert f[FrameEnd(f)..] == [];
    assert Parse([]) == Parsed([], [], false);
  }

  lemma PartialFrame(bytes: seq<Byte>, dispatched: seq<Message>, header: seq<Byte>)
    requires |header| == HEADER_SIZE && header[..MAGIC_LEN] == MAGIC && SizeOf(header) > 0
    requires Frame(bytes, dispatched, header)
    ensures Parse(bytes) == Parsed(dispatched, header, false)
  {
  }

  // ----- a whole connection --------------------------------------------------------------

  /** Neither an error nor an idle wake-up: every read is allowed to return something. */
  predicate Eager(w: Wake) {
    !w.error && w.readable && w.first.Upto? && w.second.Upto?
  }

  lemma PrefixParse(stream: seq<Byte>, n: nat)
    requires n <= |stream|
    ensures Parse(stream[..n]).messages <= Parse(stream).messages
    ensures Parse(stream[..n]).bad ==> Parse(stream).messages == Parse(stream[..n]).messages
  {
    ParseAppend(stream[..n], stream[n..]);
    assert stream[..n] + stream[n..] == stream;
  }

  /**
   * Serving a connection under any schedule of wake-ups and any short reads: what was dispatched is
   * the parse of what was read. Enough eager wake-ups dispatch the parse of the whole stream.
   */
  method Serve(stream: seq<Byte>, wakes: seq<Wake>) returns (dispatched: seq<Message>, read: nat)
    ensures read <= |stream| && dispatched == Parse(stream[..read]).messages
    ensures dispatched <= Parse(stream).messages
    ensures (forall i | 0 <= i < |wakes| :: Eager(wakes[i])) && |wakes| >= |stream| ==>
              dispatched == Parse(stream).messages
  {
    var sock := new Socket(stream);
    var client := new IpcClient(sock);
    var i := 0;
    assert stream[..0] == [];
    while i < |wakes| && client.open
      invariant 0 <= i <= |wakes|
      invariant client.Valid() && client.sock == sock && sock.stream == stream
      invariant fresh(client) && fresh(sock) && fresh(client.hdrBuf) && fresh(client.payload)
      invariant (forall j | 0 <= j < i :: Eager(wakes[j])) ==>
                  && (client.open ==> sock.position >= i || sock.position == |stream|)
                  && (!client.open ==> Parse(stream[..sock.position]).bad)
      decreases |wakes| - i
    {
      client.HandleReadable(wakes[i]);
      i := i + 1;
    }
    dispatched, read := client.dispatched, sock.position;
    PrefixParse(stream, read);
    assert stream[..|stream|] == stream;
  }

  /** A peer that sends messages that fit, and enough wake-ups: exactly those messages arrive, in order. */
  method ServeSent(sent: seq<Message>, wakes: seq<Wake>) returns (dispatched: seq<Message>)
    requires forall i | 0 <= i < |sent| :: Sendable(sent[i])
    ensures dispatched <= sent
    ensures (forall i | 0 <= i < |wakes| :: Eager(wakes[i])) && |wakes| >= |EncodeAll(sent)| ==>
              dispatched == sent
  {
    var read;
    RoundTrip(sent);
    dispatched, read := Serve(EncodeAll(sent), wakes);
  }
}
