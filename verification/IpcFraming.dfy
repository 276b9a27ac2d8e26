// The i3-ipc message framing of src/ipc_socket.c: the wire format and the reference parser that
// reads a whole byte stream at once.

module IpcFraming {

  newtype Byte = b: int | 0 <= b < 256

  const MAGIC: seq<Byte> := [0x69, 0x33, 0x2d, 0x69, 0x70, 0x63]
  const MAGIC_LEN := 6
  const HEADER_SIZE := 14
  const MAX_PAYLOAD := 65536

  datatype Message = Message(kind: nat, payload: seq<Byte>)

  // ----- 32-bit little-endian fields -----------------------------------------------------

  function Decode32(bs: seq<Byte>): (n: nat)
    requires |bs| == 4
  {
    bs[0] as int + 0x100 * (bs[1] as int + 0x100 * (bs[2] as int + 0x100 * bs[3] as int))
  }

  /** The low 32 bits of `n`, least significant byte first. */
  function Encode32(n: nat): (bs: seq<Byte>)
    ensures |bs| == 4
  {
    var a := n / 0x100;
    var b := a / 0x100;
    var c := b / 0x100;
    [(n % 0x100) as Byte, (a % 0x100) as Byte, (b % 0x100) as Byte, (c % 0x100) as Byte]
  }

  lemma Decode32Encode32(n: nat)
    ensures Decode32(Encode32(n)) == n % 0x1_0000_0000
  {
    var a := n / 0x100;
    var b := a / 0x100;
    var c := b / 0x100;
    var low := Decode32(Encode32(n));
    assert n == low + 0x1_0000_0000 * (c / 0x100);
    Quotient(n, low, c / 0x100);
  }

  lemma Quotient(n: nat, low: nat, high: nat)
    requires n == low + 0x1_0000_0000 * high && low < 0x1_0000_0000
    ensures n % 0x1_0000_0000 == low
  {
  }

  // ----- the reference parser ------------------------------------------------------------

  function SizeOf(header: seq<Byte>): (n: nat)
    requires |header| >= HEADER_SIZE
    ensures n <= MAX_PAYLOAD
  {
    var n := Decode32(header[MAGIC_LEN..MAGIC_LEN + 4]);
    if n > MAX_PAYLOAD then MAX_PAYLOAD else n
  }

  function KindOf(header: seq<Byte>): nat
    requires |header| >= HEADER_SIZE
  {
    Decode32(header[MAGIC_LEN + 4..HEADER_SIZE])
  }

  /** The complete messages of a stream, what is left of an incomplete one, and whether parsing stopped. */
  datatype Parsed = Parsed(messages: seq<Message>, rest: seq<Byte>, bad: bool)

  /** A header's worth of bytes that does not begin with the magic. */
  predicate BadMagic(bytes: seq<Byte>) {
    |bytes| >= HEADER_SIZE && bytes[..MAGIC_LEN] != MAGIC
  }

  function FrameEnd(bytes: seq<Byte>): nat
    requires |bytes| >= HEADER_SIZE
  {
    HEADER_SIZE + SizeOf(bytes)
  }

  /** The bytes begin with a whole message. */
  predicate Complete(bytes: seq<Byte>) {
    |bytes| >= HEADER_SIZE && bytes[..MAGIC_LEN] == MAGIC && |bytes| >= FrameEnd(bytes)
  }

  function First(bytes: seq<Byte>): Message
    requires Complete(bytes)
  {
    Message(KindOf(bytes), bytes[HEADER_SIZE..FrameEnd(bytes)])
  }

  function Parse(bytes: seq<Byte>): Parsed {
    if Complete(bytes) then
      var tail := Parse(bytes[FrameEnd(bytes)..]);
      tail.(messages := [First(bytes)] + tail.messages)
    else Parsed([], bytes, BadMagic(bytes))
  }

  /** The size field of a header as the source cuts it. */
  lemma SizeIs(header: seq<Byte>)
    requires |header| >= HEADER_SIZE
    ensures SizeOf(header) <= 65536
    ensures header[6] as int + 256 * (header[7] as int) + 65536 * (header[8] as int) + 16777216 * (header[9] as int)
            == SizeOf(header) || (SizeOf(header) == 65536 && (header[8] > 0 || header[9] > 0))
  {
  }

  /** Parsing stops for no other reason than a wrong magic or bytes that are still missing. */
  lemma {:induction false} ParseStops(bytes: seq<Byte>)
    ensures var p := Parse(bytes);
            && (p.bad <==> |p.rest| >= 14 && exists i :: 0 <= i < 6 && p.rest[i] != MAGIC[i])
            && (!p.bad && |p.rest| >= 14 ==> |p.rest| < 14 + SizeOf(p.rest))
    decreases |bytes|
  {
    if Complete(bytes) {
      ParseStops(bytes[FrameEnd(bytes)..]);
    } else if |bytes| >= 14 {
      assert bytes[..6] == MAGIC <==> forall i | 0 <= i < 6 :: bytes[i] == MAGIC[i];
    }
  }

  lemma HeaderPrefix(a: seq<Byte>, b: seq<Byte>)
    requires |a| >= HEADER_SIZE
    ensures SizeOf(a + b) == SizeOf(a) && KindOf(a + b) == KindOf(a)
    ensures (a + b)[..MAGIC_LEN] == a[..MAGIC_LEN]
  {
    assert (a + b)[MAGIC_LEN..MAGIC_LEN + 4] == a[MAGIC_LEN..MAGIC_LEN + 4];
    assert (a + b)[MAGIC_LEN + 4..HEADER_SIZE] == a[MAGIC_LEN + 4..HEADER_SIZE];
  }

  /** A whole message at the front is not affected by what follows. */
  lemma CompletePrefix(a: seq<Byte>, b: seq<Byte>)
    requires Complete(a)
    ensures Complete(a + b) && First(a + b) == First(a) && FrameEnd(a + b) == FrameEnd(a)
    ensures (a + b)[FrameEnd(a)..] == a[FrameEnd(a)..] + b
  {
    HeaderPrefix(a, b);
    assert (a + b)[HEADER_SIZE..FrameEnd(a)] == a[HEADER_SIZE..FrameEnd(a)];
  }

  /** `whole` is what parsing bytes with result `p` and then `b` has to give. */
  ghost predicate Continues(p: Parsed, b: seq<Byte>, whole: Parsed) {
    if p.bad then whole.messages == p.messages && whole.bad
    else
      var q := Parse(p.rest + b);
      whole == Parsed(p.messages + q.messages, q.rest, q.bad)
  }

  lemma ContinuesPrepend(f: Message, p: Parsed, b: seq<Byte>, whole: Parsed)
    requires Continues(p, b, whole)
    ensures Continues(p.(messages := [f] + p.messages), b, whole.(messages := [f] + whole.messages))
  {
    if !p.bad {
      var q := Parse(p.rest + b);
      assert [f] + (p.messages + q.messages) == ([f] + p.messages) + q.messages;
    }
  }

  /** Parsing can be cut anywhere: only the unfinished rest has to be kept. */
  lemma {:induction false} ParseAppend(a: seq<Byte>, b: seq<Byte>)
    ensures Continues(Parse(a), b, Parse(a + b))
    decreases |a|
  {
    if Complete(a) {
      var tail := a[FrameEnd(a)..];
      CompletePrefix(a, b);
      ParseAppend(tail, b);
      ContinuesPrepend(First(a), Parse(tail), b, Parse(tail + b));
    } else {
      if BadMagic(a) {
        HeaderPrefix(a, b);
      }
      assert Parse(a + b) == var q := Parse(a + b); Parsed([] + q.messages, q.rest, q.bad);
    }
  }

  // ----- what the sender writes ----------------------------------------------------------

  /** The header that `ipc_send_raw` builds; both fields are cut to 32 bits. */
  function Header(kind: nat, length: nat): (h: seq<Byte>)
    ensures |h| == HEADER_SIZE
  {
    MAGIC + Encode32(length) + Encode32(kind)
  }

  function Encode(m: Message): seq<Byte> {
    Header(m.kind, |m.payload|) + m.payload
  }

  function EncodeAll(ms: seq<Message>): seq<Byte> {
    if ms == [] then [] else Encode(ms[0]) + EncodeAll(ms[1..])
  }

  lemma HeaderFields(kind: nat, length: nat)
    requires kind < 0x1_0000_0000
    ensures var h := Header(kind, length);
            && h[..MAGIC_LEN] == MAGIC && KindOf(h) == kind
            && SizeOf(h) == (if length % 0x1_0000_0000 > MAX_PAYLOAD then MAX_PAYLOAD
                             else length % 0x1_0000_0000)
  {
    var h := Header(kind, length);
    assert h[MAGIC_LEN..MAGIC_LEN + 4] == Encode32(length);
    assert h[MAGIC_LEN + 4..HEADER_SIZE] == Encode32(kind);
    Decode32Encode32(kind);
    Decode32Encode32(length);
  }

  ghost predicate Sendable(m: Message) {
    m.kind < 0x1_0000_0000 && |m.payload| <= MAX_PAYLOAD
  }

  /** Parsing an encoded message that fits, followed by anything, gives it back first. */
  lemma ParseEncode(m: Message, tail: seq<Byte>)
    requires Sendable(m)
    ensures var q := Parse(tail); Parse(Encode(m) + tail) == q.(messages := [m] + q.messages)
  {
    var h := Header(m.kind, |m.payload|);
    var bytes := Encode(m);
    HeaderFields(m.kind, |m.payload|);
    HeaderPrefix(h, m.payload);
    assert bytes[HEADER_SIZE..] == m.payload && bytes[HEADER_SIZE..|bytes|] == m.payload;
    assert Complete(bytes) && First(bytes) == m;
    assert FrameEnd(bytes) == |bytes| && bytes[|bytes|..] + tail == tail;
    CompletePrefix(bytes, tail);
  }

  /** Round trip: a stream of messages that fit is parsed into exactly those messages. */
  lemma {:induction false} RoundTrip(ms: seq<Message>)
    requires forall i | 0 <= i < |ms| :: Sendable(ms[i])
    ensures Parse(EncodeAll(ms)) == Parsed(ms, [], false)
  {
    if ms == [] {
    } else {
      RoundTrip(ms[1..]);
      ParseEncode(ms[0], EncodeAll(ms[1..]));
    }
  }

  /** A message survives the wire if and only if its payload is at most 65536 bytes long. */
  lemma RoundTripIff(m: Message)
    requires m.kind < 0x1_0000_0000
    ensures Parse(Encode(m)) == Parsed([m], [], false) <==> |m.payload| <= MAX_PAYLOAD
  {
    if |m.payload| <= MAX_PAYLOAD {
      ParseEncode(m, []);
      assert Encode(m) + [] == Encode(m);
    } else {
      var h := Header(m.kind, |m.payload|);
      HeaderFields(m.kind, |m.payload|);
      HeaderPrefix(h, m.payload);
    }
  }
}
