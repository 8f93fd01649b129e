/**
 The length-prefixed framing shared by the chat client and the chat server:
 a four-byte big-endian length followed by that many bytes.
 */
module Framing {
  import opened Common
  import opened Bytes

  type Message = seq<Byte>

  const HEADER: nat := 4
  const MAX_LENGTH: nat := 65536
  const TWO_31: int := 0x8000_0000

  // ---------------------------------------------------------------- encoder

  /** `htonl(static_cast<int32_t>(n))` as it lies in memory: n is cut to 32 bits. */
  function Header(n: nat): (h: seq<Byte>)
    ensures |h| == HEADER
  {
    var u := n % TWO_32;
    [u / 0x100_0000, u / 0x1_0000 % 256, u / 256 % 256, u % 256]
  }

  function Unsigned(b0: int, b1: int, b2: int, b3: int): int {
    b0 * 0x100_0000 + b1 * 0x1_0000 + b2 * 256 + b3
  }

  /** `ntohl` of the first four bytes, read as a signed 32-bit number. */
  function SignedLength(b: seq<Byte>): int
    requires |b| >= HEADER
  {
    var u := Unsigned(b[0], b[1], b[2], b[3]);
    if u < TWO_31 then u else u - TWO_32
  }

  function Encode(m: Message): (e: seq<Byte>)
    ensures |e| == HEADER + |m|
  {
    Header(|m|) + m
  }

  function EncodeAll(ms: seq<Message>): seq<Byte> {
    if ms == [] then [] else Encode(ms[0]) + EncodeAll(ms[1..])
  }

  // ---------------------------------------------------------------- decoder

  /** What draining a buffer yields: messages, the bytes left, and whether a bad header stopped it. */
  datatype Decoded = Decoded(messages: seq<Message>, rest: seq<Byte>, invalid: bool)

  predicate BadLength(n: int) {
    n > MAX_LENGTH || n < 0
  }

  /** The buffer starts with a length the decoder refuses. */
  predicate BadHeader(b: seq<Byte>) {
    |b| >= HEADER && BadLength(SignedLength(b))
  }

  /** The buffer starts with a whole frame. */
  predicate WholeFrame(b: seq<Byte>) {
    |b| >= HEADER && !BadLength(SignedLength(b)) && |b| >= SignedLength(b) + HEADER
  }

  function Decode(b: seq<Byte>): (d: Decoded)
    decreases |b|
  {
    if WholeFrame(b) then
      var end := SignedLength(b) + HEADER;
      var d := Decode(b[end..]);
      Decoded([b[HEADER..end]] + d.messages, d.rest, d.invalid)
    else
      Decoded([], b, BadHeader(b))
  }

  predicate AllShort(ms: seq<Message>) {
    forall i :: 0 <= i < |ms| ==> |ms[i]| <= MAX_LENGTH
  }

  // ------------------------------------------------------ header round trip

  /** The receiver reads back the message size cut to a signed 32-bit number. */
  lemma HeaderRoundTrip(n: nat, tail: seq<Byte>)
    ensures SignedLength(Header(n) + tail)
         == if n % TWO_32 < TWO_31 then n % TWO_32 else n % TWO_32 - TWO_32
  {
    var u := n % TWO_32;
    var b := Header(n) + tail;
    assert b[0] == u / 0x100_0000 && b[1] == u / 0x1_0000 % 256 && b[2] == u / 256 % 256 && b[3] == u % 256;
    assert u / 0x100_0000 == u / 0x1_0000 / 256 && u / 0x1_0000 == u / 256 / 256;
  }

  /** A header is determined by the length it announces. */
  lemma HeaderFromLength(b: seq<Byte>)
    requires |b| >= HEADER && SignedLength(b) >= 0
    ensures b[..HEADER] == Header(SignedLength(b))
  {
    var u := SignedLength(b);
    assert u == Unsigned(b[0], b[1], b[2], b[3]) < TWO_31;
    Digits(b[0], b[1], b[2], b[3], u);
    assert b[..HEADER] == [b[0], b[1], b[2], b[3]];
  }

  /** The base-256 digits of a number are its big-endian bytes. */
  lemma Digits(b0: Byte, b1: Byte, b2: Byte, b3: Byte, u: int)
    requires u == Unsigned(b0, b1, b2, b3)
    ensures u % TWO_32 == u && u / 0x100_0000 == b0 && u / 0x1_0000 % 256 == b1
    ensures u / 256 % 256 == b2 && u % 256 == b3
  {
    var v := b0 * 256 + b1;
    var w := v * 256 + b2;
    assert u == w * 256 + b3 && u / 256 == w;
    assert u / 0x1_0000 == v;
  }

  // ------------------------------------------------------------ wire format

  /** The number that bytes stand for, most significant first. */
  function BigEndian(b: seq<Byte>): nat {
    if b == [] then 0 else BigEndian(b[..|b| - 1]) * 256 + b[|b| - 1]
  }

  lemma BigEndianOfFour(b: seq<Byte>)
    requires |b| == 4
    ensures BigEndian(b) == Unsigned(b[0], b[1], b[2], b[3])
  {
    assert b[..3][..2] == b[..2] && b[..2][..1] == b[..1] && b[..1][..0] == [];
    assert BigEndian(b[..1]) == Unsigned(0, 0, 0, b[0]);
    assert BigEndian(b[..2]) == Unsigned(0, 0, b[0], b[1]);
    assert BigEndian(b[..3]) == Unsigned(0, b[0], b[1], b[2]);
  }

  /** The header is the length modulo 2 to the 32 in network byte order. */
  lemma HeaderIsBigEndian(n: nat)
    ensures |Header(n)| == 4 && BigEndian(Header(n)) == n % 0x1_0000_0000
  {
    var u := n % TWO_32;
    BigEndianOfFour(Header(n));
    assert u == u / 0x100_0000 * 0x100_0000 + u / 0x1_0000 % 256 * 0x1_0000 + u / 256 % 256 * 256 + u % 256 by {
      assert u / 0x100_0000 == u / 0x1_0000 / 256 && u / 0x1_0000 == u / 256 / 256;
    }
  }

  /** A message goes out as four bytes in network byte order and then itself. */
  lemma WireFormat(m: Message)
    ensures Encode(m)[4..] == m && BigEndian(Encode(m)[..4]) == |m| % 0x1_0000_0000
  {
    HeaderIsBigEndian(|m|);
    assert Encode(m)[..4] == Header(|m|);
  }

  /**
   In terms of the bytes received: a header is refused exactly if the number it
   announces is over 65536, and otherwise that many bytes after it are the
   first message as soon as they are there.
   */
  lemma FirstFrame(b: seq<Byte>)
    ensures |b| < 4 ==> Decode(b) == Decoded([], b, false)
    ensures |b| >= 4 ==>
      var n := BigEndian(b[..4]);
      if n > 65536 then Decode(b) == Decoded([], b, true)
      else if |b| < 4 + n then Decode(b) == Decoded([], b, false)
      else Decode(b) == Prepend([b[4..4 + n]], Decode(b[4 + n..]))
  {
    if |b| >= 4 {
      BigEndianOfFour(b[..4]);
      assert BigEndian(b[..4]) == Unsigned(b[0], b[1], b[2], b[3]);
    }
  }

  // ----------------------------------------------------------- main results

  /**
   Full characterisation of the decode loop, without reference to how it walks
   the buffer: the input is the encoding of the delivered messages followed by
   the rest, every message is within the limit, and the rest holds no whole frame.
   */
  ghost predicate IsDecoding(b: seq<Byte>, d: Decoded) {
    && b == EncodeAll(d.messages) + d.rest
    && AllShort(d.messages)
    && !WholeFrame(d.rest)
    && d.invalid == BadHeader(d.rest)
  }

  function Prepend(ms: seq<Message>, d: Decoded): Decoded {
    d.(messages := ms + d.messages)
  }

  lemma OneMore(m: Message, b: seq<Byte>, d: Decoded)
    requires |m| <= MAX_LENGTH && IsDecoding(b, d)
    ensures IsDecoding(Encode(m) + b, Prepend([m], d))
  {
    var ms := [m] + d.messages;
    assert ms[0] == m && ms[1..] == d.messages;
    Assoc(Encode(m), EncodeAll(d.messages), d.rest);
    assert forall i :: 0 < i < |ms| ==> ms[i] == d.messages[i - 1];
  }

  /** A whole frame at the front is the encoding of its body. */
  lemma FrameIsEncoding(b: seq<Byte>)
    requires WholeFrame(b)
    ensures var end := SignedLength(b) + HEADER;
      b == Encode(b[HEADER..end]) + b[end..]
  {
    HeaderFromLength(b);
    var end := SignedLength(b) + HEADER;
    assert b == b[..HEADER] + b[HEADER..end] + b[end..];
  }

  lemma {:induction false} DecodeSound(b: seq<Byte>)
    ensures IsDecoding(b, Decode(b))
    decreases |b|
  {
    if WholeFrame(b) {
      var end := SignedLength(b) + HEADER;
      DecodeSound(b[end..]);
      FrameIsEncoding(b);
      OneMore(b[HEADER..end], b[end..], Decode(b[end..]));
    }
  }

  /** A short message in front of any bytes is the first thing decoded. */
  lemma DecodeFrame(m: Message, tail: seq<Byte>)
    requires |m| <= MAX_LENGTH
    ensures Decode(Encode(m) + tail) == Prepend([m], Decode(tail))
  {
    var b := Encode(m) + tail;
    assert b == Header(|m|) + (m + tail);
    HeaderRoundTrip(|m|, m + tail);
    assert |m| % TWO_32 == |m|;
    var n := SignedLength(b);
    assert n == |m|;
    assert WholeFrame(b);
    var end := n + HEADER;
    assert b[HEADER..end] == m;
    assert b[end..] == tail;
    assert Decode(b) == Prepend([b[HEADER..end]], Decode(b[end..]));
  }

  lemma {:induction false} DecodeFrames(ms: seq<Message>, tail: seq<Byte>)
    requires AllShort(ms)
    ensures Decode(EncodeAll(ms) + tail) == Prepend(ms, Decode(tail))
  {
    if ms == [] {
      assert EncodeAll(ms) + tail == tail;
    } else {
      var m, others := ms[0], ms[1..];
      assert AllShort(others);
      DecodeFrames(others, tail);
      DecodeFrame(m, EncodeAll(others) + tail);
      Assoc(Encode(m), EncodeAll(others), tail);
      PrependTwice(m, others, Decode(tail));
      assert [m] + others == ms;
    }
  }

  lemma PrependTwice(m: Message, ms: seq<Message>, d: Decoded)
    ensures Prepend([m], Prepend(ms, d)) == Prepend([m] + ms, d)
  {
    Assoc([m], ms, d.messages);
  }

  /** The characterisation has exactly one solution, the decoder's answer. */
  lemma DecodeUnique(b: seq<Byte>, d: Decoded)
    ensures IsDecoding(b, d) <==> d == Decode(b)
  {
    DecodeSound(b);
    if IsDecoding(b, d) {
      DecodeFrames(d.messages, d.rest);
      assert d.messages + [] == d.messages;
    }
  }

  /**
   The round trip holds for exactly the message lists the limit allows: one
   oversized message (its length is cut to 32 bits on the way out) breaks it.
   */
  lemma {:induction false} RoundTrip(ms: seq<Message>)
    ensures Decode(EncodeAll(ms)) == Decoded(ms, [], false) <==> AllShort(ms)
  {
    if AllShort(ms) {
      DecodeFrames(ms, []);
      assert EncodeAll(ms) + [] == EncodeAll(ms) && ms + [] == ms;
    } else if Decode(EncodeAll(ms)) == Decoded(ms, [], false) {
      DecodeSound(EncodeAll(ms));
    }
  }

  /** A message over the limit whose cut length is still over it blocks the stream at once. */
  lemma OversizedBlocks(m: Message, tail: seq<Byte>)
    requires |m| % TWO_32 > MAX_LENGTH
    ensures Decode(Encode(m) + tail) == Decoded([], Encode(m) + tail, true)
  {
    assert Encode(m) + tail == Header(|m|) + (m + tail);
    HeaderRoundTrip(|m|, m + tail);
  }

  /** The limit in numbers: 65536 bytes are delivered, 65537 are refused. */
  lemma LimitIs(m: Message, tail: seq<Byte>)
    ensures |m| == 65536 ==> Decode(Encode(m) + tail).messages == [m] + Decode(tail).messages
    ensures |m| == 65537 ==> Decode(Encode(m) + tail) == Decoded([], Encode(m) + tail, true)
  {
    if |m| == 65536 {
      DecodeFrame(m, tail);
    } else if |m| == 65537 {
      OversizedBlocks(m, tail);
    }
  }

  // ----------------------------------------------------------- chunked input

  /** The state of one connection's reader after one more chunk of any size has arrived. */
  function Feed(d: Decoded, chunk: seq<Byte>): Decoded {
    var e := Decode(d.rest + chunk);
    Decoded(d.messages + e.messages, e.rest, e.invalid)
  }

  function FeedAll(chunks: seq<seq<Byte>>): Decoded {
    if chunks == [] then Decoded([], [], false)
    else Feed(FeedAll(chunks[..|chunks| - 1]), chunks[|chunks| - 1])
  }

  /** Decoding may stop anywhere and resume from the rest. */
  lemma {:induction false} DecodeResume(a: seq<Byte>, b: seq<Byte>)
    ensures Decode(a + b) == Feed(Decode(a), b)
    decreases |a|
  {
    if WholeFrame(a) {
      var end := SignedLength(a) + HEADER;
      assert (a + b)[..HEADER] == a[..HEADER];
      assert SignedLength(a + b) == SignedLength(a);
      assert (a + b)[HEADER..end] == a[HEADER..end];
      assert (a + b)[end..] == a[end..] + b;
      DecodeResume(a[end..], b);
      var m := [a[HEADER..end]];
      var r := Decode(a[end..]);
      var e := Decode(r.rest + b);
      Assoc(m, r.messages, e.messages);
    } else {
      assert [] + Decode(a + b).messages == Decode(a + b).messages;
    }
  }

  /** However the stream is cut into chunks, the reader ends where decoding it whole ends. */
  lemma {:induction false} ChunkIndependence(chunks: seq<seq<Byte>>)
    ensures FeedAll(chunks) == Decode(Concat(chunks))
  {
    if chunks != [] {
      var front, last := chunks[..|chunks| - 1], chunks[|chunks| - 1];
      ChunkIndependence(front);
      assert chunks == front + [last];
      ConcatSnoc(front, last);
      DecodeResume(Concat(front), last);
    }
  }

  /** More bytes never retract a message, and after a bad header they never add one. */
  lemma DeliveryIsMonotone(a: seq<Byte>, b: seq<Byte>)
    ensures Decode(a).messages <= Decode(a + b).messages
    ensures Decode(a).invalid ==> Decode(a + b) == Decoded(Decode(a).messages, Decode(a).rest + b, true)
  {
    DecodeResume(a, b);
    DecodeSound(a);
    if Decode(a).invalid {
      var rest := Decode(a).rest;
      assert (rest + b)[..HEADER] == rest[..HEADER];
      assert SignedLength(rest + b) == SignedLength(rest);
      assert Decode(a).messages + [] == Decode(a).messages;
    }
  }

  /** Any part of the encoding of messages within the limit decodes to some of them, in order, from the first. */
  lemma PartialStream(got: seq<Byte>, ms: seq<Message>)
    requires AllShort(ms) && got <= EncodeAll(ms)
    ensures Decode(got).messages <= ms && !Decode(got).invalid
    ensures got == EncodeAll(ms) ==> Decode(got) == Decoded(ms, [], false)
  {
    RoundTrip(ms);
    assert EncodeAll(ms) == got + EncodeAll(ms)[|got|..];
    DeliveryIsMonotone(got, EncodeAll(ms)[|got|..]);
  }

  /** Unless a bad header blocks it, the reader never holds 65540 bytes or more. */
  lemma ResidueBound(b: seq<Byte>)
    ensures !Decode(b).invalid ==> |Decode(b).rest| < MAX_LENGTH + HEADER
  {
    DecodeSound(b);
  }
}
