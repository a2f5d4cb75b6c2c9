/** The Some/None result of an operation that can reject its input
    (the source returns a null pointer where this model returns None). */
module Wrappers {
  datatype Option<+T> = None | Some(value: T)
}

/** Facts about sequences used by the proofs of several modules. */
module Sequences {
  /** Concatenation is associative (stated once, used where extensionality is slow). */
  lemma AppendAssoc<T>(a: seq<T>, b: seq<T>, c: seq<T>)
    ensures (a + b) + c == a + (b + c)
  {
  }
}

/**
 The message codec shared by the relay server and the client: the
 envelope (type byte, sender byte, big-endian 32-bit payload length,
 payload) and the outer length prefix put in front of every frame on
 the wire.
 */
module Codec {
  import opened Wrappers

  /** An octet (the source's uint8_t). */
  type Byte = b: int | 0 <= b < 256

  /** 2^32, the size of the range of a uint32_t. */
  const TWO32: int := 0x1_0000_0000

  /** Bytes of the envelope before the payload: type, sender, length. */
  const HeaderSize: nat := 6

  /** Bytes of the outer frame-length prefix. */
  const PrefixSize: nat := 4

  /** The three message kinds; any other type byte is rejected. */
  datatype Kind = Text | Event | Snapshot

  /** One message: its kind, the 8-bit id of its sender, and an opaque payload. */
  datatype Msg = Msg(kind: Kind, sender: Byte, payload: seq<Byte>)

  /** The type constants TEXT_MESSAGE = 0, EVENT_MESSAGE = 1, SNAPSHOT_MESSAGE = 2. */
  function KindByte(k: Kind): Byte
  {
    match k
    case Text => 0
    case Event => 1
    case Snapshot => 2
  }

  /** The switch on the type byte: the inverse of KindByte, None for any other byte. */
  function ParseKind(b: Byte): (k: Option<Kind>)
    ensures k.Some? <==> b < 3
    ensures k.Some? ==> KindByte(k.value) == b
  {
    if b == 0 then Some(Text)
    else if b == 1 then Some(Event)
    else if b == 2 then Some(Snapshot)
    else None
  }

  lemma ParseKindByte(k: Kind)
    ensures ParseKind(KindByte(k)) == Some(k)
  {
  }

  /** htonl: a number below 2^32 as four bytes, most significant first. */
  function BE32(n: int): (b: seq<Byte>)
    requires 0 <= n < TWO32
    ensures |b| == 4
  {
    [n / 0x100_0000, n / 0x1_0000 % 0x100, n / 0x100 % 0x100, n % 0x100]
  }

  /** ntohl: four bytes, most significant first, read back as a number. */
  function BE32Value(b: seq<Byte>): (n: nat)
    requires |b| == 4
    ensures n < TWO32
  {
    b[0] as int * 0x100_0000 + b[1] as int * 0x1_0000 + b[2] as int * 0x100 + b[3] as int
  }

  /** ntohl undoes htonl. */
  lemma BE32RoundTrip(n: int)
    requires 0 <= n < TWO32
    ensures BE32Value(BE32(n)) == n
  {
    var q1 := n / 0x100;
    var q2 := q1 / 0x100;
    var q3 := q2 / 0x100;
    Split256(n, q1, n % 0x100);
    Split256(q1, q2, q1 % 0x100);
    Split256(q2, q3, q2 % 0x100);
    assert n / 0x1_0000 == q2 by { SplitPow(n, q2, q1 % 0x100 * 0x100 + n % 0x100, 0x1_0000); }
    assert n / 0x100_0000 == q3 by { SplitPow(n, q3, (q2 % 0x100 * 0x100 + q1 % 0x100) * 0x100 + n % 0x100, 0x100_0000); }
  }

  /** htonl undoes ntohl: a 4-byte field determines its value and back. */
  lemma BE32ValueRoundTrip(b: seq<Byte>)
    requires |b| == 4
    ensures BE32(BE32Value(b)) == b
  {
    var n := BE32Value(b);
    var b0, b1, b2, b3 := b[0] as int, b[1] as int, b[2] as int, b[3] as int;
    var m1 := (b0 * 0x100 + b1) * 0x100 + b2;
    var m2 := b0 * 0x100 + b1;
    Split256(n, m1, b3);
    Split256(m1, m2, b2);
    Split256(m2, b0, b1);
    assert n / 0x1_0000 == m2 by { SplitPow(n, m2, b2 * 0x100 + b3, 0x1_0000); }
    assert n / 0x100_0000 == b0 by { SplitPow(n, b0, (b1 * 0x100 + b2) * 0x100 + b3, 0x100_0000); }
  }

  /** Division by 256 is unique: n == q * 256 + r with 0 <= r < 256 fixes quotient and remainder. */
  lemma Split256(n: int, q: int, r: int)
    requires 0 <= r < 0x100 && n == q * 0x100 + r
    ensures n / 0x100 == q && n % 0x100 == r
  {
  }

  /** The same for 2^16 and 2^24. */
  lemma SplitPow(n: int, q: int, r: int, d: int)
    requires d == 0x1_0000 || d == 0x100_0000
    requires 0 <= r < d && n == q * d + r
    ensures n / d == q
  {
  }

  /**
   serializeMessage: type byte, sender byte, the payload length as a
   big-endian uint32_t (htonl of size(), so taken modulo 2^32), then the
   payload bytes.
   */
  function Encode(m: Msg): (buf: seq<Byte>)
  {
    [KindByte(m.kind), m.sender] + BE32(|m.payload| % TWO32) + m.payload
  }

  /**
   serializeMessage as the source writes it: appends the envelope to the
   caller's buffer one field at a time. The result is the old buffer
   followed by Encode(m), laid out as the wire format prescribes.
   */
  method Serialize(m: Msg, buffer: seq<Byte>) returns (out: seq<Byte>)
    ensures out == buffer + Encode(m)
    ensures |out| == |buffer| + HeaderSize + |m.payload|
    ensures out[|buffer|] == KindByte(m.kind) && out[|buffer| + 1] == m.sender
    ensures BE32Value(out[|buffer| + 2..|buffer| + HeaderSize]) == |m.payload| % TWO32
    ensures out[|buffer| + HeaderSize..] == m.payload
  {
    out := buffer + [KindByte(m.kind)];
    out := out + [m.sender];
    var length := BE32(|m.payload| % TWO32);
    BE32RoundTrip(|m.payload| % TWO32);
    out := out + length;
    assert out[|buffer| + 2..|buffer| + HeaderSize] == length;
    out := out + m.payload;
    assert out[|buffer| + 2..|buffer| + HeaderSize] == length;
  }

  /**
   deserializeMessage: None when fewer than 2 bytes are present, when the
   type byte is unknown, when fewer than 6 bytes are present, or when the
   declared payload length exceeds the bytes after the header; otherwise
   the message whose payload is bytes [6, 6 + length). Bytes after the
   payload are ignored.
   */
  function Decode(buf: seq<Byte>): (r: Option<Msg>)
  {
    if |buf| < 2 then None
    else
      match ParseKind(buf[0])
      case None => None
      case Some(kind) =>
        if |buf| < HeaderSize then None
        else
          var length := BE32Value(buf[2..HeaderSize]);
          if |buf| < HeaderSize + length then None
          else Some(Msg(kind, buf[1], buf[HeaderSize..HeaderSize + length]))
  }

  /** The three rejection conditions, both directions. */
  lemma DecodeRejects(buf: seq<Byte>)
    ensures Decode(buf).None? <==>
              || |buf| < HeaderSize
              || buf[0] >= 3
              || |buf| - HeaderSize < BE32Value(buf[2..HeaderSize])
  {
  }

  /** What a successful decode reads: the envelope fields and exactly the declared payload bytes. */
  lemma DecodeFields(buf: seq<Byte>)
    requires Decode(buf).Some?
    ensures var m := Decode(buf).value;
            && KindByte(m.kind) == buf[0]
            && m.sender == buf[1]
            && |m.payload| == BE32Value(buf[2..HeaderSize])
            && m.payload == buf[HeaderSize..HeaderSize + |m.payload|]
  {
  }

  /** Round trip: decoding an encoded message, followed by any bytes, gives the message back. */
  lemma DecodeEncode(m: Msg, extra: seq<Byte>)
    requires |m.payload| < TWO32
    ensures Decode(Encode(m) + extra) == Some(m)
  {
    var buf := Encode(m) + extra;
    var length := |m.payload|;
    assert length % TWO32 == length;
    BE32RoundTrip(length);
    ParseKindByte(m.kind);
    assert buf[0] == KindByte(m.kind) && buf[1] == m.sender;
    assert buf[2..HeaderSize] == BE32(length);
    assert buf[HeaderSize..HeaderSize + length] == m.payload;
  }

  /**
   The other direction: whatever Decode accepts is a prefix of the buffer
   that Encode reproduces, so a decoded message carries no byte that was
   not on the wire.
   */
  lemma EncodeDecode(buf: seq<Byte>)
    requires Decode(buf).Some?
    ensures var m := Decode(buf).value;
            && |m.payload| < TWO32
            && HeaderSize + |m.payload| <= |buf|
            && Encode(m) == buf[..HeaderSize + |m.payload|]
  {
    var m := Decode(buf).value;
    var length := BE32Value(buf[2..HeaderSize]);
    BE32ValueRoundTrip(buf[2..HeaderSize]);
    assert m.payload == buf[HeaderSize..HeaderSize + length];
    assert |m.payload| % TWO32 == length;
    assert [KindByte(m.kind), m.sender] == buf[..2];
    assert Encode(m) == buf[..2] + buf[2..HeaderSize] + buf[HeaderSize..HeaderSize + length];
    assert buf[..HeaderSize + length] == buf[..2] + buf[2..HeaderSize] + buf[HeaderSize..HeaderSize + length];
  }

  /**
   The outer frame put on the wire: the encoded length (htonl of size(),
   so modulo 2^32) as four big-endian bytes, then the buffer.
   */
  function OuterFrame(buf: seq<Byte>): (w: seq<Byte>)
    ensures |w| == PrefixSize + |buf| && w[PrefixSize..] == buf
    ensures BE32Value(w[..PrefixSize]) == |buf| % TWO32
  {
    BE32RoundTrip(|buf| % TWO32);
    assert (BE32(|buf| % TWO32) + buf)[..PrefixSize] == BE32(|buf| % TWO32);
    BE32(|buf| % TWO32) + buf
  }

  /** Below 2^32 the prefix is exactly htonl of the buffer's length. */
  lemma OuterFramePrefix(buf: seq<Byte>)
    requires |buf| < TWO32
    ensures OuterFrame(buf)[..PrefixSize] == BE32(|buf|)
  {
    assert |buf| % TWO32 == |buf|;
    assert (BE32(|buf|) + buf)[..PrefixSize] == BE32(|buf|);
  }
}
