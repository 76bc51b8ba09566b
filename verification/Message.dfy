/** HiSLIP frames: the packed 16-byte header and the payload behind it (src/message.h, src/message.c). */
module Message {
  import opened ByteOrder

  const MSG_HEADER_SIZE := 16
  const MSG_HEADER_PROLOGUE: u16 := 0x4853

  // Message types, in the order of the enumeration of src/message.h.
  const INITIALIZE: byte := 0
  const INITIALIZE_RESPONSE: byte := 1
  const FATAL_ERROR: byte := 2
  const ERROR: byte := 3
  const DATA: byte := 6
  const DATA_END: byte := 7
  const ASYNC_MAXIMUM_MESSAGE_SIZE: byte := 15
  const ASYNC_MAXIMUM_MESSAGE_SIZE_RESPONSE: byte := 16
  const ASYNC_INITIALIZE: byte := 17
  const ASYNC_INITIALIZE_RESPONSE: byte := 18

  const CC_RMT_NOT_DELIVERED: byte := 0
  const CC_PREFER_SYNC: byte := 0

  const HISLIP_VERSION: u16 := 0x0100
  const HISLIP_VENDOR_ID: u16 := 42

  datatype Header = Header(prologue: u16, kind: byte, control: byte, parameter: u32, payloadLength: u64)

  datatype Message = Message(kind: byte, control: byte, parameter: u32, payload: seq<byte>)

  /** Lengths pass through `int` on their way to tcp_read and tcp_write. */
  const MAX_WIRE_SIZE := 0x7FFF_FFFF

  predicate FitsInt(m: Message) {
    MSG_HEADER_SIZE + |m.payload| <= MAX_WIRE_SIZE
  }

  /** A C string without its terminator. */
  type Name = s: seq<byte> | 0 !in s witness []

  /** A message whose size the code can pass to the transport. */
  type Frame = m: Message | FitsInt(m) witness Message(0, 0, 0, [])

  function HeaderOf(m: Frame): Header {
    Header(MSG_HEADER_PROLOGUE, m.kind, m.control, m.parameter, |m.payload|)
  }

  // ----- the header as the code handles it -----

  /** htons, htonl and htonll applied to the fields of the struct. */
  function ToNetwork(h: Header): Header {
    h.(prologue := Htons(h.prologue), parameter := Htonl(h.parameter), payloadLength := Htonll(h.payloadLength))
  }

  function ToHost(h: Header): Header {
    h.(prologue := Ntohs(h.prologue), parameter := Ntohl(h.parameter), payloadLength := Ntohll(h.payloadLength))
  }

  /** Memory image of the packed struct on a little-endian host. */
  function Pack(h: Header): (m: seq<byte>)
    ensures |m| == MSG_HEADER_SIZE
  {
    StoreLE(h.prologue, 2) + [h.kind] + [h.control] + StoreLE(h.parameter, 4) + StoreLE(h.payloadLength, 8)
  }

  function Unpack(m: seq<byte>): Header
    requires |m| == MSG_HEADER_SIZE
  {
    Pow256Values();
    Header(LoadLE(m[..2]), m[2], m[3], LoadLE(m[4..8]), LoadLE(m[8..]))
  }

  // ----- the header as the standard lays it out -----

  /** Every multi-byte field in network order, no padding. */
  function EncodeHeader(h: Header): (m: seq<byte>)
    ensures |m| == MSG_HEADER_SIZE
  {
    StoreBE(h.prologue, 2) + [h.kind] + [h.control] + StoreBE(h.parameter, 4) + StoreBE(h.payloadLength, 8)
  }

  function DecodeHeader(m: seq<byte>): Header
    requires |m| == MSG_HEADER_SIZE
  {
    Pow256Values();
    Header(LoadBE(m[..2]), m[2], m[3], LoadBE(m[4..8]), LoadBE(m[8..]))
  }

  /** The swapped struct, stored by a little-endian host, is the layout of the standard. */
  lemma PackedStructIsNetworkOrder(h: Header)
    ensures Pack(ToNetwork(h)) == EncodeHeader(h)
  {
    HtonsStores(h.prologue);
    HtonlStores(h.parameter);
    HtonllIsByteReversal(h.payloadLength);
  }

  lemma UnpackedStructIsNetworkOrder(m: seq<byte>)
    requires |m| == MSG_HEADER_SIZE
    ensures ToHost(Unpack(m)) == DecodeHeader(m)
  {
    Pow256Values();
    NtohsLoads(m[..2]);
    NtohlLoads(m[4..8]);
    NtohllLoads(m[8..]);
  }

  lemma DecodeEncodeHeader(h: Header)
    ensures DecodeHeader(EncodeHeader(h)) == h
  {
    Pow256Values();
    var m := EncodeHeader(h);
    assert m[..2] == StoreBE(h.prologue, 2);
    assert m[4..8] == StoreBE(h.parameter, 4);
    assert m[8..] == StoreBE(h.payloadLength, 8);
    LoadStoreBE(h.prologue, 2);
    LoadStoreBE(h.parameter, 4);
    LoadStoreBE(h.payloadLength, 8);
  }

  lemma EncodeDecodeHeader(m: seq<byte>)
    requires |m| == MSG_HEADER_SIZE
    ensures EncodeHeader(DecodeHeader(m)) == m
  {
    Pow256Values();
    StoreLoadBE(m[..2]);
    StoreLoadBE(m[4..8]);
    StoreLoadBE(m[8..]);
    assert m == m[..2] + [m[2]] + [m[3]] + m[4..8] + m[8..];
  }

  // ----- whole frames -----

  function Encode(m: Frame): (bytes: seq<byte>)
    ensures |bytes| == MSG_HEADER_SIZE + |m.payload|
  {
    EncodeHeader(HeaderOf(m)) + m.payload
  }

  function EncodeAll(ms: seq<Frame>): (bytes: seq<byte>) {
    if ms == [] then [] else Encode(ms[0]) + EncodeAll(ms[1..])
  }

  lemma EncodeAllCons(m: Frame, ms: seq<Frame>)
    ensures EncodeAll([m] + ms) == Encode(m) + EncodeAll(ms)
  {
    assert ([m] + ms)[1..] == ms;
  }

  lemma {:induction false} EncodeAllAppend(a: seq<Frame>, b: seq<Frame>)
    ensures EncodeAll(a + b) == EncodeAll(a) + EncodeAll(b)
  {
    if a == [] {
      assert a + b == b;
    } else {
      calc {
        EncodeAll(a + b);
        { assert a + b == [a[0]] + (a[1..] + b); EncodeAllCons(a[0], a[1..] + b); }
        Encode(a[0]) + EncodeAll(a[1..] + b);
        { EncodeAllAppend(a[1..], b); }
        Encode(a[0]) + (EncodeAll(a[1..]) + EncodeAll(b));
        EncodeAll(a) + EncodeAll(b);
      }
    }
  }

  /** What stands at the front of a complete byte string: a frame the receiver takes, a frame it
      turns down (and how much of the stream is left then), or not enough bytes. */
  datatype Parse = Parsed(message: Message, rest: seq<byte>) | TurnedDown(rest: seq<byte>) | Cut

  predicate Refuses(h: Header, cap: nat) {
    h.prologue != MSG_HEADER_PROLOGUE || h.kind == FATAL_ERROR || h.kind == ERROR || h.payloadLength > cap
  }

  /** Decoding at once, with the whole stream at hand. */
  function Decode(bytes: seq<byte>, cap: nat): Parse {
    if |bytes| < MSG_HEADER_SIZE then Cut
    else
      var h := DecodeHeader(bytes[..MSG_HEADER_SIZE]);
      var body := bytes[MSG_HEADER_SIZE..];
      if Refuses(h, cap) then TurnedDown(body)
      else if |body| < h.payloadLength then Cut
      else Parsed(Message(h.kind, h.control, h.parameter, body[..h.payloadLength]), body[h.payloadLength..])
  }

  /** A receiver's verdict on the 16 bytes of a header, byte for byte: not 'H' 'S', a FatalError (2) or an Error
      (3), or a length over the limit. */
  predicate Unwelcome(header: seq<byte>, cap: nat)
    requires |header| == 16
  {
    header[..2] != [0x48, 0x53] || header[2] == 2 || header[2] == 3 || LoadBE(header[8..]) > cap
  }

  lemma PrologueBytes(front: seq<byte>)
    requires |front| == 2
    ensures LoadBE(front) == 0x4853 <==> front == [0x48, 0x53]
  {
    var x: nat, y: nat := front[0], front[1];
    assert front[..1][..0] == [];
    assert LoadBE(front[..1]) == x;
    assert LoadBE(front) == 256 * x + y;
  }

  /** What decoding makes of any bytes, in terms of the bytes themselves. */
  lemma DecodeBytes(bytes: seq<byte>, cap: nat)
    ensures Decode(bytes, cap).TurnedDown? <==> |bytes| >= 16 && Unwelcome(bytes[..16], cap)
    ensures Decode(bytes, cap).Cut? <==>
            |bytes| < 16 || (!Unwelcome(bytes[..16], cap) && |bytes| < 16 + LoadBE(bytes[8..16]))
    ensures match Decode(bytes, cap)
            case Cut => true
            case TurnedDown(rest) => rest == bytes[16..]
            case Parsed(m, rest) =>
              && |bytes| >= 16 && m.kind == bytes[2] && m.control == bytes[3] && m.parameter == LoadBE(bytes[4..8])
              && |m.payload| == LoadBE(bytes[8..16]) && bytes[16..] == m.payload + rest
  {
    if |bytes| >= 16 {
      var header, body := bytes[..16], bytes[16..];
      assert header[8..] == bytes[8..16] && header[4..8] == bytes[4..8] && header[..2] == bytes[..2];
      PrologueBytes(header[..2]);
      var n := DecodeHeader(header).payloadLength;
      assert n <= |body| ==> body == body[..n] + body[n..];
    }
  }

  /** A receiver with this limit takes the message. */
  predicate Acceptable(m: Message, cap: nat) {
    m.kind != FATAL_ERROR && m.kind != ERROR && |m.payload| <= cap
  }

  /** A frame followed by anything decodes to itself, and leaves the rest, exactly when it is acceptable. */
  lemma DecodeEncode(m: Frame, tail: seq<byte>, cap: nat)
    ensures Decode(Encode(m) + tail, cap) == Parsed(m, tail) <==> Acceptable(m, cap)
    ensures !Acceptable(m, cap) ==> Decode(Encode(m) + tail, cap) == TurnedDown(m.payload + tail)
  {
    var bytes := Encode(m) + tail;
    assert bytes[..MSG_HEADER_SIZE] == EncodeHeader(HeaderOf(m));
    assert bytes[MSG_HEADER_SIZE..] == m.payload + tail;
    DecodeEncodeHeader(HeaderOf(m));
    assert (m.payload + tail)[..|m.payload|] == m.payload;
    assert (m.payload + tail)[|m.payload|..] == tail;
  }

  /** Whatever decodes was the encoding of what came out. */
  lemma DecodeIsSound(bytes: seq<byte>, cap: nat)
    requires cap <= MAX_WIRE_SIZE - MSG_HEADER_SIZE && Decode(bytes, cap).Parsed?
    ensures var p := Decode(bytes, cap);
            FitsInt(p.message) && Acceptable(p.message, cap) && bytes == Encode(p.message) + p.rest
  {
    EncodeDecodeHeader(bytes[..MSG_HEADER_SIZE]);
    var p := Decode(bytes, cap);
    var h := DecodeHeader(bytes[..MSG_HEADER_SIZE]);
    var body := bytes[MSG_HEADER_SIZE..];
    assert HeaderOf(p.message) == h;
    assert bytes == bytes[..MSG_HEADER_SIZE] + (body[..h.payloadLength] + body[h.payloadLength..]);
  }

  /** The front of an Initialize: prologue, type 0, control 0, version 1.0 and vendor 42. */
  lemma InitializeBytes(m: Frame)
    requires m.kind == INITIALIZE && m.control == 0 && m.parameter == HISLIP_VERSION * TWO_16 + HISLIP_VENDOR_ID
    ensures Encode(m)[..8] == [0x48, 0x53, 0, 0, 1, 0, 0, 42]
  {
    var p: nat := HISLIP_VERSION * TWO_16 + HISLIP_VENDOR_ID;
    StoreBE4(p);
    assert StoreBE(0x4853 / 256, 1) == [0x48];
    assert StoreBE(0x4853, 2) == [0x48, 0x53];
    assert Encode(m)[..8] == StoreBE(0x4853, 2) + [0] + [0] + StoreBE(p, 4);
  }

  /** No stream starts with two different frames, whatever follows them. */
  lemma PrefixFree(a: Frame, b: Frame, x: seq<byte>, y: seq<byte>)
    requires Encode(a) + x == Encode(b) + y
    ensures a == b && x == y
  {
    var bytes := Encode(a) + x;
    assert bytes[..MSG_HEADER_SIZE] == EncodeHeader(HeaderOf(a));
    assert bytes[..MSG_HEADER_SIZE] == EncodeHeader(HeaderOf(b));
    DecodeEncodeHeader(HeaderOf(a));
    DecodeEncodeHeader(HeaderOf(b));
    assert bytes[MSG_HEADER_SIZE..] == a.payload + x == b.payload + y;
    assert a.payload == (a.payload + x)[..|a.payload|] == b.payload;
    assert x == (a.payload + x)[|a.payload|..] == y;
  }

  /** Repeated decoding; None when the stream is not a sequence of acceptable frames. */
  datatype Frames = Frames(list: seq<Message>) | NotFrames

  function DecodeAll(bytes: seq<byte>, cap: nat): Frames
    decreases |bytes|
  {
    if bytes == [] then Frames([])
    else match Decode(bytes, cap)
      case Parsed(m, rest) =>
        (match DecodeAll(rest, cap)
         case Frames(list) => Frames([m] + list)
         case NotFrames => NotFrames)
      case _ => NotFrames
  }

  predicate AllAcceptable(ms: seq<Frame>, cap: nat) {
    forall i :: 0 <= i < |ms| ==> Acceptable(ms[i], cap)
  }

  /** A concatenation of frames decodes to exactly those frames if and only if each is acceptable. */
  lemma {:induction false} UniqueFraming(ms: seq<Frame>, cap: nat)
    ensures DecodeAll(EncodeAll(ms), cap) == Frames(ms) <==> AllAcceptable(ms, cap)
  {
    if ms != [] {
      var bytes, tail := EncodeAll(ms), ms[1..];
      assert bytes != [] by { assert |Encode(ms[0])| > 0; }
      DecodeEncode(ms[0], EncodeAll(tail), cap);
      UniqueFraming(tail, cap);
      assert ms == [ms[0]] + tail;
      if Acceptable(ms[0], cap) {
        assert Decode(bytes, cap) == Parsed(ms[0], EncodeAll(tail));
        match DecodeAll(EncodeAll(tail), cap) {
          case Frames(list) => HeadCancels(ms[0], list, tail);
          case NotFrames =>
        }
      }
    }
  }

  lemma HeadCancels<T>(x: T, a: seq<T>, b: seq<T>)
    ensures [x] + a == [x] + b <==> a == b
  {
    assert ([x] + a)[1..] == a && ([x] + b)[1..] == b;
  }

  /** Two lists of frames with the same bytes are the same list. */
  lemma {:induction false} EncodeAllInjective(a: seq<Frame>, b: seq<Frame>)
    requires EncodeAll(a) == EncodeAll(b)
    ensures a == b
  {
    if a != [] && b != [] {
      PrefixFree(a[0], b[0], EncodeAll(a[1..]), EncodeAll(b[1..]));
      EncodeAllInjective(a[1..], b[1..]);
    }
  }
}
