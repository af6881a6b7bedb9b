/**
  The wire frames of client.cpp and the loop that splits received bytes back into them.

  A body handler only ever advances the receive buffer by Skip, so it is modelled by how far it
  asks to skip, given the header and the unread bytes. Message bodies are opaque byte strings.
*/
module Frames {
  import opened ByteOrder
  import opened Memory
  import opened BufferModel

  const HEADER_SIZE: nat := 16
  const MAX_BUFFER_LEN: nat := 10240
  const PROTOCOL_VERSION: Half := 1

  /** IMHeader: len counts header and body. */
  datatype Header = Header(
    len: Word, version: Half, flag: Half, serviceId: Half, cmd: Half, seqNo: Half, reserved: Half)

  // ---------- one frame ----------

  function HeaderBytes(h: Header): (s: seq<Byte>)
    ensures |s| == 16
  {
    Be(h.len, 4) + Be(h.version, 2) + Be(h.flag, 2) + Be(h.serviceId, 2)
    + Be(h.cmd, 2) + Be(h.seqNo, 2) + Be(h.reserved, 2)
  }

  /** The printed header, byte by byte. */
  lemma {:induction false} HeaderOnWire(h: Header)
    ensures HeaderBytes(h) == [h.len / 0x100_0000, h.len / 0x1_0000 % 256, h.len / 0x100 % 256, h.len % 256,
                               h.version / 256, h.version % 256,
                               h.flag / 256, h.flag % 256,
                               h.serviceId / 256, h.serviceId % 256,
                               h.cmd / 256, h.cmd % 256,
                               h.seqNo / 256, h.seqNo % 256,
                               h.reserved / 256, h.reserved % 256]
  {
    hide Be;
    BeWord(h.len);
    BeHalf(h.version);
    BeHalf(h.flag);
    BeHalf(h.serviceId);
    BeHalf(h.cmd);
    BeHalf(h.seqNo);
    BeHalf(h.reserved);
  }

  function HalfAt(s: seq<Byte>, i: nat): Half
    requires i + 2 <= |s|
  {
    Powers();
    FromBe(s[i..i + 2])
  }

  function LenOf(s: seq<Byte>): Word
    requires |s| >= 4
  {
    Powers();
    FromBe(s[..4])
  }

  function ParseHeader(s: seq<Byte>): Header
    requires |s| >= 16
  {
    Header(LenOf(s), HalfAt(s, 4), HalfAt(s, 6), HalfAt(s, 8), HalfAt(s, 10), HalfAt(s, 12), HalfAt(s, 14))
  }

  lemma {:induction false} HalfOfBe(v: Half)
    ensures FromBe(Be(v, 2)) == v
  {
    Powers();
    FromBeOfBe(v, 2);
  }

  /** The printed header is read back field by field, whatever follows it. */
  lemma {:induction false} ParseOfPrinted(h: Header, rest: seq<Byte>)
    ensures ParseHeader(HeaderBytes(h) + rest) == h
  {
    hide Be, FromBe;
    var s := HeaderBytes(h) + rest;
    Powers();
    FromBeOfBe(h.len, 4);
    assert s[..4] == Be(h.len, 4);
    assert s[4..6] == Be(h.version, 2) && s[6..8] == Be(h.flag, 2) && s[8..10] == Be(h.serviceId, 2);
    assert s[10..12] == Be(h.cmd, 2) && s[12..14] == Be(h.seqNo, 2) && s[14..16] == Be(h.reserved, 2);
    HalfOfBe(h.version); HalfOfBe(h.flag); HalfOfBe(h.serviceId);
    HalfOfBe(h.cmd); HalfOfBe(h.seqNo); HalfOfBe(h.reserved);
  }

  datatype Message = Message(cmd: Half, seqNo: Half, body: seq<Byte>)

  /** A message the splitter will accept: its frame is shorter than 10 KB. */
  predicate Sendable(m: Message) {
    |m.body| <= 10223
  }

  function HeaderOf(m: Message): Header
    requires HEADER_SIZE + |m.body| < 0x1_0000_0000
  {
    Header(HEADER_SIZE + |m.body|, PROTOCOL_VERSION, 0, 0, m.cmd, m.seqNo, 0)
  }

  function Frame(m: Message): (f: seq<Byte>)
    requires HEADER_SIZE + |m.body| < 0x1_0000_0000
    ensures |f| == HEADER_SIZE + |m.body|
  {
    HeaderBytes(HeaderOf(m)) + m.body
  }

  /** The bytes on the wire, one by one. */
  lemma {:induction false} FrameBytes(m: Message)
    requires 16 + |m.body| < 0x1_0000_0000
    ensures var n := 16 + |m.body|;
            Frame(m) == [n / 0x100_0000, n / 0x1_0000 % 256, n / 0x100 % 256, n % 256,
                         0, 1,
                         0, 0,
                         0, 0,
                         m.cmd / 256, m.cmd % 256,
                         m.seqNo / 256, m.seqNo % 256,
                         0, 0] + m.body
  {
    hide HeaderBytes;
    HeaderOnWire(HeaderOf(m));
  }

  predicate AllSendable(ms: seq<Message>) {
    forall i :: 0 <= i < |ms| ==> Sendable(ms[i])
  }

  function Stream(ms: seq<Message>): seq<Byte>
    requires AllSendable(ms)
  {
    if ms == [] then [] else Frame(ms[0]) + Stream(ms[1..])
  }

  // ---------- the splitting loop ----------

  /** How far the handler of a frame skips, given the header and the unread bytes after it. */
  type Handler = (Header, seq<Byte>) -> nat

  /** One call of the handler; resetLen is what the loop expects to be left after it. */
  datatype Dispatch = Dispatch(header: Header, unread: seq<Byte>, resetLen: int, left: seq<Byte>)

  /** Subtraction of two size_t values. */
  function SizeMinus(a: nat, b: nat): nat { (a - b) % 0x1_0000_0000_0000_0000 }

  /** A size_t stored in an int. */
  function AsInt(v: int): Int32 {
    var w := v % 0x1_0000_0000;
    if w < 0x8000_0000 then w else w - 0x1_0000_0000
  }

  /** The loop's verdict on the bytes from a frame boundary. */
  predicate BadPacket(s: seq<Byte>)
    requires |s| >= 4
  {
    SizeMinus(LenOf(s), 4) > |s| - 4
  }

  predicate Dispatches(s: seq<Byte>) {
    |s| >= HEADER_SIZE && !BadPacket(s) && LenOf(s) < MAX_BUFFER_LEN
  }

  function DispatchOf(s: seq<Byte>, handler: Handler): Dispatch
    requires |s| >= HEADER_SIZE
  {
    var h, unread := ParseHeader(s), s[HEADER_SIZE..];
    Dispatch(h, unread, AsInt((|s| - 4) - h.len + 4), Queue(unread, Skip(handler(h, unread))))
  }

  /** The dispatches the loop makes from s; it goes on only while a whole header is left. */
  function Split(s: seq<Byte>, handler: Handler): seq<Dispatch>
    decreases |s|
  {
    if !Dispatches(s) then []
    else
      var d := DispatchOf(s, handler);
      [d] + Split(d.left, handler)
  }

  lemma {:induction false} SplitStep(s: seq<Byte>, handler: Handler)
    requires Dispatches(s)
    ensures |s| >= HEADER_SIZE
    ensures Split(s, handler) == [DispatchOf(s, handler)] + Split(DispatchOf(s, handler).left, handler)
    ensures |DispatchOf(s, handler).left| < |s|
  {
  }

  lemma {:induction false} SplitStops(s: seq<Byte>, handler: Handler)
    requires |s| < HEADER_SIZE || !Dispatches(s)
    ensures Split(s, handler) == []
  {
  }

  /** All of one onMessage call: chunks of at most 16 bytes are turned away. */
  function Received(chunk: seq<Byte>, handler: Handler): seq<Dispatch> {
    if |chunk| <= HEADER_SIZE then [] else Split(chunk, handler)
  }

  /** The loop's assertion after the handler returns. */
  predicate Resynced(d: Dispatch) { d.resetLen == |d.left| }

  // ---------- every chunk, malformed lengths included ----------

  /** The guard lets through exactly the lengths from 4 to what is there; 0 to 3 wrap and fail. */
  lemma {:induction false} BadPacketIff(s: seq<Byte>)
    requires 4 <= |s| < 0x8000_0000
    ensures BadPacket(s) <==> LenOf(s) < 4 || LenOf(s) > |s|
  {
    var len: int := LenOf(s);
    if len < 4 {
      assert SizeMinus(len, 4) == len + 0xffff_ffff_ffff_fffc;
    } else {
      assert SizeMinus(len, 4) == len - 4;
    }
  }

  /** A dispatch takes its header off the buffer, and no handler can give bytes back. */
  lemma {:induction false} DispatchShrinks(s: seq<Byte>, handler: Handler)
    requires |s| >= HEADER_SIZE
    ensures |DispatchOf(s, handler).left| <= |s| - HEADER_SIZE
  {
  }

  /** At most one dispatch for every 16 bytes, for every chunk and every handler. */
  lemma {:induction false} AtMostOnePerHeader(s: seq<Byte>, handler: Handler)
    ensures HEADER_SIZE * |Split(s, handler)| <= |s|
    decreases |s|
  {
    hide DispatchOf;
    if Dispatches(s) {
      DispatchShrinks(s, handler);
      AtMostOnePerHeader(DispatchOf(s, handler).left, handler);
    }
  }

  /**
    The loop's assertion holds after a dispatch exactly when the frame's length covers its header
    and the handler skips the body and no more. With a length of 4 to 15 no handler can meet it.
  */
  lemma {:induction false} ResyncedIff(s: seq<Byte>, handler: Handler)
    requires Dispatches(s) && |s| < 0x8000_0000
    ensures var d := DispatchOf(s, handler);
            Resynced(d) <==> d.header.len >= HEADER_SIZE
                             && Min(handler(d.header, d.unread), |d.unread|) == d.header.len - HEADER_SIZE
  {
    BadPacketIff(s);
  }

  // ---------- handlers that keep the contract ----------

  /** The obligation the loop's assertion puts on handlers: skip the body, nothing else. */
  ghost predicate Honours(handler: Handler) {
    forall h: Header, s: seq<Byte> ::
      16 <= h.len <= 16 + |s| ==> handler(h, s) == h.len - 16
  }

  /** What a dispatch delivers: command, sequence number and the body; a length below 16 leaves no body. */
  function Delivered(d: Dispatch): Message {
    Message(d.header.cmd, d.header.seqNo,
            if d.header.len < HEADER_SIZE then []
            else d.unread[..Min(d.header.len - HEADER_SIZE, |d.unread|)])
  }

  function AllDelivered(ds: seq<Dispatch>): (ms: seq<Message>)
    ensures |ms| == |ds|
  {
    if ds == [] then [] else [Delivered(ds[0])] + AllDelivered(ds[1..])
  }

  /** What the splitter reads at the front of a frame. */
  lemma {:induction false} FrontHeader(m: Message, rest: seq<Byte>)
    requires HEADER_SIZE + |m.body| < 0x1_0000_0000
    ensures var s := Frame(m) + rest;
            && ParseHeader(s) == HeaderOf(m) && s[HEADER_SIZE..] == m.body + rest
            && !BadPacket(s) && (Dispatches(s) <==> Sendable(m))
  {
    hide HeaderBytes;
    var s, h := Frame(m) + rest, HeaderOf(m);
    assert s == HeaderBytes(h) + (m.body + rest);
    ParseOfPrinted(h, m.body + rest);
    ParsedLen(s);
    assert SizeMinus(h.len, 4) == h.len - 4;
  }

  lemma {:induction false} ParsedLen(s: seq<Byte>)
    requires |s| >= HEADER_SIZE
    ensures ParseHeader(s).len == LenOf(s)
  {
  }

  /** A frame at the front is delivered whole and the loop goes on right behind it. */
  lemma {:induction false} FrontFrame(m: Message, rest: seq<Byte>, handler: Handler)
    requires Sendable(m) && Honours(handler)
    ensures var s := Frame(m) + rest;
            Dispatches(s) && DispatchOf(s, handler).header == HeaderOf(m)
            && Delivered(DispatchOf(s, handler)) == m && DispatchOf(s, handler).left == rest
  {
    hide Frame, Dispatches, ParseHeader;
    FrontHeader(m, rest);
    var h, unread := HeaderOf(m), m.body + rest;
    assert handler(h, unread) == |m.body|;
    assert unread[|m.body|..] == rest && unread[..|m.body|] == m.body;
  }

  /** The splitter takes exactly the frames below 10 KB; a longer one drops the whole chunk. */
  lemma {:induction false} TakenIffSendable(m: Message, rest: seq<Byte>, handler: Handler)
    requires 16 + |m.body| < 0x1_0000_0000
    ensures Dispatches(Frame(m) + rest) <==> 16 + |m.body| < 10 * 1024
    ensures 16 + |m.body| >= 10 * 1024 ==> Received(Frame(m) + rest, handler) == []
  {
    hide Frame, Dispatches, DispatchOf;
    FrontHeader(m, rest);
  }

  /** A strict prefix of a frame is not dispatched. */
  lemma {:induction false} PrefixNotDispatched(m: Message, k: nat)
    requires HEADER_SIZE + |m.body| < 0x1_0000_0000 && k < |Frame(m)|
    ensures !Dispatches(Frame(m)[..k])
  {
    hide HeaderBytes;
    if k >= HEADER_SIZE {
      var h, t := HeaderOf(m), Frame(m)[..k];
      assert t == HeaderBytes(h) + m.body[..k - HEADER_SIZE];
      ParseOfPrinted(h, m.body[..k - HEADER_SIZE]);
      assert SizeMinus(h.len, 4) == h.len - 4;
    }
  }

  /** A tail that the loop stops at: nothing, or the beginning of some frame. */
  ghost predicate PartialFrame(tail: seq<Byte>) {
    tail == [] || exists m: Message :: HEADER_SIZE + |m.body| < 0x1_0000_0000 && tail < Frame(m)
  }

  lemma {:induction false} SplitStream(ms: seq<Message>, tail: seq<Byte>, handler: Handler)
    requires AllSendable(ms) && Honours(handler) && !Dispatches(tail)
    ensures AllDelivered(Split(Stream(ms) + tail, handler)) == ms
    ensures forall i :: 0 <= i < |ms| ==> Split(Stream(ms) + tail, handler)[i].header == HeaderOf(ms[i])
    decreases |ms|
  {
    hide Frame, Dispatches, DispatchOf, Delivered;
    if ms == [] {
      assert Stream(ms) + tail == tail;
    } else {
      var rest := Stream(ms[1..]) + tail;
      var s := Stream(ms) + tail;
      assert s == Frame(ms[0]) + rest;
      FrontFrame(ms[0], rest, handler);
      SplitStream(ms[1..], tail, handler);
      assert Split(s, handler)[1..] == Split(rest, handler);
    }
  }

  lemma {:induction false} PartialNotDispatched(tail: seq<Byte>)
    requires PartialFrame(tail)
    ensures !Dispatches(tail)
  {
    if tail != [] {
      var m: Message :| HEADER_SIZE + |m.body| < 0x1_0000_0000 && tail < Frame(m);
      PrefixNotDispatched(m, |tail|);
      assert tail == Frame(m)[..|tail|];
    }
  }

  /**
    Round trip. Frames sent back to back, with any incomplete frame behind them, are delivered
    exactly, in order, and the tail is dropped; the one exception is a header-only frame that
    arrives alone, which onMessage takes for a bad packet.
  */
  lemma {:induction false} RoundTripIff(ms: seq<Message>, tail: seq<Byte>, handler: Handler)
    requires (forall i :: 0 <= i < |ms| ==> |ms[i].body| <= 10223) && PartialFrame(tail) && Honours(handler)
    ensures AllDelivered(Received(Stream(ms) + tail, handler)) == ms
       <==> !(|ms| == 1 && ms[0].body == [] && tail == [])
  {
    hide Frame, Dispatches, DispatchOf, Delivered, Split;
    PartialNotDispatched(tail);
    SplitStream(ms, tail, handler);
    if ms != [] {
      assert |Stream(ms)| == |Frame(ms[0])| + |Stream(ms[1..])|;
      if |ms| > 1 {
        assert |Stream(ms[1..])| == |Frame(ms[1..][0])| + |Stream(ms[1..][1..])|;
      } else {
        assert Stream(ms[1..]) == [];
      }
    }
  }

  /** The handler that takes the body off the buffer keeps the contract. */
  function BodyHandler(): Handler {
    (h: Header, unread: seq<Byte>) => if h.len < HEADER_SIZE then 0 else h.len - HEADER_SIZE
  }

  lemma {:induction false} BodyHandlerHonours()
    ensures Honours(BodyHandler())
  {
  }

  // ---------- the client's own handlers ----------

  const CMD_LOGIN_AUTH_RSP: Half := 264
  const CMD_MSG_DATA: Half := 769

  /** Parsing all the unread bytes: a failure, or the size that the parsed message serialises to. */
  datatype Parsed = Failed | Size(n: nat)

  /**
    How far onHandleData skips. The login response skips the serialised size of what the parser
    made of the unread bytes, or nothing if it failed; message data skips nothing; any other
    command skips header->len.
  */
  function ClientSkip(parse: seq<Byte> -> Parsed, h: Header, unread: seq<Byte>): nat {
    if h.cmd == CMD_LOGIN_AUTH_RSP then (match parse(unread) case Failed => 0 case Size(n) => n)
    else if h.cmd == CMD_MSG_DATA then 0
    else h.len
  }

  function ClientHandler(parse: seq<Byte> -> Parsed): Handler {
    (h: Header, unread: seq<Byte>) => ClientSkip(parse, h, unread)
  }

  /** The handlers a client runs: its own, or any other. */
  datatype Handling = Own(parse: seq<Byte> -> Parsed) | Any(handler: Handler) {
    function Skips(): Handler {
      match this
      case Own(parse) => ClientHandler(parse)
      case Any(handler) => handler
    }
  }

  predicate Unknown(cmd: Half) { cmd != 264 && cmd != 769 }

  /**
    Skipping header->len after the header is gone resynchronises exactly when the frame ends the
    chunk; otherwise up to 16 bytes of what follows are lost.
  */
  lemma {:induction false} UnknownCommandIff(s: seq<Byte>, parse: seq<Byte> -> Parsed)
    requires Dispatches(s) && |s| < 0x8000_0000 && Unknown(ParseHeader(s).cmd)
    ensures var d, len := DispatchOf(s, ClientHandler(parse)), LenOf(s);
            && (Resynced(d) <==> len == |s|)
            && d.left == s[Min(HEADER_SIZE + len, |s|)..]
  {
    hide ParseHeader, LenOf;
    assert ParseHeader(s).len == LenOf(s) by { ParsedLen(s); }
    BadPacketIff(s);
    ResyncedIff(s, ClientHandler(parse));
    SkipIsDrop(s, LenOf(s));
  }

  lemma {:induction false} SkipIsDrop(s: seq<Byte>, n: nat)
    requires |s| >= HEADER_SIZE
    ensures Queue(s[HEADER_SIZE..], Skip(n)) == s[Min(HEADER_SIZE + n, |s|)..]
  {
  }

  /** Behind a whole frame with an unknown command the next 16 bytes are swallowed. */
  lemma {:induction false} UnknownSwallowsHeader(m: Message, rest: seq<Byte>, parse: seq<Byte> -> Parsed)
    requires Sendable(m) && Unknown(m.cmd) && |Frame(m)| + |rest| < 0x8000_0000
    ensures var s := Frame(m) + rest;
            && Dispatches(s)
            && DispatchOf(s, ClientHandler(parse)).left == rest[Min(HEADER_SIZE, |rest|)..]
            && (Resynced(DispatchOf(s, ClientHandler(parse))) <==> rest == [])
  {
    hide Frame, Dispatches, DispatchOf, ClientHandler, ParseHeader;
    var s, h := Frame(m) + rest, HeaderOf(m);
    FrontHeader(m, rest);
    ParsedLen(s);
    UnknownCommandIff(s, parse);
    DropAppend(Frame(m), rest, Min(HEADER_SIZE + h.len, |s|), Min(HEADER_SIZE, |rest|));
  }

  lemma {:induction false} SplitNothing(handler: Handler)
    ensures Split([], handler) == []
  {
  }

  predicate AllResynced(ds: seq<Dispatch>) {
    forall i :: 0 <= i < |ds| ==> Resynced(ds[i])
  }

  /** So a chunk of whole frames with unknown commands passes the assertion iff it has at most one. */
  lemma {:induction false} UnknownStreamIff(ms: seq<Message>, parse: seq<Byte> -> Parsed)
    requires AllSendable(ms) && |Stream(ms)| < 0x8000_0000
    requires forall i :: 0 <= i < |ms| ==> Unknown(ms[i].cmd)
    ensures AllResynced(Split(Stream(ms), ClientHandler(parse))) <==> |ms| <= 1
  {
    hide Frame, Dispatches, DispatchOf, ClientHandler;
    if ms == [] {
      SplitNothing(ClientHandler(parse));
    } else {
      var rest := Stream(ms[1..]);
      UnknownSwallowsHeader(ms[0], rest, parse);
      var ds := Split(Stream(ms), ClientHandler(parse));
      assert ds[0] == DispatchOf(Stream(ms), ClientHandler(parse));
      if |ms| == 1 {
        assert rest == [];
        SplitNothing(ClientHandler(parse));
      } else {
        assert |rest| >= |Frame(ms[1..][0])|;
      }
    }
  }

  /** No parser makes the client's handlers keep the contract. */
  lemma {:induction false} ClientHandlerBreaksContract(parse: seq<Byte> -> Parsed)
    ensures !Honours(ClientHandler(parse))
  {
    var h, s := Header(17, 1, 0, 0, CMD_MSG_DATA, 1, 0), [0];
    assert ClientHandler(parse)(h, s) == 0;
  }

  /** Message data is never skipped: the loop takes its body for the next header. */
  lemma {:induction false} MessageDataIff(s: seq<Byte>, parse: seq<Byte> -> Parsed)
    requires Dispatches(s) && |s| < 0x8000_0000 && ParseHeader(s).cmd == 769
    ensures var d := DispatchOf(s, ClientHandler(parse));
            d.left == s[HEADER_SIZE..] && (Resynced(d) <==> LenOf(s) == HEADER_SIZE)
  {
    ResyncedIff(s, ClientHandler(parse));
    SkipIsDrop(s, 0);
  }

  /** A login response resynchronises iff what was parsed serialises to the size of the body. */
  lemma {:induction false} LoginResponseIff(s: seq<Byte>, parse: seq<Byte> -> Parsed)
    requires Dispatches(s) && |s| < 0x8000_0000 && ParseHeader(s).cmd == 264
    ensures var d, unread := DispatchOf(s, ClientHandler(parse)), s[HEADER_SIZE..];
            var taken := match parse(unread) case Failed => 0 case Size(n) => Min(n, |unread|);
            && d.left == unread[taken..]
            && (Resynced(d) <==> LenOf(s) == HEADER_SIZE + taken)
  {
    BadPacketIff(s);
    ResyncedIff(s, ClientHandler(parse));
  }
}
