/**
  Framing and splitting in client.cpp: send prints a header in front of a serialised body, and
  onMessage drains the receive buffer frame by frame.
*/
module Clients {
  import opened ByteOrder
  import opened Memory
  import opened BufferModel
  import opened Buffers
  import opened Frames

  datatype Sent = NotConnected | Bytes(data: seq<Byte>)

  class Client {
    const recvBuffer: Buffer
    const handling: Handling
    var seqNo: Half

    /** Between calls nothing is buffered, and eight bytes are free in front. */
    ghost predicate Valid()
      reads this, recvBuffer, recvBuffer.storage
    {
      recvBuffer.Valid() && recvBuffer.Contents() == []
      && recvBuffer.readIndex == recvBuffer.reservedPrependSize == 8
    }

    constructor (handling: Handling)
      ensures Valid() && fresh(recvBuffer) && fresh(recvBuffer.storage)
      ensures this.handling == handling && seqNo == 0 && recvBuffer.capacity == 8 + 1024
    {
      this.recvBuffer := new Buffer();
      this.handling := handling;
      this.seqNo := 0;
    }

    method GetSeq() returns (s: Half)
      modifies this`seqNo
      ensures seqNo == (old(seqNo) + 1) % 0x1_0000 && s == seqNo
    {
      seqNo := (seqNo + 1) % 0x1_0000;
      s := seqNo;
    }

    /** The bytes handed to the connection: one frame with the next sequence number. */
    method Send(cmd: Half, body: seq<Byte>, connected: bool) returns (sent: Sent)
      requires HEADER_SIZE + |body| < 0x1_0000_0000
      modifies this`seqNo
      ensures seqNo == (old(seqNo) + 1) % 0x1_0000
      ensures sent == if connected then Bytes(Frame(Message(cmd, seqNo, body))) else NotConnected
      ensures connected ==>
                var n := 16 + |body|;
                sent.data == [n / 0x100_0000, n / 0x1_0000 % 256, n / 0x100 % 256, n % 256,
                              0, 1,
                              0, 0,
                              0, 0,
                              cmd / 256, cmd % 256,
                              seqNo / 256, seqNo % 256,
                              0, 0] + body
    {
      hide HeaderBytes;
      FrameBytes(Message(cmd, (seqNo + 1) % 0x1_0000, body));
      var seqno := GetSeq();
      var len := HEADER_SIZE + |body|;
      var buffer := new Buffer(len);
      AppendHeader(buffer, len, cmd, seqno);
      Serialize(buffer, body);
      if connected {
        var data := buffer.ToSlice();
        sent := Bytes(data);
      } else {
        sent := NotConnected;
      }
    }

    /** The typed appends of send, into a buffer that was made large enough. */
    static method AppendHeader(buffer: Buffer, len: Word, cmd: Half, seqno: Half)
      requires buffer.Valid() && len >= HEADER_SIZE
      requires buffer.Contents() == [] && buffer.WritableBytes() == len
      modifies buffer, buffer.storage
      ensures buffer.Valid() && (buffer.storage == old(buffer.storage) || fresh(buffer.storage))
      ensures buffer.Contents() == HeaderBytes(Header(len, PROTOCOL_VERSION, 0, 0, cmd, seqno, 0))
      ensures buffer.WritableBytes() == len - HEADER_SIZE
    {
      hide Be;
      Powers();
      UnsignedToWire(len, 4);
      WriteWithinRoom(buffer.View(), Be(len, 4));
      buffer.AppendInt32(ToSigned(len, 4));
      assert buffer.Contents() == Be(len, 4);
      AppendHalf(buffer, PROTOCOL_VERSION);
      AppendHalf(buffer, 0);
      AppendHalf(buffer, 0);
      AppendHalf(buffer, cmd);
      AppendHalf(buffer, seqno);
      AppendHalf(buffer, 0);
    }

    static method AppendHalf(buffer: Buffer, v: Half)
      requires buffer.Valid() && buffer.WritableBytes() >= 2
      modifies buffer, buffer.storage
      ensures buffer.Valid() && (buffer.storage == old(buffer.storage) || fresh(buffer.storage))
      ensures buffer.Contents() == old(buffer.Contents()) + Be(v, 2)
      ensures buffer.WritableBytes() == old(buffer.WritableBytes()) - 2
    {
      hide Be;
      Powers();
      UnsignedToWire(v, 2);
      WriteWithinRoom(buffer.View(), Be(v, 2));
      buffer.AppendInt16(ToSigned(v, 2));
    }

    /** The body is put straight into the free space, and then taken in. */
    static method Serialize(buffer: Buffer, body: seq<Byte>)
      requires buffer.Valid() && |body| <= buffer.WritableBytes()
      modifies buffer, buffer.storage
      ensures buffer.Valid()
      ensures buffer.Contents() == old(buffer.Contents()) + body
    {
      OverlayBefore(buffer.storage[..], buffer.writeIndex, body, buffer.readIndex);
      Copy(buffer.storage, buffer.writeIndex, body);
      buffer.WriteBytes(|body|);
    }

    /** The switch on the command, or another handler in its place. */
    method OnHandleData(header: Header)
      requires recvBuffer.Valid()
      modifies recvBuffer`readIndex, recvBuffer`writeIndex
      ensures recvBuffer.Valid()
      ensures var unread := old(recvBuffer.Contents());
              recvBuffer.Contents() == Queue(unread, Skip(handling.Skips()(header, unread)))
    {
      match handling
      case Own(parse) =>
        if header.cmd == CMD_LOGIN_AUTH_RSP {
          OnHandleAuthRsp(parse);
        } else if header.cmd == CMD_MSG_DATA {
          // the chat manager reads the buffer and leaves it as it is
        } else {
          recvBuffer.Skip(header.len);
        }
      case Any(handler) =>
        var unread := recvBuffer.ToSlice();
        recvBuffer.Skip(handler(header, unread));
    }

    /** Parses everything unread; a parsed message advances the buffer by its serialised size. */
    method OnHandleAuthRsp(parse: seq<Byte> -> Parsed)
      requires recvBuffer.Valid()
      modifies recvBuffer`readIndex, recvBuffer`writeIndex
      ensures recvBuffer.Valid()
      ensures var unread := old(recvBuffer.Contents());
              recvBuffer.Contents() == match parse(unread) case Failed => unread
                                                         case Size(n) => unread[Min(n, |unread|)..]
    {
      var unread := recvBuffer.ToSlice();
      match parse(unread)
      case Failed => return;
      case Size(n) => recvBuffer.Skip(n);
    }

    /** The six 16-bit fields behind the length of the header at the front of s. */
    method ReadHeader(len: Word, ghost s: seq<Byte>) returns (h: Header)
      requires recvBuffer.Valid() && |s| >= HEADER_SIZE
      requires recvBuffer.Contents() == s[4..] && len == LenOf(s)
      modifies recvBuffer`readIndex, recvBuffer`writeIndex
      ensures recvBuffer.Valid() && recvBuffer.Contents() == s[HEADER_SIZE..]
      ensures h == ParseHeader(s)
    {
      hide LenOf, HalfAt;
      var version := ReadHalf(s, 4);
      var flag := ReadHalf(s, 6);
      var serviceId := ReadHalf(s, 8);
      var cmd := ReadHalf(s, 10);
      var seqno := ReadHalf(s, 12);
      var reserved := ReadHalf(s, 14);
      h := Header(len, version, flag, serviceId, cmd, seqno, reserved);
    }

    method ReadHalf(ghost s: seq<Byte>, ghost i: nat) returns (v: Half)
      requires recvBuffer.Valid() && i + 2 <= |s| && recvBuffer.Contents() == s[i..]
      modifies recvBuffer`readIndex, recvBuffer`writeIndex
      ensures recvBuffer.Valid() && recvBuffer.Contents() == s[i + 2..]
      ensures v == HalfAt(s, i)
    {
      hide FromBe;
      Powers();
      UnsignedOnWire(s[i..i + 2]);
      assert s[i..][..2] == s[i..i + 2] && s[i..][2..] == s[i + 2..];
      var x := recvBuffer.ReadInt16();
      v := ToUnsigned(x, 2);
    }

    /** Every call dispatches what its own chunk holds, and leaves nothing behind. */
    method OnMessage(chunk: seq<Byte>) returns (ds: seq<Dispatch>)
      requires Valid()
      modifies recvBuffer, recvBuffer.storage
      ensures Valid()
      ensures recvBuffer.storage == old(recvBuffer.storage) || fresh(recvBuffer.storage)
      ensures ds == Received(chunk, handling.Skips())
    {
      hide Dispatches, DispatchOf, Split;
      ds := [];
      if |chunk| <= HEADER_SIZE {
        return;
      }
      recvBuffer.Write(chunk);
      assert recvBuffer.Contents() == chunk;
      while true
        invariant recvBuffer.Valid() && recvBuffer.Length() >= HEADER_SIZE
        invariant recvBuffer.storage == old(recvBuffer.storage) || fresh(recvBuffer.storage)
        invariant recvBuffer.reservedPrependSize == 8
        invariant ds + Split(recvBuffer.Contents(), handling.Skips()) == Split(chunk, handling.Skips())
        decreases recvBuffer.Length()
      {
        ghost var s := recvBuffer.Contents();
        if Dispatches(s) { SplitStep(s, handling.Skips()); } else { SplitStops(s, handling.Skips()); }
        var more, d := OneFrame();
        ds := ds + d;
        if !more {
          if Dispatches(s) { SplitStops(recvBuffer.Contents(), handling.Skips()); }
          assert ds == Split(chunk, handling.Skips());
          break;
        }
      }
      recvBuffer.Reset();
    }

    /** One turn of the loop: what it dispatches, and whether it goes round again. */
    method OneFrame() returns (more: bool, d: seq<Dispatch>)
      requires recvBuffer.Valid() && recvBuffer.Length() >= HEADER_SIZE
      modifies recvBuffer`readIndex, recvBuffer`writeIndex
      ensures recvBuffer.Valid()
      ensures var s := old(recvBuffer.Contents());
              if Dispatches(s) then
                d == [DispatchOf(s, handling.Skips())] && recvBuffer.Contents() == d[0].left
                && (more <==> |d[0].left| >= HEADER_SIZE)
              else d == [] && !more
    {
      hide FromBe, HalfAt, AsInt, Skipped, Queue, Handling.Skips;
      ghost var s := recvBuffer.Contents();
      Powers();
      UnsignedOnWire(s[..4]);
      var x := recvBuffer.ReadInt32();
      var len := ToUnsigned(x, 4);
      var resetLen := AsInt(recvBuffer.Length() - len + 4);
      if SizeMinus(len, 4) > recvBuffer.Length() {
        return false, [];
      }
      if len < MAX_BUFFER_LEN {
        var header := ReadHeader(len, s);
        var unread := recvBuffer.ToSlice();
        OnHandleData(header);
        var left := recvBuffer.ToSlice();
        d := [Dispatch(header, unread, resetLen, left)];
        if recvBuffer.Length() <= 0 {
          more := false;
        } else if recvBuffer.Length() < HEADER_SIZE {
          more := false;
        } else {
          more := true;
        }
      } else {
        return false, [];
      }
    }
  }
}
