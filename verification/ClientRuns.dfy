/** Runs of calls performed on Client objects: frames sent, and chunks received. */
module ClientRuns {
  import opened ByteOrder
  import opened Buffers
  import opened Frames
  import opened Reassembly
  import opened Clients

  /** A run of onMessage calls dispatches what each chunk holds, one chunk after the other. */
  method ReceiveAll(client: Client, chunks: seq<seq<Byte>>) returns (ds: seq<Dispatch>)
    requires client.Valid()
    modifies client.recvBuffer, client.recvBuffer.storage
    ensures client.Valid()
    ensures client.recvBuffer.storage == old(client.recvBuffer.storage) || fresh(client.recvBuffer.storage)
    ensures ds == ReceivedAll(chunks, client.handling.Skips())
    decreases |chunks|
  {
    hide Received;
    ds := [];
    if chunks != [] {
      var first := client.OnMessage(chunks[0]);
      var rest := ReceiveAll(client, chunks[1..]);
      ds := first + rest;
    }
  }

  /** A stream of frames received in chunks: delivered exactly when cut at frames. */
  method ReceiveStream(client: Client, ghost ms: seq<Message>, chunks: seq<seq<Byte>>) returns (ds: seq<Dispatch>)
    requires client.Valid() && Honours(client.handling.Skips())
    requires AllSendable(ms) && Carried(chunks) == Stream(ms)
    modifies client.recvBuffer, client.recvBuffer.storage
    ensures client.Valid()
    ensures AllDelivered(ds) == ms <==> CutAtFrames(ms, chunks)
  {
    DeliveredIffCutAtFrames(ms, chunks, client.handling.Skips());
    hide *;
    ds := ReceiveAll(client, chunks);
  }

  /** The sequence number of the k-th message sent after seqNo. */
  function SeqAfter(seqNo: Half, k: nat): Half { (seqNo + k + 1) % 0x1_0000 }

  /** The messages that sending these commands and bodies makes. */
  function Messages(seqNo: Half, items: seq<(Half, seq<Byte>)>): (ms: seq<Message>)
    ensures |ms| == |items|
    ensures forall k :: 0 <= k < |items| ==> ms[k] == Message(items[k].0, SeqAfter(seqNo, k), items[k].1)
  {
    seq(|items|, k requires 0 <= k < |items| => Message(items[k].0, SeqAfter(seqNo, k), items[k].1))
  }

  /** Numbering goes on where the first send left it, wrapping at 16 bits. */
  lemma {:induction false} MessagesTail(seqNo: Half, items: seq<(Half, seq<Byte>)>)
    requires items != []
    ensures Messages(seqNo, items)[1..] == Messages((seqNo + 1) % 0x1_0000, items[1..])
  {
    var next := (seqNo + 1) % 0x1_0000;
    forall k: nat | k < |items| - 1
      ensures SeqAfter(next, k) == SeqAfter(seqNo, k + 1)
    {
      if next == 0 {
        assert seqNo + (k + 1) + 1 == 0x1_0000 + (k + 1);
      }
    }
  }

  predicate AllFit(items: seq<(Half, seq<Byte>)>) {
    forall i :: 0 <= i < |items| ==> |items[i].1| <= 10223
  }

  /** Sending one after the other puts the stream of the messages on the wire, numbered in order. */
  method SendAll(client: Client, items: seq<(Half, seq<Byte>)>) returns (wire: seq<Byte>)
    requires AllFit(items)
    modifies client`seqNo
    ensures AllSendable(Messages(old(client.seqNo), items))
    ensures wire == Stream(Messages(old(client.seqNo), items))
    decreases |items|
  {
    hide Frame;
    wire := [];
    if items != [] {
      ghost var ms := Messages(client.seqNo, items);
      assert AllSendable(ms);
      MessagesTail(client.seqNo, items);
      var sent := client.Send(items[0].0, items[0].1, true);
      assert sent.data == Frame(ms[0]);
      var rest := SendAll(client, items[1..]);
      wire := sent.data + rest;
    }
  }

  /** What one client sends in one piece another receives, unless it is a lone header-only frame. */
  method Exchange(sender: Client, receiver: Client, items: seq<(Half, seq<Byte>)>) returns (ds: seq<Dispatch>)
    requires sender != receiver && receiver.Valid() && Honours(receiver.handling.Skips()) && AllFit(items)
    modifies sender`seqNo, receiver.recvBuffer, receiver.recvBuffer.storage
    ensures receiver.Valid()
    ensures AllDelivered(ds) == Messages(old(sender.seqNo), items) <==> !(|items| == 1 && items[0].1 == [])
  {
    hide Received, Split, Frame, AllDelivered;
    ghost var ms := Messages(sender.seqNo, items);
    var wire := SendAll(sender, items);
    assert wire == Stream(ms) + [];
    RoundTripIff(ms, [], receiver.handling.Skips());
    ds := receiver.OnMessage(wire);
  }
}
