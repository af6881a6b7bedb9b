/**
  Runs of received chunks. Every onMessage call starts and ends with an empty buffer, so frames
  that the network cuts are not put together again; this module says exactly which cuts are
  harmless.
*/
module Reassembly {
  import opened ByteOrder
  import opened Frames

  function ReceivedAll(chunks: seq<seq<Byte>>, handler: Handler): seq<Dispatch> {
    if chunks == [] then [] else Received(chunks[0], handler) + ReceivedAll(chunks[1..], handler)
  }

  /** What the network carried. */
  function Carried(chunks: seq<seq<Byte>>): seq<Byte> {
    if chunks == [] then [] else chunks[0] + Carried(chunks[1..])
  }

  /** Each chunk is the stream of the next group of messages, and none is a bare header. */
  ghost predicate CutAtFrames(ms: seq<Message>, chunks: seq<seq<Byte>>)
    requires AllSendable(ms)
    decreases |chunks|
  {
    if chunks == [] then ms == []
    else
      |chunks[0]| != HEADER_SIZE
      && exists n: nat :: IsGroup(ms, n, chunks[0]) && CutAtFrames(ms[n..], chunks[1..])
  }

  predicate IsGroup(ms: seq<Message>, n: nat, chunk: seq<Byte>)
    requires AllSendable(ms)
  {
    n <= |ms| && chunk == Stream(ms[..n])
  }

  // ---------- sizes ----------

  function TotalSize(ms: seq<Message>): nat {
    if ms == [] then 0 else HEADER_SIZE + |ms[0].body| + TotalSize(ms[1..])
  }

  lemma {:induction false} SizeAppend(ms: seq<Message>, ns: seq<Message>)
    ensures TotalSize(ms + ns) == TotalSize(ms) + TotalSize(ns)
  {
    if ms == [] {
      assert ms + ns == ns;
    } else {
      assert (ms + ns)[1..] == ms[1..] + ns;
      SizeAppend(ms[1..], ns);
    }
  }

  lemma {:induction false} StreamSize(ms: seq<Message>)
    requires AllSendable(ms)
    ensures |Stream(ms)| == TotalSize(ms)
  {
    hide Frame;
    if ms != [] {
      StreamSize(ms[1..]);
    }
  }

  lemma {:induction false} BareSize(ms: seq<Message>)
    ensures |ms| == 1 && ms[0].body == [] ==> TotalSize(ms) == HEADER_SIZE
  {
    if |ms| == 1 {
      assert ms[1..] == [];
    }
  }

  lemma {:induction false} StreamAppend(ms: seq<Message>, ns: seq<Message>)
    requires AllSendable(ms) && AllSendable(ns)
    ensures Stream(ms + ns) == Stream(ms) + Stream(ns)
  {
    hide Frame;
    if ms == [] {
      assert ms + ns == ns;
    } else {
      assert (ms + ns)[1..] == ms[1..] + ns;
      StreamAppend(ms[1..], ns);
    }
  }

  lemma {:induction false} DeliveredAppend(ds: seq<Dispatch>, es: seq<Dispatch>)
    ensures AllDelivered(ds + es) == AllDelivered(ds) + AllDelivered(es)
  {
    if ds == [] {
      assert ds + es == es;
    } else {
      assert (ds + es)[1..] == ds[1..] + es;
      DeliveredAppend(ds[1..], es);
    }
  }

  /** A dispatch takes at least the header and the body it delivers off the buffer. */
  lemma {:induction false} DeliveredFits(s: seq<Byte>, handler: Handler)
    requires Dispatches(s) && Honours(handler)
    ensures var d := DispatchOf(s, handler);
            HEADER_SIZE + |Delivered(d).body| + |d.left| <= |s|
  {
    var h, unread := ParseHeader(s), s[HEADER_SIZE..];
    if h.len >= HEADER_SIZE {
      assert SizeMinus(h.len, 4) == h.len - 4;
      assert handler(h, unread) == h.len - HEADER_SIZE;
    }
  }

  lemma {:induction false} SplitDeliversWithin(s: seq<Byte>, handler: Handler)
    requires Honours(handler)
    ensures TotalSize(AllDelivered(Split(s, handler))) <= |s|
    decreases |s|
  {
    hide Dispatches, DispatchOf, Delivered, Split;
    if Dispatches(s) {
      SplitStep(s, handler);
      DeliveredFits(s, handler);
      var d := DispatchOf(s, handler);
      SplitDeliversWithin(d.left, handler);
      DeliveredAppend([d], Split(d.left, handler));
      assert AllDelivered([d]) == [Delivered(d)] by { assert [d][1..] == []; }
      SizeAppend([Delivered(d)], AllDelivered(Split(d.left, handler)));
      assert [Delivered(d)][1..] == [];
    } else {
      SplitStops(s, handler);
    }
  }

  lemma {:induction false} ReceivedDeliversWithin(chunks: seq<seq<Byte>>, handler: Handler)
    requires Honours(handler)
    ensures TotalSize(AllDelivered(ReceivedAll(chunks, handler))) <= |Carried(chunks)|
    decreases |chunks|
  {
    hide Split, AllDelivered, TotalSize;
    if chunks == [] {
      NothingDelivered();
    } else {
      var first, rest := Received(chunks[0], handler), ReceivedAll(chunks[1..], handler);
      OneDeliversWithin(chunks[0], handler);
      ReceivedDeliversWithin(chunks[1..], handler);
      DeliveredAppend(first, rest);
      SizeAppend(AllDelivered(first), AllDelivered(rest));
    }
  }

  lemma {:induction false} NothingDelivered()
    ensures AllDelivered([]) == [] && TotalSize([]) == 0
  {
  }

  lemma {:induction false} OneDeliversWithin(chunk: seq<Byte>, handler: Handler)
    requires Honours(handler)
    ensures TotalSize(AllDelivered(Received(chunk, handler))) <= |chunk|
    ensures |chunk| == HEADER_SIZE ==> AllDelivered(Received(chunk, handler)) == []
  {
    SplitDeliversWithin(chunk, handler);
  }

  // ---------- the two directions ----------

  lemma {:induction false} CutRunDelivers(ms: seq<Message>, chunks: seq<seq<Byte>>, handler: Handler)
    requires AllSendable(ms) && Honours(handler) && CutAtFrames(ms, chunks)
    ensures AllDelivered(ReceivedAll(chunks, handler)) == ms
    decreases |chunks|
  {
    hide Received, AllDelivered, Stream, Honours;
    if chunks == [] {
      NothingDelivered();
    } else {
      var n: nat :| IsGroup(ms, n, chunks[0]) && CutAtFrames(ms[n..], chunks[1..]);
      var group := ms[..n];
      assert Stream(group) + [] == chunks[0];
      StreamSize(group);
      BareSize(group);
      RoundTripIff(group, [], handler);
      CutRunDelivers(ms[n..], chunks[1..], handler);
      DeliveredAppend(Received(chunks[0], handler), ReceivedAll(chunks[1..], handler));
      assert ms == group + ms[n..];
    }
  }

  lemma {:induction false} DeliveredRunIsCut(ms: seq<Message>, chunks: seq<seq<Byte>>, handler: Handler)
    requires AllSendable(ms) && Honours(handler)
    requires Carried(chunks) == Stream(ms) && AllDelivered(ReceivedAll(chunks, handler)) == ms
    ensures CutAtFrames(ms, chunks)
    decreases |chunks|
  {
    hide Received, AllDelivered, Stream, Honours, TotalSize;
    if chunks == [] {
      NothingDelivered();
    } else {
      var first := AllDelivered(Received(chunks[0], handler));
      var rest := AllDelivered(ReceivedAll(chunks[1..], handler));
      DeliveredAppend(Received(chunks[0], handler), ReceivedAll(chunks[1..], handler));
      var n := |first|;
      assert ms == first + rest && ms[..n] == first && ms[n..] == rest;
      assert AllSendable(first) && AllSendable(rest);
      OneDeliversWithin(chunks[0], handler);
      ReceivedDeliversWithin(chunks[1..], handler);
      SizeAppend(first, rest);
      StreamAppend(first, rest);
      StreamSize(first);
      StreamSize(rest);
      SplitAt(chunks[0], Carried(chunks[1..]), Stream(first), Stream(rest));
      assert |chunks[0]| != HEADER_SIZE by {
        NothingDelivered();
      }
      DeliveredRunIsCut(rest, chunks[1..], handler);
      assert IsGroup(ms, n, chunks[0]);
    }
  }

  lemma {:induction false} SplitAt(a: seq<Byte>, b: seq<Byte>, c: seq<Byte>, d: seq<Byte>)
    requires a + b == c + d && |c| <= |a| && |d| <= |b|
    ensures a == c && b == d
  {
    assert |a| + |b| == |c| + |d|;
    assert a == (a + b)[..|a|] && b == (a + b)[|a|..];
    assert c == (c + d)[..|c|] && d == (c + d)[|c|..];
  }

  /**
    However the network cuts a stream of frames into chunks, the run delivers the messages exactly
    when every cut is at a frame boundary and no chunk is a bare header.
  */
  lemma {:induction false} DeliveredIffCutAtFrames(ms: seq<Message>, chunks: seq<seq<Byte>>, handler: Handler)
    requires AllSendable(ms) && Honours(handler) && Carried(chunks) == Stream(ms)
    ensures AllDelivered(ReceivedAll(chunks, handler)) == ms <==> CutAtFrames(ms, chunks)
  {
    if CutAtFrames(ms, chunks) {
      CutRunDelivers(ms, chunks, handler);
    }
    if AllDelivered(ReceivedAll(chunks, handler)) == ms {
      DeliveredRunIsCut(ms, chunks, handler);
    }
  }

  /** One frame in two pieces: it must have a body, and one piece must be empty. */
  lemma {:induction false} CutFrameIff(m: Message, k: nat, handler: Handler)
    requires Sendable(m) && Honours(handler) && k <= |Frame(m)|
    ensures AllDelivered(ReceivedAll([Frame(m)[..k], Frame(m)[k..]], handler)) == [m]
       <==> m.body != [] && (k == 0 || k == |Frame(m)|)
  {
    var f := Frame(m);
    var chunks := [f[..k], f[k..]];
    TwoPieces(m, k);
    DeliveredIffCutAtFrames([m], chunks, handler);
  }

  lemma {:induction false} TwoPieces(m: Message, k: nat)
    requires Sendable(m) && k <= |Frame(m)|
    ensures var f := Frame(m);
            && Carried([f[..k], f[k..]]) == Stream([m])
            && (CutAtFrames([m], [f[..k], f[k..]]) <==> m.body != [] && (k == 0 || k == |f|))
  {
    hide Frame;
    var f := Frame(m);
    var a, b := f[..k], f[k..];
    var none: seq<Message> := [];
    assert Stream([m]) == f && Stream(none) == [] by { assert [m][1..] == []; }
    var last, both: seq<seq<Byte>> := [b], [a, b];
    assert both[1..] == last && |last[1..]| == 0;
    assert Carried(last) == b + Carried(last[1..]) && Carried(both) == a + Carried(last);
    var one: seq<Message> := [m];
    assert one[..0] == none && one[..1] == one && one[0..] == one && one[1..] == none;
    assert none[0..] == none && none[..0] == none;
    assert CutAtFrames(none, []);
    assert CutAtFrames([m], [b]) <==> |b| != HEADER_SIZE && b == f by {
      if |b| != HEADER_SIZE && b == f { assert IsGroup([m], 1, b); }
    }
    assert CutAtFrames(none, [b]) <==> b == [] by {
      if b == [] { assert IsGroup(none, 0, b); }
    }
    assert CutAtFrames([m], [a, b])
      <==> |a| != HEADER_SIZE && ((a == [] && CutAtFrames([m], [b])) || (a == f && CutAtFrames(none, [b]))) by {
      if a == [] && CutAtFrames([m], [b]) { assert IsGroup([m], 0, a); }
      if a == f && CutAtFrames(none, [b]) { assert IsGroup([m], 1, a); }
    }
  }
}
