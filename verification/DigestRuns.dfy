/**
  Whole runs of calls on one MD5 context, as functions of the message absorbed. Md5Runs performs
  such runs on an object and shows that, with update lengths in range, it follows these functions.
*/
module DigestRuns {
  import opened ByteOrder
  import opened Rfc1321
  import opened Streaming

  datatype Call = Update(input: seq<Byte>) | Digest | Reset

  function Next(m: seq<Byte>, call: Call): seq<Byte> {
    match call
    case Update(input) => m + input
    case Digest => AfterDigest(m)
    case Reset => []
  }

  /** What the context stands for after a run. */
  function Replay(m: seq<Byte>, calls: seq<Call>): seq<Byte>
    decreases |calls|
  {
    if calls == [] then m else Replay(Next(m, calls[0]), calls[1..])
  }

  /** The digests a run returns, in order. */
  function Answers(m: seq<Byte>, calls: seq<Call>): seq<seq<Byte>>
    decreases |calls|
  {
    if calls == [] then []
    else
      (if calls[0].Digest? then [MessageDigest(m)] else [])
      + Answers(Next(m, calls[0]), calls[1..])
  }

  // ---------- the ideal context: asking for a digest changes nothing ----------

  function IdealNext(m: seq<Byte>, call: Call): seq<Byte> {
    if call.Digest? then m else Next(m, call)
  }

  function IdealReplay(m: seq<Byte>, calls: seq<Call>): seq<Byte>
    decreases |calls|
  {
    if calls == [] then m else IdealReplay(IdealNext(m, calls[0]), calls[1..])
  }

  function IdealAnswers(m: seq<Byte>, calls: seq<Call>): seq<seq<Byte>>
    decreases |calls|
  {
    if calls == [] then []
    else
      (if calls[0].Digest? then [MessageDigest(m)] else [])
      + IdealAnswers(IdealNext(m, calls[0]), calls[1..])
  }

  /** Every digest call finds fewer than 56 bytes buffered; a caller can tell from the lengths. */
  predicate EarlyDigests(len: nat, calls: seq<Call>)
    decreases |calls|
  {
    calls == []
    || (match calls[0]
        case Update(input) => EarlyDigests(len + |input|, calls[1..])
        case Digest => len % 64 < 56 && EarlyDigests(len, calls[1..])
        case Reset => EarlyDigests(0, calls[1..]))
  }

  /** Under that condition a run is indistinguishable from the ideal one. */
  lemma {:induction false} EarlyDigestsAreTransparent(m: seq<Byte>, calls: seq<Call>)
    requires EarlyDigests(|m|, calls)
    ensures Replay(m, calls) == IdealReplay(m, calls)
    ensures Answers(m, calls) == IdealAnswers(m, calls)
    decreases |calls|
  {
    hide MessageDigest;
    if calls != [] {
      assert Next(m, calls[0]) == IdealNext(m, calls[0]);
      EarlyDigestsAreTransparent(Next(m, calls[0]), calls[1..]);
    }
  }

  /** What the context stands for after each call of a run, and what it ideally would. */
  function States(m: seq<Byte>, calls: seq<Call>): seq<seq<Byte>>
    decreases |calls|
  {
    if calls == [] then [] else [Next(m, calls[0])] + States(Next(m, calls[0]), calls[1..])
  }

  function IdealStates(m: seq<Byte>, calls: seq<Call>): seq<seq<Byte>>
    decreases |calls|
  {
    if calls == [] then [] else [IdealNext(m, calls[0])] + IdealStates(IdealNext(m, calls[0]), calls[1..])
  }

  lemma {:induction false} LastState(m: seq<Byte>, calls: seq<Call>)
    ensures |States(m, calls)| == |calls|
    ensures calls != [] ==> States(m, calls)[|calls| - 1] == Replay(m, calls)
    decreases |calls|
  {
    hide Next;
    if calls != [] {
      var next := Next(m, calls[0]);
      LastState(next, calls[1..]);
      if |calls| == 1 {
        assert calls[1..] == [];
      } else {
        assert States(m, calls)[|calls| - 1] == States(next, calls[1..])[|calls| - 2];
      }
    }
  }

  /** At every digest call of the ideal run the buffer is short of 56 bytes, or already scrubbed. */
  predicate TransparentDigests(m: seq<Byte>, calls: seq<Call>)
    decreases |calls|
  {
    calls == []
    || ((calls[0].Digest? ==> |m| % 64 < 56 || Tail(m) == Scrubbed(|m|))
        && TransparentDigests(IdealNext(m, calls[0]), calls[1..]))
  }

  /** A whole run goes through the ideal states exactly when all its digests are transparent. */
  lemma {:induction false} TransparentRunIff(m: seq<Byte>, calls: seq<Call>)
    ensures States(m, calls) == IdealStates(m, calls) <==> TransparentDigests(m, calls)
    decreases |calls|
  {
    hide Scrubbed, Tail, AfterDigest;
    if calls != [] {
      var next, ideal := Next(m, calls[0]), IdealNext(m, calls[0]);
      DigestTransparentIff(m);
      TransparentRunIff(ideal, calls[1..]);
      assert States(m, calls)[0] == next && IdealStates(m, calls)[0] == ideal;
      assert States(m, calls)[1..] == States(next, calls[1..]);
      assert IdealStates(m, calls)[1..] == IdealStates(ideal, calls[1..]);
    }
  }

  // ---------- chunking ----------

  function Joined(chunks: seq<seq<Byte>>): seq<Byte> {
    if chunks == [] then [] else chunks[0] + Joined(chunks[1..])
  }

  function Updates(chunks: seq<seq<Byte>>): (calls: seq<Call>)
    ensures |calls| == |chunks|
  {
    if chunks == [] then [] else [Update(chunks[0])] + Updates(chunks[1..])
  }

  lemma {:induction false} ReplayUpdates(m: seq<Byte>, chunks: seq<seq<Byte>>, rest: seq<Call>)
    ensures Replay(m, Updates(chunks) + rest) == Replay(m + Joined(chunks), rest)
    ensures Answers(m, Updates(chunks) + rest) == Answers(m + Joined(chunks), rest)
    decreases |chunks|
  {
    hide MessageDigest, AfterDigest;
    if chunks == [] {
      assert Updates(chunks) + rest == rest;
      assert m + Joined(chunks) == m;
    } else {
      var calls := Updates(chunks) + rest;
      assert calls[1..] == Updates(chunks[1..]) + rest;
      ReplayUpdates(m + chunks[0], chunks[1..], rest);
      assert m + Joined(chunks) == m + chunks[0] + Joined(chunks[1..]);
    }
  }

  /** After reset, a message hashed in any chunks has the digest of RFC 1321 of the whole. */
  lemma {:induction false} ChunkedDigest(m: seq<Byte>, chunks: seq<seq<Byte>>)
    ensures Answers(m, [Reset] + Updates(chunks) + [Digest]) == [MessageDigest(Joined(chunks))]
  {
    hide MessageDigest;
    var calls := [Reset] + Updates(chunks) + [Digest];
    assert calls[1..] == Updates(chunks) + [Digest];
    ReplayUpdates([], chunks, [Digest]);
    assert [] + Joined(chunks) == Joined(chunks);
    assert [Digest][1..] == [];
  }

  /** A digest in mid-stream leaves the rest of the hash right exactly in these two cases. */
  lemma {:induction false} MidStreamDigestIff(m: seq<Byte>, chunks: seq<seq<Byte>>)
    ensures Replay(m, [Digest] + Updates(chunks)) == m + Joined(chunks)
       <==> |m| % 64 < 56 || Tail(m) == Scrubbed(|m|)
  {
    hide Scrubbed, Tail;
    assert ([Digest] + Updates(chunks))[1..] == Updates(chunks) + [];
    ReplayUpdates(AfterDigest(m), chunks, []);
    DigestTransparentIff(m);
    var p := AfterDigest(m) + Joined(chunks);
    assert p[..|m|] == AfterDigest(m) && (m + Joined(chunks))[..|m|] == m;
  }

  /** The smallest failing case: after 56 bytes a second digest is that of 56 zero bytes. */
  lemma {:induction false} SecondDigestOfLetters()
    ensures var m := seq(56, _ => 97 as Byte);
            && m != Zeros(56)
            && Answers(m, [Digest, Digest]) == [MessageDigest(m), MessageDigest(Zeros(56))]
  {
    hide MessageDigest;
    var m := seq(56, _ => 97 as Byte);
    assert m[0] != Zeros(56)[0];
    assert AfterDigest(m) == Zeros(56) by {
      assert WholeBlocks(m) == [] && Scrubbed(56) == Zeros(56);
    }
    assert [Digest, Digest][1..] == [Digest] && [Digest][1..] == [];
  }
}
