/**
  Runs of calls performed on one MD5 object. A run whose update lengths are in range answers and
  ends as DigestRuns says, so the results there are results about the object.
*/
module Md5Runs {
  import opened ByteOrder
  import opened Rfc1321
  import opened Streaming
  import opened DigestRuns
  import opened Md5

  /** Every update of the run has a length that the block loop survives; see UpdateSafeIff. */
  predicate SafeRun(m: seq<Byte>, calls: seq<Call>)
    decreases |calls|
  {
    calls == []
    || ((calls[0].Update? ==> LengthInRange(|m| % 64, |calls[0].input|))
        && SafeRun(Next(m, calls[0]), calls[1..]))
  }

  method PerformOne(ctx: MD5, call: Call) returns (answer: seq<seq<Byte>>)
    requires ctx.Valid() && (call.Update? ==> LengthInRange(|ctx.absorbed| % 64, |call.input|))
    modifies ctx, ctx.state, ctx.count, ctx.buffer, ctx.digestBytes
    ensures ctx.Valid()
    ensures ctx.absorbed == Next(old(ctx.absorbed), call)
    ensures answer == if call.Digest? then [MessageDigest(old(ctx.absorbed))] else []
  {
    hide MessageDigest, AfterDigest, LengthInRange, Fold, Counter, Tail, WholeBlocks;
    answer := [];
    match call
    case Update(input) =>
      ctx.Update(input);
    case Digest =>
      var d := ctx.Digest();
      answer := [d];
    case Reset =>
      ctx.Reset();
  }

  /** Any run in range: the digests returned, the states passed through and the last of them. */
  method Perform(ctx: MD5, calls: seq<Call>) returns (answers: seq<seq<Byte>>, ghost states: seq<seq<Byte>>)
    requires ctx.Valid() && SafeRun(ctx.absorbed, calls)
    modifies ctx, ctx.state, ctx.count, ctx.buffer, ctx.digestBytes
    ensures ctx.Valid()
    ensures answers == Answers(old(ctx.absorbed), calls)
    ensures states == States(old(ctx.absorbed), calls)
    ensures ctx.absorbed == Replay(old(ctx.absorbed), calls)
    decreases |calls|
  {
    hide MessageDigest, Next, LengthInRange, Fold, Counter, Tail, WholeBlocks;
    answers, states := [], [];
    if calls != [] {
      answers := PerformOne(ctx, calls[0]);
      ghost var m := ctx.absorbed;
      var more, later := Perform(ctx, calls[1..]);
      answers, states := answers + more, [m] + later;
    }
  }

  /**
    Compared with a context on which asking for a digest has no effect: the object passes through
    the same states exactly when every digest call is transparent, and whenever every digest call
    finds fewer than 56 bytes buffered it gives the same answers.
  */
  method PerformAgainstIdeal(ctx: MD5, calls: seq<Call>) returns (answers: seq<seq<Byte>>, ghost states: seq<seq<Byte>>)
    requires ctx.Valid() && SafeRun(ctx.absorbed, calls)
    modifies ctx, ctx.state, ctx.count, ctx.buffer, ctx.digestBytes
    ensures ctx.Valid()
    ensures |states| == |calls| && (calls != [] ==> states[|calls| - 1] == ctx.absorbed)
    ensures states == IdealStates(old(ctx.absorbed), calls) <==> TransparentDigests(old(ctx.absorbed), calls)
    ensures EarlyDigests(|old(ctx.absorbed)|, calls) ==>
              answers == IdealAnswers(old(ctx.absorbed), calls)
              && ctx.absorbed == IdealReplay(old(ctx.absorbed), calls)
  {
    hide *;
    ghost var m := ctx.absorbed;
    LastState(m, calls);
    TransparentRunIff(m, calls);
    if EarlyDigests(|m|, calls) {
      EarlyDigestsAreTransparent(m, calls);
    }
    answers, states := Perform(ctx, calls);
  }

  lemma {:induction false} SafeUpdates(m: seq<Byte>, chunks: seq<seq<Byte>>, rest: seq<Call>)
    requires forall i :: 0 <= i < |chunks| ==> |chunks[i]| <= MODULUS - 64
    requires SafeRun(m + Joined(chunks), rest)
    ensures SafeRun(m, Updates(chunks) + rest)
    decreases |chunks|
  {
    hide LengthInRange;
    var calls := Updates(chunks) + rest;
    if chunks == [] {
      assert calls == rest && m + Joined(chunks) == m;
    } else {
      SafeLength(|m| % 64, |chunks[0]|);
      assert m + Joined(chunks) == (m + chunks[0]) + Joined(chunks[1..]);
      assert calls[1..] == Updates(chunks[1..]) + rest;
      SafeUpdates(m + chunks[0], chunks[1..], rest);
    }
  }

  /** After reset an object returns the RFC 1321 digest of the whole message, however it is cut. */
  method HashChunks(ctx: MD5, chunks: seq<seq<Byte>>) returns (d: seq<Byte>)
    requires ctx.Valid()
    requires forall i :: 0 <= i < |chunks| ==> |chunks[i]| <= MODULUS - 64
    modifies ctx, ctx.state, ctx.count, ctx.buffer, ctx.digestBytes
    ensures ctx.Valid()
    ensures d == MessageDigest(Joined(chunks))
  {
    hide MessageDigest, AfterDigest, LengthInRange, Fold, Counter, Tail, WholeBlocks, Joined, Updates;
    ghost var m := ctx.absorbed;
    var calls := [Reset] + Updates(chunks) + [Digest];
    ChunkedDigest(m, chunks);
    assert SafeRun(m, calls) by {
      assert calls[1..] == Updates(chunks) + [Digest];
      assert [Digest][1..] == [];
      SafeUpdates([], chunks, [Digest]);
    }
    var answers, states := Perform(ctx, calls);
    d := answers[0];
  }

  /** A digest, and then more updates: right for the whole message in exactly these two cases. */
  method DigestThenUpdate(ctx: MD5, chunks: seq<seq<Byte>>) returns (d: seq<Byte>)
    requires ctx.Valid()
    requires forall i :: 0 <= i < |chunks| ==> |chunks[i]| <= MODULUS - 64
    modifies ctx, ctx.state, ctx.count, ctx.buffer, ctx.digestBytes
    ensures ctx.Valid() && d == MessageDigest(old(ctx.absorbed))
    ensures var m := old(ctx.absorbed);
            ctx.absorbed == m + Joined(chunks) <==> |m| % 64 < 56 || Tail(m) == Scrubbed(|m|)
  {
    hide MessageDigest, AfterDigest, LengthInRange, Fold, Counter, Tail, WholeBlocks, Joined, Updates, Scrubbed;
    ghost var m := ctx.absorbed;
    var calls := [Digest] + Updates(chunks);
    MidStreamDigestIff(m, chunks);
    assert SafeRun(m, calls) by {
      assert calls[1..] == Updates(chunks) + [];
      SafeUpdates(AfterDigest(m), chunks, []);
    }
    var answers, states := Perform(ctx, calls);
    d := answers[0];
  }
}
