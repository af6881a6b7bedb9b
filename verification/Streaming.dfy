/**
  What a streaming MD5 context means: the message it has absorbed. The context keeps the fold of
  the whole blocks, the unprocessed tail and a two-word bit counter; the lemmas here connect
  those three, and the padding that final() feeds through update(), with the one-shot definition.
*/
module Streaming {
  import opened ByteOrder
  import opened Memory
  import opened Rfc1321

  // ---------- the parts of an absorbed message ----------

  function WholeBlocks(m: seq<Byte>): (w: seq<Byte>)
    ensures |w| % 64 == 0
  {
    m[..|m| - |m| % 64]
  }

  function Tail(m: seq<Byte>): (t: seq<Byte>)
    ensures |t| == |m| % 64
  {
    m[|m| - |m| % 64..]
  }

  /** The registers have taken in the first n bytes, all of them whole blocks. */
  predicate FoldedTo(r: Regs, m: seq<Byte>, n: nat) {
    n <= |m| && n % 64 == 0 && r == Fold(m[..n])
  }

  /** Folding one more block. */
  lemma {:induction false} FoldNext(m: seq<Byte>, n: nat)
    requires n % 64 == 0 && n + 64 <= |m|
    ensures Fold(m[..n + 64]) == Compress(Fold(m[..n]), m[n..n + 64])
  {
    hide Compress;
    var p := m[..n + 64];
    assert p[..|p| - 64] == m[..n] && p[|p| - 64..] == m[n..n + 64];
  }

  // ---------- the bit counter ----------

  function Counter(lo: Word, hi: Word): nat { hi * MODULUS + lo }

  const MODULUS64 := 0x1_0000_0000_0000_0000

  /** The low word after adding len bytes: the truncated shift, added modulo 2^32. */
  function CountLow(lo: Word, len: nat): Word {
    (lo + len % MODULUS * 8 % MODULUS) % MODULUS
  }

  /** The high word: one more if the low word wrapped, and the three bits the shift lost. */
  function CountHigh(lo: Word, hi: Word, len: nat): Word {
    var carried := if CountLow(lo, len) < len % MODULUS * 8 % MODULUS then (hi + 1) % MODULUS else hi;
    (carried + len % MODULUS / 0x2000_0000) % MODULUS
  }

  lemma {:induction false} Remainder(x: nat, q: int, r: nat)
    requires x == q * MODULUS64 + r && r < MODULUS64
    ensures x % MODULUS64 == r
  {
  }

  /** The low word, the carry and the lost bits account for every bit added. */
  lemma {:induction false} LowWordExact(lo: Word, len: nat)
    requires len < MODULUS
    ensures var carry := if CountLow(lo, len) < len % MODULUS * 8 % MODULUS then 1 else 0;
            lo + 8 * len == (carry + len / 0x2000_0000) * MODULUS + CountLow(lo, len)
  {
    var bits, lost := len * 8 % MODULUS, len / 0x2000_0000;
    assert len * 8 == lost * MODULUS + bits;
    if lo + bits >= MODULUS {
      assert CountLow(lo, len) == lo + bits - MODULUS;
    } else {
      assert CountLow(lo, len) == lo + bits;
    }
  }

  /** Two additions modulo 2^32 are one. */
  lemma {:induction false} HighWordExact(lo: Word, hi: Word, len: nat)
    requires len < MODULUS
    ensures var carry := if CountLow(lo, len) < len % MODULUS * 8 % MODULUS then 1 else 0;
            CountHigh(lo, hi, len) == (hi + carry + len / 0x2000_0000) % MODULUS
  {
    hide CountLow;
    assert len % MODULUS == len;
    var carry := if CountLow(lo, len) < len % MODULUS * 8 % MODULUS then 1 else 0;
    if hi + carry == MODULUS {
      assert (hi + carry + len / 0x2000_0000) - MODULUS == len / 0x2000_0000;
    }
  }

  /** The wrap test and the `>> 29` together lose nothing: the pair counts bits modulo 2^64. */
  lemma {:induction false} CounterExact(lo: Word, hi: Word, total: nat, len: nat)
    requires len < MODULUS && Counter(lo, hi) == 8 * total % MODULUS64
    ensures Counter(CountLow(lo, len), CountHigh(lo, hi, len)) == 8 * (total + len) % MODULUS64
  {
    hide CountLow, CountHigh;
    LowWordExact(lo, len);
    HighWordExact(lo, hi, len);
    var carry := if CountLow(lo, len) < len % MODULUS * 8 % MODULUS then 1 else 0;
    var high := hi + carry + len / 0x2000_0000;
    var p, q := high / MODULUS, 8 * total / MODULUS64;
    assert 8 * total == q * MODULUS64 + hi * MODULUS + lo;
    assert high == p * MODULUS + CountHigh(lo, hi, len);
    assert 8 * (total + len) == q * MODULUS64 + high * MODULUS + CountLow(lo, len);
    Remainder(8 * (total + len), p + q, Counter(CountLow(lo, len), CountHigh(lo, hi, len)));
  }

  /** Bits 3 to 8 of the counter are the fill of the carry buffer. */
  lemma {:induction false} CounterIndex(lo: Word, hi: Word, total: nat)
    requires Counter(lo, hi) == 8 * total % MODULUS64
    ensures lo / 8 % 64 == total % 64
  {
    var q := 8 * total / MODULUS64;
    var j := total - q * 0x2000_0000_0000_0000 - hi * 0x2000_0000;
    assert 8 * total == q * MODULUS64 + hi * MODULUS + lo;
    assert lo == 8 * j;
    assert total == 64 * (q * 0x80_0000_0000_0000 + hi * 0x80_0000) + j;
  }

  lemma {:induction false} BytesOfTwo(v: Word, w: Word)
    ensures Bytes([v, w]) == Le(v, 4) + Le(w, 4)
  {
    hide Le;
    assert [v, w][..1] == [v] && [v][..0] == [];
    assert Bytes([v]) == Bytes([]) + Le(v, 4);
  }

  /** Encoding the two counter words gives the length field of RFC 1321, section 3.2. */
  lemma {:induction false} CounterEncodes(lo: Word, hi: Word, total: nat)
    requires Counter(lo, hi) == 8 * total % MODULUS64
    ensures Bytes([lo, hi]) == BitLength(total)
  {
    hide Le;
    var v := 8 * total;
    var q := v / MODULUS64;
    BytesOfTwo(lo, hi);
    LeEight(v);
    assert v == q * MODULUS64 + hi * MODULUS + lo;
    assert v % MODULUS == lo && v / MODULUS == q * MODULUS + hi;
    Powers();
    LeIgnoresHighBytes(lo, q * MODULUS + hi, 4);
    LeIgnoresHighBytes(hi, q, 4);
  }

  // ---------- the 32-bit loop counter of update ----------

  /** Where the block loop of update stands before its k-th block. */
  function Visit(index: nat, k: nat): int { 64 - index + 64 * k }

  /**
    No visit of the loop lets `i + 63` leave 32 bits, and the length itself fits. The last visit
    is the one after every whole block has gone.
  */
  predicate LengthInRange(index: nat, len: nat)
    requires index < 64
  {
    len < MODULUS
    && (len >= 64 - index ==> Visit(index, (len - (64 - index)) / 64) + 63 < MODULUS)
  }

  /** The test on the last visit covers all of them. */
  lemma {:induction false} LengthInRangeExact(index: nat, len: nat)
    requires index < 64
    ensures LengthInRange(index, len)
       <==> len < MODULUS && forall k: nat :: Visit(index, k) <= len ==> Visit(index, k) + 63 < MODULUS
  {
    if LengthInRange(index, len) {
      forall k: nat | Visit(index, k) <= len
        ensures Visit(index, k) + 63 < MODULUS
      {
        assert k <= (len - (64 - index)) / 64;
      }
    } else if len < MODULUS {
      var last := (len - (64 - index)) / 64;
      assert Visit(index, last) <= len;
    }
  }

  /** 2^32 - 64 is the largest length that is in range whatever the buffer holds. */
  lemma {:induction false} SafeForEveryFill(len: nat)
    ensures (forall index: nat | index < 64 :: LengthInRange(index, len)) <==> len <= MODULUS - 64
  {
    if len <= MODULUS - 64 {
      forall index: nat | index < 64
        ensures LengthInRange(index, len)
      {
        if len >= 64 - index {
          assert Visit(index, (len - (64 - index)) / 64) <= len;
        }
      }
    } else if len < MODULUS {
      var index := MODULUS - len;
      assert !LengthInRange(index, len) by {
        assert Visit(index, (len - (64 - index)) / 64) == len;
      }
    } else {
      assert !LengthInRange(0, len);
    }
  }

  lemma {:induction false} SafeLength(index: nat, len: nat)
    requires index < 64 && len <= MODULUS - 64
    ensures LengthInRange(index, len)
  {
    SafeForEveryFill(len);
  }

  /** Out of range means out of bounds: the wrapped test holds on a block that is not all there. */
  lemma {:induction false} OverrunBeyondRange(index: nat, len: nat)
    requires index < 64 && len < MODULUS && !LengthInRange(index, len)
    ensures exists k: nat :: Visit(index, k) <= len && (Visit(index, k) + 63) % MODULUS < len < Visit(index, k) + 64
  {
    LengthInRangeExact(index, len);
    var k: nat :| Visit(index, k) <= len && Visit(index, k) + 63 >= MODULUS;
    assert (Visit(index, k) + 63) % MODULUS == Visit(index, k) + 63 - MODULUS;
  }

  /** From 2^32 on the 32-bit test cannot fail: the loop would never stop. */
  lemma {:induction false} TestNeverFails(len: nat, i: Word)
    requires len >= MODULUS
    ensures (i + 63) % MODULUS < len
  {
  }

  /** The value of the 32-bit counter at its k-th visit, and the loop test there. */
  function At(index: nat, k: nat): Word { Visit(index, k) % MODULUS }

  predicate TestHolds(index: nat, len: nat, k: nat) { (At(index, k) + 63) % MODULUS < len }

  /** The loop transforms block k: it is entered at all, and no test up to k has failed. */
  ghost predicate Reached(index: nat, len: nat, k: nat) {
    len >= 64 - index && forall j: nat :: j <= k ==> TestHolds(index, len, j)
  }

  /** Every block the loop transforms lies inside the input. */
  ghost predicate InBounds(index: nat, len: nat) {
    forall k: nat :: Reached(index, len, k) ==> At(index, k) + 64 <= len
  }

  ghost predicate Stops(index: nat, len: nat) {
    len >= 64 - index ==> exists k: nat :: !TestHolds(index, len, k)
  }

  lemma {:induction false} ReachedInside(index: nat, len: nat, k: nat)
    requires index < 64 && LengthInRange(index, len) && Reached(index, len, k)
    ensures Visit(index, k) + 64 <= len
  {
    LengthInRangeExact(index, len);
    if k > 0 {
      assert Reached(index, len, k - 1);
      ReachedInside(index, len, k - 1);
    }
    assert TestHolds(index, len, k);
  }

  lemma {:induction false} StopsInRange(index: nat, len: nat)
    requires index < 64 && LengthInRange(index, len)
    ensures Stops(index, len)
  {
    if len >= 64 - index {
      var last := (len - (64 - index)) / 64;
      LengthInRangeExact(index, len);
      assert Visit(index, last) <= len < Visit(index, last) + 64;
      assert !TestHolds(index, len, last);
    }
  }

  /** The overrun is reached: every test before it holds without wrapping. */
  lemma {:induction false} OverrunReached(index: nat, len: nat)
    requires index < 64 && len < MODULUS && !LengthInRange(index, len)
    ensures !InBounds(index, len)
  {
    OverrunBeyondRange(index, len);
    var k: nat :| Visit(index, k) <= len && (Visit(index, k) + 63) % MODULUS < len < Visit(index, k) + 64;
    forall j: nat | j <= k
      ensures TestHolds(index, len, j)
    {
      if j < k {
        assert Visit(index, j) + 64 <= Visit(index, k);
      }
    }
    assert Reached(index, len, k) && At(index, k) == Visit(index, k);
  }

  /**
    The block loop stops and stays inside the input exactly for the lengths in range. Below 2^32
    the failure is a block read past the end; from 2^32 on it is a loop without end.
  */
  lemma {:induction false} UpdateSafeIff(index: nat, len: nat)
    requires index < 64
    ensures LengthInRange(index, len) <==> InBounds(index, len) && Stops(index, len)
    ensures len < MODULUS ==> (LengthInRange(index, len) <==> InBounds(index, len))
    ensures len >= MODULUS ==> !Stops(index, len)
  {
    if LengthInRange(index, len) {
      StopsInRange(index, len);
      forall k: nat | Reached(index, len, k)
        ensures At(index, k) + 64 <= len
      {
        ReachedInside(index, len, k);
      }
    } else if len < MODULUS {
      OverrunReached(index, len);
    } else {
      forall k: nat
        ensures TestHolds(index, len, k)
      {
        TestNeverFails(len, At(index, k));
      }
    }
  }

  // ---------- padding through update ----------

  const PADDING: seq<Byte> := [0x80] + Zeros(63)

  /** How much padding final() feeds: to 56 in this block, or in the next one. */
  function PadLength(index: nat): (n: nat)
    requires index < 64
    ensures 1 <= n <= 64
  {
    if index < 56 then 56 - index else 120 - index
  }

  /** Both padding cases are the one-shot padding of RFC 1321, section 3.1. */
  lemma {:induction false} PaddingIsRfc(m: seq<Byte>)
    ensures m + PADDING[..PadLength(|m| % 64)] + BitLength(|m|) == Padded(m)
  {
    hide BitLength;
    var n := PadLength(|m| % 64);
    assert n == 1 + PadZeros(|m|);
    assert PADDING[..n] == [0x80] + Zeros(PadZeros(|m|));
    assert m + PADDING[..n] == m + [0x80] + Zeros(PadZeros(|m|));
  }

  // ---------- the carry buffer ----------

  /** All 64 bytes of the carry buffer after update: stale bytes past the tail included. */
  function BufferAfter(buf: seq<Byte>, index: nat, input: seq<Byte>): (r: seq<Byte>)
    requires |buf| == 64 && index < 64
    ensures |r| == 64
  {
    var part := 64 - index;
    if |input| < part then Overlay(buf, index, input)
    else Overlay(buf[..index] + input[..part], 0, input[|input| - (|input| - part) % 64..])
  }

  lemma {:induction false} ModIs(x: nat, k: int, r: nat)
    requires x == 64 * k + r && r < 64
    ensures x % 64 == r
  {
  }

  lemma {:induction false} BufferAfterShort(buf: seq<Byte>, index: nat, input: seq<Byte>)
    requires |buf| == 64 && index + |input| < 64
    ensures BufferAfter(buf, index, input) == Overlay(buf, index, input)
  {
  }

  /** What is left of the input once i has reached a block boundary of the message. */
  lemma {:induction false} LeftAt(n: nat, len: nat, i: nat)
    requires 64 - n % 64 <= i <= len < i + 64 && (n + i) % 64 == 0
    ensures (len - (64 - n % 64)) % 64 == len - i
  {
    var q, p, r := n / 64, (n + i) / 64, n % 64;
    assert n == 64 * q + r && n + i == 64 * p;
    ModIs(len - (64 - r), p - q - 1, len - i);
  }

  lemma {:induction false} BufferAfterLong(buf: seq<Byte>, n: nat, input: seq<Byte>, i: nat)
    requires |buf| == 64 && 64 - n % 64 <= i <= |input| < i + 64 && (n + i) % 64 == 0
    ensures BufferAfter(buf, n % 64, input)
         == Overlay(buf[..n % 64] + input[..64 - n % 64], 0, input[i..])
  {
    hide Overlay;
    LeftAt(n, |input|, i);
  }

  /** After the padding the buffer is filled to 56, and the length field completes the block. */
  lemma {:induction false} PaddedFill(m: seq<Byte>)
    ensures |m + PADDING[..PadLength(|m| % 64)]| % 64 == 56
    ensures |Padded(m)| % 64 == 0 && WholeBlocks(Padded(m)) == Padded(m)
  {
    hide BitLength;
    var k, r := |m| / 64, |m| % 64;
    assert |m| == 64 * k + r;
    ModIs(|m| + PadLength(r), if r < 56 then k else k + 1, 56);
  }

  lemma {:induction false} LengthFits(index: nat, len: nat)
    requires index < 64 && LengthInRange(index, len)
    ensures len < MODULUS
  {
  }

  /** While the loop runs neither `i + 63` nor `i + 64` wraps. */
  lemma {:induction false} VisitInRange(n: nat, len: nat, i: nat)
    requires LengthInRange(n % 64, len) && 64 - n % 64 <= i <= len && (n + i) % 64 == 0
    ensures (i + 63) % MODULUS == i + 63
    ensures i + 64 <= len ==> (i + 64) % MODULUS == i + 64
  {
    var q, p, r := n / 64, (n + i) / 64, n % 64;
    assert n == 64 * q + r && n + i == 64 * p;
    assert i == Visit(r, p - q - 1);
    LengthInRangeExact(n % 64, len);
  }

  lemma {:induction false} WholeBlocksAre(m: seq<Byte>, n: nat)
    requires n <= |m| < n + 64 && n % 64 == 0
    ensures WholeBlocks(m) == m[..n]
  {
  }

  /** The tail of a message that ends with the given bytes. */
  lemma {:induction false} TailIs(m: seq<Byte>, k: nat, n: nat)
    requires |m| == 64 * k + n && n < 64
    ensures Tail(m) == m[64 * k..] && |m| % 64 == n
  {
    ModIs(|m|, k, n);
  }

  /** The new tail sits at the front of the buffer. */
  lemma {:induction false} BufferHoldsTail(m: seq<Byte>, buf: seq<Byte>, input: seq<Byte>)
    requires |buf| == 64 && buf[..|m| % 64] == Tail(m)
    ensures BufferAfter(buf, |m| % 64, input)[..|m + input| % 64] == Tail(m + input)
  {
    var k, r := |m| / 64, |m| % 64;
    assert |m| == 64 * k + r;
    if |input| < 64 - r {
      HoldsTailShort(m, k, r, buf, input);
    } else {
      var blocks, left := (|input| - (64 - r)) / 64, (|input| - (64 - r)) % 64;
      assert |input| - (64 - r) == 64 * blocks + left;
      HoldsTailLong(m, k, r, buf, input, blocks, left);
    }
  }

  lemma {:induction false} HoldsTailShort(m: seq<Byte>, k: nat, r: nat, buf: seq<Byte>, input: seq<Byte>)
    requires |m| == 64 * k + r && r + |input| < 64 && |buf| == 64 && buf[..r] == m[64 * k..]
    ensures BufferAfter(buf, r, input)[..|m + input| % 64] == Tail(m + input)
  {
    TailIs(m + input, k, r + |input|);
    assert (m + input)[64 * k..] == m[64 * k..] + input;
  }

  lemma {:induction false} HoldsTailLong(m: seq<Byte>, k: nat, r: nat, buf: seq<Byte>,
                                         input: seq<Byte>, blocks: nat, left: nat)
    requires |m| == 64 * k + r && r < 64 && |buf| == 64
    requires |input| == 64 - r + 64 * blocks + left && left < 64
    ensures BufferAfter(buf, r, input)[..|m + input| % 64] == Tail(m + input)
  {
    hide Tail;
    TailIs(m + input, k + 1 + blocks, left);
    DropAppend(m, input, 64 * (k + 1 + blocks), |input| - left);
    BufferAfterFront(buf, r, input, blocks, left);
  }

  lemma {:induction false} BufferAfterFront(buf: seq<Byte>, r: nat, input: seq<Byte>, blocks: nat, left: nat)
    requires r < 64 && |buf| == 64
    requires |input| == 64 - r + 64 * blocks + left && left < 64
    ensures BufferAfter(buf, r, input)[..left] == input[|input| - left..]
  {
    hide Overlay;
    ModIs(|input| - (64 - r), blocks, left);
    OverlayFront(buf[..r] + input[..64 - r], input[|input| - left..]);
  }

  // ---------- what a digest does to the context ----------

  /**
    The message a context stands for once final() has put the state and count back. With fewer
    than 56 bytes buffered it is the same message. From 56 on the padding has overwritten the
    buffer, and the last bytes are zeros and the start of the encoded length.
  */
  function AfterDigest(m: seq<Byte>): (r: seq<Byte>)
    ensures |r| == |m|
  {
    if |m| % 64 < 56 then m else WholeBlocks(m) + Scrubbed(|m|)
  }

  /** The 56 to 63 bytes that replace the tail of a message of length len. */
  function Scrubbed(len: nat): (s: seq<Byte>)
    requires len % 64 >= 56
    ensures |s| == len % 64
  {
    Zeros(56) + BitLength(len)[..len % 64 - 56]
  }

  /** The two padding updates of final(), as the carry buffer sees them. */
  function BufferAfterFinal(buf: seq<Byte>, len: nat): (r: seq<Byte>)
    requires |buf| == 64
    ensures |r| == 64
  {
    BufferAfter(BufferAfter(buf, len % 64, PADDING[..PadLength(len % 64)]), 56, BitLength(len))
  }

  /** What is left in front of the restored fill is the tail of AfterDigest. */
  lemma {:induction false} BufferAfterFinalHoldsTail(m: seq<Byte>, buf: seq<Byte>)
    requires |buf| == 64 && buf[..|m| % 64] == Tail(m)
    ensures BufferAfterFinal(buf, |m|)[..|m| % 64] == Tail(AfterDigest(m))
    ensures WholeBlocks(AfterDigest(m)) == WholeBlocks(m)
  {
    hide BitLength, BufferAfter;
    var r, bits := |m| % 64, BitLength(|m|);
    var pad := PADDING[..PadLength(r)];
    var padded := BufferAfter(buf, r, pad);
    BufferAfterLong(padded, 56, bits, 8);
    assert BufferAfterFinal(buf, |m|) == padded[..56] + bits;
    if r < 56 {
      BufferAfterShort(buf, r, pad);
      assert padded[..r] == buf[..r];
    } else {
      BufferAfterLong(buf, r, pad, 64 - r);
      assert pad[64 - r..] == Zeros(56);
      assert padded[..56] == Zeros(56);
      assert Tail(AfterDigest(m)) == Scrubbed(|m|);
    }
  }

  /** A digest is transparent exactly when the buffer was not full past 55, or already scrubbed. */
  lemma {:induction false} DigestTransparentIff(m: seq<Byte>)
    ensures AfterDigest(m) == m <==> |m| % 64 < 56 || Tail(m) == Scrubbed(|m|)
  {
    if |m| % 64 >= 56 {
      assert m == WholeBlocks(m) + Tail(m);
      if AfterDigest(m) == m {
        assert Tail(m) == m[|WholeBlocks(m)|..] == Scrubbed(|m|);
      }
    }
  }

  /** A second digest changes nothing more. */
  lemma {:induction false} AfterDigestTwice(m: seq<Byte>)
    ensures AfterDigest(AfterDigest(m)) == AfterDigest(m)
  {
    if |m| % 64 >= 56 {
      assert WholeBlocks(AfterDigest(m)) == WholeBlocks(m);
    }
  }
}
