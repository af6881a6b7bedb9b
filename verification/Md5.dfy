/**
  The streaming MD5 context of md5.cpp with 32-bit words: four registers, a two-word bit counter,
  a 64-byte carry buffer and the last digest, all updated in place. The ghost field `absorbed` is
  the message the context stands for; Valid ties every real field to it.
*/
module Md5 {
  import opened ByteOrder
  import opened Memory
  import opened Rfc1321
  import opened Streaming
  import opened Hex

  const S11: nat := 7
  const S12: nat := 12
  const S13: nat := 17
  const S14: nat := 22
  const S21: nat := 5
  const S22: nat := 9
  const S23: nat := 14
  const S24: nat := 20
  const S31: nat := 4
  const S32: nat := 11
  const S33: nat := 16
  const S34: nat := 23
  const S41: nat := 6
  const S42: nat := 10
  const S43: nat := 15
  const S44: nat := 21

  function FF(a: Word, b: Word, c: Word, d: Word, x: Word, s: nat, ac: Word): Word
    requires 0 < s < 32
  {
    Plus(RotateLeft(Plus(a, F(b, c, d) + x + ac), s), b)
  }

  function GG(a: Word, b: Word, c: Word, d: Word, x: Word, s: nat, ac: Word): Word
    requires 0 < s < 32
  {
    Plus(RotateLeft(Plus(a, G(b, c, d) + x + ac), s), b)
  }

  function HH(a: Word, b: Word, c: Word, d: Word, x: Word, s: nat, ac: Word): Word
    requires 0 < s < 32
  {
    Plus(RotateLeft(Plus(a, H(b, c, d) + x + ac), s), b)
  }

  function II(a: Word, b: Word, c: Word, d: Word, x: Word, s: nat, ac: Word): Word
    requires 0 < s < 32
  {
    Plus(RotateLeft(Plus(a, I(b, c, d) + x + ac), s), b)
  }

  lemma {:induction false} StartOfSteps(r: Regs, x: seq<Word>)
    requires |x| == 16
    ensures Steps(0, r, x) == r
  {
  }

  /** One FF statement on the rotated registers is step i of the table-driven loop. */
  lemma {:induction false} TurnFF(i: nat, r: Regs, x: seq<Word>, a: Word, b: Word, c: Word, d: Word,
                                  k: nat, s: nat, ac: Word)
    requires 0 <= i < 16 && |x| == 16 && Steps(i, r, x) == Regs(a, b, c, d)
    requires k == WordIndex(i) && s == Shift(i) && ac == T(i)
    ensures Steps(i + 1, r, x) == Regs(d, FF(a, b, c, d, x[k], s, ac), b, c)
  {
    hide F, G, H, I, RotateLeft, T, Shift, WordIndex;
  }

  /** One GG statement on the rotated registers is step i of the table-driven loop. */
  lemma {:induction false} TurnGG(i: nat, r: Regs, x: seq<Word>, a: Word, b: Word, c: Word, d: Word,
                                  k: nat, s: nat, ac: Word)
    requires 16 <= i < 32 && |x| == 16 && Steps(i, r, x) == Regs(a, b, c, d)
    requires k == WordIndex(i) && s == Shift(i) && ac == T(i)
    ensures Steps(i + 1, r, x) == Regs(d, GG(a, b, c, d, x[k], s, ac), b, c)
  {
    hide F, G, H, I, RotateLeft, T, Shift, WordIndex;
  }

  /** One HH statement on the rotated registers is step i of the table-driven loop. */
  lemma {:induction false} TurnHH(i: nat, r: Regs, x: seq<Word>, a: Word, b: Word, c: Word, d: Word,
                                  k: nat, s: nat, ac: Word)
    requires 32 <= i < 48 && |x| == 16 && Steps(i, r, x) == Regs(a, b, c, d)
    requires k == WordIndex(i) && s == Shift(i) && ac == T(i)
    ensures Steps(i + 1, r, x) == Regs(d, HH(a, b, c, d, x[k], s, ac), b, c)
  {
    hide F, G, H, I, RotateLeft, T, Shift, WordIndex;
  }

  /** One II statement on the rotated registers is step i of the table-driven loop. */
  lemma {:induction false} TurnII(i: nat, r: Regs, x: seq<Word>, a: Word, b: Word, c: Word, d: Word,
                                  k: nat, s: nat, ac: Word)
    requires 48 <= i < 64 && |x| == 16 && Steps(i, r, x) == Regs(a, b, c, d)
    requires k == WordIndex(i) && s == Shift(i) && ac == T(i)
    ensures Steps(i + 1, r, x) == Regs(d, II(a, b, c, d, x[k], s, ac), b, c)
  {
    hide F, G, H, I, RotateLeft, T, Shift, WordIndex;
  }

  /** Round 1: steps 0 to 15, with r the registers the block started from. */
  method Round1(ghost r: Regs, x: array<Word>, a0: Word, b0: Word, c0: Word, d0: Word)
    returns (a: Word, b: Word, c: Word, d: Word)
    requires x.Length == 16 && Regs(a0, b0, c0, d0) == Steps(0, r, x[..])
    ensures Regs(a, b, c, d) == Steps(16, r, x[..])
  {
    hide F, G, H, I, RotateLeft, Steps, Step, Mix, Plus, FF, GG, HH, II;
    a, b, c, d := a0, b0, c0, d0;
    ghost var xs := x[..];
    TurnFF(0, r, xs, a, b, c, d, 0, S11, 0xd76aa478);
    a := FF(a, b, c, d, x[0], S11, 0xd76aa478);
    TurnFF(1, r, xs, d, a, b, c, 1, S12, 0xe8c7b756);
    d := FF(d, a, b, c, x[1], S12, 0xe8c7b756);
    TurnFF(2, r, xs, c, d, a, b, 2, S13, 0x242070db);
    c := FF(c, d, a, b, x[2], S13, 0x242070db);
    TurnFF(3, r, xs, b, c, d, a, 3, S14, 0xc1bdceee);
    b := FF(b, c, d, a, x[3], S14, 0xc1bdceee);
    TurnFF(4, r, xs, a, b, c, d, 4, S11, 0xf57c0faf);
    a := FF(a, b, c, d, x[4], S11, 0xf57c0faf);
    TurnFF(5, r, xs, d, a, b, c, 5, S12, 0x4787c62a);
    d := FF(d, a, b, c, x[5], S12, 0x4787c62a);
    TurnFF(6, r, xs, c, d, a, b, 6, S13, 0xa8304613);
    c := FF(c, d, a, b, x[6], S13, 0xa8304613);
    TurnFF(7, r, xs, b, c, d, a, 7, S14, 0xfd469501);
    b := FF(b, c, d, a, x[7], S14, 0xfd469501);
    TurnFF(8, r, xs, a, b, c, d, 8, S11, 0x698098d8);
    a := FF(a, b, c, d, x[8], S11, 0x698098d8);
    TurnFF(9, r, xs, d, a, b, c, 9, S12, 0x8b44f7af);
    d := FF(d, a, b, c, x[9], S12, 0x8b44f7af);
    TurnFF(10, r, xs, c, d, a, b, 10, S13, 0xffff5bb1);
    c := FF(c, d, a, b, x[10], S13, 0xffff5bb1);
    TurnFF(11, r, xs, b, c, d, a, 11, S14, 0x895cd7be);
    b := FF(b, c, d, a, x[11], S14, 0x895cd7be);
    TurnFF(12, r, xs, a, b, c, d, 12, S11, 0x6b901122);
    a := FF(a, b, c, d, x[12], S11, 0x6b901122);
    TurnFF(13, r, xs, d, a, b, c, 13, S12, 0xfd987193);
    d := FF(d, a, b, c, x[13], S12, 0xfd987193);
    TurnFF(14, r, xs, c, d, a, b, 14, S13, 0xa679438e);
    c := FF(c, d, a, b, x[14], S13, 0xa679438e);
    TurnFF(15, r, xs, b, c, d, a, 15, S14, 0x49b40821);
    b := FF(b, c, d, a, x[15], S14, 0x49b40821);
  }

  /** Round 2: steps 16 to 31, with r the registers the block started from. */
  method Round2(ghost r: Regs, x: array<Word>, a0: Word, b0: Word, c0: Word, d0: Word)
    returns (a: Word, b: Word, c: Word, d: Word)
    requires x.Length == 16 && Regs(a0, b0, c0, d0) == Steps(16, r, x[..])
    ensures Regs(a, b, c, d) == Steps(32, r, x[..])
  {
    hide F, G, H, I, RotateLeft, Steps, Step, Mix, Plus, FF, GG, HH, II;
    a, b, c, d := a0, b0, c0, d0;
    ghost var xs := x[..];
    TurnGG(16, r, xs, a, b, c, d, 1, S21, 0xf61e2562);
    a := GG(a, b, c, d, x[1], S21, 0xf61e2562);
    TurnGG(17, r, xs, d, a, b, c, 6, S22, 0xc040b340);
    d := GG(d, a, b, c, x[6], S22, 0xc040b340);
    TurnGG(18, r, xs, c, d, a, b, 11, S23, 0x265e5a51);
    c := GG(c, d, a, b, x[11], S23, 0x265e5a51);
    TurnGG(19, r, xs, b, c, d, a, 0, S24, 0xe9b6c7aa);
    b := GG(b, c, d, a, x[0], S24, 0xe9b6c7aa);
    TurnGG(20, r, xs, a, b, c, d, 5, S21, 0xd62f105d);
    a := GG(a, b, c, d, x[5], S21, 0xd62f105d);
    TurnGG(21, r, xs, d, a, b, c, 10, S22, 0x2441453);
    d := GG(d, a, b, c, x[10], S22, 0x2441453);
    TurnGG(22, r, xs, c, d, a, b, 15, S23, 0xd8a1e681);
    c := GG(c, d, a, b, x[15], S23, 0xd8a1e681);
    TurnGG(23, r, xs, b, c, d, a, 4, S24, 0xe7d3fbc8);
    b := GG(b, c, d, a, x[4], S24, 0xe7d3fbc8);
    TurnGG(24, r, xs, a, b, c, d, 9, S21, 0x21e1cde6);
    a := GG(a, b, c, d, x[9], S21, 0x21e1cde6);
    TurnGG(25, r, xs, d, a, b, c, 14, S22, 0xc33707d6);
    d := GG(d, a, b, c, x[14], S22, 0xc33707d6);
    TurnGG(26, r, xs, c, d, a, b, 3, S23, 0xf4d50d87);
    c := GG(c, d, a, b, x[3], S23, 0xf4d50d87);
    TurnGG(27, r, xs, b, c, d, a, 8, S24, 0x455a14ed);
    b := GG(b, c, d, a, x[8], S24, 0x455a14ed);
    TurnGG(28, r, xs, a, b, c, d, 13, S21, 0xa9e3e905);
    a := GG(a, b, c, d, x[13], S21, 0xa9e3e905);
    TurnGG(29, r, xs, d, a, b, c, 2, S22, 0xfcefa3f8);
    d := GG(d, a, b, c, x[2], S22, 0xfcefa3f8);
    TurnGG(30, r, xs, c, d, a, b, 7, S23, 0x676f02d9);
    c := GG(c, d, a, b, x[7], S23, 0x676f02d9);
    TurnGG(31, r, xs, b, c, d, a, 12, S24, 0x8d2a4c8a);
    b := GG(b, c, d, a, x[12], S24, 0x8d2a4c8a);
  }

  /** Round 3: steps 32 to 47, with r the registers the block started from. */
  method Round3(ghost r: Regs, x: array<Word>, a0: Word, b0: Word, c0: Word, d0: Word)
    returns (a: Word, b: Word, c: Word, d: Word)
    requires x.Length == 16 && Regs(a0, b0, c0, d0) == Steps(32, r, x[..])
    ensures Regs(a, b, c, d) == Steps(48, r, x[..])
  {
    hide F, G, H, I, RotateLeft, Steps, Step, Mix, Plus, FF, GG, HH, II;
    a, b, c, d := a0, b0, c0, d0;
    ghost var xs := x[..];
    TurnHH(32, r, xs, a, b, c, d, 5, S31, 0xfffa3942);
    a := HH(a, b, c, d, x[5], S31, 0xfffa3942);
    TurnHH(33, r, xs, d, a, b, c, 8, S32, 0x8771f681);
    d := HH(d, a, b, c, x[8], S32, 0x8771f681);
    TurnHH(34, r, xs, c, d, a, b, 11, S33, 0x6d9d6122);
    c := HH(c, d, a, b, x[11], S33, 0x6d9d6122);
    TurnHH(35, r, xs, b, c, d, a, 14, S34, 0xfde5380c);
    b := HH(b, c, d, a, x[14], S34, 0xfde5380c);
    TurnHH(36, r, xs, a, b, c, d, 1, S31, 0xa4beea44);
    a := HH(a, b, c, d, x[1], S31, 0xa4beea44);
    TurnHH(37, r, xs, d, a, b, c, 4, S32, 0x4bdecfa9);
    d := HH(d, a, b, c, x[4], S32, 0x4bdecfa9);
    TurnHH(38, r, xs, c, d, a, b, 7, S33, 0xf6bb4b60);
    c := HH(c, d, a, b, x[7], S33, 0xf6bb4b60);
    TurnHH(39, r, xs, b, c, d, a, 10, S34, 0xbebfbc70);
    b := HH(b, c, d, a, x[10], S34, 0xbebfbc70);
    TurnHH(40, r, xs, a, b, c, d, 13, S31, 0x289b7ec6);
    a := HH(a, b, c, d, x[13], S31, 0x289b7ec6);
    TurnHH(41, r, xs, d, a, b, c, 0, S32, 0xeaa127fa);
    d := HH(d, a, b, c, x[0], S32, 0xeaa127fa);
    TurnHH(42, r, xs, c, d, a, b, 3, S33, 0xd4ef3085);
    c := HH(c, d, a, b, x[3], S33, 0xd4ef3085);
    TurnHH(43, r, xs, b, c, d, a, 6, S34, 0x4881d05);
    b := HH(b, c, d, a, x[6], S34, 0x4881d05);
    TurnHH(44, r, xs, a, b, c, d, 9, S31, 0xd9d4d039);
    a := HH(a, b, c, d, x[9], S31, 0xd9d4d039);
    TurnHH(45, r, xs, d, a, b, c, 12, S32, 0xe6db99e5);
    d := HH(d, a, b, c, x[12], S32, 0xe6db99e5);
    TurnHH(46, r, xs, c, d, a, b, 15, S33, 0x1fa27cf8);
    c := HH(c, d, a, b, x[15], S33, 0x1fa27cf8);
    TurnHH(47, r, xs, b, c, d, a, 2, S34, 0xc4ac5665);
    b := HH(b, c, d, a, x[2], S34, 0xc4ac5665);
  }

  /** Round 4: steps 48 to 63, with r the registers the block started from. */
  method Round4(ghost r: Regs, x: array<Word>, a0: Word, b0: Word, c0: Word, d0: Word)
    returns (a: Word, b: Word, c: Word, d: Word)
    requires x.Length == 16 && Regs(a0, b0, c0, d0) == Steps(48, r, x[..])
    ensures Regs(a, b, c, d) == Steps(64, r, x[..])
  {
    hide F, G, H, I, RotateLeft, Steps, Step, Mix, Plus, FF, GG, HH, II;
    a, b, c, d := a0, b0, c0, d0;
    ghost var xs := x[..];
    TurnII(48, r, xs, a, b, c, d, 0, S41, 0xf4292244);
    a := II(a, b, c, d, x[0], S41, 0xf4292244);
    TurnII(49, r, xs, d, a, b, c, 7, S42, 0x432aff97);
    d := II(d, a, b, c, x[7], S42, 0x432aff97);
    TurnII(50, r, xs, c, d, a, b, 14, S43, 0xab9423a7);
    c := II(c, d, a, b, x[14], S43, 0xab9423a7);
    TurnII(51, r, xs, b, c, d, a, 5, S44, 0xfc93a039);
    b := II(b, c, d, a, x[5], S44, 0xfc93a039);
    TurnII(52, r, xs, a, b, c, d, 12, S41, 0x655b59c3);
    a := II(a, b, c, d, x[12], S41, 0x655b59c3);
    TurnII(53, r, xs, d, a, b, c, 3, S42, 0x8f0ccc92);
    d := II(d, a, b, c, x[3], S42, 0x8f0ccc92);
    TurnII(54, r, xs, c, d, a, b, 10, S43, 0xffeff47d);
    c := II(c, d, a, b, x[10], S43, 0xffeff47d);
    TurnII(55, r, xs, b, c, d, a, 1, S44, 0x85845dd1);
    b := II(b, c, d, a, x[1], S44, 0x85845dd1);
    TurnII(56, r, xs, a, b, c, d, 8, S41, 0x6fa87e4f);
    a := II(a, b, c, d, x[8], S41, 0x6fa87e4f);
    TurnII(57, r, xs, d, a, b, c, 15, S42, 0xfe2ce6e0);
    d := II(d, a, b, c, x[15], S42, 0xfe2ce6e0);
    TurnII(58, r, xs, c, d, a, b, 6, S43, 0xa3014314);
    c := II(c, d, a, b, x[6], S43, 0xa3014314);
    TurnII(59, r, xs, b, c, d, a, 13, S44, 0x4e0811a1);
    b := II(b, c, d, a, x[13], S44, 0x4e0811a1);
    TurnII(60, r, xs, a, b, c, d, 4, S41, 0xf7537e82);
    a := II(a, b, c, d, x[4], S41, 0xf7537e82);
    TurnII(61, r, xs, d, a, b, c, 11, S42, 0xbd3af235);
    d := II(d, a, b, c, x[11], S42, 0xbd3af235);
    TurnII(62, r, xs, c, d, a, b, 2, S43, 0x2ad7d2bb);
    c := II(c, d, a, b, x[2], S43, 0x2ad7d2bb);
    TurnII(63, r, xs, b, c, d, a, 9, S44, 0xeb86d391);
    b := II(b, c, d, a, x[9], S44, 0xeb86d391);
  }

  // ---------- byte and word arrays ----------

  /** Words to bytes, low-order byte first. */
  method Encode(input: seq<Word>, output: array<Byte>, length: nat)
    requires length % 4 == 0 && |input| == length / 4 && length <= output.Length
    modifies output
    ensures output[..] == Overlay(old(output[..]), 0, Bytes(input))
  {
    hide Le;
    var i, j := 0, 0;
    while j < length
      invariant j == 4 * i <= length
      invariant output[..j] == Bytes(input[..i])
      invariant forall k :: j <= k < output.Length ==> output[k] == old(output[k])
    {
      ghost var done := output[..j];
      output[j] := input[i] % 0x100;
      output[j + 1] := input[i] / 0x100 % 0x100;
      output[j + 2] := input[i] / 0x1_0000 % 0x100;
      output[j + 3] := input[i] / 0x100_0000 % 0x100;
      assert output[..j + 4] == done + Le(input[i], 4) by { LeFour(input[i]); }
      assert input[..i + 1][..i] == input[..i];
      i, j := i + 1, j + 4;
    }
    assert input[..i] == input;
  }

  /** The word that decode assembles from four bytes. */
  function Assembled(a: Byte, b: Byte, c: Byte, d: Byte): (w: Word)
    ensures w == WordOf([a, b, c, d])
  {
    FromLeFour(a, b, c, d, []);
    assert [a, b, c, d] + [] == [a, b, c, d];
    var w: int := a + b * 0x100 + c * 0x1_0000 + d * 0x100_0000;
    w
  }

  lemma {:induction false} NoWords(input: seq<Byte>)
    ensures Words(input[..0]) == []
  {
  }

  lemma {:induction false} WordsNext(input: seq<Byte>, j: nat)
    requires j % 4 == 0 && j + 4 <= |input|
    ensures Words(input[..j + 4])
         == Words(input[..j]) + [WordOf([input[j], input[j + 1], input[j + 2], input[j + 3]])]
  {
    hide WordOf;
    var s := input[..j + 4];
    assert s[..|s| - 4] == input[..j];
    assert s[|s| - 4..] == [input[j], input[j + 1], input[j + 2], input[j + 3]];
  }

  /** Bytes to words, low-order byte first. */
  method Decode(input: seq<Byte>, output: array<Word>, length: nat)
    requires length % 4 == 0 && |input| == length && length / 4 <= output.Length
    modifies output
    ensures output[..] == Overlay(old(output[..]), 0, Words(input))
  {
    hide WordOf, Words;
    var i, j := 0, 0;
    NoWords(input);
    while j < length
      invariant j == 4 * i <= length
      invariant output[..i] == Words(input[..j])
      invariant forall k :: i <= k < output.Length ==> output[k] == old(output[k])
    {
      ghost var done := output[..i];
      output[i] := Assembled(input[j], input[j + 1], input[j + 2], input[j + 3]);
      assert output[..i + 1] == done + [output[i]];
      WordsNext(input, j);
      i, j := i + 1, j + 4;
    }
    assert input[..j] == input;
  }

  /** Topping up the carry buffer completes the block that the message's tail began. */
  lemma {:induction false} FillsBlock(m: seq<Byte>, buf: seq<Byte>, input: seq<Byte>)
    requires |buf| == 64 && buf[..|m| % 64] == Tail(m) && |input| >= 64 - |m| % 64
    ensures var r, part := |m| % 64, 64 - |m| % 64;
            && Overlay(buf, r, input[..part]) == buf[..r] + input[..part]
            && |buf[..r] + input[..part]| == 64
            && (|m| + part) % 64 == 0
            && Fold((m + input)[..|m| + part]) == Compress(Fold(WholeBlocks(m)), buf[..r] + input[..part])
  {
    hide Compress, Fold;
    var n := |m| - |m| % 64;
    FoldNext(m + input, n);
    assert (m + input)[..n] == WholeBlocks(m);
    assert (m + input)[n..n + 64] == buf[..|m| % 64] + input[..64 - |m| % 64];
  }

  /** What the last copy of update completes, after the block loop. */
  lemma {:induction false} LongUpdate(m: seq<Byte>, buf: seq<Byte>, input: seq<Byte>, i: nat)
    requires |buf| == 64 && 64 - |m| % 64 <= i <= |input| < i + 64 && (|m| + i) % 64 == 0
    ensures var r := |m| % 64;
            BufferAfter(buf, r, input) == Overlay(buf[..r] + input[..64 - r], 0, input[i..])
    ensures WholeBlocks(m + input) == (m + input)[..|m| + i]
  {
    hide BufferAfter, Overlay, WholeBlocks;
    BufferAfterLong(buf, |m|, input, i);
    WholeBlocksAre(m + input, |m| + i);
  }

  /** What the copy of update completes when the input does not fill the block. */
  lemma {:induction false} ShortUpdate(m: seq<Byte>, buf: seq<Byte>, input: seq<Byte>)
    requires |buf| == 64 && |m| % 64 + |input| < 64
    ensures BufferAfter(buf, |m| % 64, input) == Overlay(buf, |m| % 64, input[0..])
    ensures WholeBlocks(m + input) == WholeBlocks(m)
  {
    hide BufferAfter, Overlay, WholeBlocks;
    var n := |m| - |m| % 64;
    BufferAfterShort(buf, |m| % 64, input);
    assert input[0..] == input && (m + input)[..n] == m[..n];
    WholeBlocksAre(m + input, n);
    WholeBlocksAre(m, n);
  }

  lemma {:induction false} NextBlock(m: seq<Byte>, input: seq<Byte>, i: nat)
    requires (|m| + i) % 64 == 0 && i + 64 <= |input|
    ensures (|m| + i + 64) % 64 == 0
    ensures Fold((m + input)[..|m| + i + 64]) == Compress(Fold((m + input)[..|m| + i]), input[i..i + 64])
  {
    hide Compress, Fold;
    FoldNext(m + input, |m| + i);
    assert (m + input)[|m| + i..|m| + i + 64] == input[i..i + 64];
  }

  class MD5 {
    const state: array<Word>
    const count: array<Word>
    const buffer: array<Byte>
    const digestBytes: array<Byte>
    var finished: bool
    ghost var absorbed: seq<Byte>

    /** The arrays have their sizes and are distinct. */
    ghost predicate Shape()
    {
      state.Length == 4 && count.Length == 2 && buffer.Length == 64 && digestBytes.Length == 16
      && state != count && buffer != digestBytes
    }

    ghost function Registers(): Regs
      requires Shape()
      reads state
    {
      Regs(state[0], state[1], state[2], state[3])
    }

    /** The context stands for the absorbed message, whatever the flag says. */
    ghost predicate Consistent()
      reads this, state, count, buffer
    {
      Shape()
      && Registers() == Fold(WholeBlocks(absorbed))
      && Counter(count[0], count[1]) == 8 * |absorbed| % MODULUS64
      && buffer[..|absorbed| % 64] == Tail(absorbed)
    }

    /** Between calls the flag is down, so digest() never serves an old result. */
    ghost predicate Valid()
      reads this, state, count, buffer
    {
      Consistent() && !finished
    }

    constructor ()
      ensures Valid() && fresh(state) && fresh(count) && fresh(buffer) && fresh(digestBytes)
      ensures absorbed == []
    {
      state := new Word[4];
      count := new Word[2];
      buffer := new Byte[64];
      digestBytes := new Byte[16];
      new;
      Reset();
    }

    constructor FromBytes(input: seq<Byte>)
      requires LengthInRange(0, |input|)
      ensures Valid() && fresh(state) && fresh(count) && fresh(buffer) && fresh(digestBytes)
      ensures absorbed == input
    {
      state := new Word[4];
      count := new Word[2];
      buffer := new Byte[64];
      digestBytes := new Byte[16];
      new;
      Reset();
      Update(input);
      assert [] + input == input;
    }

    method Reset()
      requires Shape()
      modifies this, state, count
      ensures Valid()
      ensures absorbed == []
    {
      finished := false;
      count[0], count[1] := 0, 0;
      state[0], state[1], state[2], state[3] := 0x67452301, 0xefcdab89, 0x98badcfe, 0x10325476;
      absorbed := [];
    }

    /** One block through the four unrolled rounds. */
    method Transform(block: seq<Byte>)
      requires Shape() && |block| == 64
      modifies state
      ensures Registers() == Compress(old(Registers()), block)
    {
      hide Steps;
      ghost var r := Registers();
      var a, b, c, d := state[0], state[1], state[2], state[3];
      var x := new Word[16];
      Decode(block, x, 64);
      assert x[..] == Words(block);
      assert Steps(0, r, x[..]) == r by { StartOfSteps(r, x[..]); }
      a, b, c, d := Round1(r, x, a, b, c, d);
      a, b, c, d := Round2(r, x, a, b, c, d);
      a, b, c, d := Round3(r, x, a, b, c, d);
      a, b, c, d := Round4(r, x, a, b, c, d);
      state[0] := Plus(state[0], a);
      state[1] := Plus(state[1], b);
      state[2] := Plus(state[2], c);
      state[3] := Plus(state[3], d);
    }

    /** Absorbs input; block by block once the carry buffer is full. */
    method Update(input: seq<Byte>)
      requires Consistent()
      requires LengthInRange(|absorbed| % 64, |input|)
      modifies this, state, count, buffer
      ensures Valid()
      ensures absorbed == old(absorbed) + input
      ensures buffer[..] == BufferAfter(old(buffer[..]), |old(absorbed)| % 64, input)
    {
      hide Compress, Fold, Counter, LengthInRange, BufferAfter, Overlay, Tail, WholeBlocks;
      ghost var m, before := absorbed, buffer[..];
      LengthFits(|m| % 64, |input|);
      CounterIndex(count[0], count[1], |m|);
      BufferHoldsTail(m, before, input);

      finished := false;
      var index := count[0] / 8 % 64;
      CountBits(|input|, |m|);
      var partLen := 64 - index;
      var i := 0;
      if |input| >= partLen {
        Copy(buffer, index, input[..partLen]);
        FillsBlock(m, before, input);
        Transform(buffer[..]);
        i := TransformBlocks(m, input, partLen);
        LongUpdate(m, before, input, i);
        index := 0;
      } else {
        ShortUpdate(m, before, input);
      }
      Copy(buffer, index, input[i..]);
      absorbed := m + input;
    }

    /** The block loop of update: transforms whole blocks of input from i on. */
    method TransformBlocks(ghost m: seq<Byte>, input: seq<Byte>, start: nat) returns (i: nat)
      requires Shape()
      requires LengthInRange(|m| % 64, |input|)
      requires 64 - |m| % 64 <= start <= |input| && FoldedTo(Registers(), m + input, |m| + start)
      modifies state
      ensures start <= i <= |input| < i + 64 && FoldedTo(Registers(), m + input, |m| + i)
    {
      hide Compress, Fold, LengthInRange;
      i := start;
      VisitInRange(|m|, |input|, i);
      while (i + 63) % MODULUS < |input|
        invariant start <= i <= |input| && FoldedTo(Registers(), m + input, |m| + i)
        invariant (i + 63) % MODULUS == i + 63
        decreases |input| - i
      {
        NextBlock(m, input, i);
        Transform(input[i..i + 64]);
        VisitInRange(|m|, |input|, i);
        i := (i + 64) % MODULUS;
        VisitInRange(|m|, |input|, i);
      }
    }

    /** Adds length bytes to the two-word bit counter: it keeps counting bits modulo 2^64. */
    method CountBits(length: nat, ghost total: nat)
      requires Shape() && length < MODULUS
      requires Counter(count[0], count[1]) == 8 * total % MODULUS64
      modifies count
      ensures Counter(count[0], count[1]) == 8 * (total + length) % MODULUS64
    {
      CounterExact(count[0], count[1], total, length);
      var bits := length % MODULUS * 8 % MODULUS;
      count[0] := (count[0] + bits) % MODULUS;
      if count[0] < bits {
        count[1] := (count[1] + 1) % MODULUS;
      }
      count[1] := (count[1] + length % MODULUS / 0x2000_0000) % MODULUS;
    }

    /**
      Pads through update, reads off the digest, then puts state and count back. The carry buffer
      is not put back: what that leaves the context standing for is AfterDigest.
    */
    method Final()
      requires Consistent()
      modifies this, state, count, buffer, digestBytes
      ensures Valid()
      ensures digestBytes[..] == MessageDigest(old(absorbed))
      ensures absorbed == AfterDigest(old(absorbed))
      ensures state[..] == old(state[..]) && count[..] == old(count[..])
      ensures buffer[..] == BufferAfterFinal(old(buffer[..]), |old(absorbed)|)
    {
      hide Compress, Fold, Counter, BitLength, BufferAfter, Padded, WholeBlocks, Tail, AfterDigest, LengthInRange;
      hide Le, Overlay, Bytes;
      ghost var m, before := absorbed, buffer[..];
      var bits := new Byte[8];
      var oldState, oldCount := state[..], count[..];
      assert oldCount == [count[0], count[1]];
      OverlayAll(bits[..], Bytes(oldCount));
      Encode(oldCount, bits, 8);
      CounterEncodes(count[0], count[1], |m|);
      assert bits[..] == BitLength(|m|);

      CounterIndex(count[0], count[1], |m|);
      var index := count[0] / 8 % 64;
      var padLen := if index < 56 then 56 - index else 120 - index;
      SafeLength(index, padLen);
      PaddedFill(m);
      Update(PADDING[..padLen]);
      SafeLength(56, 8);
      Update(bits[..]);
      PaddingIsRfc(m);
      assert absorbed == Padded(m);

      assert state[..] == [state[0], state[1], state[2], state[3]];
      OverlayAll(digestBytes[..], Bytes(state[..]));
      Encode(state[..], digestBytes, 16);
      assert digestBytes[..] == MessageDigest(m);

      OverlayAll(state[..], oldState);
      OverlayAll(count[..], oldCount);
      Copy(state, 0, oldState);
      Copy(count, 0, oldCount);
      BufferAfterFinalHoldsTail(m, before);
      absorbed := AfterDigest(m);
    }

    /** The digest of everything absorbed, computed anew on every call. */
    method Digest() returns (d: seq<Byte>)
      requires Valid()
      modifies this, state, count, buffer, digestBytes
      ensures Valid()
      ensures d == MessageDigest(old(absorbed)) && d == digestBytes[..]
      ensures absorbed == AfterDigest(old(absorbed))
      ensures state[..] == old(state[..]) && count[..] == old(count[..])
      ensures |old(absorbed)| % 64 < 56 ==> buffer[..|absorbed| % 64] == old(buffer[..|absorbed| % 64])
    {
      if !finished {
        finished := true;
        Final();
      }
      d := digestBytes[..];
    }

    method ToString() returns (s: string)
      requires Valid()
      modifies this, state, count, buffer, digestBytes
      ensures Valid()
      ensures s == HexText(MessageDigest(old(absorbed))) && |s| == 32
      ensures absorbed == AfterDigest(old(absorbed))
    {
      var d := Digest();
      s := BytesToHexString(d);
    }
  }
}
