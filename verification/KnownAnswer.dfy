/**
  A message of the test suite in section A.5 of RFC 1321 that mac/chatkit/cim/crypt/test.cpp hashes
  too: the letters a to z. Its digest is worked out here step by step, so no definition of Rfc1321
  or Hex (auxiliary functions, rotation, tables, initial registers, padding, length field, byte
  order, digits) can change without changing a number below.
*/
module KnownAnswer {
  import opened ByteOrder
  import opened Rfc1321
  import opened Streaming
  import opened Hex
  import opened Md5

  function Alphabet(): (m: seq<Byte>)
    ensures |m| == 26
  {
    seq(26, i requires 0 <= i < 26 => 'a' as int + i)
  }

  // ---------- the padded message ----------

  lemma {:induction false} PaddedAlphabet(p: seq<Byte>)
    requires p == Padded(Alphabet())
    ensures |p| == 64 && (forall i :: 0 <= i < 26 ==> p[i] == 97 + i) && p[26] == 0x80
    ensures (forall i :: 27 <= i < 56 ==> p[i] == 0) && p[56] == 208 && forall i :: 57 <= i < 64 ==> p[i] == 0
  {
    hide Le;
    LeEight(208);
    LeFour(208);
    LeFour(208 / 0x1_0000_0000);
    assert PadZeros(26) == 29;
  }

  function Little(a: int, b: int, c: int, d: int): int { a + 0x100 * b + 0x1_0000 * c + 0x100_0000 * d }

  lemma {:induction false} WordOfFour(a: Byte, b: Byte, c: Byte, d: Byte)
    ensures WordOf([a, b, c, d]) == Little(a, b, c, d)
  {
    FromLeFour(a, b, c, d, []);
    assert [a, b, c, d] + [] == [a, b, c, d] && FromLe([]) == 0;
  }

  /** Word k of a block is made of its bytes 4k to 4k + 3, low-order byte first. */
  lemma {:induction false} WordAt(b: seq<Byte>, k: nat)
    requires |b| % 4 == 0 && 4 * k + 4 <= |b|
    ensures Words(b)[k] == Little(b[4 * k], b[4 * k + 1], b[4 * k + 2], b[4 * k + 3])
  {
    hide WordOf, Little;
    var front, last := b[..|b| - 4], b[|b| - 4..];
    if 4 * k + 4 == |b| {
      assert last == [b[4 * k], b[4 * k + 1], b[4 * k + 2], b[4 * k + 3]];
      WordOfFour(b[4 * k], b[4 * k + 1], b[4 * k + 2], b[4 * k + 3]);
    } else {
      WordAt(front, k);
      assert Words(b)[k] == Words(front)[k];
    }
  }

  /** The sixteen message words. */
  predicate AlphabetWords(x: seq<Word>) {
    |x| == 16
    && x[0] == 0x64636261 && x[1] == 0x68676665 && x[2] == 0x6c6b6a69 && x[3] == 0x706f6e6d
    && x[4] == 0x74737271 && x[5] == 0x78777675 && x[6] == 0x807a79 && x[7] == 0x0
    && x[8] == 0x0 && x[9] == 0x0 && x[10] == 0x0 && x[11] == 0x0
    && x[12] == 0x0 && x[13] == 0x0 && x[14] == 0xd0 && x[15] == 0x0
  }

  /** Six words of letters, the last two letters with the 1 bit, zeros, and the bit length. */
  lemma {:induction false} AlphabetWord(p: seq<Byte>, k: nat)
    requires p == Padded(Alphabet()) && k < 16
    ensures Words(p)[k] == if k < 6 then 0x64636261 + 0x04040404 * k
                           else if k == 6 then 0x807a79 else if k == 14 then 208 else 0
  {
    hide Words, Padded, Alphabet;
    PaddedAlphabet(p);
    WordAt(p, k);
  }

  lemma {:induction false} WordsOfAlphabet()
    ensures AlphabetWords(Words(Padded(Alphabet())))
  {
    hide Words, Padded, Alphabet;
    var p := Padded(Alphabet());
    assert |p| == 64 by { PaddedAlphabet(p); }
    forall k: nat | k < 16
      ensures Words(p)[k] == if k < 6 then 0x64636261 + 0x04040404 * k
                             else if k == 6 then 0x807a79 else if k == 14 then 208 else 0
    {
      AlphabetWord(p, k);
    }
  }

  // ---------- the compression ----------

  /** One step, from the values of its parts. */
  lemma {:induction false} Turn(i: nat, x: seq<Word>, w: Word, mixed: Word, sum: Word, turned: Word, s: Regs)
    requires i < 64 && |x| == 16 && x[WordIndex(i)] == w
    requires var r := Steps(i, INITIAL, x);
             && Mix(i, r) == mixed && Plus(r.a, mixed + w + T(i)) == sum && RotateLeft(sum, Shift(i)) == turned
             && s == Regs(r.d, Plus(turned, r.b), r.b, r.c)
    ensures Steps(i + 1, INITIAL, x) == s
  {
    hide F, G, H, I, RotateLeft, T, Shift, WordIndex, Mix;
  }

  lemma {:induction false} Mixes1()
    ensures F(0xefcdab89, 0x98badcfe, 0x10325476) == 0x98badcfe
    ensures F(0xd6d117a6, 0xefcdab89, 0x98badcfe) == 0xceebcbd8
    ensures F(0xaab1aaaa, 0xd6d117a6, 0xefcdab89) == 0xc7dd03a3
    ensures F(0x227d8cf1, 0xaab1aaaa, 0xd6d117a6) == 0xf6b19ba6
    ensures F(0x4503b812, 0x227d8cf1, 0xaab1aaaa) == 0xaab18ab8
    ensures F(0xfe15f787, 0x4503b812, 0x227d8cf1) == 0x4469b872
    ensures F(0xa811b278, 0xfe15f787, 0x4503b812) == 0xed13ba02
    ensures F(0xb71122fc, 0xa811b278, 0xfe15f787) == 0xe815f77b
    ensures F(0xda9bbb0d, 0xb71122fc, 0xa811b278) == 0xb211227c
    ensures F(0xae752899, 0xda9bbb0d, 0xb71122fc) == 0x9b112a6d
    ensures F(0x2bbe757f, 0xae752899, 0xda9bbb0d) == 0xfa35aa19
    ensures F(0x7d4bd80b, 0x2bbe757f, 0xae752899) == 0xab3e709b
    ensures F(0x56cfa5cb, 0x7d4bd80b, 0x2bbe757f) == 0x7d7bd03f
    ensures F(0x1754a316, 0x56cfa5cb, 0x7d4bd80b) == 0x7e4ff90b
    ensures F(0x85567d90, 0x1754a316, 0x56cfa5cb) == 0x57dda15b
    ensures F(0x00df74d5, 0x85567d90, 0x1754a316) == 0x1756f792
  {
  }

  lemma {:induction false} Rotations1()
    ensures RotateLeft(0x3bce06d8, 7) == 0xe7036c1d
    ensures RotateLeft(0x304d3e09, 12) == 0xd3e09304
    ensures RotateLeft(0xf123bbe5, 17) == 0x77cbe247
    ensures RotateLeft(0x18ac848a, 22) == 0x22862b21
    ensures RotateLeft(0xeb72247e, 7) == 0xb9123f75
    ensures RotateLeft(0xaf1a9fbb, 12) == 0xa9fbbaf1
    ensures RotateLeft(0xb842077f, 17) == 0x0eff7084
    ensures RotateLeft(0x2a60448e, 22) == 0x238a9811
    ensures RotateLeft(0x19a7b2db, 7) == 0xd3d96d8c
    ensures RotateLeft(0xce67d494, 12) == 0x7d494ce6
    ensures RotateLeft(0xb14628c6, 17) == 0x518d628c
    ensures RotateLeft(0x0f370366, 22) == 0xd983cdc0
    ensures RotateLeft(0x978109fa, 7) == 0xc084fd4b
    ensures RotateLeft(0xa7a6e01d, 12) == 0x6e01da7a
    ensures RotateLeft(0x7ba2bdc4, 17) == 0x7b88f745
    ensures RotateLeft(0xb7daa57e, 22) == 0x5fadf6a9
  {
  }

  lemma {:induction false} Trace8(x: seq<Word>)
    requires AlphabetWords(x) && Steps(0, INITIAL, x) == Regs(0x67452301, 0xefcdab89, 0x98badcfe, 0x10325476)
    ensures Steps(8, INITIAL, x) == Regs(0xfe15f787, 0xda9bbb0d, 0xb71122fc, 0xa811b278)
  {
    hide Steps, F, G, H, I, RotateLeft;
    Mixes1();
    Rotations1();
    Turn(0, x, 0x64636261, 0x98badcfe, 0x3bce06d8, 0xe7036c1d, Regs(0x10325476, 0xd6d117a6, 0xefcdab89, 0x98badcfe));
    Turn(1, x, 0x68676665, 0xceebcbd8, 0x304d3e09, 0xd3e09304, Regs(0x98badcfe, 0xaab1aaaa, 0xd6d117a6, 0xefcdab89));
    Turn(2, x, 0x6c6b6a69, 0xc7dd03a3, 0xf123bbe5, 0x77cbe247, Regs(0xefcdab89, 0x227d8cf1, 0xaab1aaaa, 0xd6d117a6));
    Turn(3, x, 0x706f6e6d, 0xf6b19ba6, 0x18ac848a, 0x22862b21, Regs(0xd6d117a6, 0x4503b812, 0x227d8cf1, 0xaab1aaaa));
    Turn(4, x, 0x74737271, 0xaab18ab8, 0xeb72247e, 0xb9123f75, Regs(0xaab1aaaa, 0xfe15f787, 0x4503b812, 0x227d8cf1));
    Turn(5, x, 0x78777675, 0x4469b872, 0xaf1a9fbb, 0xa9fbbaf1, Regs(0x227d8cf1, 0xa811b278, 0xfe15f787, 0x4503b812));
    Turn(6, x, 0x807a79, 0xed13ba02, 0xb842077f, 0x0eff7084, Regs(0x4503b812, 0xb71122fc, 0xa811b278, 0xfe15f787));
    Turn(7, x, 0x0, 0xe815f77b, 0x2a60448e, 0x238a9811, Regs(0xfe15f787, 0xda9bbb0d, 0xb71122fc, 0xa811b278));
  }

  lemma {:induction false} Trace16(x: seq<Word>)
    requires AlphabetWords(x) && Steps(8, INITIAL, x) == Regs(0xfe15f787, 0xda9bbb0d, 0xb71122fc, 0xa811b278)
    ensures Steps(16, INITIAL, x) == Regs(0x1754a316, 0x608d6b7e, 0x00df74d5, 0x85567d90)
  {
    hide Steps, F, G, H, I, RotateLeft;
    Mixes1();
    Rotations1();
    Turn(8, x, 0x0, 0xb211227c, 0x19a7b2db, 0xd3d96d8c, Regs(0xa811b278, 0xae752899, 0xda9bbb0d, 0xb71122fc));
    Turn(9, x, 0x0, 0x9b112a6d, 0xce67d494, 0x7d494ce6, Regs(0xb71122fc, 0x2bbe757f, 0xae752899, 0xda9bbb0d));
    Turn(10, x, 0x0, 0xfa35aa19, 0xb14628c6, 0x518d628c, Regs(0xda9bbb0d, 0x7d4bd80b, 0x2bbe757f, 0xae752899));
    Turn(11, x, 0x0, 0xab3e709b, 0x0f370366, 0xd983cdc0, Regs(0xae752899, 0x56cfa5cb, 0x7d4bd80b, 0x2bbe757f));
    Turn(12, x, 0x0, 0x7d7bd03f, 0x978109fa, 0xc084fd4b, Regs(0x2bbe757f, 0x1754a316, 0x56cfa5cb, 0x7d4bd80b));
    Turn(13, x, 0x0, 0x7e4ff90b, 0xa7a6e01d, 0x6e01da7a, Regs(0x7d4bd80b, 0x85567d90, 0x1754a316, 0x56cfa5cb));
    Turn(14, x, 0xd0, 0x57dda15b, 0x7ba2bdc4, 0x7b88f745, Regs(0x56cfa5cb, 0x00df74d5, 0x85567d90, 0x1754a316));
    Turn(15, x, 0x0, 0x1756f792, 0xb7daa57e, 0x5fadf6a9, Regs(0x1754a316, 0x608d6b7e, 0x00df74d5, 0x85567d90));
  }

  lemma {:induction false} Mixes2()
    ensures G(0x608d6b7e, 0x00df74d5, 0x85567d90) == 0x008d6955
    ensures G(0x2d8071cc, 0x608d6b7e, 0x00df74d5) == 0x60807bee
    ensures G(0x5dcee119, 0x2d8071cc, 0x608d6b7e) == 0x4d8c7198
    ensures G(0xedfe7e4b, 0x5dcee119, 0x2d8071cc) == 0x7dcef059
    ensures G(0x4c2145b3, 0xedfe7e4b, 0x5dcee119) == 0xec305f53
    ensures G(0x570c43e0, 0x4c2145b3, 0xedfe7e4b) == 0x450d43f0
    ensures G(0x977efd2a, 0x570c43e0, 0x4c2145b3) == 0x172c4762
    ensures G(0xc28ab49d, 0x977efd2a, 0x570c43e0) == 0xc27abc8a
    ensures G(0xc9f162d4, 0xc28ab49d, 0x977efd2a) == 0xc1f06095
    ensures G(0x25bfae3b, 0xc9f162d4, 0xc28ab49d) == 0x09fbe659
    ensures G(0x89980104, 0x25bfae3b, 0xc9f162d4) == 0xad9e8c2f
    ensures G(0xf8c8365f, 0x89980104, 0x25bfae3b) == 0xa888271f
    ensures G(0xe6d3b398, 0xf8c8365f, 0x89980104) == 0xf0d0375b
    ensures G(0xf54d8710, 0xe6d3b398, 0xf8c8365f) == 0xf65b8790
    ensures G(0x927b72e2, 0xf54d8710, 0xe6d3b398) == 0x935f3680
    ensures G(0x2e69afc7, 0x927b72e2, 0xf54d8710) == 0x267bf7e2
  {
  }

  lemma {:induction false} Rotations2()
    ensures RotateLeft(0x76679832, 5) == 0xccf3064e
    ensures RotateLeft(0xa6982737, 9) == 0x304e6f4d
    ensures RotateLeft(0x74ca40be, 14) == 0x902f9d32
    ensures RotateLeft(0x2c7685e2, 20) == 0x5e22c768
    ensures RotateLeft(0x685757f1, 5) == 0x0aeafe2d
    ensures RotateLeft(0xa520395c, 9) == 0x4072b94a
    ensures RotateLeft(0xddccac2e, 14) == 0x2b0bb773
    ensures RotateLeft(0x6ae37076, 20) == 0x0766ae37
    ensures RotateLeft(0x3ade725b, 5) == 0x5bce4b67
    ensures RotateLeft(0x64b1ec29, 9) == 0x63d852c9
    ensures RotateLeft(0xd56dbcc0, 14) == 0x6f30355b
    ensures RotateLeft(0xb7d39ee0, 20) == 0xee0b7d39
    ensures RotateLeft(0xc073ce9b, 5) == 0x0e79d378
    ensures RotateLeft(0xe94e96f5, 9) == 0x9d2debd2
    ensures RotateLeft(0xf3966fb8, 14) == 0x9bee3ce5
    ensures RotateLeft(0x9a79f804, 20) == 0x8049a79f
  {
  }

  lemma {:induction false} Trace24(x: seq<Word>)
    requires AlphabetWords(x) && Steps(16, INITIAL, x) == Regs(0x1754a316, 0x608d6b7e, 0x00df74d5, 0x85567d90)
    ensures Steps(24, INITIAL, x) == Regs(0x570c43e0, 0xc9f162d4, 0xc28ab49d, 0x977efd2a)
  {
    hide Steps, F, G, H, I, RotateLeft;
    Mixes2();
    Rotations2();
    Turn(16, x, 0x68676665, 0x008d6955, 0x76679832, 0xccf3064e, Regs(0x85567d90, 0x2d8071cc, 0x608d6b7e, 0x00df74d5));
    Turn(17, x, 0x807a79, 0x60807bee, 0xa6982737, 0x304e6f4d, Regs(0x00df74d5, 0x5dcee119, 0x2d8071cc, 0x608d6b7e));
    Turn(18, x, 0x0, 0x4d8c7198, 0x74ca40be, 0x902f9d32, Regs(0x608d6b7e, 0xedfe7e4b, 0x5dcee119, 0x2d8071cc));
    Turn(19, x, 0x64636261, 0x7dcef059, 0x2c7685e2, 0x5e22c768, Regs(0x2d8071cc, 0x4c2145b3, 0xedfe7e4b, 0x5dcee119));
    Turn(20, x, 0x78777675, 0xec305f53, 0x685757f1, 0x0aeafe2d, Regs(0x5dcee119, 0x570c43e0, 0x4c2145b3, 0xedfe7e4b));
    Turn(21, x, 0x0, 0x450d43f0, 0xa520395c, 0x4072b94a, Regs(0xedfe7e4b, 0x977efd2a, 0x570c43e0, 0x4c2145b3));
    Turn(22, x, 0x0, 0x172c4762, 0xddccac2e, 0x2b0bb773, Regs(0x4c2145b3, 0xc28ab49d, 0x977efd2a, 0x570c43e0));
    Turn(23, x, 0x74737271, 0xc27abc8a, 0x6ae37076, 0x0766ae37, Regs(0x570c43e0, 0xc9f162d4, 0xc28ab49d, 0x977efd2a));
  }

  lemma {:induction false} Trace32(x: seq<Word>)
    requires AlphabetWords(x) && Steps(24, INITIAL, x) == Regs(0x570c43e0, 0xc9f162d4, 0xc28ab49d, 0x977efd2a)
    ensures Steps(32, INITIAL, x) == Regs(0xf54d8710, 0xaeb35766, 0x2e69afc7, 0x927b72e2)
  {
    hide Steps, F, G, H, I, RotateLeft;
    Mixes2();
    Rotations2();
    Turn(24, x, 0x0, 0xc1f06095, 0x3ade725b, 0x5bce4b67, Regs(0x977efd2a, 0x25bfae3b, 0xc9f162d4, 0xc28ab49d));
    Turn(25, x, 0xd0, 0x09fbe659, 0x64b1ec29, 0x63d852c9, Regs(0xc28ab49d, 0x89980104, 0x25bfae3b, 0xc9f162d4));
    Turn(26, x, 0x706f6e6d, 0xad9e8c2f, 0xd56dbcc0, 0x6f30355b, Regs(0xc9f162d4, 0xf8c8365f, 0x89980104, 0x25bfae3b));
    Turn(27, x, 0x0, 0xa888271f, 0xb7d39ee0, 0xee0b7d39, Regs(0x25bfae3b, 0xe6d3b398, 0xf8c8365f, 0x89980104));
    Turn(28, x, 0x0, 0xf0d0375b, 0xc073ce9b, 0x0e79d378, Regs(0x89980104, 0xf54d8710, 0xe6d3b398, 0xf8c8365f));
    Turn(29, x, 0x6c6b6a69, 0xf65b8790, 0xe94e96f5, 0x9d2debd2, Regs(0xf8c8365f, 0x927b72e2, 0xf54d8710, 0xe6d3b398));
    Turn(30, x, 0x0, 0x935f3680, 0xf3966fb8, 0x9bee3ce5, Regs(0xe6d3b398, 0x2e69afc7, 0x927b72e2, 0xf54d8710));
    Turn(31, x, 0x0, 0x267bf7e2, 0x9a79f804, 0x8049a79f, Regs(0xf54d8710, 0xaeb35766, 0x2e69afc7, 0x927b72e2));
  }

  lemma {:induction false} Mixes3()
    ensures H(0xaeb35766, 0x2e69afc7, 0x927b72e2) == 0x12a18a43
    ensures H(0xb4bf680e, 0xaeb35766, 0x2e69afc7) == 0x346590af
    ensures H(0x4c8ffa80, 0xb4bf680e, 0xaeb35766) == 0x5683c5e8
    ensures H(0x2361ed0a, 0x4c8ffa80, 0xb4bf680e) == 0xdb517f84
    ensures H(0x06a5e211, 0x2361ed0a, 0x4c8ffa80) == 0x694bf59b
    ensures H(0xb9c0c733, 0x06a5e211, 0x2361ed0a) == 0x9c04c828
    ensures H(0xf1e6dc7a, 0xb9c0c733, 0x06a5e211) == 0x4e83f958
    ensures H(0x23a9451b, 0xf1e6dc7a, 0xb9c0c733) == 0x6b8f5e52
    ensures H(0x8d41bf99, 0x23a9451b, 0xf1e6dc7a) == 0x5f0e26f8
    ensures H(0xa3e88ead, 0x8d41bf99, 0x23a9451b) == 0x0d00742f
    ensures H(0x02c0b11c, 0xa3e88ead, 0x8d41bf99) == 0x2c698028
    ensures H(0x66f6468d, 0x02c0b11c, 0xa3e88ead) == 0xc7de793c
    ensures H(0x90a35af5, 0x66f6468d, 0x02c0b11c) == 0xf495ad64
    ensures H(0xb5d41f9c, 0x90a35af5, 0x66f6468d) == 0x438103e4
    ensures H(0xa04b4904, 0xb5d41f9c, 0x90a35af5) == 0x853c0c6d
    ensures H(0x703d54d8, 0xa04b4904, 0xb5d41f9c) == 0x65a20240
  {
  }

  lemma {:induction false} Rotations3()
    ensures RotateLeft(0x8060c10a, 4) == 0x060c10a8
    ensures RotateLeft(0x4e52fa12, 11) == 0x97d09272
    ensures RotateLeft(0xf28ad6d1, 16) == 0xd6d1f28a
    ensures RotateLeft(0x87ea0fc6, 23) == 0xe343f507
    ensures RotateLeft(0x2b31ae52, 4) == 0xb31ae522
    ensures RotateLeft(0xa8e704c2, 11) == 0x38261547
    ensures RotateLeft(0x68a131c2, 16) == 0x31c268a1
    ensures RotateLeft(0x30f4fcd3, 23) == 0x69987a7e
    ensures RotateLeft(0x416a6cf1, 4) == 0x16a6cf14
    ensures RotateLeft(0x4debdb04, 11) == 0x5ed8226f
    ensures RotateLeft(0x95716435, 16) == 0x64359571
    ensures RotateLeft(0x5a28d053, 23) == 0x29ad1468
    ensures RotateLeft(0x72530c4a, 4) == 0x2530c4a7
    ensures RotateLeft(0x2d1d4ee5, 11) == 0xea772968
    ensures RotateLeft(0x0bd4cff2, 16) == 0xcff20bd4
    ensures RotateLeft(0x275d1e03, 23) == 0x0193ae8f
  {
  }

  lemma {:induction false} Trace40(x: seq<Word>)
    requires AlphabetWords(x) && Steps(32, INITIAL, x) == Regs(0xf54d8710, 0xaeb35766, 0x2e69afc7, 0x927b72e2)
    ensures Steps(40, INITIAL, x) == Regs(0xb9c0c733, 0x8d41bf99, 0x23a9451b, 0xf1e6dc7a)
  {
    hide Steps, F, G, H, I, RotateLeft;
    Mixes3();
    Rotations3();
    Turn(32, x, 0x78777675, 0x12a18a43, 0x8060c10a, 0x060c10a8, Regs(0x927b72e2, 0xb4bf680e, 0xaeb35766, 0x2e69afc7));
    Turn(33, x, 0x0, 0x346590af, 0x4e52fa12, 0x97d09272, Regs(0x2e69afc7, 0x4c8ffa80, 0xb4bf680e, 0xaeb35766));
    Turn(34, x, 0x0, 0x5683c5e8, 0xf28ad6d1, 0xd6d1f28a, Regs(0xaeb35766, 0x2361ed0a, 0x4c8ffa80, 0xb4bf680e));
    Turn(35, x, 0xd0, 0xdb517f84, 0x87ea0fc6, 0xe343f507, Regs(0xb4bf680e, 0x06a5e211, 0x2361ed0a, 0x4c8ffa80));
    Turn(36, x, 0x68676665, 0x694bf59b, 0x2b31ae52, 0xb31ae522, Regs(0x4c8ffa80, 0xb9c0c733, 0x06a5e211, 0x2361ed0a));
    Turn(37, x, 0x74737271, 0x9c04c828, 0xa8e704c2, 0x38261547, Regs(0x2361ed0a, 0xf1e6dc7a, 0xb9c0c733, 0x06a5e211));
    Turn(38, x, 0x0, 0x4e83f958, 0x68a131c2, 0x31c268a1, Regs(0x06a5e211, 0x23a9451b, 0xf1e6dc7a, 0xb9c0c733));
    Turn(39, x, 0x0, 0x6b8f5e52, 0x30f4fcd3, 0x69987a7e, Regs(0xb9c0c733, 0x8d41bf99, 0x23a9451b, 0xf1e6dc7a));
  }

  lemma {:induction false} Trace48(x: seq<Word>)
    requires AlphabetWords(x) && Steps(40, INITIAL, x) == Regs(0xb9c0c733, 0x8d41bf99, 0x23a9451b, 0xf1e6dc7a)
    ensures Steps(48, INITIAL, x) == Regs(0xb5d41f9c, 0x71d10367, 0x703d54d8, 0xa04b4904)
  {
    hide Steps, F, G, H, I, RotateLeft;
    Mixes3();
    Rotations3();
    Turn(40, x, 0x0, 0x5f0e26f8, 0x416a6cf1, 0x16a6cf14, Regs(0xf1e6dc7a, 0xa3e88ead, 0x8d41bf99, 0x23a9451b));
    Turn(41, x, 0x64636261, 0x0d00742f, 0x4debdb04, 0x5ed8226f, Regs(0x23a9451b, 0x02c0b11c, 0xa3e88ead, 0x8d41bf99));
    Turn(42, x, 0x706f6e6d, 0x2c698028, 0x95716435, 0x64359571, Regs(0x8d41bf99, 0x66f6468d, 0x02c0b11c, 0xa3e88ead));
    Turn(43, x, 0x807a79, 0xc7de793c, 0x5a28d053, 0x29ad1468, Regs(0xa3e88ead, 0x90a35af5, 0x66f6468d, 0x02c0b11c));
    Turn(44, x, 0x0, 0xf495ad64, 0x72530c4a, 0x2530c4a7, Regs(0x02c0b11c, 0xb5d41f9c, 0x90a35af5, 0x66f6468d));
    Turn(45, x, 0x0, 0x438103e4, 0x2d1d4ee5, 0xea772968, Regs(0x66f6468d, 0xa04b4904, 0xb5d41f9c, 0x90a35af5));
    Turn(46, x, 0x0, 0x853c0c6d, 0x0bd4cff2, 0xcff20bd4, Regs(0x90a35af5, 0x703d54d8, 0xa04b4904, 0xb5d41f9c));
    Turn(47, x, 0x6c6b6a69, 0x65a20240, 0x275d1e03, 0x0193ae8f, Regs(0xb5d41f9c, 0x71d10367, 0x703d54d8, 0xa04b4904));
  }

  lemma {:induction false} Mixes4()
    ensures I(0x71d10367, 0x703d54d8, 0xa04b4904) == 0x0fc8e327
    ensures I(0xfc32dd6e, 0x71d10367, 0x703d54d8) == 0x8e23fc08
    ensures I(0x65456b34, 0xfc32dd6e, 0x71d10367) == 0x135d22d2
    ensures I(0xb35602cb, 0x65456b34, 0xfc32dd6e) == 0xd69a49ef
    ensures I(0x33edb197, 0xb35602cb, 0x65456b34) == 0x08a9b714
    ensures I(0xc1e942f1, 0x33edb197, 0xb35602cb) == 0xfe044e62
    ensures I(0xd9bb987c, 0xc1e942f1, 0x33edb197) == 0x1c529c8d
    ensures I(0x23a68048, 0xd9bb987c, 0xc1e942f1) == 0xe60d2532
    ensures I(0x83877d1b, 0x23a68048, 0xd9bb987c) == 0x8461ffd3
    ensures I(0x0077c208, 0x83877d1b, 0x23a68048) == 0x5ff882a4
    ensures I(0x847fc2e7, 0x0077c208, 0x83877d1b) == 0xfc0800ef
    ensures I(0xa3e2247f, 0x847fc2e7, 0x0077c208) == 0x7b95ff18
    ensures I(0x5e6bc930, 0xa3e2247f, 0x847fc2e7) == 0xdc09d947
    ensures I(0x708ed9c2, 0x5e6bc930, 0xa3e2247f) == 0x22f412f2
    ensures I(0x2baf1354, 0x708ed9c2, 0x5e6bc930) == 0xdb31ee1d
    ensures I(0xd38f1e7f, 0x2baf1354, 0x708ed9c2) == 0xf4502d2b
  {
  }

  lemma {:induction false} Rotations4()
    ensures RotateLeft(0x1e298768, 6) == 0x8a61da07
    ensures RotateLeft(0x719a44a3, 10) == 0x69128dc6
    ensures RotateLeft(0x2f2e9c21, 15) == 0x4e109797
    ensures RotateLeft(0xbd766404, 21) == 0x8097aecc
    ensures RotateLeft(0x6a37ee45, 6) == 0x8dfb915a
    ensures RotateLeft(0x62c5f495, 10) == 0x17d2558b
    ensures RotateLeft(0xcf9893d5, 15) == 0x49eae7cc
    ensures RotateLeft(0x07e69aff, 21) == 0x5fe0fcd3
    ensures RotateLeft(0xb5f3c113, 6) == 0x7cf044ed
    ensures RotateLeft(0x37e10200, 10) == 0x840800df
    ensures RotateLeft(0xc3303ec4, 15) == 0x1f626198
    ensures RotateLeft(0x4d258dd4, 21) == 0xba89a4b1
    ensures RotateLeft(0x48488c42, 6) == 0x12231092
    ensures RotateLeft(0x64aec80e, 10) == 0xbb203992
    ensures RotateLeft(0x16574fc0, 15) == 0xa7e00b2b
    ensures RotateLeft(0x3e42c9ec, 21) == 0x3d87c859
  {
  }

  lemma {:induction false} Trace56(x: seq<Word>)
    requires AlphabetWords(x) && Steps(48, INITIAL, x) == Regs(0xb5d41f9c, 0x71d10367, 0x703d54d8, 0xa04b4904)
    ensures Steps(56, INITIAL, x) == Regs(0xc1e942f1, 0x83877d1b, 0x23a68048, 0xd9bb987c)
  {
    hide Steps, F, G, H, I, RotateLeft;
    Mixes4();
    Rotations4();
    Turn(48, x, 0x64636261, 0x0fc8e327, 0x1e298768, 0x8a61da07, Regs(0xa04b4904, 0xfc32dd6e, 0x71d10367, 0x703d54d8));
    Turn(49, x, 0x0, 0x8e23fc08, 0x719a44a3, 0x69128dc6, Regs(0x703d54d8, 0x65456b34, 0xfc32dd6e, 0x71d10367));
    Turn(50, x, 0xd0, 0x135d22d2, 0x2f2e9c21, 0x4e109797, Regs(0x71d10367, 0xb35602cb, 0x65456b34, 0xfc32dd6e));
    Turn(51, x, 0x78777675, 0xd69a49ef, 0xbd766404, 0x8097aecc, Regs(0xfc32dd6e, 0x33edb197, 0xb35602cb, 0x65456b34));
    Turn(52, x, 0x0, 0x08a9b714, 0x6a37ee45, 0x8dfb915a, Regs(0x65456b34, 0xc1e942f1, 0x33edb197, 0xb35602cb));
    Turn(53, x, 0x706f6e6d, 0xfe044e62, 0x62c5f495, 0x17d2558b, Regs(0xb35602cb, 0xd9bb987c, 0xc1e942f1, 0x33edb197));
    Turn(54, x, 0x0, 0x1c529c8d, 0xcf9893d5, 0x49eae7cc, Regs(0x33edb197, 0x23a68048, 0xd9bb987c, 0xc1e942f1));
    Turn(55, x, 0x68676665, 0xe60d2532, 0x07e69aff, 0x5fe0fcd3, Regs(0xc1e942f1, 0x83877d1b, 0x23a68048, 0xd9bb987c));
  }

  lemma {:induction false} Trace64(x: seq<Word>)
    requires AlphabetWords(x) && Steps(56, INITIAL, x) == Regs(0xc1e942f1, 0x83877d1b, 0x23a68048, 0xd9bb987c)
    ensures Steps(64, INITIAL, x) == Regs(0x708ed9c2, 0x1116e6d8, 0xd38f1e7f, 0x2baf1354)
  {
    hide Steps, F, G, H, I, RotateLeft;
    Mixes4();
    Rotations4();
    Turn(56, x, 0x0, 0x8461ffd3, 0xb5f3c113, 0x7cf044ed, Regs(0xd9bb987c, 0x0077c208, 0x83877d1b, 0x23a68048));
    Turn(57, x, 0x0, 0x5ff882a4, 0x37e10200, 0x840800df, Regs(0x23a68048, 0x847fc2e7, 0x0077c208, 0x83877d1b));
    Turn(58, x, 0x807a79, 0xfc0800ef, 0xc3303ec4, 0x1f626198, Regs(0x83877d1b, 0xa3e2247f, 0x847fc2e7, 0x0077c208));
    Turn(59, x, 0x0, 0x7b95ff18, 0x4d258dd4, 0xba89a4b1, Regs(0x0077c208, 0x5e6bc930, 0xa3e2247f, 0x847fc2e7));
    Turn(60, x, 0x74737271, 0xdc09d947, 0x48488c42, 0x12231092, Regs(0x847fc2e7, 0x708ed9c2, 0x5e6bc930, 0xa3e2247f));
    Turn(61, x, 0x0, 0x22f412f2, 0x64aec80e, 0xbb203992, Regs(0xa3e2247f, 0x2baf1354, 0x708ed9c2, 0x5e6bc930));
    Turn(62, x, 0x6c6b6a69, 0xdb31ee1d, 0x16574fc0, 0xa7e00b2b, Regs(0x5e6bc930, 0xd38f1e7f, 0x2baf1354, 0x708ed9c2));
    Turn(63, x, 0x0, 0xf4502d2b, 0x3e42c9ec, 0x3d87c859, Regs(0x708ed9c2, 0x1116e6d8, 0xd38f1e7f, 0x2baf1354));
  }

  lemma {:induction false} NoSteps(x: seq<Word>)
    requires |x| == 16
    ensures Steps(0, INITIAL, x) == Regs(0x67452301, 0xefcdab89, 0x98badcfe, 0x10325476)
  {
  }

  lemma {:induction false} AllSteps()
    ensures Fold(Padded(Alphabet())) == Regs(0xd7d3fcc3, 0x00e49261, 0x6c49fb7d, 0x3be167ca)
  {
    hide Words, Padded, Steps;
    var p := Padded(Alphabet());
    PaddedAlphabet(p);
    WordsOfAlphabet();
    var x := Words(p);
    NoSteps(x);
    Trace8(x);
    Trace16(x);
    Trace24(x);
    Trace32(x);
    Trace40(x);
    Trace48(x);
    Trace56(x);
    Trace64(x);
    assert p[..0] == [] && p[0..] == p;
  }

  // ---------- the answer ----------

  lemma {:induction false} BytesOfFour(a: Word, b: Word, c: Word, d: Word)
    ensures Bytes([a, b, c, d]) == Le(a, 4) + Le(b, 4) + Le(c, 4) + Le(d, 4)
  {
    hide Le;
    assert [a, b, c, d][..3] == [a, b, c] && [a, b, c][..2] == [a, b] && [a, b][..1] == [a] && [a][..0] == [];
    assert Bytes([a]) == Le(a, 4);
    assert Bytes([a, b]) == Bytes([a]) + Le(b, 4);
    assert Bytes([a, b, c]) == Bytes([a, b]) + Le(c, 4);
  }

  /** The digest that section A.5 gives for the letters. */
  lemma {:induction false} DigestOfAlphabet()
    ensures MessageDigest(Alphabet())
         == [0xc3, 0xfc, 0xd3, 0xd7, 0x61, 0x92, 0xe4, 0x00,
             0x7d, 0xfb, 0x49, 0x6c, 0xca, 0x67, 0xe1, 0x3b]
  {
    hide Fold, Padded, Le, Bytes, Alphabet;
    AllSteps();
    BytesOfFour(0xd7d3fcc3, 0x00e49261, 0x6c49fb7d, 0x3be167ca);
    LeFour(0xd7d3fcc3);
    LeFour(0x00e49261);
    LeFour(0x6c49fb7d);
    LeFour(0x3be167ca);
  }

  lemma {:induction false} TextOfAlphabet()
    ensures HexText(MessageDigest(Alphabet())) == "c3fcd3d76192e4007dfb496cca67e13b"
  {
    hide MessageDigest, HexText, Alphabet;
    DigestOfAlphabet();
    var d := MessageDigest(Alphabet());
    HexTextAt(d, 0); HexTextAt(d, 1); HexTextAt(d, 2); HexTextAt(d, 3);
    HexTextAt(d, 4); HexTextAt(d, 5); HexTextAt(d, 6); HexTextAt(d, 7);
    HexTextAt(d, 8); HexTextAt(d, 9); HexTextAt(d, 10); HexTextAt(d, 11);
    HexTextAt(d, 12); HexTextAt(d, 13); HexTextAt(d, 14); HexTextAt(d, 15);
  }

  /** update and then toString, early in a message: the digest is transparent. */
  method UpdateAndShow(ctx: MD5, piece: seq<Byte>) returns (s: string)
    requires ctx.Valid() && |ctx.absorbed| + |piece| < 56
    modifies ctx, ctx.state, ctx.count, ctx.buffer, ctx.digestBytes
    ensures ctx.Valid() && ctx.absorbed == old(ctx.absorbed) + piece
    ensures s == HexText(MessageDigest(ctx.absorbed))
  {
    hide MessageDigest, LengthInRange, Fold, Counter, Tail, WholeBlocks, AfterDigest, HexText;
    SafeLength(|ctx.absorbed| % 64, |piece|);
    ctx.Update(piece);
    DigestTransparentIff(ctx.absorbed);
    s := ctx.ToString();
  }

  /** The calls of the repository's test: the letters in four pieces, with digests in between. */
  method HashAlphabet(ctx: MD5) returns (s: string)
    requires ctx.Valid()
    modifies ctx, ctx.state, ctx.count, ctx.buffer, ctx.digestBytes
    ensures ctx.Valid()
    ensures s == "c3fcd3d76192e4007dfb496cca67e13b"
  {
    hide MessageDigest, LengthInRange, Fold, Counter, Tail, WholeBlocks, HexText, Alphabet;
    var m := Alphabet();
    ctx.Reset();
    s := UpdateAndShow(ctx, []);
    s := UpdateAndShow(ctx, m[..1]);
    assert ctx.absorbed == m[..1];
    s := UpdateAndShow(ctx, m[1..3]);
    assert ctx.absorbed == m[..3];
    s := UpdateAndShow(ctx, m[3..]);
    assert ctx.absorbed == m;
    TextOfAlphabet();
  }
}
