/**
  MD5 as sections 3.1 to 3.5 of RFC 1321 define it: a whole message is padded, its length
  appended, and its 64-byte blocks folded through a table-driven 64-step compression.
  Nothing here mentions chunks, carry buffers or counters.
*/
module Rfc1321 {
  import opened ByteOrder

  const MODULUS := 0x1_0000_0000

  function Plus(x: int, y: int): Word { (x + y) % MODULUS }

  // The four auxiliary functions and the rotation, on 32-bit vectors.

  function FBits(x: bv32, y: bv32, z: bv32): bv32 { (x & y) | (!x & z) }

  function GBits(x: bv32, y: bv32, z: bv32): bv32 { (x & z) | (y & !z) }

  function HBits(x: bv32, y: bv32, z: bv32): bv32 { x ^ y ^ z }

  function IBits(x: bv32, y: bv32, z: bv32): bv32 { y ^ (x | !z) }

  function RotateBits(x: bv32, n: nat): bv32
    requires 0 < n < 32
  {
    (x << n) | (x >> (32 - n))
  }

  // ---------- what the bit functions are, bit by bit ----------

  /** Where x has a 1 the bit of y is taken, elsewhere that of z. */
  lemma {:induction false} FSelects(x: bv32, y: bv32, z: bv32)
    ensures FBits(x, y, z) & x == y & x && FBits(x, y, z) & !x == z & !x
  {
  }

  /** Where z has a 1 the bit of x is taken, elsewhere that of y. */
  lemma {:induction false} GSelects(x: bv32, y: bv32, z: bv32)
    ensures GBits(x, y, z) & z == x & z && GBits(x, y, z) & !z == y & !z
  {
  }

  /** Taking the other two arguments off again leaves the first. */
  lemma {:induction false} HIsParity(x: bv32, y: bv32, z: bv32)
    ensures HBits(x, y, z) ^ y ^ z == x
  {
  }

  /** Where z has a 0 the bit of y is flipped; elsewhere it is flipped where x has a 1. */
  lemma {:induction false} IFlips(x: bv32, y: bv32, z: bv32)
    ensures IBits(x, y, z) & !z == !y & !z && IBits(x, y, z) & z == (x ^ y) & z
  {
  }

  // A rotation by s moves the 32 - s low bits up to the top, and the s high bits to the bottom.

  lemma {:induction false} Rotates4(x: bv32)
    ensures RotateBits(x, 4) >> 4 == x & 0xfffffff && RotateBits(x, 4) & 0xf == x >> 28
  {
  }

  lemma {:induction false} Rotates5(x: bv32)
    ensures RotateBits(x, 5) >> 5 == x & 0x7ffffff && RotateBits(x, 5) & 0x1f == x >> 27
  {
  }

  lemma {:induction false} Rotates6(x: bv32)
    ensures RotateBits(x, 6) >> 6 == x & 0x3ffffff && RotateBits(x, 6) & 0x3f == x >> 26
  {
  }

  lemma {:induction false} Rotates7(x: bv32)
    ensures RotateBits(x, 7) >> 7 == x & 0x1ffffff && RotateBits(x, 7) & 0x7f == x >> 25
  {
  }

  lemma {:induction false} Rotates9(x: bv32)
    ensures RotateBits(x, 9) >> 9 == x & 0x7fffff && RotateBits(x, 9) & 0x1ff == x >> 23
  {
  }

  lemma {:induction false} Rotates10(x: bv32)
    ensures RotateBits(x, 10) >> 10 == x & 0x3fffff && RotateBits(x, 10) & 0x3ff == x >> 22
  {
  }

  lemma {:induction false} Rotates11(x: bv32)
    ensures RotateBits(x, 11) >> 11 == x & 0x1fffff && RotateBits(x, 11) & 0x7ff == x >> 21
  {
  }

  lemma {:induction false} Rotates12(x: bv32)
    ensures RotateBits(x, 12) >> 12 == x & 0xfffff && RotateBits(x, 12) & 0xfff == x >> 20
  {
  }

  lemma {:induction false} Rotates14(x: bv32)
    ensures RotateBits(x, 14) >> 14 == x & 0x3ffff && RotateBits(x, 14) & 0x3fff == x >> 18
  {
  }

  lemma {:induction false} Rotates15(x: bv32)
    ensures RotateBits(x, 15) >> 15 == x & 0x1ffff && RotateBits(x, 15) & 0x7fff == x >> 17
  {
  }

  lemma {:induction false} Rotates16(x: bv32)
    ensures RotateBits(x, 16) >> 16 == x & 0xffff && RotateBits(x, 16) & 0xffff == x >> 16
  {
  }

  lemma {:induction false} Rotates17(x: bv32)
    ensures RotateBits(x, 17) >> 17 == x & 0x7fff && RotateBits(x, 17) & 0x1ffff == x >> 15
  {
  }

  lemma {:induction false} Rotates20(x: bv32)
    ensures RotateBits(x, 20) >> 20 == x & 0xfff && RotateBits(x, 20) & 0xfffff == x >> 12
  {
  }

  lemma {:induction false} Rotates21(x: bv32)
    ensures RotateBits(x, 21) >> 21 == x & 0x7ff && RotateBits(x, 21) & 0x1fffff == x >> 11
  {
  }

  lemma {:induction false} Rotates22(x: bv32)
    ensures RotateBits(x, 22) >> 22 == x & 0x3ff && RotateBits(x, 22) & 0x3fffff == x >> 10
  {
  }

  lemma {:induction false} Rotates23(x: bv32)
    ensures RotateBits(x, 23) >> 23 == x & 0x1ff && RotateBits(x, 23) & 0x7fffff == x >> 9
  {
  }

  // The same on words.

  function F(x: Word, y: Word, z: Word): Word { FBits(x as bv32, y as bv32, z as bv32) as Word }

  function G(x: Word, y: Word, z: Word): Word { GBits(x as bv32, y as bv32, z as bv32) as Word }

  function H(x: Word, y: Word, z: Word): Word { HBits(x as bv32, y as bv32, z as bv32) as Word }

  function I(x: Word, y: Word, z: Word): Word { IBits(x as bv32, y as bv32, z as bv32) as Word }

  function RotateLeft(x: Word, n: nat): Word
    requires 0 < n < 32
  {
    RotateBits(x as bv32, n) as Word
  }

  // ---------- section 3.4: the tables ----------

  /** Which message word step i reads. */
  function WordIndex(i: nat): (k: nat)
    ensures k < 16
  {
    if i < 16 then i % 16
    else if i < 32 then (5 * i + 1) % 16
    else if i < 48 then (3 * i + 5) % 16
    else 7 * i % 16
  }

  /** How far step i rotates: four amounts to a round, in turn. */
  function Shift(i: nat): (s: nat)
    ensures 0 < s < 32
  {
    var k := i % 4;
    if i < 16 then (if k == 0 then 7 else if k == 1 then 12 else if k == 2 then 17 else 22)
    else if i < 32 then (if k == 0 then 5 else if k == 1 then 9 else if k == 2 then 14 else 20)
    else if i < 48 then (if k == 0 then 4 else if k == 1 then 11 else if k == 2 then 16 else 23)
    else (if k == 0 then 6 else if k == 1 then 10 else if k == 2 then 15 else 21)
  }

  /** The sine table of RFC 1321, T[i + 1], sixteen entries to a round. */
  function T(i: nat): Word {
    if i < 16 then T1(i) else if i < 32 then T2(i - 16) else if i < 48 then T3(i - 32) else T4(i - 48)
  }

  function T1(i: nat): Word {
    match i
    case 0 => 0xd76aa478 case 1 => 0xe8c7b756 case 2 => 0x242070db case 3 => 0xc1bdceee
    case 4 => 0xf57c0faf case 5 => 0x4787c62a case 6 => 0xa8304613 case 7 => 0xfd469501
    case 8 => 0x698098d8 case 9 => 0x8b44f7af case 10 => 0xffff5bb1 case 11 => 0x895cd7be
    case 12 => 0x6b901122 case 13 => 0xfd987193 case 14 => 0xa679438e case 15 => 0x49b40821
    case _ => 0
  }

  function T2(i: nat): Word {
    match i
    case 0 => 0xf61e2562 case 1 => 0xc040b340 case 2 => 0x265e5a51 case 3 => 0xe9b6c7aa
    case 4 => 0xd62f105d case 5 => 0x02441453 case 6 => 0xd8a1e681 case 7 => 0xe7d3fbc8
    case 8 => 0x21e1cde6 case 9 => 0xc33707d6 case 10 => 0xf4d50d87 case 11 => 0x455a14ed
    case 12 => 0xa9e3e905 case 13 => 0xfcefa3f8 case 14 => 0x676f02d9 case 15 => 0x8d2a4c8a
    case _ => 0
  }

  function T3(i: nat): Word {
    match i
    case 0 => 0xfffa3942 case 1 => 0x8771f681 case 2 => 0x6d9d6122 case 3 => 0xfde5380c
    case 4 => 0xa4beea44 case 5 => 0x4bdecfa9 case 6 => 0xf6bb4b60 case 7 => 0xbebfbc70
    case 8 => 0x289b7ec6 case 9 => 0xeaa127fa case 10 => 0xd4ef3085 case 11 => 0x04881d05
    case 12 => 0xd9d4d039 case 13 => 0xe6db99e5 case 14 => 0x1fa27cf8 case 15 => 0xc4ac5665
    case _ => 0
  }

  function T4(i: nat): Word {
    match i
    case 0 => 0xf4292244 case 1 => 0x432aff97 case 2 => 0xab9423a7 case 3 => 0xfc93a039
    case 4 => 0x655b59c3 case 5 => 0x8f0ccc92 case 6 => 0xffeff47d case 7 => 0x85845dd1
    case 8 => 0x6fa87e4f case 9 => 0xfe2ce6e0 case 10 => 0xa3014314 case 11 => 0x4e0811a1
    case 12 => 0xf7537e82 case 13 => 0xbd3af235 case 14 => 0x2ad7d2bb case 15 => 0xeb86d391
    case _ => 0
  }

  // ---------- section 3.4: one block ----------

  /** The four registers. */
  datatype Regs = Regs(a: Word, b: Word, c: Word, d: Word)

  const INITIAL := Regs(0x67452301, 0xefcdab89, 0x98badcfe, 0x10325476)

  function Mix(i: nat, r: Regs): Word {
    if i < 16 then F(r.b, r.c, r.d)
    else if i < 32 then G(r.b, r.c, r.d)
    else if i < 48 then H(r.b, r.c, r.d)
    else I(r.b, r.c, r.d)
  }

  /** Step i renews register a and turns the four registers by one place. */
  function Step(i: nat, r: Regs, x: seq<Word>): Regs
    requires i < 64 && |x| == 16
  {
    var sum := Plus(r.a, Mix(i, r) + x[WordIndex(i)] + T(i));
    Regs(r.d, Plus(RotateLeft(sum, Shift(i)), r.b), r.b, r.c)
  }

  function Steps(n: nat, r: Regs, x: seq<Word>): Regs
    requires n <= 64 && |x| == 16
  {
    if n == 0 then r else Step(n - 1, Steps(n - 1, r, x), x)
  }

  /** The 16 little-endian words of a block. */
  function Words(block: seq<Byte>): (ws: seq<Word>)
    requires |block| % 4 == 0
    ensures |ws| == |block| / 4
  {
    if block == [] then []
    else Words(block[..|block| - 4]) + [WordOf(block[|block| - 4..])]
  }

  function WordOf(s: seq<Byte>): Word
    requires |s| == 4
  {
    Powers();
    FromLe(s)
  }

  function Compress(r: Regs, block: seq<Byte>): Regs
    requires |block| == 64
  {
    var s := Steps(64, r, Words(block));
    Regs(Plus(r.a, s.a), Plus(r.b, s.b), Plus(r.c, s.c), Plus(r.d, s.d))
  }

  /** Every block of m in turn. */
  function Fold(m: seq<Byte>): Regs
    requires |m| % 64 == 0
  {
    if m == [] then INITIAL else Compress(Fold(m[..|m| - 64]), m[|m| - 64..])
  }

  // ---------- sections 3.1, 3.2 and 3.5: a whole message ----------

  function Zeros(n: nat): (s: seq<Byte>)
    ensures |s| == n
  {
    seq(n, _ => 0)
  }

  /** Section 3.1: one 1 bit, then the fewest 0 bits that reach 56 modulo 64. */
  function PadZeros(len: nat): (n: nat)
    ensures (len + 1 + n) % 64 == 56 && (len + 1 + n + 8) % 64 == 0
    ensures n < 64
  {
    (55 - len) % 64
  }

  /** No shorter run of zeros would do. */
  lemma {:induction false} PadZerosFewest(len: nat, k: nat)
    requires (len + 1 + k) % 64 == 56
    ensures PadZeros(len) <= k
  {
  }

  /** Section 3.2: the length in bits modulo 2^64, as eight bytes, low-order byte first. */
  function BitLength(len: nat): (s: seq<Byte>)
    ensures |s| == 8
  {
    Le(8 * len, 8)
  }

  function Padded(m: seq<Byte>): (p: seq<Byte>)
    ensures |p| % 64 == 0
  {
    m + [0x80] + Zeros(PadZeros(|m|)) + BitLength(|m|)
  }

  /** Section 3.5: the registers, each low-order byte first. */
  function Output(r: Regs): (s: seq<Byte>)
    ensures |s| == 16
  {
    Bytes([r.a, r.b, r.c, r.d])
  }

  function Bytes(ws: seq<Word>): (s: seq<Byte>)
    ensures |s| == 4 * |ws|
  {
    if ws == [] then [] else Bytes(ws[..|ws| - 1]) + Le(ws[|ws| - 1], 4)
  }

  /** encode and decode undo each other, on every word string and every whole number of words. */
  lemma {:induction false} WordsOfBytes(ws: seq<Word>)
    ensures Words(Bytes(ws)) == ws
  {
    hide Le;
    if ws != [] {
      var front, w := ws[..|ws| - 1], ws[|ws| - 1];
      var b := Bytes(ws);
      WordsOfBytes(front);
      assert b[..|b| - 4] == Bytes(front) && b[|b| - 4..] == Le(w, 4);
      Powers();
      FromLeOfLe(w, 4);
    }
  }

  lemma {:induction false} BytesOfWords(b: seq<Byte>)
    requires |b| % 4 == 0
    ensures Bytes(Words(b)) == b
  {
    hide Le;
    if b != [] {
      var front, last := b[..|b| - 4], b[|b| - 4..];
      var ws := Words(b);
      BytesOfWords(front);
      assert ws[..|ws| - 1] == Words(front);
      LeOfFromLe(last);
    }
  }

  function MessageDigest(m: seq<Byte>): (d: seq<Byte>)
    ensures |d| == 16
  {
    Output(Fold(Padded(m)))
  }
}
