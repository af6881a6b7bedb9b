/**
  Bytes, 32-bit words and the two byte orders.

  Fixed-width unsigned values are integers in their range. For unsigned operands C++ defines
  `x >> k` as x / 2^k and `x & (2^k - 1)` as x % 2^k, and an `|` of terms with disjoint bits is
  their sum; the model writes those operators in that arithmetic form.
*/
module ByteOrder {

  type Byte = b: int | 0 <= b < 0x100
  type Half = h: int | 0 <= h < 0x1_0000
  type Word = w: int | 0 <= w < 0x1_0000_0000

  type Int8 = x: int | -0x80 <= x < 0x80
  type Int16 = x: int | -0x8000 <= x < 0x8000
  type Int32 = x: int | -0x8000_0000 <= x < 0x8000_0000
  type Int64 = x: int | -0x8000_0000_0000_0000 <= x < 0x8000_0000_0000_0000

  /** The number of values that n bytes can hold. */
  function Pow256(n: nat): (p: nat)
    ensures p >= 1
    ensures n >= 1 ==> p % 2 == 0
  {
    if n == 0 then 1 else 256 * Pow256(n - 1)
  }

  // ---------- little-endian: low-order byte first ----------

  /** The n low-order bytes of v, low-order byte first. */
  function Le(v: nat, n: nat): (s: seq<Byte>)
    ensures |s| == n
  {
    if n == 0 then [] else [v % 256] + Le(v / 256, n - 1)
  }

  /** Whole multiples of 256^n are invisible in the n low-order bytes. */
  lemma {:induction false} LeIgnoresHighBytes(v: nat, k: nat, n: nat)
    ensures Le(v + k * Pow256(n), n) == Le(v, n)
  {
    if n > 0 {
      var m := k * Pow256(n - 1);
      assert k * Pow256(n) == 256 * m;
      assert (v + 256 * m) / 256 == v / 256 + m;
      LeIgnoresHighBytes(v / 256, k, n - 1);
    }
  }

  function FromLe(s: seq<Byte>): (v: nat)
    ensures v < Pow256(|s|)
  {
    if s == [] then 0 else s[0] + 256 * FromLe(s[1..])
  }

  lemma {:induction false} FromLeOfLe(v: nat, n: nat)
    requires v < Pow256(n)
    ensures FromLe(Le(v, n)) == v
  {
    if n > 0 {
      FromLeOfLe(v / 256, n - 1);
      assert Le(v, n)[1..] == Le(v / 256, n - 1);
    }
  }

  lemma {:induction false} LeOfFromLe(s: seq<Byte>)
    ensures Le(FromLe(s), |s|) == s
  {
    if s != [] {
      LeOfFromLe(s[1..]);
      assert FromLe(s) / 256 == FromLe(s[1..]) && FromLe(s) % 256 == s[0];
    }
  }

  // ---------- big-endian: the network order ----------

  /** The n low-order bytes of v, high-order byte first. */
  function Be(v: nat, n: nat): (s: seq<Byte>)
    ensures |s| == n
  {
    if n == 0 then [] else Be(v / 256, n - 1) + [v % 256]
  }

  function FromBe(s: seq<Byte>): (v: nat)
    ensures v < Pow256(|s|)
  {
    if s == [] then 0 else 256 * FromBe(s[..|s| - 1]) + s[|s| - 1]
  }

  lemma {:induction false} FromBeOfBe(v: nat, n: nat)
    requires v < Pow256(n)
    ensures FromBe(Be(v, n)) == v
  {
    if n > 0 {
      FromBeOfBe(v / 256, n - 1);
      assert Be(v, n)[..n - 1] == Be(v / 256, n - 1);
    }
  }

  lemma {:induction false} BeOfFromBe(s: seq<Byte>)
    ensures Be(FromBe(s), |s|) == s
  {
    if s != [] {
      BeOfFromBe(s[..|s| - 1]);
      assert FromBe(s) / 256 == FromBe(s[..|s| - 1]) && FromBe(s) % 256 == s[|s| - 1];
    }
  }

  function Reversed(s: seq<Byte>): (r: seq<Byte>)
    ensures |r| == |s|
  {
    if s == [] then [] else Reversed(s[1..]) + [s[0]]
  }

  lemma {:induction false} ReversedSnoc(s: seq<Byte>, b: Byte)
    ensures Reversed(s + [b]) == [b] + Reversed(s)
  {
    if s == [] {
      assert [b][1..] == [];
    } else {
      assert (s + [b])[1..] == s[1..] + [b];
      ReversedSnoc(s[1..], b);
    }
  }

  lemma {:induction false} BeReversesLe(v: nat, n: nat)
    ensures Be(v, n) == Reversed(Le(v, n))
    ensures Le(v, n) == Reversed(Be(v, n))
  {
    if n > 0 {
      BeReversesLe(v / 256, n - 1);
      assert Le(v, n)[1..] == Le(v / 256, n - 1);
      ReversedSnoc(Be(v / 256, n - 1), v % 256);
    }
  }

  // ---------- swapping between host and network order ----------

  /**
    What htonl, htons, ntohl and ntohs compute on a little-endian host: the value whose n bytes
    in memory are those of v in the opposite order.
  */
  function Swapped(v: nat, n: nat): (r: nat)
    ensures r < Pow256(n)
  {
    FromLe(Reversed(Le(v, n)))
  }

  /** The memory image of a swapped value is the network order of the value. */
  lemma {:induction false} SwappedInMemory(v: nat, n: nat)
    ensures Le(Swapped(v, n), n) == Be(v, n)
  {
    BeReversesLe(v, n);
    LeOfFromLe(Be(v, n));
  }

  lemma {:induction false} SwappedFromMemory(s: seq<Byte>)
    ensures Swapped(FromLe(s), |s|) == FromBe(s)
  {
    LeOfFromLe(s);
    BeOfFromBe(s);
    FromBeOfBe(FromBe(s), |s|);
    var v := FromBe(s);
    BeReversesLe(v, |s|);
    FromLeOfLe(v, |s|);
  }

  lemma {:induction false} SwappedTwice(v: nat, n: nat)
    requires v < Pow256(n)
    ensures Swapped(Swapped(v, n), n) == v
  {
    SwappedInMemory(v, n);
    BeReversesLe(v, n);
    FromLeOfLe(v, n);
  }

  /**
    The macro evppbswap_64, term by term: each masked byte is moved to the mirrored position.
  */
  function Swap64(x: nat): nat {
    (x / 0x100_0000_0000_0000 % 256)
    + (x / 0x1_0000_0000_0000 % 256) * 0x100
    + (x / 0x100_0000_0000 % 256) * 0x1_0000
    + (x / 0x1_0000_0000 % 256) * 0x100_0000
    + (x / 0x100_0000 % 256) * 0x1_0000_0000
    + (x / 0x1_0000 % 256) * 0x100_0000_0000
    + (x / 0x100 % 256) * 0x1_0000_0000_0000
    + (x % 256) * 0x100_0000_0000_0000
  }

  lemma {:induction false} LeFour(x: nat)
    ensures Le(x, 4) == [x % 256, x / 0x100 % 256, x / 0x1_0000 % 256, x / 0x100_0000 % 256]
  {
    var x1, x2, x3 := x / 256, x / 256 / 256, x / 256 / 256 / 256;
    assert Le(x3, 1) == [x3 % 256] + Le(x3 / 256, 0);
    assert Le(x2, 2) == [x2 % 256] + Le(x3, 1);
    assert Le(x1, 3) == [x1 % 256] + Le(x2, 2);
    assert Le(x, 4) == [x % 256] + Le(x1, 3);
  }

  /** Dividing by 256 one byte at a time reaches the same quotients as the wide shifts. */
  lemma {:induction false} WideShifts(x: nat)
    ensures x / 256 / 256 == x / 0x1_0000
    ensures x / 256 / 256 / 256 == x / 0x100_0000
    ensures x / 256 / 256 / 256 / 256 == x / 0x1_0000_0000
    ensures x / 0x1_0000_0000 / 0x100 == x / 0x100_0000_0000
    ensures x / 0x1_0000_0000 / 0x1_0000 == x / 0x1_0000_0000_0000
    ensures x / 0x1_0000_0000 / 0x100_0000 == x / 0x100_0000_0000_0000
  {
  }

  lemma {:induction false} LeEight(x: nat)
    ensures Le(x, 8) == Le(x, 4) + Le(x / 0x1_0000_0000, 4)
  {
    var x1, x2, x3 := x / 256, x / 256 / 256, x / 256 / 256 / 256;
    assert Le(x3, 5) == [x3 % 256] + Le(x3 / 256, 4);
    assert Le(x2, 6) == [x2 % 256] + Le(x3, 5);
    assert Le(x1, 7) == [x1 % 256] + Le(x2, 6);
    assert Le(x, 8) == [x % 256] + Le(x1, 7);
    WideShifts(x);
    LeFour(x);
  }

  lemma {:induction false} FromLeFour(a: Byte, b: Byte, c: Byte, d: Byte, t: seq<Byte>)
    ensures FromLe([a, b, c, d] + t)
         == a + 0x100 * b + 0x1_0000 * c + 0x100_0000 * d + 0x1_0000_0000 * FromLe(t)
  {
    var s := [a, b, c, d] + t;
    assert s[1..][1..][1..][1..] == t;
    assert s[1..][0] == b && s[1..][1..][0] == c && s[1..][1..][1..][0] == d;
    assert FromLe(s[1..][1..][1..]) == d + 256 * FromLe(t);
    assert FromLe(s[1..][1..]) == c + 256 * FromLe(s[1..][1..][1..]);
    assert FromLe(s[1..]) == b + 256 * FromLe(s[1..][1..]);
  }

  lemma {:induction false} ReversedFour(a: Byte, b: Byte, c: Byte, d: Byte, t: seq<Byte>)
    ensures Reversed([a, b, c, d] + t) == Reversed(t) + [d, c, b, a]
  {
    var s := [a, b, c, d] + t;
    assert s[1..][1..][1..][1..] == t;
    assert s[1..][0] == b && s[1..][1..][0] == c && s[1..][1..][1..][0] == d;
    assert Reversed(s[1..][1..][1..]) == Reversed(t) + [d];
    assert Reversed(s[1..][1..]) == Reversed(s[1..][1..][1..]) + [c];
    assert Reversed(s[1..]) == Reversed(s[1..][1..]) + [b];
  }

  /** The macro is the byte swap, so it is its own inverse on every 64-bit value. */
  lemma {:induction false} Swap64IsSwapped(x: nat)
    ensures Swap64(x) == Swapped(x, 8)
  {
    var y := x / 0x1_0000_0000;
    var a, b, c, d := x % 256, x / 0x100 % 256, x / 0x1_0000 % 256, x / 0x100_0000 % 256;
    var e, f, g, h := y % 256, y / 0x100 % 256, y / 0x1_0000 % 256, y / 0x100_0000 % 256;
    LeEight(x);
    LeFour(x);
    LeFour(y);
    ReversedFour(a, b, c, d, [e, f, g, h]);
    ReversedFour(e, f, g, h, []);
    assert [e, f, g, h] + [] == [e, f, g, h];
    assert Reversed(Le(x, 8)) == [h, g, f, e] + [d, c, b, a];
    FromLeFour(h, g, f, e, [d, c, b, a]);
    FromLeFour(d, c, b, a, []);
    assert [d, c, b, a] + [] == [d, c, b, a];
    WideShifts(x);
  }

  lemma {:induction false} Powers()
    ensures Pow256(1) == 0x100 && Pow256(2) == 0x1_0000 && Pow256(4) == 0x1_0000_0000
    ensures Pow256(8) == 0x1_0000_0000_0000_0000
  {
    assert Pow256(1) == 256 * Pow256(0);
    assert Pow256(2) == 256 * Pow256(1);
    assert Pow256(3) == 256 * Pow256(2);
    assert Pow256(4) == 256 * Pow256(3);
    assert Pow256(5) == 256 * Pow256(4);
    assert Pow256(6) == 256 * Pow256(5);
    assert Pow256(7) == 256 * Pow256(6);
  }

  lemma {:induction false} Swap64Twice(x: nat)
    requires x < 0x1_0000_0000_0000_0000
    ensures Swap64(Swap64(x)) == x
  {
    Powers();
    Swap64IsSwapped(x);
    Swap64IsSwapped(Swap64(x));
    SwappedTwice(x, 8);
  }

  // ---------- two's complement ----------

  predicate Fits(x: int, n: nat)
    requires n >= 1
  {
    -2 * x <= Pow256(n) && 2 * x < Pow256(n)
  }

  /** The unsigned value with the same n bytes. */
  function ToUnsigned(x: int, n: nat): (u: nat)
    requires n >= 1 && Fits(x, n)
    ensures u < Pow256(n)
  {
    if x < 0 then x + Pow256(n) else x
  }

  /** The signed value with the same n bytes. */
  function ToSigned(u: nat, n: nat): (x: int)
    requires n >= 1 && u < Pow256(n)
    ensures Fits(x, n)
  {
    if 2 * u < Pow256(n) then u else u - Pow256(n)
  }

  /** The n bytes of a signed value in network order, and the value of such bytes. */
  function Network(x: int, n: nat): (s: seq<Byte>)
    requires n >= 1 && Fits(x, n)
    ensures |s| == n
  {
    Be(ToUnsigned(x, n), n)
  }

  function FromNetwork(s: seq<Byte>): (x: int)
    requires |s| >= 1
    ensures Fits(x, |s|)
  {
    ToSigned(FromBe(s), |s|)
  }

  /** Network order loses nothing, negative values included. */
  lemma {:induction false} NetworkRoundTrip(x: int, n: nat)
    requires n >= 1 && Fits(x, n)
    ensures FromNetwork(Network(x, n)) == x
  {
    FromBeOfBe(ToUnsigned(x, n), n);
  }

  /** Reading signed and casting to unsigned is the unsigned value on the wire, and the reverse. */
  lemma {:induction false} UnsignedOnWire(s: seq<Byte>)
    requires |s| >= 1
    ensures ToUnsigned(FromNetwork(s), |s|) == FromBe(s)
  {
  }

  lemma {:induction false} UnsignedToWire(u: nat, n: nat)
    requires n >= 1 && u < Pow256(n)
    ensures Network(ToSigned(u, n), n) == Be(u, n)
  {
  }

  // ---------- the bytes themselves ----------

  lemma {:induction false} BeTwo(x: nat)
    ensures Be(x, 2) == [x / 256 % 256, x % 256]
  {
    assert Be(x / 256, 1) == Be(x / 256 / 256, 0) + [x / 256 % 256];
    assert Be(x, 2) == Be(x / 256, 1) + [x % 256];
  }

  lemma {:induction false} BeFour(x: nat)
    ensures Be(x, 4) == [x / 0x100_0000 % 256, x / 0x1_0000 % 256, x / 0x100 % 256, x % 256]
  {
    WideShifts(x);
    BeTwo(x / 256 / 256);
    assert Be(x / 256, 3) == Be(x / 256 / 256, 2) + [x / 256 % 256];
    assert Be(x, 4) == Be(x / 256, 3) + [x % 256];
  }

  lemma {:induction false} BeHalf(h: Half)
    ensures Be(h, 2) == [h / 256, h % 256]
  {
    BeTwo(h);
  }

  lemma {:induction false} BeWord(w: Word)
    ensures Be(w, 4) == [w / 0x100_0000, w / 0x1_0000 % 256, w / 0x100 % 256, w % 256]
  {
    BeFour(w);
  }

  lemma {:induction false} BeEight(x: nat)
    ensures Be(x, 8) == Be(x / 0x1_0000_0000, 4) + Be(x, 4)
  {
    hide *;
    WideShifts(x);
    BeSnoc(x, 4);
    BeSnoc(x, 8);
    BeSnoc(x / 256, 3);
    BeSnoc(x / 256, 7);
    BeSnoc(x / 256 / 256, 2);
    BeSnoc(x / 256 / 256, 6);
    BeSnoc(x / 256 / 256 / 256, 1);
    BeSnoc(x / 256 / 256 / 256, 5);
    BeNothing(x / 256 / 256 / 256 / 256);
  }

  lemma {:induction false} BeSnoc(x: nat, n: nat)
    requires n > 0
    ensures Be(x, n) == Be(x / 256, n - 1) + [x % 256]
  {
  }

  lemma {:induction false} BeNothing(x: nat)
    ensures Be(x, 0) == []
  {
  }

  // A signed value on the wire: two's complement, high-order byte first.

  lemma {:induction false} NetworkByte(x: Int8)
    ensures Fits(x, 1) && Network(x, 1) == [if x < 0 then x + 0x100 else x]
  {
    hide Be;
    Powers();
    var u: nat := if x < 0 then x + 0x100 else x;
    BeSnoc(u, 1);
    BeNothing(u / 256);
  }

  lemma {:induction false} NetworkTwoBytes(x: Int16)
    ensures var u := if x < 0 then x + 0x1_0000 else x;
            Fits(x, 2) && Network(x, 2) == [u / 256, u % 256]
  {
    hide Be;
    Powers();
    BeTwo(if x < 0 then x + 0x1_0000 else x);
  }

  lemma {:induction false} NetworkFourBytes(x: Int32)
    ensures var u := if x < 0 then x + 0x1_0000_0000 else x;
            Fits(x, 4) && Network(x, 4) == [u / 0x100_0000, u / 0x1_0000 % 256, u / 0x100 % 256, u % 256]
  {
    hide Be;
    Powers();
    BeFour(if x < 0 then x + 0x1_0000_0000 else x);
  }

  lemma {:induction false} NetworkEightBytes(x: Int64)
    ensures var u := if x < 0 then x + 0x1_0000_0000_0000_0000 else x;
            var h := u / 0x1_0000_0000;
            Fits(x, 8)
            && Network(x, 8) == [h / 0x100_0000, h / 0x1_0000 % 256, h / 0x100 % 256, h % 256,
                                 u / 0x100_0000 % 256, u / 0x1_0000 % 256, u / 0x100 % 256, u % 256]
  {
    hide Be;
    Powers();
    var u: nat := if x < 0 then x + 0x1_0000_0000_0000_0000 else x;
    BeEight(u);
    BeFour(u);
    BeFour(u / 0x1_0000_0000);
  }
}
