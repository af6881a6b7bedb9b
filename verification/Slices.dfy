/**
  The byte slices of slice.h and their three-way comparison. memcmp compares bytes as unsigned
  values; only the sign of its result is used.
*/
module Slices {
  import opened ByteOrder

  /** memcmp over the first n bytes. */
  function MemCmp(a: seq<Byte>, b: seq<Byte>, n: nat): int
    requires n <= |a| && n <= |b|
  {
    if n == 0 then 0
    else if a[0] != b[0] then a[0] - b[0]
    else MemCmp(a[1..], b[1..], n - 1)
  }

  function Compare(a: seq<Byte>, b: seq<Byte>): int {
    var minLen := if |a| < |b| then |a| else |b|;
    var r := MemCmp(a, b, minLen);
    if r == 0 then (if |a| < |b| then -1 else if |a| > |b| then 1 else r) else r
  }

  predicate Equal(a: seq<Byte>, b: seq<Byte>) {
    |a| == |b| && MemCmp(a, b, |a|) == 0
  }

  predicate Less(a: seq<Byte>, b: seq<Byte>) {
    Compare(a, b) < 0
  }

  // ---------- the lexicographic order, stated without the algorithm ----------

  /** a and b agree up to k, where a ends or has the smaller byte. */
  predicate DecidedAt(a: seq<Byte>, b: seq<Byte>, k: nat) {
    k <= |a| && k < |b| && a[..k] == b[..k] && (k == |a| || a[k] < b[k])
  }

  ghost predicate Before(a: seq<Byte>, b: seq<Byte>) {
    exists k: nat :: DecidedAt(a, b, k)
  }

  /** Comparing goes on behind an equal first byte. */
  lemma {:induction false} CompareTails(a: seq<Byte>, b: seq<Byte>)
    requires a != [] && b != [] && a[0] == b[0]
    ensures Compare(a, b) == Compare(a[1..], b[1..])
  {
  }

  lemma {:induction false} BeforeTails(a: seq<Byte>, b: seq<Byte>)
    requires a != [] && b != [] && a[0] == b[0]
    ensures Before(a, b) <==> Before(a[1..], b[1..])
  {
    if Before(a, b) {
      var k: nat :| DecidedAt(a, b, k);
      assert k > 0;
      assert a[1..][..k - 1] == a[..k][1..] && b[1..][..k - 1] == b[..k][1..];
      assert DecidedAt(a[1..], b[1..], k - 1);
    }
    if Before(a[1..], b[1..]) {
      var k: nat :| DecidedAt(a[1..], b[1..], k);
      assert a[..k + 1] == [a[0]] + a[1..][..k] && b[..k + 1] == [b[0]] + b[1..][..k];
      assert DecidedAt(a, b, k + 1);
    }
  }

  /** The sign of compare decides the lexicographic order and equality, for all byte strings. */
  lemma {:induction false} CompareDecides(a: seq<Byte>, b: seq<Byte>)
    ensures Compare(a, b) < 0 <==> Before(a, b)
    ensures Compare(a, b) > 0 <==> Before(b, a)
    ensures Compare(a, b) == 0 <==> a == b
    decreases |a|
  {
    if a == [] || b == [] || a[0] != b[0] {
      assert DecidedAt(a, b, 0) || DecidedAt(b, a, 0) || (a == [] && b == []);
      DecidedOnce(a, b);
    } else {
      CompareTails(a, b);
      BeforeTails(a, b);
      BeforeTails(b, a);
      CompareDecides(a[1..], b[1..]);
      assert a == [a[0]] + a[1..] && b == [b[0]] + b[1..];
    }
  }

  /** Where the first bytes decide, or one string is empty, nothing later does. */
  lemma {:induction false} DecidedOnce(a: seq<Byte>, b: seq<Byte>)
    requires a == [] || b == [] || a[0] != b[0]
    ensures Before(a, b) <==> DecidedAt(a, b, 0)
    ensures Before(b, a) <==> DecidedAt(b, a, 0)
  {
    forall k: nat
      ensures DecidedAt(a, b, k) ==> k == 0
      ensures DecidedAt(b, a, k) ==> k == 0
    {
      if 0 < k <= |a| && k <= |b| {
        assert a[..k][0] == a[0] && b[..k][0] == b[0];
      }
    }
  }

  // ---------- a total order ----------

  lemma {:induction false} EqualDecides(a: seq<Byte>, b: seq<Byte>)
    ensures Equal(a, b) <==> a == b
    ensures Equal(a, b) <==> Compare(a, b) == 0
  {
    CompareDecides(a, b);
  }

  lemma {:induction false} Antisymmetric(a: seq<Byte>, b: seq<Byte>)
    ensures Compare(a, b) < 0 <==> Compare(b, a) > 0
    ensures Compare(a, b) <= 0 && Compare(b, a) <= 0 ==> a == b
  {
    CompareDecides(a, b);
    CompareDecides(b, a);
  }

  lemma {:induction false} Transitive(a: seq<Byte>, b: seq<Byte>, c: seq<Byte>)
    requires Less(a, b) && Less(b, c)
    ensures Less(a, c)
  {
    CompareDecides(a, b);
    CompareDecides(b, c);
    CompareDecides(a, c);
    var i: nat :| DecidedAt(a, b, i);
    var j: nat :| DecidedAt(b, c, j);
    var k := if i < j then i else j;
    assert a[..k] == a[..i][..k] && b[..k] == b[..i][..k] == b[..j][..k] && c[..k] == c[..j][..k];
    assert i < j ==> b[..j][i] == c[..j][i];
    assert j < i ==> a[..i][j] == b[..i][j];
    assert DecidedAt(a, c, k);
  }

  /** A proper prefix sorts first. */
  lemma {:induction false} PrefixFirst(a: seq<Byte>, b: seq<Byte>)
    requires a < b
    ensures Less(a, b)
  {
    CompareDecides(a, b);
    assert a[..|a|] == a && b[..|a|] == a;
    assert DecidedAt(a, b, |a|);
  }

  /** The first byte that differs decides, as an unsigned value, whatever follows. */
  lemma {:induction false} FirstDifferenceDecides(p: seq<Byte>, x: Byte, y: Byte, a: seq<Byte>, b: seq<Byte>)
    requires x != y
    ensures Compare(p + [x] + a, p + [y] + b) < 0 <==> x < y
  {
    var s, t := p + [x] + a, p + [y] + b;
    assert s[..|p|] == p == t[..|p|] && s[|p|] == x && t[|p|] == y;
    CompareDecides(s, t);
    assert if x < y then DecidedAt(s, t, |p|) else DecidedAt(t, s, |p|);
  }

  // ---------- the object ----------

  /** A view of bytes owned elsewhere; the bytes themselves are not changed through it. */
  class Slice {
    var bytes: seq<Byte>

    constructor (bytes: seq<Byte>)
      ensures this.bytes == bytes
    {
      this.bytes := bytes;
    }

    method Clear()
      modifies this
      ensures bytes == []
    {
      bytes := [];
    }

    method RemovePrefix(n: nat)
      requires n <= |bytes|
      modifies this
      ensures old(bytes) == old(bytes)[..n] + bytes
    {
      bytes := bytes[n..];
    }

    method CompareWith(b: Slice) returns (r: int)
      ensures r < 0 <==> Before(bytes, b.bytes)
      ensures r > 0 <==> Before(b.bytes, bytes)
      ensures r == 0 <==> bytes == b.bytes
    {
      CompareDecides(bytes, b.bytes);
      r := Compare(bytes, b.bytes);
    }
  }
}
