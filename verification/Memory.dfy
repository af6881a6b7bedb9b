/** memcpy and memmove on arrays. */
module Memory {

  /** dst after src has been copied to offset at. */
  function Overlay<E>(dst: seq<E>, at: nat, src: seq<E>): (r: seq<E>)
    requires at + |src| <= |dst|
    ensures |r| == |dst|
  {
    dst[..at] + src + dst[at + |src|..]
  }

  /** Writes src into dst at an offset and nothing else; src is read before dst changes. */
  method Copy<E>(dst: array<E>, at: nat, src: seq<E>)
    requires at + |src| <= dst.Length
    modifies dst
    ensures dst[..] == Overlay(old(dst[..]), at, src)
    ensures dst[at..at + |src|] == src
  {
    forall i | 0 <= i < |src| {
      dst[at + i] := src[i];
    }
  }

  lemma {:induction false} OverlayFront<E>(dst: seq<E>, src: seq<E>)
    requires |src| <= |dst|
    ensures Overlay(dst, 0, src)[..|src|] == src
  {
  }

  lemma {:induction false} OverlayAll<E>(dst: seq<E>, src: seq<E>)
    requires |src| == |dst|
    ensures Overlay(dst, 0, src) == src
  {
  }

  /** A slice from the end of the copied bytes on. */
  lemma {:induction false} OverlayBehind<E>(dst: seq<E>, at: nat, src: seq<E>, hi: nat)
    requires at + |src| <= hi <= |dst|
    ensures Overlay(dst, at, src)[at..hi] == src + dst[at + |src|..hi]
  {
  }

  /** A slice up to the end of the copied bytes. */
  lemma {:induction false} OverlayBefore<E>(dst: seq<E>, at: nat, src: seq<E>, lo: nat)
    requires lo <= at && at + |src| <= |dst|
    ensures Overlay(dst, at, src)[lo..at + |src|] == dst[lo..at] + src
  {
  }

  /** Dropping all of the first part and some of the second. */
  lemma {:induction false} DropAppend<E>(a: seq<E>, b: seq<E>, i: nat, j: nat)
    requires i == |a| + j && j <= |b|
    ensures (a + b)[i..] == b[j..]
  {
  }

  lemma {:induction false} TakeDrop<E>(a: seq<E>, n: nat)
    requires n <= |a|
    ensures a[..n] + a[n..] == a
  {
  }
}
