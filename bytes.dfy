/**
 * Byte strings and the order Rust derives for `Vec<u8>` and `[u8]`:
 * lexicographic on the bytes, a proper prefix sorting first.
 */
module Bytes {
  /** An unsigned 8-bit value, Rust's `u8`. */
  type byte = x: int | 0 <= x < 256

  /**
   * Strict lexicographic order on byte strings: a proper prefix sorts first,
   * and otherwise the first byte where the two differ decides.
   */
  function Less(a: seq<byte>, b: seq<byte>): (r: bool)
    ensures |a| < |b| && a == b[..|a|] ==> r
    ensures |b| <= |a| && b == a[..|b|] ==> !r
    ensures forall k :: 0 <= k < |a| && k < |b| && a[..k] == b[..k] && a[k] != b[k] ==> (r <==> a[k] < b[k])
    decreases |a|
  {
    if a == [] then b != []
    else if b == [] then false
    else if a[0] != b[0] then a[0] < b[0]
    else
      TailPrefixes(a, b);
      Less(a[1..], b[1..])
  }

  /** A common prefix of two strings, less its first byte, is a common prefix of their tails. */
  lemma TailPrefixes(a: seq<byte>, b: seq<byte>)
    requires a != [] && b != []
    ensures forall k :: 0 < k < |a| && k < |b| && a[..k] == b[..k] ==>
      a[1..][..k - 1] == b[1..][..k - 1] && a[1..][k - 1] == a[k] && b[1..][k - 1] == b[k]
  {
    forall k | 0 < k < |a| && k < |b| && a[..k] == b[..k]
      ensures a[1..][..k - 1] == b[1..][..k - 1]
    {
      assert a[1..][..k - 1] == a[..k][1..];
      assert b[1..][..k - 1] == b[..k][1..];
    }
  }

  lemma {:induction false} LessIrreflexive(a: seq<byte>)
    ensures !Less(a, a)
    decreases |a|
  {
    if a != [] {
      LessIrreflexive(a[1..]);
    }
  }

  lemma {:induction false} LessAsymmetric(a: seq<byte>, b: seq<byte>)
    requires Less(a, b)
    ensures !Less(b, a)
    decreases |a|
  {
    if a != [] && a[0] == b[0] {
      LessAsymmetric(a[1..], b[1..]);
    }
  }

  lemma {:induction false} LessTransitive(a: seq<byte>, b: seq<byte>, c: seq<byte>)
    requires Less(a, b) && Less(b, c)
    ensures Less(a, c)
    decreases |a|
  {
    if a != [] && a[0] == b[0] && b[0] == c[0] {
      LessTransitive(a[1..], b[1..], c[1..]);
    }
  }

  /** Any two byte strings are equal or ordered one way or the other. */
  lemma {:induction false} LessTotal(a: seq<byte>, b: seq<byte>)
    ensures a == b || Less(a, b) || Less(b, a)
    decreases |a|
  {
    if a != [] && b != [] && a[0] == b[0] {
      LessTotal(a[1..], b[1..]);
      assert a == [a[0]] + a[1..] && b == [b[0]] + b[1..];
    }
  }
}
