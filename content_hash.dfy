/**
 * The byte encodings that `ContentHash` hands to `digest::Update` for the
 * primitive types the object model is built from. Fixed-width integers are
 * written little-endian; a vector is its length as a `u64` followed by each
 * element in turn.
 */
module ContentHash {
  import opened Bytes

  function Pow256(width: nat): (r: nat)
    ensures r >= 1
  {
    if width == 0 then 1 else 256 * Pow256(width - 1)
  }

  /** 2^64: every length a Rust slice can have is below it. */
  const U64_LIMIT: nat := 0x1_0000_0000_0000_0000

  lemma Pow256Eight()
    ensures Pow256(8) == U64_LIMIT
  {
    assert Pow256(4) == 0x1_0000_0000 by {
      assert Pow256(2) == 0x1_0000;
    }
    assert Pow256(8) == Pow256(4) * Pow256(4) by {
      assert Pow256(8) == 256 * 256 * 256 * 256 * Pow256(4);
    }
  }

  /**
   * `to_le_bytes()` of an unsigned integer that is `width` bytes wide. The
   * bits above the width are dropped, which is what Rust's `as` cast to that
   * width does.
   */
  function LittleEndian(n: nat, width: nat): (r: seq<byte>)
    ensures |r| == width
  {
    if width == 0 then [] else [n % 256] + LittleEndian(n / 256, width - 1)
  }

  /** The number a little-endian byte string stands for. */
  function LittleEndianValue(s: seq<byte>): (r: nat)
    ensures r < Pow256(|s|)
  {
    if s == [] then 0 else s[0] + 256 * LittleEndianValue(s[1..])
  }

  lemma {:induction false} LittleEndianRoundTrip(n: nat, width: nat)
    requires n < Pow256(width)
    ensures LittleEndianValue(LittleEndian(n, width)) == n
  {
    if width > 0 {
      LittleEndianRoundTrip(n / 256, width - 1);
      var s := LittleEndian(n, width);
      assert s[0] == n % 256 && s[1..] == LittleEndian(n / 256, width - 1);
    }
  }

  /** Numbers that fit the width have distinct encodings. */
  lemma LittleEndianInjective(n: nat, m: nat, width: nat)
    requires n < Pow256(width) && m < Pow256(width)
    requires LittleEndian(n, width) == LittleEndian(m, width)
    ensures n == m
  {
    LittleEndianRoundTrip(n, width);
    LittleEndianRoundTrip(m, width);
  }

  /** `n.to_le_bytes()` for a `u32`. */
  function U32(n: nat): (r: seq<byte>)
    requires n < Pow256(4)
    ensures |r| == 4 && LittleEndianValue(r) == n
  {
    LittleEndianRoundTrip(n, 4);
    LittleEndian(n, 4)
  }

  /** `(n as u64).to_le_bytes()`: a `usize` length written as a `u64`. */
  function U64(n: nat): (r: seq<byte>)
    ensures |r| == 8
    ensures n < U64_LIMIT ==> LittleEndianValue(r) == n
  {
    Pow256Eight();
    if n < U64_LIMIT then LittleEndianRoundTrip(n, 8); LittleEndian(n, 8)
    else LittleEndian(n, 8)
  }

  /** A `bool` hashes as the `u8` 1 or 0. */
  function Bool(b: bool): (r: seq<byte>)
    ensures |r| == 1 && (r[0] == 1 <==> b)
  {
    [if b then 1 else 0]
  }

  /** A length a Rust vector can have. */
  predicate Representable(n: nat) {
    n < U64_LIMIT
  }

  /** `Vec<u8>`: the length as a `u64`, then each byte (a `u8` hashes as itself). */
  function ByteVec(b: seq<byte>): (r: seq<byte>)
    ensures |r| == 8 + |b| && r[8..] == b
    ensures Representable(|b|) ==> LittleEndianValue(r[..8]) == |b|
  {
    U64(|b|) + b
  }

  /** Cancelling a common prefix of two concatenations. */
  lemma CancelPrefix(a: seq<byte>, p: seq<byte>, q: seq<byte>)
    requires a + p == a + q
    ensures p == q
  {
    assert p == (a + p)[|a|..];
    assert q == (a + q)[|a|..];
  }

  /**
   * No encoding of a byte vector is a proper prefix of another: whatever
   * follows it in a stream, the vector is read back unambiguously.
   */
  lemma ByteVecPrefixFree(a: seq<byte>, b: seq<byte>, x: seq<byte>, y: seq<byte>)
    requires Representable(|a|) && Representable(|b|)
    requires ByteVec(a) + x == ByteVec(b) + y
    ensures a == b && x == y
  {
    var s := ByteVec(a) + x;
    assert s[..8] == ByteVec(a)[..8] == ByteVec(b)[..8];
    assert |a| == |b|;
    assert a == s[8..8 + |a|] == b;
    CancelPrefix(ByteVec(a), x, y);
  }
}
