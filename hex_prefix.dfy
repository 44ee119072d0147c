/**
 * `common_hex_len` and `iter_half_bytes`: how many leading hexadecimal
 * digits two byte strings share, used to shorten printed ids.
 */
module HexPrefix {
  import opened Bytes
  import Base16

  /** A half byte, one hexadecimal digit. */
  type nibble = x: int | 0 <= x < 16

  /**
   * `iter_half_bytes`: for index `i` below twice the length, byte `i / 2`
   * shifted right by four when `i` is even, masked with `0xf` when it is odd
   * (for a `u8`, `v >> 4` is `v / 16` and `v & 0xf` is `v % 16`).
   */
  function HalfBytes(b: seq<byte>): (r: seq<nibble>)
    ensures |r| == 2 * |b|
  {
    seq(2 * |b|, i requires 0 <= i < 2 * |b| => if i % 2 == 0 then b[i / 2] / 16 else b[i / 2] % 16)
  }

  /** Each byte expands to its high nibble, then its low nibble. */
  lemma HalfBytesCons(b: seq<byte>)
    requires b != []
    ensures HalfBytes(b) == [b[0] / 16, b[0] % 16] + HalfBytes(b[1..])
  {
    var r, t := HalfBytes(b), HalfBytes(b[1..]);
    forall i | 2 <= i < |r| ensures r[i] == t[i - 2] {
      assert (i - 2) / 2 == i / 2 - 1 && (i - 2) % 2 == i % 2;
    }
  }

  /** `zip(..).take_while(|(a, b)| a == b).count()`: the length of the longest common prefix. */
  function CommonPrefixLen<T(==)>(x: seq<T>, y: seq<T>): (k: nat)
    ensures k <= |x| && k <= |y|
    ensures x[..k] == y[..k]
    ensures k == |x| || k == |y| || x[k] != y[k]
  {
    if x == [] || y == [] || x[0] != y[0] then 0
    else
      var k := 1 + CommonPrefixLen(x[1..], y[1..]);
      assert x[..k] == [x[0]] + x[1..][..k - 1];
      assert y[..k] == [y[0]] + y[1..][..k - 1];
      k
  }

  /** The three properties single out one number: any `k` with them is the common prefix length. */
  lemma {:induction false} CommonPrefixLenUnique<T>(x: seq<T>, y: seq<T>, k: nat)
    requires k <= |x| && k <= |y|
    requires x[..k] == y[..k]
    requires k == |x| || k == |y| || x[k] != y[k]
    ensures CommonPrefixLen(x, y) == k
  {
    if k > 0 {
      assert x[0] == x[..k][0] == y[..k][0] == y[0];
      assert x[1..][..k - 1] == x[..k][1..] == y[..k][1..] == y[1..][..k - 1];
      CommonPrefixLenUnique(x[1..], y[1..], k - 1);
    }
  }

  /** `common_hex_len(a, b)`. */
  function CommonHexLen(a: seq<byte>, b: seq<byte>): (k: nat)
    ensures k <= 2 * |a| && k <= 2 * |b|
    ensures a == b ==> k == 2 * |a|
    ensures a != [] && b != [] && a[0] / 16 != b[0] / 16 ==> k == 0
  {
    var x, y := HalfBytes(a), HalfBytes(b);
    assert a != [] && b != [] ==> x[0] == a[0] / 16 && y[0] == b[0] / 16;
    CommonPrefixLen(x, y)
  }

  /** It is the number of leading hex digits the two ids' texts share. */
  lemma CommonHexLenOfHex(a: seq<byte>, b: seq<byte>)
    ensures CommonHexLen(a, b) == CommonPrefixLen(Base16.Encode(a), Base16.Encode(b))
  {
    var x, y := HalfBytes(a), HalfBytes(b);
    var ha, hb := Base16.Encode(a), Base16.Encode(b);
    var k := CommonHexLen(a, b);
    forall i | 0 <= i < |ha| ensures ha[i] == Base16.Digit(x[i]) {
      Base16.EncodeAt(a, i);
    }
    forall i | 0 <= i < |hb| ensures hb[i] == Base16.Digit(y[i]) {
      Base16.EncodeAt(b, i);
    }
    assert x[..k] == y[..k];
    forall i | 0 <= i < k ensures ha[i] == hb[i] {
      assert x[i] == x[..k][i] == y[..k][i] == y[i];
    }
    assert ha[..k] == hb[..k];
    if k < |ha| && k < |hb| {
      assert x[k] != y[k];
      Base16.DigitRoundTrip(x[k]);
      Base16.DigitRoundTrip(y[k]);
    }
    CommonPrefixLenUnique(ha, hb, k);
  }

  /** Ids printed as "1234abcd" and "1234ff00" share four hex digits. */
  lemma CommonHexLenExample()
    ensures CommonHexLen([0x12, 0x34, 0xab, 0xcd], [0x12, 0x34, 0xff, 0x00]) == 4
  {
    var x, y := HalfBytes([0x12, 0x34, 0xab, 0xcd]), HalfBytes([0x12, 0x34, 0xff, 0x00]);
    assert x[..4] == [1, 2, 3, 4] == y[..4];
    assert x[4] == 10 && y[4] == 15;
    CommonPrefixLenUnique(x, y, 4);
  }
}
