/** Bytes and the fixed-width integer encodings of Go's encoding/binary package. */
module Bytes {
  import Arith

  /** Go's `byte`. */
  type Byte = b: int | 0 <= b < 256

  const TwoTo32: nat := 0x1_0000_0000
  const TwoTo64: nat := 0x1_0000_0000_0000_0000

  /** Go's `uint32(x)` conversion: two's complement reinterpretation, keeping the low 32 bits. */
  function ToUint32(x: int): (u: nat)
    ensures u < TwoTo32
    ensures (x - u) % TwoTo32 == 0
    ensures 0 <= x < TwoTo32 ==> u == x
  {
    x % TwoTo32
  }

  /** Go's `uint64(x)` conversion of an `int64`. */
  function ToUint64(x: int): (u: nat)
    ensures u < TwoTo64
    ensures 0 <= x < TwoTo64 ==> u == x
    ensures u % TwoTo32 == x % TwoTo32
  {
    var u := x % TwoTo64;
    Arith.DivModUnique(x, TwoTo32, (x / TwoTo64) * TwoTo32 + u / TwoTo32, u % TwoTo32);
    u
  }

  function Pow256(n: nat): (p: nat)
    ensures p > 0
  {
    if n == 0 then 1 else 256 * Pow256(n - 1)
  }

  /**
   * The `width` low-order bytes of `v`, most significant first: what
   * BigEndian.PutUint32 (width 4) and BigEndian.PutUint64 (width 8) store.
   */
  function BigEndian(v: nat, width: nat): (r: seq<Byte>)
    ensures |r| == width
  {
    if width == 0 then [] else BigEndian(v / 256, width - 1) + [v % 256]
  }

  /** The unsigned value of a big-endian byte string. */
  function FromBigEndian(s: seq<Byte>): (v: nat)
    ensures v < Pow256(|s|)
  {
    if s == [] then 0
    else
      var hi := FromBigEndian(s[..|s| - 1]);
      assert hi + 1 <= Pow256(|s| - 1);
      assert (hi + 1) * 256 <= Pow256(|s| - 1) * 256;
      hi * 256 + s[|s| - 1]
  }

  /** The unsigned value of a little-endian byte string, as binary.LittleEndian.Uint64 reads it. */
  function FromLittleEndian(s: seq<Byte>): (v: nat)
    ensures v < Pow256(|s|)
  {
    if s == [] then 0
    else
      var hi := FromLittleEndian(s[1..]);
      assert (hi + 1) * 256 <= Pow256(|s| - 1) * 256;
      s[0] + 256 * hi
  }

  /** Peeling the low byte off `v` commutes with reduction modulo `256 * p`. */
  lemma ModPeel(v: nat, p: nat)
    requires p > 0
    ensures ((v / 256) % p) * 256 + v % 256 == v % (256 * p)
  {
    var q, t, r := (v / 256) / p, (v / 256) % p, v % 256;
    assert v / 256 == q * p + t;
    assert v == (v / 256) * 256 + r;
    var m := t * 256 + r;
    assert v == (q * p + t) * 256 + r;
    assert (q * p + t) * 256 == q * (256 * p) + t * 256;
    assert 0 <= m < 256 * p by {
      assert t + 1 <= p;
      assert (t + 1) * 256 <= p * 256;
    }
    Arith.DivModUnique(v, 256 * p, q, m);
  }

  /** Decoding a big-endian encoding yields the encoded value modulo the width's range. */
  lemma {:induction false} FromBigEndianOfBigEndian(v: nat, width: nat)
    ensures FromBigEndian(BigEndian(v, width)) == v % Pow256(width)
  {
    if width > 0 {
      var s := BigEndian(v, width);
      assert s[..width - 1] == BigEndian(v / 256, width - 1);
      FromBigEndianOfBigEndian(v / 256, width - 1);
      ModPeel(v, Pow256(width - 1));
    }
  }

  /** The last `b` bytes of a wider encoding are the `b`-byte encoding of the same value. */
  lemma {:induction false} BigEndianSuffix(v: nat, a: nat, b: nat)
    ensures BigEndian(v, a + b)[a..] == BigEndian(v, b)
  {
    if b > 0 {
      BigEndianSuffix(v / 256, a, b - 1);
      assert BigEndian(v, a + b) == BigEndian(v / 256, a + b - 1) + [v % 256];
    }
  }
}
