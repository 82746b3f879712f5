/**
 * Little-endian encoding of the scalar kinds, as the binary body lays them
 * out: a value of kind `k` occupies `Width(k)` bytes, least significant byte
 * first; signed kinds use two's complement, float kinds are their bit pattern.
 */
module LittleEndian {
  import opened Metas

  function Pow256(n: nat): (p: nat)
    ensures p > 0
  {
    if n == 0 then 1 else 256 * Pow256(n - 1)
  }

  /** The `n` bytes of `v`, least significant first. */
  function ToLe(v: nat, n: nat): (bs: seq<Byte>)
    requires v < Pow256(n)
    ensures |bs| == n
  {
    if n == 0 then [] else [v % 256] + ToLe(v / 256, n - 1)
  }

  /** Byte `i` of the encoding is digit `i` of `v` in base 256: the least significant byte comes first. */
  lemma {:induction false} ToLeDigit(v: nat, n: nat, i: nat)
    requires v < Pow256(n) && i < n
    ensures ToLe(v, n)[i] == (v / Pow256(i)) % 256
  {
    if i > 0 {
      ToLeDigit(v / 256, n - 1, i - 1);
      DivDiv256(v, Pow256(i - 1));
    }
  }

  /** Dividing by 256 and then by `b` is dividing by `256 * b`. */
  lemma DivDiv256(v: nat, b: nat)
    requires b > 0
    ensures v / 256 / b == v / (256 * b)
  {
    var q := v / 256 / b;
    var t := v - 256 * b * q;
    assert v / 256 == b * q + v / 256 % b;
    assert 0 <= t < 256 * b;
    DivUnique(v, 256 * b, q, t);
  }

  /** The quotient is determined by a remainder in range. */
  lemma DivUnique(v: nat, d: nat, q: nat, t: nat)
    requires d > 0 && v == d * q + t && t < d
    ensures v / d == q
  {
    var q0 := v / d;
    var t0 := v % d;
    assert d * (q - q0) == t0 - t by {
      assert d * (q - q0) == d * q - d * q0;
    }
    MulFarFromZero(d, q - q0);
  }

  /** A nonzero multiple of `d` is at least `d` away from zero. */
  lemma {:induction false} MulFarFromZero(d: nat, x: int)
    requires d > 0
    ensures x != 0 ==> d * x >= d || d * x <= -(d as int)
    decreases if x < 0 then -x else x
  {
    if x > 1 {
      MulFarFromZero(d, x - 1);
      assert d * x == d * (x - 1) + d;
    } else if x < -1 {
      MulFarFromZero(d, x + 1);
      assert d * x == d * (x + 1) - d;
    }
  }

  /** The unsigned number whose little-endian bytes are `bs`. */
  function FromLe(bs: seq<Byte>): (v: nat)
    ensures v < Pow256(|bs|)
  {
    if |bs| == 0 then 0 else bs[0] + 256 * FromLe(bs[1..])
  }

  lemma {:induction false} FromLeToLe(v: nat, n: nat)
    requires v < Pow256(n)
    ensures FromLe(ToLe(v, n)) == v
  {
    if n > 0 {
      FromLeToLe(v / 256, n - 1);
      assert ToLe(v, n)[1..] == ToLe(v / 256, n - 1);
    }
  }

  lemma {:induction false} ToLeFromLe(bs: seq<Byte>)
    ensures ToLe(FromLe(bs), |bs|) == bs
  {
    if |bs| > 0 {
      var v := FromLe(bs);
      assert v % 256 == bs[0];
      assert v / 256 == FromLe(bs[1..]);
      ToLeFromLe(bs[1..]);
    }
  }

  lemma BoundIsPow256(k: ValueKind)
    ensures Bound(k) == Pow256(Width(k))
  {
    assert Pow256(1) == 0x100;
    assert Pow256(2) == 0x1_0000;
    assert Pow256(4) == 0x1_0000_0000 by {
      assert Pow256(3) == 0x100_0000;
    }
    assert Pow256(8) == 0x1_0000_0000_0000_0000 by {
      assert Pow256(5) == 0x100_0000_0000;
      assert Pow256(6) == 0x1_0000_0000_0000;
      assert Pow256(7) == 0x100_0000_0000_0000;
    }
  }

  /** The bit pattern of `v`: two's complement for the signed kinds. */
  function ToBits(k: ValueKind, v: int): (u: nat)
    requires InRange(k, v)
    ensures u < Bound(k)
  {
    if v < 0 then v + Bound(k) else v
  }

  /** The value of kind `k` with bit pattern `u`. */
  function FromBits(k: ValueKind, u: nat): (v: int)
    requires u < Bound(k)
    ensures InRange(k, v)
  {
    if IsSigned(k) && u >= Bound(k) / 2 then u - Bound(k) else u
  }

  lemma FromBitsToBits(k: ValueKind, v: int)
    requires InRange(k, v)
    ensures FromBits(k, ToBits(k, v)) == v
  {
  }

  lemma ToBitsFromBits(k: ValueKind, u: nat)
    requires u < Bound(k)
    ensures ToBits(k, FromBits(k, u)) == u
  {
  }

  /**
   * The bytes `write_<kind>::<LittleEndian>` emits for one value. Its partner
   * is `DecodeScalar`; `DecodeEncodeScalar` and `EncodeDecodeScalar` connect them.
   */
  function EncodeScalar(k: ValueKind, v: int): (bs: seq<Byte>)
    requires InRange(k, v)
    ensures |bs| == Width(k)
  {
    BoundIsPow256(k);
    ToLe(ToBits(k, v), Width(k))
  }

  /** The value `read_<kind>::<LittleEndian>` returns for `Width(k)` bytes. */
  function DecodeScalar(k: ValueKind, bs: seq<Byte>): (v: int)
    requires |bs| == Width(k)
    ensures InRange(k, v)
  {
    BoundIsPow256(k);
    FromBits(k, FromLe(bs))
  }

  lemma DecodeEncodeScalar(k: ValueKind, v: int)
    requires InRange(k, v)
    ensures DecodeScalar(k, EncodeScalar(k, v)) == v
  {
    BoundIsPow256(k);
    FromLeToLe(ToBits(k, v), Width(k));
    FromBitsToBits(k, v);
  }

  lemma EncodeDecodeScalar(k: ValueKind, bs: seq<Byte>)
    requires |bs| == Width(k)
    ensures EncodeScalar(k, DecodeScalar(k, bs)) == bs
  {
    BoundIsPow256(k);
    ToBitsFromBits(k, FromLe(bs));
    ToLeFromLe(bs);
  }
}
