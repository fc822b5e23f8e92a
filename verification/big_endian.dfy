/**
 * Big-endian (most significant byte first) fixed-width integers, as Go's
 * `encoding/binary.BigEndian` writes and reads them.
 */
module BigEndian {
  import opened Ints

  /** 256 to the power `n`: one more than the largest `n`-byte value. */
  function Pow256(n: nat): (p: nat)
    ensures p > 0
  {
    if n == 0 then 1 else 256 * Pow256(n - 1)
  }

  lemma Pow256Eight()
    ensures Pow256(8) == TwoTo64
  {
  }

  /** The number the bytes `bs` denote, most significant byte first. */
  function FromBytes(bs: seq<byte>): (v: nat)
    ensures v < Pow256(|bs|)
  {
    if |bs| == 0 then 0 else FromBytes(bs[..|bs| - 1]) * 256 + bs[|bs| - 1]
  }

  /** All-zero bytes denote zero. */
  lemma {:induction false} ZerosDenoteZero(bs: seq<byte>)
    requires forall i :: 0 <= i < |bs| ==> bs[i] == 0
    ensures FromBytes(bs) == 0
  {
    if |bs| > 0 {
      ZerosDenoteZero(bs[..|bs| - 1]);
    }
  }

  /** The `n`-byte big-endian representation of `v`. */
  function ToBytes(n: nat, v: nat): (bs: seq<byte>)
    requires v < Pow256(n)
    ensures |bs| == n
    ensures FromBytes(bs) == v
  {
    if n == 0 then []
    else
      var high := ToBytes(n - 1, v / 256);
      assert (high + [v % 256])[..n - 1] == high;
      high + [v % 256]
  }

  /** Every `n`-byte sequence is the representation of the number it denotes. */
  lemma {:induction false} ToBytesFromBytes(bs: seq<byte>)
    ensures ToBytes(|bs|, FromBytes(bs)) == bs
  {
    if |bs| > 0 {
      var n := |bs|;
      var high := bs[..n - 1];
      ToBytesFromBytes(high);
      var v := FromBytes(bs);
      assert v / 256 == FromBytes(high) && v % 256 == bs[n - 1];
      assert bs == high + [bs[n - 1]];
    }
  }

  /** Dividing by `a` and then by `b` is dividing by `a * b`. */
  lemma DivDiv(v: nat, a: nat, b: nat)
    requires a > 0 && b > 0
    ensures v / a / b == v / (a * b)
  {
    var q, r := v / a, v % a;
    var q2, r2 := q / b, q % b;
    MulAdd(a, b * q2, r2);
    MulAssoc(a, b, q2);
    assert v == (a * b) * q2 + (a * r2 + r);
    MulLe(a, r2, b - 1);
    MulAdd(a, b - 1, 1);
    DivUnique(v, a * b, q2, a * r2 + r);
  }

  lemma MulAdd(a: int, x: int, y: int)
    ensures a * (x + y) == a * x + a * y
  {
  }

  lemma MulAssoc(a: int, b: int, c: int)
    ensures a * (b * c) == (a * b) * c
  {
  }

  lemma MulLe(d: nat, x: int, y: int)
    requires x <= y
    ensures d * x <= d * y
  {
    MulAdd(d, x, y - x);
  }

  /** The quotient is the unique `q` with `v == d * q + r` and `0 <= r < d`. */
  lemma DivUnique(v: nat, d: nat, q: int, r: int)
    requires d > 0 && 0 <= r < d && v == d * q + r
    ensures v / d == q
  {
    var q0, r0 := v / d, v % d;
    assert v == d * q0 + r0;
    if q0 < q {
      MulLe(d, q0 + 1, q);
      MulAdd(d, q0, 1);
    } else if q0 > q {
      MulLe(d, q + 1, q0);
      MulAdd(d, q, 1);
    }
  }

  /** Byte `i` of the representation is the `i`-th most significant base-256 digit. */
  lemma {:induction false} ToBytesDigit(n: nat, v: nat, i: nat)
    requires v < Pow256(n) && i < n
    ensures ToBytes(n, v)[i] == v / Pow256(n - 1 - i) % 256
  {
    if i < n - 1 {
      ToBytesDigit(n - 1, v / 256, i);
      DivDiv(v, 256, Pow256(n - 2 - i));
      assert Pow256(n - 1 - i) == 256 * Pow256(n - 2 - i);
    }
  }

  lemma ToBytesDigits(n: nat, v: nat)
    requires v < Pow256(n)
    ensures forall i :: 0 <= i < n ==> ToBytes(n, v)[i] == v / Pow256(n - 1 - i) % 256
  {
    forall i | 0 <= i < n
      ensures ToBytes(n, v)[i] == v / Pow256(n - 1 - i) % 256
    {
      ToBytesDigit(n, v, i);
    }
  }

  /** Go's `binary.BigEndian.PutUint64`, returning the eight bytes written. */
  function PutUint64(v: uint64): (bs: seq<byte>)
    ensures |bs| == 8
    ensures forall i :: 0 <= i < 8 ==> bs[i] == v / Pow256(7 - i) % 256
    ensures Uint64(bs) == v
  {
    Pow256Eight();
    ToBytesDigits(8, v);
    ToBytes(8, v)
  }

  /** Go's `binary.BigEndian.Uint64`. */
  function Uint64(bs: seq<byte>): (v: uint64)
    requires |bs| == 8
  {
    Pow256Eight();
    FromBytes(bs)
  }
}
