/** Native integers as bytes: little-endian order (the native order the
    package assumes, pkg/ffi/value_endian_test.go:17), truncation to a
    width, and sign extension. Widths are counted in bytes. */
module Bytes {

  import opened Base
  import opened Arith

  /** 256 to the power n: the number of values n bytes can hold. */
  function Pow256(n: nat): (r: nat)
    ensures r >= 1
  {
    if n == 0 then 1 else 256 * Pow256(n - 1)
  }

  /** Half the range of a width: the first value whose sign bit is set. */
  function Half(w: nat): (r: nat)
    requires w >= 1
    ensures 2 * r == Pow256(w)
  {
    128 * Pow256(w - 1)
  }

  /** The unsigned number a little-endian byte sequence denotes. */
  function FromLE(bs: seq<byte>): (r: nat)
    ensures r < Pow256(|bs|)
  {
    if |bs| == 0 then 0 else bs[0] as nat + 256 * FromLE(bs[1..])
  }

  /** The n little-endian bytes of an unsigned number below 256^n. */
  function ToLE(x: nat, n: nat): (r: seq<byte>)
    requires x < Pow256(n)
    ensures |r| == n
    ensures FromLE(r) == x
  {
    if n == 0 then [] else [(x % 256) as byte] + ToLE(x / 256, n - 1)
  }

  /** Decoding then re-encoding a byte sequence gives it back, so ToLE
      and FromLE are mutually inverse on n-byte values. */
  lemma {:induction false} ToFromLE(bs: seq<byte>)
    ensures ToLE(FromLE(bs), |bs|) == bs
  {
    if |bs| > 0 {
      ToFromLE(bs[1..]);
      var rest := FromLE(bs[1..]);
      ModUnique(FromLE(bs), 256, rest, bs[0] as nat);
    }
  }

  /** Truncation to w bytes, as a Go conversion to a w-byte integer type
      does: keep the low 8*w bits. Dafny's % is Euclidean, which is the
      two's complement truncation for negative inputs too. */
  function Truncate(x: int, w: nat): (r: nat)
    ensures r < Pow256(w)
  {
    x % Pow256(w)
  }

  /** Sign extension of a w-byte pattern: its two's complement reading. */
  function SignExtend(u: nat, w: nat): (r: int)
    requires w >= 1 && u < Pow256(w)
    ensures -(Half(w) as int) <= r < Half(w)
    ensures Truncate(r, w) == u
  {
    if u >= Half(w) then
      ModUnique(u - Pow256(w), Pow256(w), -1, u);
      u - Pow256(w)
    else
      ModUnique(u, Pow256(w), 0, u);
      u
  }

  predicate InSigned(x: int, w: nat)
    requires w >= 1
  {
    -(Half(w) as int) <= x < Half(w)
  }

  predicate InUnsigned(x: int, w: nat)
  {
    0 <= x < Pow256(w)
  }

  /** A value in the signed range of a width survives truncation followed
      by sign extension; one in the unsigned range survives truncation. */
  lemma TruncateInverse(x: int, w: nat)
    requires w >= 1
    ensures InSigned(x, w) ==> SignExtend(Truncate(x, w), w) == x
    ensures InUnsigned(x, w) ==> Truncate(x, w) == x
  {
    var p := Pow256(w);
    if 0 <= x < p {
      ModUnique(x, p, 0, x);
    } else if InSigned(x, w) {
      ModUnique(x, p, -1, x + p);
    }
  }

  /** Go's wrap-around for signed w-byte arithmetic: the sign-extended
      low bytes of x. A value already in range is its own wrap. */
  function WrapSigned(x: int, w: nat): (r: int)
    requires w >= 1
    ensures InSigned(r, w)
    ensures InSigned(x, w) ==> r == x
  {
    TruncateInverse(x, w);
    SignExtend(Truncate(x, w), w)
  }

  /** A wider width holds at least as many values. */
  lemma {:induction false} Pow256Monotone(w: nat, n: nat)
    requires w <= n
    ensures Pow256(w) <= Pow256(n)
  {
    if w < n {
      Pow256Monotone(w, n - 1);
    }
  }
}
