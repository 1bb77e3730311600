/** Native storage as one flat byte sequence: an address is an index and
    allocation appends zero bytes at the end. The source's
    unsafe.Pointer arithmetic becomes arithmetic on these addresses.
    Address 0 is nil: byte 0 is a reserved page that is never allocated,
    and touching it is a nil dereference. */
module Memory {

  import opened Base
  import opened Errors

  /** The heap always holds the reserved nil page. */
  type Heap = m: seq<byte> | |m| > 0 witness [0]

  /** The n bytes at address a exist and are not the nil page. */
  predicate InBounds(mem: Heap, a: nat, n: nat)
  {
    (n == 0 || a > 0) && a + n <= |mem|
  }

  /** Why an access of n bytes at a fails: nil, or outside the heap. */
  function AccessFault(a: nat): Fault
  {
    if a == 0 then NilDeref else BadAddress
  }

  /** Read n bytes at a. */
  function Load(mem: Heap, a: nat, n: nat): (r: Result<seq<byte>>)
    ensures r.Ok? <==> InBounds(mem, a, n)
    ensures r.Ok? ==> |r.value| == n
    ensures !r.Ok? ==> r == Fail(AccessFault(a))
  {
    if InBounds(mem, a, n) then Ok(mem[a..a + n]) else Fail(AccessFault(a))
  }

  /** Overwrite the bytes at a with bs. */
  function Store(mem: Heap, a: nat, bs: seq<byte>): (r: Result<Heap>)
    ensures r.Ok? <==> InBounds(mem, a, |bs|)
    ensures !r.Ok? ==> r == Fail(AccessFault(a))
    ensures r.Ok? ==> |r.value| == |mem|
  {
    if InBounds(mem, a, |bs|) then
      var stored: Heap := mem[..a] + bs + mem[a + |bs|..];
      Ok(stored)
    else Fail(AccessFault(a))
  }

  function Zeros(n: nat): (r: seq<byte>)
    ensures |r| == n && forall k :: 0 <= k < n ==> r[k] == 0
  {
    seq(n, k => 0)
  }

  /** Fresh storage appended to the heap reads as zeros and leaves the
      old heap as its prefix. */
  lemma LoadAppended(mem: Heap, n: nat)
    ensures (mem + Zeros(n))[..|mem|] == mem
    ensures Load(mem + Zeros(n), |mem|, n) == Ok(Zeros(n))
  {
    assert Load(mem + Zeros(n), |mem|, n).value == Zeros(n);
  }

  /** Reading back what was stored gives it. */
  lemma LoadStore(mem: Heap, a: nat, bs: seq<byte>)
    requires InBounds(mem, a, |bs|)
    ensures Load(Store(mem, a, bs).value, a, |bs|) == Ok(bs)
  {
    assert Load(Store(mem, a, bs).value, a, |bs|).value == bs;
  }

  /** A store leaves every range it does not touch as it was. */
  lemma LoadStoreElsewhere(mem: Heap, a: nat, bs: seq<byte>, b: nat, n: nat)
    requires InBounds(mem, a, |bs|)
    requires b + n <= a || a + |bs| <= b
    ensures Load(Store(mem, a, bs).value, b, n) == Load(mem, b, n)
  {
    var m' := Store(mem, a, bs).value;
    if InBounds(mem, b, n) {
      assert Load(m', b, n).value == Load(mem, b, n).value;
    }
  }

  /** Every window of fresh storage reads as zeros. */
  lemma LoadZeros(mem: Heap, n: nat, off: nat, m: nat)
    requires off + m <= n
    ensures Load(mem + Zeros(n), |mem| + off, m) == Ok(Zeros(m))
  {
    assert Load(mem + Zeros(n), |mem| + off, m).value == Zeros(m);
  }

  /** After copying n bytes from src at a to dst at b, every window of the
      copy reads as the same window of the source. */
  lemma LoadCopied(src: Heap, dst: Heap, a: nat, b: nat, n: nat, off: nat, m: nat)
    requires InBounds(src, a, n) && InBounds(dst, b, n) && off + m <= n
    ensures Load(Store(dst, b, Load(src, a, n).value).value, b + off, m) == Load(src, a + off, m)
  {
    var bs := Load(src, a, n).value;
    var d := Store(dst, b, bs).value;
    LoadStore(dst, b, bs);
    LoadWithin(d, b, n, off, m);
    LoadWithin(src, a, n, off, m);
  }

  /** A window inside a loaded range is the same window of the load. */
  lemma LoadWithin(mem: Heap, a: nat, n: nat, off: nat, m: nat)
    requires InBounds(mem, a, n) && off + m <= n
    ensures Load(mem, a + off, m) == Ok(Load(mem, a, n).value[off..off + m])
  {
    var whole := mem[a..a + n];
    var part := mem[a + off..a + off + m];
    forall k | 0 <= k < m
      ensures part[k] == whole[off..off + m][k]
    {
      assert whole[off + k] == mem[a + (off + k)];
    }
    assert part == whole[off..off + m];
  }
}
