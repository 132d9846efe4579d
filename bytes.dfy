// Octets, 32-bit network byte order and in-memory copies, shared by the
// tunnel daemon, the hub and the driver models.

module Bytes {

  /** An octet, as the C code's u_char / UCHAR. */
  newtype byte = x: int | 0 <= x < 256

  const TWO32: int := 0x1_0000_0000
  const TWO31: int := 0x8000_0000

  /** A value that fits a 32-bit unsigned C integer (u_long, ULONG, DWORD). */
  predicate IsU32(x: int) { 0 <= x < TWO32 }

  /** htonl followed by a byte-wise store: the four octets of x, most significant first. */
  function BigEndian32(x: int): (r: seq<byte>)
    requires IsU32(x)
    ensures |r| == 4
  {
    var r1 := x % 0x100_0000;
    var r2 := r1 % 0x1_0000;
    [(x / 0x100_0000) as byte, (r1 / 0x1_0000) as byte, (r2 / 0x100) as byte, (r2 % 0x100) as byte]
  }

  /** ntohl of four stored octets. */
  function FromBigEndian32(b: seq<byte>): (r: int)
    requires |b| == 4
    ensures IsU32(r)
  {
    b[0] as int * 0x100_0000 + b[1] as int * 0x1_0000 + b[2] as int * 0x100 + b[3] as int
  }

  /** ntohl undoes htonl. */
  lemma BigEndian32RoundTrip(x: int)
    requires IsU32(x)
    ensures FromBigEndian32(BigEndian32(x)) == x
  {
    var r1 := x % 0x100_0000;
    var r2 := r1 % 0x1_0000;
    assert x == (x / 0x100_0000) * 0x100_0000 + r1;
    assert r1 == (r1 / 0x1_0000) * 0x1_0000 + r2;
    assert r2 == (r2 / 0x100) * 0x100 + r2 % 0x100;
  }

  /** htonl undoes ntohl: four octets are determined by their value. */
  lemma FromBigEndian32RoundTrip(b: seq<byte>)
    requires |b| == 4
    ensures BigEndian32(FromBigEndian32(b)) == b
  {
    var x := FromBigEndian32(b);
    var r2 := b[2] as int * 0x100 + b[3] as int;
    var r1 := b[1] as int * 0x1_0000 + r2;
    assert 0 <= r2 < 0x1_0000 && 0 <= r1 < 0x100_0000;
    assert x == b[0] as int * 0x100_0000 + r1;
    assert x / 0x100_0000 == b[0] as int && x % 0x100_0000 == r1;
    assert r1 / 0x1_0000 == b[1] as int && r1 % 0x1_0000 == r2;
    assert r2 / 0x100 == b[2] as int && r2 % 0x100 == b[3] as int;
  }

  /** Storing a 32-bit unsigned value into a C int: two's complement reinterpretation. */
  function ToInt32(u: int): (r: int)
    requires IsU32(u)
    ensures -TWO31 <= r < TWO31
    ensures (r - u) % TWO32 == 0
  {
    if u < TWO31 then u else u - TWO32
  }

  /** A C int is preserved by the round trip through an unsigned 32-bit value. */
  lemma ToInt32Small(u: int)
    requires 0 <= u < TWO31
    ensures ToInt32(u) == u
  {
  }

  /** n zero octets, as memset(p, 0x0, n). */
  function Zeros(n: nat): (r: seq<byte>)
    ensures |r| == n
    ensures forall i :: 0 <= i < n ==> r[i] == 0
  {
    seq(n, _ => 0)
  }

  /**
   * The contents of a buffer after memcpy(dst + off, src, |src|): the bytes
   * before off and after off + |src| are kept, the window holds src.
   */
  function Splice(dst: seq<byte>, off: int, src: seq<byte>): (r: seq<byte>)
    requires 0 <= off && off + |src| <= |dst|
    ensures |r| == |dst|
    ensures forall i :: 0 <= i < off ==> r[i] == dst[i]
    ensures forall i :: 0 <= i < |src| ==> r[off + i] == src[i]
    ensures forall i :: off + |src| <= i < |dst| ==> r[i] == dst[i]
  {
    dst[..off] + src + dst[off + |src|..]
  }

  /** Copying nothing leaves the buffer as it was. */
  lemma SpliceEmpty(dst: seq<byte>, off: int)
    requires 0 <= off <= |dst|
    ensures Splice(dst, off, []) == dst
  {
    assert dst[..off] + dst[off..] == dst;
  }

  /** Two adjacent copies are one copy of the concatenation. */
  lemma SpliceAdjacent(dst: seq<byte>, off: int, x: seq<byte>, y: seq<byte>)
    requires 0 <= off && off + |x| + |y| <= |dst|
    ensures Splice(Splice(dst, off, x), off + |x|, y) == Splice(dst, off, x + y)
  {
    var a := Splice(Splice(dst, off, x), off + |x|, y);
    var b := Splice(dst, off, x + y);
    assert |a| == |b|;
    forall i | 0 <= i < |a| ensures a[i] == b[i] {
      if i < off {
      } else if i < off + |x| {
        assert a[i] == x[i - off];
        assert b[i] == (x + y)[i - off];
      } else if i < off + |x| + |y| {
        assert a[i] == y[i - off - |x|];
        assert b[i] == (x + y)[i - off];
      }
    }
  }

  /** The buffer up to the end of a copy: the bytes before it, then the copied bytes. */
  lemma SpliceUpTo(dst: seq<byte>, off: int, src: seq<byte>)
    requires 0 <= off && off + |src| <= |dst|
    ensures Splice(dst, off, src)[..off + |src|] == dst[..off] + src
  {
  }

  /** What a copy of a prefix of the window leaves in the window. */
  lemma SplicePrefix(dst: seq<byte>, off: int, src: seq<byte>, k: int)
    requires 0 <= off && off + |src| <= |dst| && 0 <= k <= |src|
    ensures Splice(dst, off, src)[off..off + k] == src[..k]
  {
  }

  /** memcpy(a + off, src, |src|); NdisMoveMemory in the driver. */
  method CopyInto(a: array<byte>, off: int, src: seq<byte>)
    requires 0 <= off && off + |src| <= a.Length
    modifies a
    ensures a[..] == Splice(old(a[..]), off, src)
  {
    var i := 0;
    while i < |src|
      invariant 0 <= i <= |src|
      invariant forall k :: 0 <= k < off ==> a[k] == old(a[k])
      invariant forall k :: 0 <= k < i ==> a[off + k] == src[k]
      invariant forall k :: off + i <= k < a.Length ==> a[k] == old(a[k])
    {
      a[off + i] := src[i];
      i := i + 1;
    }
    assert forall k :: 0 <= k < a.Length ==> a[..][k] == Splice(old(a[..]), off, src)[k];
  }
}
