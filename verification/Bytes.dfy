/**
 Bytes, 32-bit integers, and how they are stored in memory.
 */
module Bytes {

  type byte = b: int | 0 <= b < 256

  type int32 = i: int | -0x8000_0000 <= i < 0x8000_0000

  /** `static_cast<int32_t>` of a size. */
  function AsInt32(n: nat): int32 {
    var u := n % 0x1_0000_0000;
    if u < 0x8000_0000 then u else u - 0x1_0000_0000
  }

  /** Four bytes as an integer, least significant byte first. */
  function Load(b: seq<byte>): int32
    requires |b| == 4
  {
    AsInt32(b[0] as int + 0x100 * (b[1] as int) + 0x1_0000 * (b[2] as int) + 0x100_0000 * (b[3] as int))
  }

  function Store(i: int32): (b: seq<byte>)
    ensures |b| == 4
  {
    var u := if i < 0 then i + 0x1_0000_0000 else i;
    [u % 0x100, u / 0x100 % 0x100, u / 0x100 / 0x100 % 0x100, u / 0x100 / 0x100 / 0x100]
  }

  lemma LoadStored(i: int32)
    ensures Load(Store(i)) == i
  {
    var u := if i < 0 then i + 0x1_0000_0000 else i;
    assert u == u % 0x100 + 0x100 * (u / 0x100);
  }

  /** The bytes are the digits of the number to base 256, the least significant first, modulo 2^32. */
  lemma LittleEndian(i: int32)
    ensures var b := Store(i); var u := b[0] as int + 0x100 * (b[1] as int) + 0x1_0000 * (b[2] as int) + 0x100_0000 * (b[3] as int);
      u == if i < 0 then i + 0x1_0000_0000 else i
  {
    var u := if i < 0 then i + 0x1_0000_0000 else i;
    assert u == u % 0x100 + 0x100 * (u / 0x100);
  }

  method CopyTo(a: array<byte>, pos: nat, src: seq<byte>)
    requires pos + |src| <= a.Length
    modifies a
    ensures a[..] == old(a[..pos]) + src + old(a[pos + |src|..])
  {
    var i := 0;
    while i < |src|
      invariant i <= |src| && a[..] == old(a[..pos]) + src[..i] + old(a[pos + i..])
    {
      a[pos + i] := src[i];
      i := i + 1;
    }
  }
}
