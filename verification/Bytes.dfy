/** Bytes, little-endian fields, and the page size (src/Pager/Pager.h). */
module Bytes {

  type byte = x: int | 0 <= x < 0x100

  const PAGE_SIZE: nat := 4096

  /** The two bytes of a 16-bit field, low byte first; negative values in two's complement. */
  function Low(v: int): byte { v % 0x100 }

  function High(v: int): byte { v / 0x100 % 0x100 }

  /** Read a C `short` at offset `i`. */
  function Short(p: seq<byte>, i: nat): int
    requires i + 2 <= |p|
  {
    var u: int := p[i] as int + 0x100 * (p[i + 1] as int);
    if u < 0x8000 then u else u - 0x1_0000
  }

  /** Write a C `short` at offset `i`. */
  function PutShort(p: seq<byte>, i: nat, v: int): (q: seq<byte>)
    requires i + 2 <= |p|
    ensures |q| == |p|
  {
    p[i := Low(v)][i + 1 := High(v)]
  }

  /** Copy `record` over the bytes from offset `i` on. */
  function PutBytes(p: seq<byte>, i: nat, record: seq<byte>): (q: seq<byte>)
    requires i + |record| <= |p|
    ensures |q| == |p|
  {
    p[..i] + record + p[i + |record|..]
  }

  /** What was written is read back, within the range of a C `short`. */
  lemma ShortAfterPut(p: seq<byte>, i: nat, v: int)
    requires i + 2 <= |p| && -0x8000 <= v < 0x8000
    ensures Short(PutShort(p, i, v), i) == v
    ensures v >= 0 ==> PutShort(p, i, v)[i] as int + 0x100 * PutShort(p, i, v)[i + 1] as int == v
  {
  }

  method WriteShort(a: array<byte>, i: nat, v: int)
    requires i + 2 <= a.Length
    modifies a
    ensures a[..] == PutShort(old(a[..]), i, v)
  {
    a[i] := Low(v);
    a[i + 1] := High(v);
  }

  /** memcpy of `record` into the buffer at offset `i`. */
  method WriteBytes(a: array<byte>, i: nat, record: seq<byte>)
    requires i + |record| <= a.Length
    modifies a
    ensures a[..] == PutBytes(old(a[..]), i, record)
  {
    for k := 0 to |record|
      invariant forall j :: 0 <= j < k ==> a[i + j] == record[j]
      invariant forall j :: 0 <= j < a.Length && (j < i || i + k <= j) ==> a[j] == old(a[j])
    {
      a[i + k] := record[k];
    }
    assert a[..] == PutBytes(old(a[..]), i, record);
  }
}
