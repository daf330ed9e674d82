/**
 How tree nodes and locations are stored as bytes (src/BTree/BTree.h, _NodeFormat, toBuf, initFromBuf,
 locationToString). The struct is laid out as the compiler does for 8-byte keys: fields at their natural alignment,
 padding zeroed by memset.
 */
module NodeFormat {
  import opened Bytes
  import opened Locations
  import opened TreeShape

  // ---------- little-endian fields ----------

  /** `v` as `width` bytes, lowest first. */
  function LittleEndian(v: nat, width: nat): (b: seq<byte>)
    ensures |b| == width
  {
    if width == 0 then [] else [v % 0x100] + LittleEndian(v / 0x100, width - 1)
  }

  function Number(b: seq<byte>): nat {
    if b == [] then 0 else b[0] + 0x100 * Number(b[1..])
  }

  ghost function Bound(width: nat): nat {
    if width == 0 then 1 else 0x100 * Bound(width - 1)
  }

  lemma Bounds()
    ensures Bound(2) == 0x1_0000 && Bound(4) == 0x1_0000_0000 && Bound(8) == 0x1_0000_0000_0000_0000
  {
    assert Bound(3) == 0x100_0000;
    assert Bound(5) == 0x100_0000_0000;
    assert Bound(6) == 0x1_0000_0000_0000;
    assert Bound(7) == 0x100_0000_0000_0000;
  }

  lemma {:induction false} NumberReads(v: nat, width: nat)
    requires v < Bound(width)
    ensures Number(LittleEndian(v, width)) == v
  {
    if width == 0 {
    } else {
      NumberReads(v / 0x100, width - 1);
      assert LittleEndian(v, width)[1..] == LittleEndian(v / 0x100, width - 1);
    }
  }

  lemma {:induction false} NumberBound(b: seq<byte>)
    ensures Number(b) < Bound(|b|)
  {
    if b == [] {
    } else {
      NumberBound(b[1..]);
    }
  }

  lemma LowestByte(v: nat, more: nat)
    ensures LittleEndian(v, 1 + more) == [v % 0x100] + LittleEndian(v / 0x100, more)
  {
  }

  lemma DivideOn(v: nat)
    ensures v / 0x100 / 0x100 == v / 0x1_0000
    ensures v / 0x1_0000 / 0x100 == v / 0x100_0000
    ensures v / 0x100_0000 / 0x100 == v / 0x1_0000_0000
  {
  }

  /** The four lowest bytes, and the field that is left above them. */
  lemma FourBytes(v: nat, more: nat)
    ensures LittleEndian(v, 4 + more) ==
      [v % 0x100] + ([v / 0x100 % 0x100] + ([v / 0x1_0000 % 0x100] + ([v / 0x100_0000 % 0x100]
      + LittleEndian(v / 0x1_0000_0000, more))))
  {
    DivideOn(v);
    LowestByte(v, 3 + more);
    LowestByte(v / 0x100, 2 + more);
    LowestByte(v / 0x1_0000, 1 + more);
    LowestByte(v / 0x100_0000, more);
  }

  lemma LowerPart(low: nat, b: nat, high: nat) returns (rest: nat)
    ensures rest == b * high && low + 0x100 * b * high == low + 0x100 * rest
    ensures (low + 0x100 * rest) % 0x100 == low % 0x100 && (low + 0x100 * rest) / 0x100 == low / 0x100 + rest
  {
    rest := b * high;
  }

  /** A wide field is its lower part, then its upper part. */
  lemma {:induction false} SplitField(low: nat, high: nat, a: nat, b: nat)
    requires low < Bound(a)
    ensures LittleEndian(low + Bound(a) * high, a + b) == LittleEndian(low, a) + LittleEndian(high, b)
    decreases a
  {
    if a == 0 {
      assert [] + LittleEndian(high, b) == LittleEndian(high, b);
    } else {
      var rest := LowerPart(low, Bound(a - 1), high);
      SplitField(low / 0x100, high, a - 1, b);
      LowestByte(low + 0x100 * rest, a - 1 + b);
      LowestByte(low, a - 1);
      var front, tail := LittleEndian(low / 0x100, a - 1), LittleEndian(high, b);
      assert [low % 0x100] + (front + tail) == ([low % 0x100] + front) + tail;
    }
  }

  // ---------- locations ----------

  /** The six bytes of a stored location. */
  const LOC_LENGTH: nat := 6

  function LocationToString(l: Location): (b: seq<byte>)
    ensures |b| == LOC_LENGTH
  {
    LittleEndian(l.pageNumber, 4) + LittleEndian(l.loc, 2)
  }

  function StringToLocation(b: seq<byte>): Location
    requires |b| >= LOC_LENGTH
  {
    Bounds();
    NumberBound(b[..4]);
    NumberBound(b[4..6]);
    Location(Number(b[..4]), Number(b[4..6]))
  }

  /** Four bytes of page number and two of offset, lowest first. */
  lemma LocationBytes(l: Location)
    ensures var p := l.pageNumber;
      LocationToString(l) ==
        [p % 0x100, p / 0x100 % 0x100, p / 0x1_0000 % 0x100, p / 0x100_0000, l.loc % 0x100, l.loc / 0x100]
  {
    FourBytes(l.pageNumber, 0);
    var v: nat := l.loc;
    assert LittleEndian(v, 2) == [v % 0x100] + LittleEndian(v / 0x100, 1);
  }

  /** A location is read back from its six bytes, whatever follows them. */
  lemma LocationReads(l: Location, rest: seq<byte>)
    ensures StringToLocation(LocationToString(l) + rest) == l
  {
    Bounds();
    var b := LocationToString(l) + rest;
    assert b[..4] == LittleEndian(l.pageNumber, 4);
    assert b[4..6] == LittleEndian(l.loc, 2);
    NumberReads(l.pageNumber, 4);
    NumberReads(l.loc, 2);
  }

  // ---------- the struct ----------

  /** _NodeFormat, with `BRankMax - 1` keys and `BRankMax` children. */
  datatype Format = Format(nKeyCount: byte, isLeaf: byte, parent: Location, keys: seq<Key>, children: seq<Location>)

  /** Space for one child: its location, padded to eight bytes. */
  function ChildBytes(l: Location): (b: seq<byte>)
    ensures |b| == 8
  {
    LocationToString(l) + [0, 0]
  }

  function KeysBytes(keys: seq<Key>): (b: seq<byte>)
    ensures |b| == 8 * |keys|
  {
    if keys == [] then [] else LittleEndian(keys[0], 8) + KeysBytes(keys[1..])
  }

  function ChildrenBytes(children: seq<Location>): (b: seq<byte>)
    ensures |b| == 8 * |children|
  {
    if children == [] then [] else ChildBytes(children[0]) + ChildrenBytes(children[1..])
  }

  /** The bytes of the struct, from offset 0: two counts, padding, parent, padding, keys, children. */
  function Raw(f: Format): (b: seq<byte>)
    ensures |b| == 16 + 8 * |f.keys| + 8 * |f.children|
  {
    [f.nKeyCount, f.isLeaf, 0, 0] + LocationToString(f.parent) + [0, 0, 0, 0, 0, 0]
    + KeysBytes(f.keys) + ChildrenBytes(f.children)
  }

  function KeysFrom(b: seq<byte>, n: nat): (keys: seq<Key>)
    requires |b| >= 8 * n
    ensures |keys| == n
  {
    if n == 0 then []
    else
      NumberBound(b[..8]);
      Bounds();
      [Number(b[..8])] + KeysFrom(b[8..], n - 1)
  }

  function ChildrenFrom(b: seq<byte>, n: nat): (children: seq<Location>)
    requires |b| >= 8 * n
    ensures |children| == n
  {
    if n == 0 then [] else [StringToLocation(b[..8])] + ChildrenFrom(b[8..], n - 1)
  }

  function NodeSize(max: nat): int {
    16 * max + 8
  }

  /** The struct that lies in a buffer of the size for rank `max`. */
  function Parse(b: seq<byte>, max: nat): Format
    requires max >= 1 && |b| == NodeSize(max)
  {
    Format(b[0], b[1], StringToLocation(b[4..]), KeysFrom(b[16..], max - 1), ChildrenFrom(b[16 + 8 * (max - 1)..], max))
  }

  lemma {:induction false} KeysRead(keys: seq<Key>, rest: seq<byte>)
    ensures KeysFrom(KeysBytes(keys) + rest, |keys|) == keys
  {
    if keys == [] {
    } else {
      var b := KeysBytes(keys) + rest;
      Bounds();
      NumberReads(keys[0], 8);
      assert b[..8] == LittleEndian(keys[0], 8);
      assert b[8..] == KeysBytes(keys[1..]) + rest;
      KeysRead(keys[1..], rest);
    }
  }

  lemma {:induction false} ChildrenRead(children: seq<Location>)
    ensures ChildrenFrom(ChildrenBytes(children), |children|) == children
  {
    if children == [] {
    } else {
      var b := ChildrenBytes(children);
      LocationReads(children[0], [0, 0]);
      assert b[..8] == ChildBytes(children[0]);
      assert b[8..] == ChildrenBytes(children[1..]);
      ChildrenRead(children[1..]);
    }
  }

  /** What lies in the struct from the offset of each field on. */
  lemma RawTails(f: Format)
    ensures var b, arrays := Raw(f), KeysBytes(f.keys) + ChildrenBytes(f.children);
      && b[0] == f.nKeyCount && b[1] == f.isLeaf && b[4..] == LocationToString(f.parent) + ([0, 0, 0, 0, 0, 0] + arrays)
      && b[16..] == arrays && b[16 + 8 * |f.keys|..] == ChildrenBytes(f.children)
  {
    var head: seq<byte>, gap: seq<byte> := [f.nKeyCount, f.isLeaf, 0, 0], [0, 0, 0, 0, 0, 0];
    var keys, children := KeysBytes(f.keys), ChildrenBytes(f.children);
    var front := head + LocationToString(f.parent) + gap;
    assert Raw(f) == front + keys + children;
    assert (front + keys + children)[16 + |keys|..] == children;
    assert (front + keys + children)[16..] == keys + children;
  }

  /** The struct is what its bytes say. */
  lemma ParseReads(f: Format, max: nat)
    requires max >= 1 && |f.keys| == max - 1 && |f.children| == max
    ensures Parse(Raw(f), max) == f
  {
    RawTails(f);
    var gap: seq<byte> := [0, 0, 0, 0, 0, 0];
    LocationReads(f.parent, gap + (KeysBytes(f.keys) + ChildrenBytes(f.children)));
    KeysRead(f.keys, ChildrenBytes(f.children));
    ChildrenRead(f.children);
  }

  // ---------- nodes ----------

  /** What fits into a stored node of rank `max`. */
  ghost predicate Storable(n: NodeRec, max: nat) {
    && 1 <= max <= 255
    && |n.keys| <= max - 1
    && |n.children| == |n.keys| + (if n.isLeaf then 0 else 1)
  }

  /** The stored struct of a node: unused array entries stay zero. */
  ghost function Filled(n: NodeRec, max: nat): Format
    requires Storable(n, max)
  {
    Format(|n.keys|, if n.isLeaf then 1 else 0, n.parent,
           n.keys + seq(max - 1 - |n.keys|, _ => 0),
           n.children + seq(max - |n.children|, _ => NULL_LOCATION))
  }

  /** The bytes of a node. */
  ghost function Encode(n: NodeRec, max: nat): (b: seq<byte>)
    requires Storable(n, max)
    ensures |b| == NodeSize(max)
  {
    Raw(Filled(n, max))
  }

  lemma {:induction false} KeyBytesAt(keys: seq<Key>, i: nat)
    requires i < |keys|
    ensures KeysBytes(keys)[8 * i..8 * i + 8] == LittleEndian(keys[i], 8)
    decreases i
  {
    var b, rest := KeysBytes(keys), KeysBytes(keys[1..]);
    assert b == LittleEndian(keys[0], 8) + rest;
    if i == 0 {
      assert b[..8] == LittleEndian(keys[0], 8);
    } else {
      KeyBytesAt(keys[1..], i - 1);
      assert b[8 * i..8 * i + 8] == rest[8 * (i - 1)..8 * (i - 1) + 8];
    }
  }

  lemma {:induction false} ChildBytesAt(children: seq<Location>, i: nat)
    requires i < |children|
    ensures ChildrenBytes(children)[8 * i..8 * i + LOC_LENGTH] == LocationToString(children[i])
    decreases i
  {
    var b, rest := ChildrenBytes(children), ChildrenBytes(children[1..]);
    assert b == ChildBytes(children[0]) + rest;
    if i == 0 {
      assert b[..LOC_LENGTH] == LocationToString(children[0]);
    } else {
      ChildBytesAt(children[1..], i - 1);
      assert b[8 * i..8 * i + LOC_LENGTH] == rest[8 * (i - 1)..8 * (i - 1) + LOC_LENGTH];
    }
  }

  lemma SliceOfTail(b: seq<byte>, from: nat, i: nat, j: nat)
    requires i <= j && from + j <= |b|
    ensures b[from..][i..j] == b[from + i..from + j]
  {
  }

  lemma NodeHead(n: NodeRec, max: nat)
    requires Storable(n, max)
    ensures var b := Encode(n, max);
      b[0] == |n.keys| && b[1] == (if n.isLeaf then 1 else 0) && b[4..10] == LocationToString(n.parent)
  {
    RawTails(Filled(n, max));
    SliceOfTail(Encode(n, max), 4, 0, 6);
  }

  lemma NodeKey(n: NodeRec, max: nat, i: nat)
    requires Storable(n, max) && i < |n.keys|
    ensures Encode(n, max)[16 + 8 * i..24 + 8 * i] == LittleEndian(n.keys[i], 8)
  {
    var f := Filled(n, max);
    RawTails(f);
    KeyBytesAt(f.keys, i);
    SliceOfTail(Encode(n, max), 16, 8 * i, 8 * i + 8);
    var keys, children := KeysBytes(f.keys), ChildrenBytes(f.children);
    assert (keys + children)[8 * i..8 * i + 8] == keys[8 * i..8 * i + 8];
  }

  lemma NodeChild(n: NodeRec, max: nat, i: nat)
    requires Storable(n, max) && i < |n.children|
    ensures Encode(n, max)[8 + 8 * max + 8 * i..14 + 8 * max + 8 * i] == LocationToString(n.children[i])
  {
    var f := Filled(n, max);
    RawTails(f);
    ChildBytesAt(f.children, i);
    SliceOfTail(Encode(n, max), 8 + 8 * max, 8 * i, 8 * i + 6);
  }

  /** Where the fields of a node lie: the counts, the parent at 4, the keys from 16 on, and the children behind them. */
  lemma NodeBytes(n: NodeRec, max: nat)
    requires Storable(n, max)
    ensures var b := Encode(n, max);
      && b[0] == |n.keys| && b[1] == (if n.isLeaf then 1 else 0) && b[4..10] == LocationToString(n.parent)
      && (forall i :: 0 <= i < |n.keys| ==> b[16 + 8 * i..24 + 8 * i] == LittleEndian(n.keys[i], 8))
      && (forall i :: 0 <= i < |n.children| ==>
            b[8 + 8 * max + 8 * i..14 + 8 * max + 8 * i] == LocationToString(n.children[i]))
  {
    var b := Encode(n, max);
    NodeHead(n, max);
    forall i | 0 <= i < |n.keys| ensures b[16 + 8 * i..24 + 8 * i] == LittleEndian(n.keys[i], 8) {
      NodeKey(n, max, i);
    }
    forall i | 0 <= i < |n.children|
      ensures b[8 + 8 * max + 8 * i..14 + 8 * max + 8 * i] == LocationToString(n.children[i])
    {
      NodeChild(n, max, i);
    }
  }

  /** toBuf: the entries in use are copied into the zeroed struct, and for an internal node the last child as well. */
  method ToBuf(n: NodeRec, max: nat) returns (buf: seq<byte>)
    requires Storable(n, max)
    ensures buf == Encode(n, max)
  {
    var nfKeys := new Key[max - 1](_ => 0);
    var nfChildren := new Location[max](_ => NULL_LOCATION);
    for i := 0 to |n.keys|
      invariant nfKeys[..] == n.keys[..i] + seq(max - 1 - i, _ => 0)
      invariant nfChildren[..] == n.children[..i] + seq(max - i, _ => NULL_LOCATION)
    {
      nfKeys[i] := n.keys[i];
      nfChildren[i] := n.children[i];
    }
    if !n.isLeaf {
      nfChildren[|n.keys|] := n.children[|n.keys|];
    }
    assert nfKeys[..] == Filled(n, max).keys;
    assert nfChildren[..] == Filled(n, max).children;
    buf := Raw(Format(|n.keys|, if n.isLeaf then 1 else 0, n.parent, nfKeys[..], nfChildren[..]));
  }

  /** The node that a struct stands for: as many entries as it counts, and one child more if it is no leaf. */
  method FromFormat(nf: Format, max: nat) returns (n: NodeRec)
    requires max >= 1 && |nf.keys| == max - 1 && |nf.children| == max && nf.nKeyCount <= max - 1
    ensures n == NodeRec(nf.isLeaf != 0, nf.parent, nf.keys[..nf.nKeyCount],
                         nf.children[..nf.nKeyCount + if nf.isLeaf == 0 then 1 else 0])
  {
    var keys: seq<Key>, children: seq<Location> := [], [];
    for i := 0 to nf.nKeyCount
      invariant keys == nf.keys[..i] && children == nf.children[..i]
    {
      keys := keys + [nf.keys[i]];
      children := children + [nf.children[i]];
    }
    if nf.isLeaf == 0 {
      children := children + [nf.children[nf.nKeyCount]];
    }
    n := NodeRec(nf.isLeaf != 0, nf.parent, keys, children);
  }

  /** The entries in use of the stored struct are those of the node. */
  lemma Unfilled(n: NodeRec, max: nat)
    requires Storable(n, max)
    ensures var f := Filled(n, max);
      && f.keys[..|n.keys|] == n.keys
      && f.children[..|n.keys| + if f.isLeaf == 0 then 1 else 0] == n.children
  {
  }

  /** initFromBuf: a node that was stored with toBuf is read back as it was. */
  method InitFromBuf(buf: seq<byte>, max: nat, ghost stored: NodeRec) returns (n: NodeRec)
    requires Storable(stored, max) && buf == Encode(stored, max)
    ensures n == stored
  {
    ParseReads(Filled(stored, max), max);
    Unfilled(stored, max);
    n := FromFormat(Parse(buf, max), max);
  }

  /** Different nodes are stored as different bytes. */
  lemma EncodeInjective(m: NodeRec, n: NodeRec, max: nat)
    requires Storable(m, max) && Storable(n, max) && Encode(m, max) == Encode(n, max)
    ensures m == n
  {
    ParseReads(Filled(m, max), max);
    ParseReads(Filled(n, max), max);
    Unfilled(m, max);
    Unfilled(n, max);
  }
}
