/**
 Pages of fixed-length records (src/RecordManage/RecordManager.cpp, tryInsert and delOneRecord). Bytes 0 and 1 hold the
 offset of the first free block; a free block is [0, length, next], a record is [1, payload]. Records are carved off the
 last free block, and deleted records go to the front of the list.
 */
module FixedPage {
  import opened Bytes
  import opened Locations

  /** The offset of the first block, behind the list head. */
  const FIRST: nat := 2
  /** The first free block of a fresh page is 4096 - 7 bytes long, so blocks end here: four bytes are never used. */
  const LIMIT: nat := 4092

  /** What the page holds: records by offset, the list of freed blocks, and where the unsplit rest begins. */
  datatype Layout = Layout(live: map<nat, seq<byte>>, free: seq<nat>, tail: nat)

  /** The offset that link `k` of the list stores: a freed block, then the unsplit rest if there is any, then 0. */
  ghost function Link(y: Layout, k: nat): nat
    requires k <= |y.free|
  {
    if k < |y.free| then y.free[k] else if y.tail < LIMIT then y.tail else 0
  }

  ghost predicate FreeBlock(p: seq<byte>, at: nat, len: int, next: nat) {
    && at + 5 <= |p|
    && p[at] == 0 && Short(p, at + 1) == len && Short(p, at + 3) == next
  }

  /** The offsets that were carved so far, whether in use or freed. */
  ghost predicate Slot(y: Layout, s: nat) {
    s in y.live || s in y.free
  }

  /** Slots of `len + 1` bytes lie side by side between the list head and the unsplit rest. */
  ghost predicate SlotsOk(y: Layout, len: nat) {
    && FIRST <= y.tail <= LIMIT
    && y.tail == FIRST + (|y.live| + |y.free|) * (len + 1)
    && (forall s: nat {:trigger Slot(y, s)} | Slot(y, s) :: FIRST <= s && s + 1 + len <= y.tail)
    && (forall s: nat, u: nat {:trigger Slot(y, s), Slot(y, u)} | Slot(y, s) && Slot(y, u) && s < u :: s + 1 + len <= u)
  }

  /** Link `k` of the list is a freed block of the record length, not in use, that names link `k + 1`. */
  ghost predicate FreedOk(p: seq<byte>, y: Layout, len: nat, k: nat)
    requires k < |y.free|
  {
    y.free[k] !in y.live && FreeBlock(p, y.free[k], len, Link(y, k + 1))
  }

  /** The list runs through the freed blocks, each once and none of them in use, and ends in the unsplit rest. */
  ghost predicate ListOk(p: seq<byte>, y: Layout, len: nat)
    requires |p| == PAGE_SIZE
  {
    && Short(p, 0) == Link(y, 0)
    && NoDuplicates(y.free)
    && (forall k {:trigger FreedOk(p, y, len, k)} :: 0 <= k < |y.free| ==> FreedOk(p, y, len, k))
    && (y.tail < LIMIT ==> FreeBlock(p, y.tail, LIMIT - 1 - y.tail, 0))
  }

  ghost predicate LiveAs(p: seq<byte>, at: nat, record: seq<byte>) {
    && at + 1 + |record| <= |p|
    && p[at] != 0
    && p[at + 1..at + 1 + |record|] == record
  }

  ghost predicate LiveOk(p: seq<byte>, y: Layout, len: nat, s: nat)
    requires s in y.live
  {
    |y.live[s]| == len && LiveAs(p, s, y.live[s])
  }

  /** A page of records of `len` bytes each. */
  ghost predicate Holds(p: seq<byte>, y: Layout, len: nat) {
    && |p| == PAGE_SIZE && len >= 4
    && SlotsOk(y, len) && ListOk(p, y, len)
    && (forall s {:trigger LiveOk(p, y, len, s)} | s in y.live :: LiveOk(p, y, len, s))
  }

  /** There is a block with room for one more record. */
  ghost predicate HasRoom(y: Layout, len: nat) {
    y.free != [] || LIMIT - 1 - y.tail >= len
  }

  /** Where the next record goes. */
  ghost function NextSlot(y: Layout): nat {
    if y.free != [] then y.free[0] else y.tail
  }

  /** The layout after a record went to the head of the list. */
  ghost function Taken(y: Layout, record: seq<byte>): Layout {
    Layout(y.live[NextSlot(y) := record],
           if y.free != [] then y.free[1..] else [],
           if y.free != [] then y.tail else y.tail + 1 + |record|)
  }

  /** The layout after the record at `at` was deleted. */
  ghost function Freed(y: Layout, at: nat): Layout {
    Layout(y.live - {at}, [at] + y.free, y.tail)
  }

  lemma Distribute(a: nat, c: nat)
    ensures (a + 1) * c == a * c + c
  {
  }

  lemma TakenSlotsOk(y: Layout, len: nat, record: seq<byte>)
    requires SlotsOk(y, len) && HasRoom(y, len) && |record| == len && len >= 4
    requires NoDuplicates(y.free)
    requires y.free != [] ==> y.free[0] !in y.live
    ensures SlotsOk(Taken(y, record), len) && NextSlot(y) !in y.live
  {
    var z, at := Taken(y, record), NextSlot(y);
    Distribute(|y.live| + |y.free|, len + 1);
    assert at in y.live ==> Slot(y, at);
    assert |z.live| == |y.live| + 1;
    assert y.free != [] ==> y.free == [y.free[0]] + y.free[1..];
    forall s: nat | Slot(z, s) ensures Slot(y, s) || s == at {
    }
    assert y.free != [] ==> Slot(y, at);
  }

  lemma FreedSlotsOk(y: Layout, len: nat, at: nat)
    requires SlotsOk(y, len) && at in y.live
    ensures SlotsOk(Freed(y, at), len)
  {
    var z := Freed(y, at);
    assert |z.live| == |y.live| - 1;
    forall s: nat | Slot(z, s) ensures Slot(y, s) {
    }
  }

  // ---------- what the writes do to the bytes ----------

  /** A block of exactly the record's length is taken whole. */
  ghost function TakeWhole(p: seq<byte>, at: nat, record: seq<byte>): (q: seq<byte>)
    requires 2 <= at && at + 5 <= |p| && at + 1 + |record| <= |p|
    ensures |q| == |p|
  {
    PutBytes(PutShort(p, 0, Short(p, at + 3)), at + 1, record)[at := 1]
  }

  /** The record is carved off a longer block; what is left of it takes the block's place in the list. */
  ghost function Carve(p: seq<byte>, at: nat, record: seq<byte>): (q: seq<byte>)
    requires 2 <= at && at + 5 <= |p| && at + 1 + |record| + 5 <= |p|
    ensures |q| == |p|
  {
    var rest, len := at + 1 + |record|, Short(p, at + 1);
    var a := PutShort(p, 0, rest)[rest := 0];
    var b := PutShort(a, rest + 3, Short(a, at + 3));
    PutBytes(PutShort(b, rest + 1, len - 1 - |record|), at + 1, record)[at := 1]
  }

  lemma WholeBytes(p: seq<byte>, at: nat, record: seq<byte>)
    requires |p| == PAGE_SIZE && 2 <= at && at + 5 <= |p| && at + 1 + |record| <= |p|
    ensures var q := TakeWhole(p, at, record);
      && (forall k :: 2 <= k < at || at + 1 + |record| <= k < |p| ==> q[k] == p[k])
      && Short(q, 0) == Short(p, at + 3) && LiveAs(q, at, record)
  {
    var q, a := TakeWhole(p, at, record), PutShort(p, 0, Short(p, at + 3));
    assert Short(a, 0) == Short(p, at + 3) by {
      ShortAfterPut(p, 0, Short(p, at + 3));
    }
    assert q[at + 1..at + 1 + |record|] == record;
  }

  /** The header of the rest, before the record is copied in front of it. */
  lemma RestHeader(p: seq<byte>, at: nat, rest: nat, len: int, next: int) returns (a: seq<byte>, c: seq<byte>)
    requires |p| == PAGE_SIZE && 2 <= at && at + 5 <= rest && rest + 5 <= |p| && -0x8000 <= len < 0x8000
    requires next == Short(p, at + 3)
    ensures a == PutShort(p, 0, rest)[rest := 0] && |a| == |p| && Short(a, at + 3) == next
    ensures c == PutShort(PutShort(a, rest + 3, next), rest + 1, len) && |c| == |p|
    ensures Short(c, 0) == rest && c[rest] == 0 && Short(c, rest + 1) == len && Short(c, rest + 3) == next
    ensures forall k :: 2 <= k < rest || rest + 5 <= k < |p| ==> c[k] == p[k]
  {
    a := PutShort(p, 0, rest)[rest := 0];
    var b := PutShort(a, rest + 3, next);
    c := PutShort(b, rest + 1, len);
    ShortAfterPut(p, 0, rest);
    ShortAfterPut(a, rest + 3, next);
    ShortAfterPut(b, rest + 1, len);
  }

  /** The new header does not reach into the old one, because records are at least four bytes long. */
  lemma CarveBytes(p: seq<byte>, at: nat, record: seq<byte>)
    requires |p| == PAGE_SIZE && 2 <= at && |record| >= 4 && at + 1 + |record| + 5 <= |p|
    requires |record| < Short(p, at + 1)
    ensures var q, rest := Carve(p, at, record), at + 1 + |record|;
      && (forall k :: 2 <= k < at || rest + 5 <= k < |p| ==> q[k] == p[k])
      && Short(q, 0) == rest && LiveAs(q, at, record)
      && (Short(p, at + 3) >= 0 ==> FreeBlock(q, rest, Short(p, at + 1) - 1 - |record|, Short(p, at + 3)))
  {
    var q, rest, len := Carve(p, at, record), at + 1 + |record|, Short(p, at + 1);
    var a, c := RestHeader(p, at, rest, len - 1 - |record|, Short(p, at + 3));
    assert q == PutBytes(c, at + 1, record)[at := 1];
    assert q[at + 1..at + 1 + |record|] == record;
  }

  lemma SameFreeBlock(p: seq<byte>, q: seq<byte>, s: nat, len: int, next: nat)
    requires FreeBlock(p, s, len, next) && |p| == |q|
    requires forall k :: s <= k < s + 5 ==> q[k] == p[k]
    ensures FreeBlock(q, s, len, next)
  {
  }

  lemma SameLive(p: seq<byte>, q: seq<byte>, s: nat, record: seq<byte>)
    requires LiveAs(p, s, record) && |p| == |q|
    requires forall k :: s <= k < s + 1 + |record| ==> q[k] == p[k]
    ensures LiveAs(q, s, record)
  {
    assert q[s + 1..s + 1 + |record|] == p[s + 1..s + 1 + |record|];
  }

  /** A record away from the bytes that changed stays as it was. */
  lemma LiveStays(p: seq<byte>, q: seq<byte>, y: Layout, z: Layout, len: nat, s: nat)
    requires Holds(p, y, len) && |q| == |p|
    requires s in y.live && s in z.live && z.live[s] == y.live[s] && s + 1 + len <= |p|
    requires forall k :: s <= k < s + 1 + len ==> q[k] == p[k]
    ensures LiveOk(q, z, len, s)
  {
    assert LiveOk(p, y, len, s);
    SameLive(p, q, s, y.live[s]);
  }

  /** A freed block behind the first stays when the first is taken. */
  lemma FreedStays(p: seq<byte>, q: seq<byte>, y: Layout, record: seq<byte>, k: nat)
    requires Holds(p, y, |record|) && y.free != [] && |q| == |p| && k + 1 < |y.free|
    requires forall i :: 2 <= i < |p| && (i < y.free[0] || y.free[0] + 1 + |record| <= i) ==> q[i] == p[i]
    ensures FreedOk(q, Taken(y, record), |record|, k)
  {
    var at, s := y.free[0], y.free[k + 1];
    assert Slot(y, at) && Slot(y, s) && FreedOk(p, y, |record|, k + 1) && s != at;
    SameFreeBlock(p, q, s, |record|, Link(y, k + 2));
  }

  /** The list without its first block. */
  lemma WholeList(p: seq<byte>, q: seq<byte>, y: Layout, record: seq<byte>)
    requires Holds(p, y, |record|) && y.free != [] && |q| == |p|
    requires Short(q, 0) == Link(y, 1) && y.free[0] + 1 + |record| <= y.tail
    requires forall k :: 2 <= k < |p| && (k < y.free[0] || y.free[0] + 1 + |record| <= k) ==> q[k] == p[k]
    ensures ListOk(q, Taken(y, record), |record|)
  {
    var z := Taken(y, record);
    forall k | 0 <= k < |z.free| ensures FreedOk(q, z, |record|, k) {
      FreedStays(p, q, y, record, k);
    }
    if z.tail < LIMIT {
      SameFreeBlock(p, q, z.tail, LIMIT - 1 - z.tail, 0);
    }
  }

  /** Taking a freed block. */
  lemma WholeFreedHolds(p: seq<byte>, y: Layout, record: seq<byte>)
    requires Holds(p, y, |record|) && y.free != []
    ensures 2 <= NextSlot(y) && NextSlot(y) + 5 <= PAGE_SIZE && NextSlot(y) + 1 + |record| <= PAGE_SIZE
    ensures Holds(TakeWhole(p, NextSlot(y), record), Taken(y, record), |record|)
  {
    var at, z, len := NextSlot(y), Taken(y, record), |record|;
    assert Slot(y, at) && FreedOk(p, y, len, 0);
    WholeBytes(p, at, record);
    TakenSlotsOk(y, len, record);
    var q := TakeWhole(p, at, record);
    WholeList(p, q, y, record);
    forall s | s in z.live ensures LiveOk(q, z, len, s) {
      if s != at {
        assert Slot(y, s);
        LiveStays(p, q, y, z, len, s);
      }
    }
  }

  /** The records next to the unsplit rest are not touched when it is used. */
  lemma TailLive(p: seq<byte>, q: seq<byte>, y: Layout, record: seq<byte>)
    requires Holds(p, y, |record|) && y.free == [] && |q| == |p|
    requires forall k :: 2 <= k < y.tail ==> q[k] == p[k]
    requires LiveAs(q, y.tail, record)
    ensures forall s {:trigger LiveOk(q, Taken(y, record), |record|, s)} | s in Taken(y, record).live ::
      LiveOk(q, Taken(y, record), |record|, s)
  {
    var z := Taken(y, record);
    forall s | s in z.live ensures LiveOk(q, z, |record|, s) {
      if s != y.tail {
        assert Slot(y, s);
        LiveStays(p, q, y, z, |record|, s);
      }
    }
  }

  /** A record that uses up the unsplit rest. */
  lemma LastHolds(p: seq<byte>, y: Layout, record: seq<byte>)
    requires Holds(p, y, |record|) && y.free == [] && LIMIT - 1 - y.tail == |record|
    ensures Holds(TakeWhole(p, y.tail, record), Taken(y, record), |record|)
  {
    TakenSlotsOk(y, |record|, record);
    WholeBytes(p, y.tail, record);
    TailLive(p, TakeWhole(p, y.tail, record), y, record);
  }

  /** A record carved off the unsplit rest. */
  lemma CarvedHolds(p: seq<byte>, y: Layout, record: seq<byte>)
    requires Holds(p, y, |record|) && y.free == [] && LIMIT - 1 - y.tail > |record|
    ensures Holds(Carve(p, y.tail, record), Taken(y, record), |record|)
  {
    TakenSlotsOk(y, |record|, record);
    CarveBytes(p, y.tail, record);
    TailLive(p, Carve(p, y.tail, record), y, record);
  }

  /** What the list head leads to. */
  lemma HeadBlock(p: seq<byte>, y: Layout, len: nat)
    requires Holds(p, y, len)
    ensures Short(p, 0) == 0 <==> y.free == [] && y.tail == LIMIT
    ensures Short(p, 0) != 0 ==>
      && Short(p, 0) == NextSlot(y) && 2 <= NextSlot(y) && NextSlot(y) + 5 <= PAGE_SIZE
      && Short(p, NextSlot(y) + 1) == if y.free != [] then len else LIMIT - 1 - y.tail
    ensures Short(p, 0) != 0 && y.free != [] ==> NextSlot(y) + 1 + len <= PAGE_SIZE
    ensures NoDuplicates(y.free) && (y.free != [] ==> y.free[0] !in y.live)
  {
    if y.free != [] {
      assert Slot(y, y.free[0]) && FreedOk(p, y, len, 0);
    }
  }

  method TakeWholeBlock(data: array<byte>, this_loc: nat, record: seq<byte>)
    requires data.Length == PAGE_SIZE && 2 <= this_loc && this_loc + 5 <= PAGE_SIZE
    requires this_loc + 1 + |record| <= PAGE_SIZE
    modifies data
    ensures data[..] == TakeWhole(old(data[..]), this_loc, record)
  {
    WriteShort(data, 0, Short(data[..], this_loc + 3));
    WriteBytes(data, this_loc + 1, record);
    data[this_loc] := 1;
  }

  method CarveBlock(data: array<byte>, this_loc: nat, record: seq<byte>)
    requires data.Length == PAGE_SIZE && 2 <= this_loc && |record| >= 4
    requires this_loc + 1 + |record| + 5 <= PAGE_SIZE
    modifies data
    ensures data[..] == Carve(old(data[..]), this_loc, record)
  {
    var len, rest := Short(data[..], this_loc + 1), this_loc + 1 + |record|;
    WriteShort(data, 0, rest);
    data[rest] := 0;
    WriteShort(data, rest + 3, Short(data[..], this_loc + 3));
    WriteShort(data, rest + 1, len - 1 - |record|);
    WriteBytes(data, this_loc + 1, record);
    data[this_loc] := 1;
  }

  /** tryInsert on a page of fixed-length records; None is the source's NULL. */
  method TryInsert(data: array<byte>, record: seq<byte>, ghost y: Layout) returns (at: Option<nat>)
    requires data.Length == PAGE_SIZE && Holds(data[..], y, |record|)
    modifies data
    ensures at.None? <==> !HasRoom(y, |record|)
    ensures at.None? ==> data[..] == old(data[..])
    ensures at.Some? ==> at.value == NextSlot(y) && at.value !in y.live && at.value < PAGE_SIZE
    ensures at.Some? ==> Holds(data[..], Taken(y, record), |record|)
  {
    ghost var p := data[..];
    HeadBlock(p, y, |record|);
    var free_loc := Short(data[..], 0);
    if free_loc == 0 {
      return None;
    }
    var len := Short(data[..], free_loc + 1);
    if len < |record| {
      return None;
    }
    var this_loc: nat := free_loc;
    TakenSlotsOk(y, |record|, record);
    if y.free != [] {
      WholeFreedHolds(p, y, record);
    } else if len == |record| {
      LastHolds(p, y, record);
    } else {
      CarvedHolds(p, y, record);
    }
    if len - |record| < 1 {
      TakeWholeBlock(data, this_loc, record);
    } else {
      CarveBlock(data, this_loc, record);
    }
    return Some(this_loc);
  }

  // ---------- deletion ----------

  /** delOneRecord: the block goes to the front of the list. */
  ghost function Release(p: seq<byte>, at: nat, len: nat): (q: seq<byte>)
    requires at + 5 <= |p|
    ensures |q| == |p|
  {
    var a := PutShort(p[at := 0], at + 1, len);
    PutShort(PutShort(a, at + 3, Short(a, 0)), 0, at)
  }

  lemma ReleaseBytes(p: seq<byte>, at: nat, len: nat)
    requires |p| == PAGE_SIZE && 2 <= at && at + 5 <= |p| && len < PAGE_SIZE
    ensures var q := Release(p, at, len);
      && (forall k :: 2 <= k < at || at + 5 <= k < |p| ==> q[k] == p[k])
      && Short(q, 0) == at
      && (Short(p, 0) >= 0 ==> FreeBlock(q, at, len, Short(p, 0)))
  {
    var a := PutShort(p[at := 0], at + 1, len);
    var b := PutShort(a, at + 3, Short(a, 0));
    ShortAfterPut(p[at := 0], at + 1, len);
    assert Short(a, 0) == Short(p, 0);
    ShortAfterPut(a, at + 3, Short(a, 0));
    ShortAfterPut(b, 0, at);
    var q := Release(p, at, len);
    assert q == PutShort(b, 0, at);
    assert q[at] == 0 && Short(q, at + 1) == Short(a, at + 1) && Short(q, at + 3) == Short(b, at + 3);
  }

  lemma ReleasedListOk(p: seq<byte>, y: Layout, len: nat, at: nat, q: seq<byte>)
    requires Holds(p, y, len) && at in y.live && |q| == |p| && at + 5 <= |p|
    requires forall k :: 2 <= k < at || at + 5 <= k < |p| ==> q[k] == p[k]
    requires Short(q, 0) == at && FreeBlock(q, at, len, Link(y, 0))
    ensures ListOk(q, Freed(y, at), len)
  {
    var z := Freed(y, at);
    assert Slot(y, at);
    forall k | 0 <= k < |y.free| ensures y.free[k] != at && FreeBlock(q, y.free[k], len, Link(y, k + 1)) {
      assert Slot(y, y.free[k]) && FreedOk(p, y, len, k);
      SameFreeBlock(p, q, y.free[k], len, Link(y, k + 1));
    }
    forall k | 0 <= k < |z.free| ensures FreedOk(q, z, len, k) {
      if k > 0 {
        assert FreedOk(p, y, len, k - 1) && z.free[k] == y.free[k - 1] && Link(z, k + 1) == Link(y, k);
      } else {
        assert Link(z, 1) == Link(y, 0);
      }
    }
    if z.tail < LIMIT {
      SameFreeBlock(p, q, z.tail, LIMIT - 1 - z.tail, 0);
    }
  }

  lemma ReleaseHolds(p: seq<byte>, y: Layout, len: nat, at: nat)
    requires Holds(p, y, len) && at in y.live
    ensures 2 <= at && at + 5 <= PAGE_SIZE && Holds(Release(p, at, len), Freed(y, at), len)
  {
    assert Slot(y, at) && LiveOk(p, y, len, at);
    var z, q := Freed(y, at), Release(p, at, len);
    FreedSlotsOk(y, len, at);
    HeadBlock(p, y, len);
    ReleaseBytes(p, at, len);
    ReleasedListOk(p, y, len, at, q);
    forall s | s in z.live ensures LiveOk(q, z, len, s) {
      assert Slot(y, s);
      LiveStays(p, q, y, z, len, s);
    }
  }

  method Delete(data: array<byte>, now: nat, len: nat, ghost y: Layout)
    requires data.Length == PAGE_SIZE && Holds(data[..], y, len) && now in y.live
    modifies data
    ensures Holds(data[..], Freed(y, now), len)
  {
    ReleaseHolds(data[..], y, len, now);
    data[now] := 0;
    WriteShort(data, now + 1, len);
    WriteShort(data, now + 3, Short(data[..], 0));
    WriteShort(data, 0, now);
  }

  /** The block that was freed last is used next, and then the page is as if the new record had overwritten the old. */
  lemma LastFreedFirst(y: Layout, at: nat, record: seq<byte>)
    requires at in y.live
    ensures HasRoom(Freed(y, at), |record|)
    ensures Taken(Freed(y, at), record) == y.(live := y.live[at := record])
  {
    assert (y.live - {at})[at := record] == y.live[at := record];
  }

  // ---------- fresh pages, full pages, and updates in place ----------

  /** The layout of a fresh page: one free block behind the list head. */
  const FRESH: Layout := Layout(map[], [], FIRST)

  lemma FreshPage(p: seq<byte>, len: nat)
    requires |p| == PAGE_SIZE && len >= 4
    requires Short(p, 0) == 2 && p[2] == 0 && Short(p, 3) == PAGE_SIZE - 7 && Short(p, 5) == 0
    ensures Holds(p, FRESH, len)
  {
  }

  lemma Times(d: nat, k: nat, c: nat)
    requires d >= 1
    ensures (d + k) * c >= k * c + c
  {
    assert (d + k) * c == (d - 1) * c + k * c + c;
  }

  lemma DivisionUnique(a: nat, c: nat, k: nat, r: nat)
    requires c > 0 && a == k * c + r && r < c
    ensures a % c == r
  {
    var q, s := a / c, a % c;
    assert q * c + s == a;
    if q > k {
      Times(q - k, k, c);
      assert false;
    } else if q < k {
      Times(k - q, q, c);
      assert false;
    }
  }

  /** Taking a division back. */
  lemma Quotient(a: nat, c: nat, k: nat)
    requires c > 0
    ensures k <= a / c <==> k * c <= a
  {
    var q, r := a / c, a % c;
    assert q * c + r == a;
    if k > q {
      Times(k - q, q, c);
    } else if k < q {
      Times(q - k, k, c);
    }
  }

  /** A page takes a record exactly if it holds fewer than there are slots in its 4090 bytes. */
  lemma RoomExactly(p: seq<byte>, y: Layout, len: nat)
    requires Holds(p, y, len)
    ensures HasRoom(y, len) <==> |y.live| < 4090 / (len + 1)
  {
    var n, c := |y.live| + |y.free|, len + 1;
    Quotient(4090, c, n);
    Quotient(4090, c, |y.live| + 1);
    Distribute(|y.live|, c);
  }

  /**
   The assertion at src/RecordManage/RecordManager.cpp:41 expects the record to overrun the page when the last free
   block is too short. Blocks end four bytes earlier, so it only holds for some record lengths: these.
   */
  lemma FullPageAssertion(y: Layout, len: nat)
    requires SlotsOk(y, len) && len >= 4
    requires !HasRoom(y, len) && y.tail < LIMIT
    ensures NextSlot(y) + 1 + len >= PAGE_SIZE <==> (LIMIT - FIRST) % (len + 1) + 3 <= len
  {
    var k, c := |y.live| + |y.free|, len + 1;
    DivisionUnique(LIMIT - FIRST, c, k, LIMIT - y.tail);
  }

  /** A page that nothing but insertions of five-byte records filled, `n` of them. */
  lemma {:induction false} FilledPage(record: seq<byte>, n: nat) returns (p: seq<byte>, y: Layout)
    requires |record| == 5 && n <= 681
    ensures Holds(p, y, 5) && y.free == [] && y.tail == FIRST + n * 6
  {
    if n == 0 {
      var zeros: seq<byte> := seq(PAGE_SIZE, _ => 0);
      var head := PutShort(zeros, 0, 2);
      p, y := PutShort(head, 3, PAGE_SIZE - 7), FRESH;
      ShortAfterPut(zeros, 0, 2);
      ShortAfterPut(head, 3, PAGE_SIZE - 7);
      FreshPage(p, 5);
    } else {
      var q, z := FilledPage(record, n - 1);
      CarvedHolds(q, z, record);
      p, y := Carve(q, z.tail, record), Taken(z, record);
    }
  }

  /** The assertion fails on a page that 681 records of five bytes have filled: the next one would end at byte 4094. */
  lemma FullPageAssertionFails(record: seq<byte>) returns (p: seq<byte>, y: Layout)
    requires |record| == 5
    ensures Holds(p, y, 5) && !HasRoom(y, 5) && y.tail == 4088 < LIMIT
    ensures NextSlot(y) + 1 + 5 < PAGE_SIZE
  {
    p, y := FilledPage(record, 681);
  }

  lemma OverwrittenSlotsOk(y: Layout, len: nat, at: nat, record: seq<byte>)
    requires SlotsOk(y, len) && at in y.live
    ensures SlotsOk(y.(live := y.live[at := record]), len)
  {
    var z := y.(live := y.live[at := record]);
    assert z.live.Keys == y.live.Keys;
    assert |z.live| == |z.live.Keys| && |y.live| == |y.live.Keys|;
    forall s: nat | Slot(z, s) ensures Slot(y, s) {
    }
  }

  lemma OverwrittenLiveOk(p: seq<byte>, y: Layout, at: nat, record: seq<byte>, s: nat)
    requires Holds(p, y, |record|) && at in y.live && s in y.live && at + 1 + |record| <= PAGE_SIZE
    ensures LiveOk(PutBytes(p, at + 1, record), y.(live := y.live[at := record]), |record|, s)
  {
    assert Slot(y, at) && Slot(y, s) && LiveOk(p, y, |record|, at);
    var q, z, len := PutBytes(p, at + 1, record), y.(live := y.live[at := record]), |record|;
    if s == at {
      assert q[at + 1..at + 1 + len] == record;
    } else {
      assert s < at ==> s + 1 + len <= at;
      assert at < s ==> at + 1 + len <= s;
      LiveStays(p, q, y, z, len, s);
    }
  }

  lemma OverwrittenListOk(p: seq<byte>, y: Layout, at: nat, record: seq<byte>)
    requires Holds(p, y, |record|) && at in y.live && at + 1 + |record| <= PAGE_SIZE
    ensures ListOk(PutBytes(p, at + 1, record), y.(live := y.live[at := record]), |record|)
  {
    assert Slot(y, at);
    var q, z, len := PutBytes(p, at + 1, record), y.(live := y.live[at := record]), |record|;
    forall k | 0 <= k < |z.free| ensures FreedOk(q, z, len, k) {
      assert Slot(y, y.free[k]) && FreedOk(p, y, len, k);
      SameFreeBlock(p, q, y.free[k], len, Link(y, k + 1));
    }
    if z.tail < LIMIT {
      SameFreeBlock(p, q, z.tail, LIMIT - 1 - z.tail, 0);
    }
  }

  /** updateOneRecord in place: the record at `at` is overwritten, and nothing else. */
  lemma OverwriteHolds(p: seq<byte>, y: Layout, at: nat, record: seq<byte>)
    requires Holds(p, y, |record|) && at in y.live
    ensures at + 1 + |record| <= PAGE_SIZE
    ensures Holds(PutBytes(p, at + 1, record), y.(live := y.live[at := record]), |record|)
  {
    assert Slot(y, at);
    var q, z := PutBytes(p, at + 1, record), y.(live := y.live[at := record]);
    OverwrittenSlotsOk(y, |record|, at, record);
    OverwrittenListOk(p, y, at, record);
    forall s | s in z.live ensures LiveOk(q, z, |record|, s) {
      OverwrittenLiveOk(p, y, at, record, s);
    }
  }
}
