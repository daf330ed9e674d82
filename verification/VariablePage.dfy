/**
 Pages of variable-length records (src/RecordManage/RecordManager.cpp, tryInsert). Blocks [flag, length, payload] tile
 the page; a free block is taken by the first record that fits it exactly or leaves room for another header.
 */
module VariablePage {
  import opened Bytes
  import opened Locations

  /** A block header is one flag byte and a 16-bit payload length. */
  const HEADER: nat := 3

  /** From `now` on, blocks follow each other to the last byte of the page. */
  ghost predicate Tiled(p: seq<byte>, now: nat)
    requires |p| == PAGE_SIZE
    decreases PAGE_SIZE - now
  {
    now == PAGE_SIZE ||
    (&& now + HEADER <= PAGE_SIZE
     && Short(p, now + 1) >= 0
     && now + HEADER + Short(p, now + 1) <= PAGE_SIZE
     && Tiled(p, now + HEADER + Short(p, now + 1)))
  }

  /** Where the block that starts at `at` ends. */
  ghost function End(p: seq<byte>, at: nat): int
    requires at + HEADER <= |p|
  {
    at + HEADER + Short(p, at + 1)
  }

  /** The walk from `now` meets a block at `at`. */
  ghost predicate IsBlock(p: seq<byte>, now: nat, at: nat): (b: bool)
    requires |p| == PAGE_SIZE && Tiled(p, now)
    ensures b ==> now <= at && at + HEADER <= PAGE_SIZE && at + HEADER <= End(p, at) <= PAGE_SIZE
    ensures b ==> Tiled(p, at) && Tiled(p, End(p, at))
    ensures b && at != now ==> End(p, now) <= at
    decreases PAGE_SIZE - now
  {
    now < PAGE_SIZE && (at == now || IsBlock(p, End(p, now), at))
  }

  /** A record lives at `at`, and these are its bytes. */
  ghost predicate LiveAs(p: seq<byte>, at: nat, record: seq<byte>)
    requires |p| == PAGE_SIZE && Tiled(p, 0)
  {
    && IsBlock(p, 0, at)
    && p[at] != 0
    && p[at + HEADER..End(p, at)] == record
  }

  /** The live records of a page, by offset. */
  ghost predicate Holds(p: seq<byte>, live: map<nat, seq<byte>>) {
    && |p| == PAGE_SIZE && Tiled(p, 0)
    && (forall at {:trigger at in live} | at in live :: LiveAs(p, at, live[at]))
    && (forall at: nat {:trigger IsBlock(p, 0, at)} | IsBlock(p, 0, at) && p[at] != 0 :: at in live)
  }

  // ---------- blocks do not overlap, and a change inside one leaves the others alone ----------

  lemma {:induction false} BlocksDisjoint(p: seq<byte>, now: nat, a: nat, b: nat)
    requires |p| == PAGE_SIZE && Tiled(p, now) && IsBlock(p, now, a) && IsBlock(p, now, b) && a < b
    ensures End(p, a) <= b && IsBlock(p, End(p, a), b)
    decreases PAGE_SIZE - now
  {
    if a != now {
      BlocksDisjoint(p, End(p, now), a, b);
    }
  }

  /** The walk from `m` on reads only the bytes from `m` on. */
  lemma {:induction false} SameSuffix(p: seq<byte>, q: seq<byte>, m: nat, x: nat)
    requires |p| == |q| == PAGE_SIZE && Tiled(p, m)
    requires forall k :: m <= k < PAGE_SIZE ==> p[k] == q[k]
    ensures Tiled(q, m) && (IsBlock(q, m, x) <==> IsBlock(p, m, x))
    decreases PAGE_SIZE - m
  {
    if m < PAGE_SIZE {
      SameSuffix(p, q, End(p, m), x);
    }
  }

  /** When the bytes of one block are replaced, the walk meets the blocks before it and then what replaced it. */
  lemma {:induction false} BlockReplaced(p: seq<byte>, q: seq<byte>, now: nat, at: nat, x: nat)
    requires |p| == |q| == PAGE_SIZE && Tiled(p, now) && IsBlock(p, now, at)
    requires forall k :: 0 <= k < at ==> p[k] == q[k]
    requires Tiled(q, at)
    ensures Tiled(q, now)
    ensures IsBlock(q, now, x) <==> (x < at && IsBlock(p, now, x)) || IsBlock(q, at, x)
    decreases PAGE_SIZE - now
  {
    if now < at {
      BlockReplaced(p, q, End(p, now), at, x);
    }
  }

  // ---------- first fit ----------

  /** A free block of `len` bytes takes `n` bytes exactly, or leaves room for the header of the rest. */
  predicate Fits(len: int, n: nat) {
    len >= n + HEADER || len == n
  }

  /** The bytes that blocks with these payloads cover. */
  function Covered(payloads: seq<nat>): nat {
    if payloads == [] then 0 else HEADER + payloads[0] + Covered(payloads[1..])
  }

  lemma CoveredBy(n: nat, rest: seq<nat>)
    requires |rest| <= 1
    ensures Covered([n] + rest) == HEADER + n + if rest == [] then 0 else HEADER + rest[0]
  {
    assert ([n] + rest)[0] == n && ([n] + rest)[1..] == rest;
    if rest != [] {
      assert rest[1..] == [];
    }
  }

  /** Such a block can be tiled by a block of `n` bytes and at most one more. */
  lemma FitsExactly(len: nat, n: nat)
    ensures Fits(len, n) <==> exists rest: seq<nat> :: |rest| <= 1 && Covered([n] + rest) == Covered([len] + [])
  {
    CoveredBy(len, []);
    forall rest: seq<nat> | |rest| <= 1
      ensures Covered([n] + rest) == HEADER + n + if rest == [] then 0 else HEADER + rest[0]
    {
      CoveredBy(n, rest);
    }
    if Fits(len, n) {
      var rest: seq<nat> := if len == n then [] else [len - n - HEADER];
      assert Covered([n] + rest) == Covered([len] + []);
    }
  }

  /** The block at `at` is free, within reach of the walk, and takes `n` bytes. */
  ghost predicate Takes(p: seq<byte>, at: nat, n: nat)
    requires |p| == PAGE_SIZE
  {
    at + HEADER < PAGE_SIZE && p[at] == 0 && Fits(Short(p, at + 1), n)
  }

  /** No block of the page takes `n` bytes: this is when tryInsert returns NULL. */
  ghost predicate NoRoom(p: seq<byte>, n: nat) {
    && |p| == PAGE_SIZE && Tiled(p, 0)
    && forall x: nat {:trigger IsBlock(p, 0, x)} | IsBlock(p, 0, x) :: !Takes(p, x, n)
  }

  /** The first block of the page that takes `n` bytes. */
  ghost predicate FirstToTake(p: seq<byte>, at: nat, n: nat) {
    && |p| == PAGE_SIZE && Tiled(p, 0) && IsBlock(p, 0, at) && Takes(p, at, n)
    && forall x: nat {:trigger IsBlock(p, 0, x)} | IsBlock(p, 0, x) && x < at :: !Takes(p, x, n)
  }

  /** The page after `record` was put into the free block at `at`. */
  ghost function Place(p: seq<byte>, at: nat, record: seq<byte>): (q: seq<byte>)
    requires at + HEADER + |record| <= |p|
    requires Short(p, at + 1) >= |record| + HEADER ==> at + HEADER + |record| + HEADER <= |p|
    ensures |q| == |p|
  {
    var len, next := Short(p, at + 1), at + HEADER + |record|;
    var taken := PutShort(PutBytes(p, at + HEADER, record), at + 1, |record|)[at := 1];
    if len >= |record| + HEADER then PutShort(taken[next := 0], next + 1, len - |record| - HEADER) else taken
  }

  /** Fill the free block at `now`, and give what is left of it a header of its own. */
  method Fill(data: array<byte>, now: nat, record: seq<byte>)
    requires data.Length == PAGE_SIZE && now + HEADER + |record| <= PAGE_SIZE
    requires Short(data[..], now + 1) >= |record| + HEADER ==> now + HEADER + |record| + HEADER <= PAGE_SIZE
    modifies data
    ensures data[..] == Place(old(data[..]), now, record)
  {
    var len := Short(data[..], now + 1);
    WriteBytes(data, now + 3, record);
    WriteShort(data, now + 1, |record|);
    data[now] := 1;
    if len >= |record| + 3 {
      var next := now + 3 + |record|;
      data[next] := 0;
      WriteShort(data, next + 1, len - |record| - 3);
    }
  }

  lemma {:induction false} NextIsBlock(p: seq<byte>, now: nat, at: nat)
    requires |p| == PAGE_SIZE && Tiled(p, now) && IsBlock(p, now, at) && End(p, at) < PAGE_SIZE
    ensures IsBlock(p, now, End(p, at))
    decreases PAGE_SIZE - now
  {
    if at != now {
      NextIsBlock(p, End(p, now), at);
    }
  }

  /** First fit over the blocks of the page; None is the source's NULL. */
  method TryInsert(data: array<byte>, record: seq<byte>) returns (at: Option<nat>)
    requires data.Length == PAGE_SIZE && Tiled(data[..], 0)
    modifies data
    ensures at.None? <==> NoRoom(old(data[..]), |record|)
    ensures at.None? ==> data[..] == old(data[..])
    ensures at.Some? ==>
      var p := old(data[..]);
      FirstToTake(p, at.value, |record|) && data[..] == Place(p, at.value, record)
  {
    ghost var p := data[..];
    var now: nat := 0;
    while now + 3 < PAGE_SIZE
      invariant data[..] == p
      invariant now <= PAGE_SIZE && Tiled(p, now)
      invariant forall x: nat | IsBlock(p, 0, x) :: x < now ==> !Takes(p, x, |record|)
      invariant forall x: nat | IsBlock(p, 0, x) :: x >= now ==> IsBlock(p, now, x)
      invariant now < PAGE_SIZE ==> IsBlock(p, 0, now)
      decreases PAGE_SIZE - now
    {
      var len := Short(data[..], now + 1);
      assert IsBlock(p, 0, now) && data[now] == p[now];
      if data[now] == 0 && (len >= |record| + 3 || len == |record|) {
        Fill(data, now, record);
        return Some(now);
      }
      now := now + 3 + len;
      if now < PAGE_SIZE {
        NextIsBlock(p, 0, now - 3 - len);
      }
    }
    at := None;
  }

  // ---------- what a fill, a deletion and an overwrite do to the records of the page ----------

  /** The header and the payload of the block that was taken. */
  lemma TakenBytes(p: seq<byte>, at: nat, record: seq<byte>) returns (taken: seq<byte>)
    requires |p| == PAGE_SIZE && at + HEADER + |record| <= PAGE_SIZE
    ensures taken == PutShort(PutBytes(p, at + HEADER, record), at + 1, |record|)[at := 1] && |taken| == |p|
    ensures taken[at] == 1 && Short(taken, at + 1) == |record|
    ensures taken[at + HEADER..at + HEADER + |record|] == record
    ensures forall k :: 0 <= k < at || at + HEADER + |record| <= k < PAGE_SIZE ==> taken[k] == p[k]
  {
    var body := PutBytes(p, at + HEADER, record);
    taken := PutShort(body, at + 1, |record|)[at := 1];
    ShortAfterPut(body, at + 1, |record|);
  }

  /** What the bytes of the page are after a fill. */
  lemma PlaceBytes(p: seq<byte>, at: nat, record: seq<byte>)
    requires |p| == PAGE_SIZE && at + HEADER <= PAGE_SIZE && 0 <= Short(p, at + 1) && End(p, at) <= PAGE_SIZE
    requires Fits(Short(p, at + 1), |record|)
    ensures var q, len, next := Place(p, at, record), Short(p, at + 1), at + HEADER + |record|;
      && (forall k :: 0 <= k < at || End(p, at) <= k < PAGE_SIZE ==> q[k] == p[k])
      && q[at] == 1 && Short(q, at + 1) == |record| && End(q, at) == next
      && q[at + HEADER..next] == record
      && (len != |record| ==>
            && next + HEADER <= End(p, at)
            && q[next] == 0 && Short(q, next + 1) == len - |record| - HEADER && End(q, next) == End(p, at))
  {
    var len, next := Short(p, at + 1), at + HEADER + |record|;
    var taken := TakenBytes(p, at, record);
    if len >= |record| + HEADER {
      ShortAfterPut(taken[next := 0], next + 1, len - |record| - HEADER);
      assert Place(p, at, record)[at + HEADER..next] == taken[at + HEADER..next];
    }
  }

  /** What a walk meets when the bytes from a block on were replaced, next to what it met before. */
  lemma WalkSplit(p: seq<byte>, q: seq<byte>, at: nat, x: nat)
    requires |p| == |q| == PAGE_SIZE && Tiled(p, 0) && IsBlock(p, 0, at) && Tiled(q, at)
    requires forall k :: 0 <= k < at ==> p[k] == q[k]
    requires x >= at ==> (IsBlock(q, at, x) <==> IsBlock(p, at, x))
    ensures Tiled(q, 0) && (IsBlock(q, 0, x) <==> IsBlock(p, 0, x))
  {
    BlockReplaced(p, q, 0, at, x);
    BlockReplaced(p, p, 0, at, x);
  }

  /** One step of the walk. */
  lemma OneBlock(p: seq<byte>, now: nat, x: nat)
    requires |p| == PAGE_SIZE && now + HEADER <= PAGE_SIZE && now + HEADER <= End(p, now) <= PAGE_SIZE
    requires Tiled(p, End(p, now))
    ensures Tiled(p, now) && (IsBlock(p, now, x) <==> x == now || IsBlock(p, End(p, now), x))
  {
  }

  lemma SameTail(p: seq<byte>, q: seq<byte>, at: nat, x: nat)
    requires |p| == |q| == PAGE_SIZE && Tiled(p, at) && at + HEADER <= PAGE_SIZE && End(p, at) <= PAGE_SIZE
    requires forall k :: End(p, at) <= k < PAGE_SIZE ==> q[k] == p[k]
    requires Short(q, at + 1) == Short(p, at + 1)
    ensures Tiled(q, at) && (IsBlock(q, at, x) <==> IsBlock(p, at, x))
  {
    SameSuffix(p, q, End(p, at), x);
  }

  /** The rest of a block that was split leads to the blocks behind it. */
  lemma SplitTail(p: seq<byte>, q: seq<byte>, at: nat, next: nat, x: nat)
    requires |p| == |q| == PAGE_SIZE && at + HEADER <= next && next + HEADER <= PAGE_SIZE && Tiled(p, at)
    requires next + HEADER <= End(p, at) <= PAGE_SIZE
    requires forall k :: End(p, at) <= k < PAGE_SIZE ==> q[k] == p[k]
    requires Short(q, at + 1) == next - at - HEADER && Short(q, next + 1) == End(p, at) - next - HEADER
    ensures Tiled(q, at) && (IsBlock(q, at, x) <==> IsBlock(p, at, x) || x == next)
  {
    SameSuffix(p, q, End(p, at), x);
    OneBlock(q, next, x);
    OneBlock(q, at, x);
    OneBlock(p, at, x);
  }

  /** The block that was taken, and what is left of it, lead to the blocks behind it. */
  lemma PlacedTail(p: seq<byte>, at: nat, record: seq<byte>, x: nat)
    requires |p| == PAGE_SIZE && Tiled(p, 0) && IsBlock(p, 0, at) && Fits(Short(p, at + 1), |record|)
    ensures var q, next := Place(p, at, record), at + HEADER + |record|;
      && Tiled(q, at) && (forall k :: 0 <= k < at ==> p[k] == q[k])
      && (IsBlock(q, at, x) <==> IsBlock(p, at, x) || (x == next && Short(p, at + 1) != |record|))
  {
    PlaceBytes(p, at, record);
    var q, next := Place(p, at, record), at + HEADER + |record|;
    if Short(p, at + 1) != |record| {
      SplitTail(p, q, at, next, x);
    } else {
      SameTail(p, q, at, x);
    }
  }

  /** The blocks after a fill: the same, and the rest of the block that was taken. */
  lemma PlaceBlocks(p: seq<byte>, at: nat, record: seq<byte>, x: nat)
    requires |p| == PAGE_SIZE && Tiled(p, 0) && IsBlock(p, 0, at)
    requires Fits(Short(p, at + 1), |record|)
    ensures var q, next := Place(p, at, record), at + HEADER + |record|;
      && Tiled(q, 0)
      && (IsBlock(q, 0, x) <==> IsBlock(p, 0, x) || (x == next && Short(p, at + 1) != |record|))
  {
    var q := Place(p, at, record);
    PlacedTail(p, at, record, x);
    BlockReplaced(p, q, 0, at, x);
    BlockReplaced(p, p, 0, at, x);
  }

  /** A record in another block keeps its place and its bytes. */
  lemma UnrelatedRecord(p: seq<byte>, q: seq<byte>, at: nat, x: nat, record: seq<byte>)
    requires |p| == |q| == PAGE_SIZE && Tiled(p, 0) && Tiled(q, 0)
    requires IsBlock(p, 0, at) && x != at && IsBlock(p, 0, x) && IsBlock(q, 0, x)
    requires forall k :: 0 <= k < at || End(p, at) <= k < PAGE_SIZE ==> q[k] == p[k]
    ensures p[x] == q[x] && (LiveAs(p, x, record) <==> LiveAs(q, x, record))
  {
    if x < at {
      BlocksDisjoint(p, 0, x, at);
    } else {
      BlocksDisjoint(p, 0, at, x);
    }
    assert Short(p, x + 1) == Short(q, x + 1);
    assert p[x + HEADER..End(p, x)] == q[x + HEADER..End(q, x)];
  }

  /** A fill adds exactly one record: the offset was not in use, and every other record is untouched. */
  lemma PlaceHolds(p: seq<byte>, live: map<nat, seq<byte>>, at: nat, record: seq<byte>)
    requires Holds(p, live) && IsBlock(p, 0, at) && Takes(p, at, |record|)
    ensures at !in live && Holds(Place(p, at, record), live[at := record])
  {
    var q, after := Place(p, at, record), live[at := record];
    PlaceBytes(p, at, record);
    PlaceBlocks(p, at, record, at);
    forall x | x in after ensures LiveAs(q, x, after[x]) {
      if x != at {
        PlaceBlocks(p, at, record, x);
        UnrelatedRecord(p, q, at, x, live[x]);
      }
    }
    forall x: nat | IsBlock(q, 0, x) && q[x] != 0 ensures x in after {
      PlaceBlocks(p, at, record, x);
      if x != at && IsBlock(p, 0, x) {
        UnrelatedRecord(p, q, at, x, []);
      }
    }
  }

  /** Changing a block's flag, or its payload in place, keeps every block. */
  lemma SameBlocks(p: seq<byte>, q: seq<byte>, at: nat, x: nat)
    requires |p| == |q| == PAGE_SIZE && Tiled(p, 0) && IsBlock(p, 0, at)
    requires forall k :: 0 <= k < at || End(p, at) <= k < PAGE_SIZE ==> q[k] == p[k]
    requires Short(q, at + 1) == Short(p, at + 1)
    ensures Tiled(q, 0) && (IsBlock(q, 0, x) <==> IsBlock(p, 0, x))
  {
    SameTail(p, q, at, x);
    WalkSplit(p, q, at, x);
  }

  /** delOneRecord: clearing the flag removes exactly that record. */
  lemma ClearHolds(p: seq<byte>, live: map<nat, seq<byte>>, at: nat)
    requires Holds(p, live) && at in live
    ensures at < PAGE_SIZE && Holds(p[at := 0], live - {at})
  {
    assert LiveAs(p, at, live[at]);
    var q := p[at := 0];
    SameBlocks(p, q, at, at);
    forall x | x in live - {at} ensures LiveAs(q, x, live[x]) {
      assert LiveAs(p, x, live[x]);
      SameBlocks(p, q, at, x);
      UnrelatedRecord(p, q, at, x, live[x]);
    }
    forall x: nat | IsBlock(q, 0, x) && q[x] != 0 ensures x in live - {at} {
      SameBlocks(p, q, at, x);
      UnrelatedRecord(p, q, at, x, []);
    }
  }

  /** One record is replaced by another of the same length, byte for byte in its payload. */
  ghost predicate Overwrites(p: seq<byte>, q: seq<byte>, at: nat, record: seq<byte>)
    requires |p| == PAGE_SIZE && Tiled(p, 0) && IsBlock(p, 0, at)
  {
    && |q| == PAGE_SIZE
    && (forall k :: 0 <= k < at || End(p, at) <= k < PAGE_SIZE ==> q[k] == p[k])
    && q[at] == p[at] && Short(q, at + 1) == Short(p, at + 1)
    && q[at + HEADER..End(p, at)] == record
  }

  lemma OverwriteBytes(p: seq<byte>, at: nat, record: seq<byte>)
    requires |p| == PAGE_SIZE && Tiled(p, 0) && IsBlock(p, 0, at) && Short(p, at + 1) == |record|
    ensures Overwrites(p, PutBytes(p, at + HEADER, record), at, record)
  {
    var q := PutBytes(p, at + HEADER, record);
    assert q[at + HEADER..End(p, at)] == record;
  }

  /** updateRecordNoResize: writing the same number of bytes changes exactly that record. */
  lemma OverwriteHolds(p: seq<byte>, live: map<nat, seq<byte>>, at: nat, record: seq<byte>, q: seq<byte>)
    requires Holds(p, live) && at in live && LiveAs(p, at, live[at])
    requires Overwrites(p, q, at, record)
    ensures Holds(q, live[at := record])
  {
    var after := live[at := record];
    SameBlocks(p, q, at, at);
    forall x | x in after ensures LiveAs(q, x, after[x]) {
      if x != at {
        assert LiveAs(p, x, live[x]);
        SameBlocks(p, q, at, x);
        UnrelatedRecord(p, q, at, x, live[x]);
      }
    }
    forall x: nat | IsBlock(q, 0, x) && q[x] != 0 ensures x in after {
      SameBlocks(p, q, at, x);
      if x != at {
        UnrelatedRecord(p, q, at, x, []);
      }
    }
  }

  /** A block never has a length that would not fit a fresh page, because what is around it is blocks too. */
  lemma BlockFits(p: seq<byte>, at: nat)
    requires |p| == PAGE_SIZE && Tiled(p, 0) && IsBlock(p, 0, at)
    ensures Fits(PAGE_SIZE - HEADER, End(p, at) - at - HEADER)
  {
    assert Tiled(p, End(p, at));
  }

  /** The one free block of a fresh page. */
  lemma FreshPage(p: seq<byte>)
    requires |p| == PAGE_SIZE && p[0] == 0 && Short(p, 1) == PAGE_SIZE - HEADER
    ensures Holds(p, map[]) && IsBlock(p, 0, 0)
  {
    assert Tiled(p, PAGE_SIZE);
    forall x: nat | IsBlock(p, 0, x) ensures x == 0 {
      assert !IsBlock(p, PAGE_SIZE, x);
    }
  }
}
