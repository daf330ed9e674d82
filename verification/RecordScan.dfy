/**
 The full scan of a table file (RecordManager::select in src/RecordManage/RecordManager.cpp): page after page, block
 after block, it meets every live record exactly once, in the order of the locations.
 */
module RecordScans {
  import opened Bytes
  import opened Locations
  import opened RecordManagement
  import FixedPage
  import VariablePage

  ghost predicate Increasing(s: seq<nat>) {
    forall i, j :: 0 <= i < j < |s| ==> s[i] < s[j]
  }

  // ---------- pages of variable-length records ----------

  /**
   The walk over the blocks before `now` has met the records that live there, and noted those that the checker passes.
   */
  ghost predicate MetBefore(live: map<nat, seq<byte>>, checker: seq<byte> -> bool, now: nat, met: seq<nat>) {
    Increasing(met) && (forall x :: x in met <==> x in live && x < now && checker(live[x]))
  }

  lemma MetNext(live: map<nat, seq<byte>>, checker: seq<byte> -> bool, now: nat, met: seq<nat>, next: nat)
    requires MetBefore(live, checker, now, met) && now < next && forall x :: x in live && now < x ==> next <= x
    ensures MetBefore(live, checker, next, if now in live && checker(live[now]) then met + [now] else met)
  {
    forall i | 0 <= i < |met| ensures met[i] < now {
      assert met[i] in met;
    }
  }

  /** No record lives inside another block. */
  lemma BehindBlock(p: seq<byte>, live: map<nat, seq<byte>>, now: nat, x: nat)
    requires VariablePage.Holds(p, live) && VariablePage.IsBlock(p, 0, now) && x in live && now < x
    ensures VariablePage.End(p, now) <= x
  {
    assert VariablePage.LiveAs(p, x, live[x]);
    VariablePage.BlocksDisjoint(p, 0, now, x);
  }

  lemma LiveBlock(p: seq<byte>, live: map<nat, seq<byte>>, now: nat)
    requires VariablePage.Holds(p, live) && VariablePage.IsBlock(p, 0, now)
    ensures p[now] != 0 <==> now in live
    ensures now in live ==> p[now + 3..VariablePage.End(p, now)] == live[now]
  {
    assert now in live ==> VariablePage.LiveAs(p, now, live[now]);
  }

  /** What one turn of that walk meets. */
  lemma BlockMet(p: seq<byte>, live: map<nat, seq<byte>>, checker: seq<byte> -> bool, now: nat, met: seq<nat>)
    requires VariablePage.Holds(p, live) && VariablePage.IsBlock(p, 0, now) && MetBefore(live, checker, now, met)
    ensures var end := VariablePage.End(p, now);
      MetBefore(live, checker, end, if p[now] != 0 && checker(p[now + 3..end]) then met + [now] else met)
  {
    LiveBlock(p, live, now);
    var end := VariablePage.End(p, now);
    forall x | x in live && now < x ensures end <= x {
      BehindBlock(p, live, now, x);
    }
    MetNext(live, checker, now, met, end);
  }

  /** One turn of that walk. */
  method ScanBlock(data: array<byte>, checker: seq<byte> -> bool, ghost live: map<nat, seq<byte>>, now: nat,
                   met: seq<nat>)
    returns (next: nat, met': seq<nat>)
    requires data.Length == PAGE_SIZE && VariablePage.Holds(data[..], live)
    requires VariablePage.IsBlock(data[..], 0, now) && MetBefore(live, checker, now, met)
    ensures next == VariablePage.End(data[..], now) && MetBefore(live, checker, next, met')
  {
    ghost var p := data[..];
    BlockMet(p, live, checker, now, met);
    next, met' := now + 3 + Short(data[..], now + 1), met;
    if data[now] != 0 {
      assert data[now + 3..next] == p[now + 3..next];
      if checker(data[now + 3..next]) {
        met' := met + [now];
      }
    }
  }

  /** The walk over a page of variable-length records. */
  method ScanVariable(data: array<byte>, checker: seq<byte> -> bool, ghost live: map<nat, seq<byte>>)
    returns (met: seq<nat>)
    requires data.Length == PAGE_SIZE && VariablePage.Holds(data[..], live)
    ensures MetBefore(live, checker, PAGE_SIZE, met)
  {
    ghost var p := data[..];
    met := [];
    var now: nat := 0;
    while now < PAGE_SIZE
      invariant now <= PAGE_SIZE && MetBefore(live, checker, now, met)
      invariant now < PAGE_SIZE ==> VariablePage.IsBlock(p, 0, now)
      decreases PAGE_SIZE - now
    {
      if now + 3 + Short(p, now + 1) < PAGE_SIZE {
        VariablePage.NextIsBlock(p, 0, now);
      }
      now, met := ScanBlock(data, checker, live, now, met);
    }
  }

  // ---------- pages of fixed-length records ----------

  /** The first `n` elements as a set. */
  ghost function SetOf(s: seq<nat>, n: nat): set<nat>
    requires n <= |s|
  {
    if n == 0 then {} else SetOf(s, n - 1) + {s[n - 1]}
  }

  lemma {:induction false} SetOfMember(s: seq<nat>, n: nat, x: nat)
    requires n <= |s|
    ensures x in SetOf(s, n) <==> exists k :: 0 <= k < n && s[k] == x
  {
    if n == 0 {
    } else {
      SetOfMember(s, n - 1, x);
    }
  }

  lemma {:induction false} CountDistinct(s: seq<nat>, n: nat)
    requires n <= |s| && NoDuplicates(s)
    ensures |SetOf(s, n)| == n
  {
    if n == 0 {
    } else {
      CountDistinct(s, n - 1);
      SetOfMember(s, n - 1, s[n - 1]);
    }
  }

  /** The slots of a page, in use or freed. */
  ghost function SlotSet(y: FixedPage.Layout): set<nat> {
    y.live.Keys + SetOf(y.free, |y.free|)
  }

  lemma SlotSetMember(y: FixedPage.Layout, s: nat)
    ensures s in SlotSet(y) <==> FixedPage.Slot(y, s)
  {
    SetOfMember(y.free, |y.free|, s);
  }

  lemma {:induction false} Smallest(t: set<nat>) returns (m: nat)
    requires t != {}
    ensures m in t && forall x :: x in t ==> m <= x
  {
    var x :| x in t;
    m := x;
    if t != {x} {
      var n := Smallest(t - {x});
      m := if n < x then n else x;
    }
    forall y | y in t ensures m <= y {
      assert y == x || y in t - {x};
    }
  }

  /** The length of `n` blocks of `w` bytes. */
  ghost function Steps(n: nat, w: nat): nat {
    if n == 0 then 0 else Steps(n - 1, w) + w
  }

  lemma {:induction false} StepsIsProduct(n: nat, w: nat)
    ensures Steps(n, w) == n * w
  {
    if n == 0 {
    } else {
      StepsIsProduct(n - 1, w);
      FixedPage.Distribute(n - 1, w);
    }
  }

  lemma {:induction false} StepsAdd(a: nat, b: nat, w: nat)
    ensures Steps(a + b, w) == Steps(a, w) + Steps(b, w)
  {
    if b == 0 {
    } else {
      StepsAdd(a, b - 1, w);
    }
  }

  /** Blocks of `w` bytes that lie between `a` and `b` and do not overlap. */
  ghost predicate Spaced(t: set<nat>, a: nat, b: nat, w: nat) {
    && (forall s :: s in t ==> a <= s && s + w <= b)
    && (forall s, u :: s in t && u in t && s < u ==> s + w <= u)
  }

  /** They take no more than the space they lie in. */
  lemma {:induction false} SpacedFits(t: set<nat>, a: nat, b: nat, w: nat)
    requires a <= b && w > 0 && Spaced(t, a, b, w)
    ensures Steps(|t|, w) <= b - a
    decreases |t|
  {
    if t != {} {
      var m := Smallest(t);
      var rest := t - {m};
      SpacedFits(rest, m + w, b, w);
      assert |t| == |rest| + 1;
    }
  }

  /** If there are as many as fit, every position holds one. */
  lemma {:induction false} Packed(t: set<nat>, a: nat, w: nat, k: nat)
    requires w > 0 && k < |t| && Spaced(t, a, a + Steps(|t|, w), w)
    ensures a + Steps(k, w) in t
    decreases |t|
  {
    var m := Smallest(t);
    var b := a + Steps(|t|, w);
    var rest := t - {m};
    SpacedFits(rest, m + w, b, w);
    assert |t| == |rest| + 1 && m == a;
    if k > 0 {
      Packed(rest, a + w, w, k - 1);
    }
  }

  lemma CountKeys(live: map<nat, seq<byte>>)
    ensures |live.Keys| == |live|
  {
  }

  lemma CountUnion(a: set<nat>, b: set<nat>)
    requires a !! b
    ensures |a + b| == |a| + |b|
  {
  }

  lemma FreedNotLive(p: seq<byte>, y: FixedPage.Layout, len: nat, s: nat)
    requires FixedPage.Holds(p, y, len) && s in y.free
    ensures s !in y.live
  {
    var k :| 0 <= k < |y.free| && y.free[k] == s;
    assert FixedPage.FreedOk(p, y, len, k);
  }

  lemma SlotCount(p: seq<byte>, y: FixedPage.Layout, len: nat)
    requires FixedPage.Holds(p, y, len)
    ensures |SlotSet(y)| == |y.live| + |y.free|
  {
    var freed := SetOf(y.free, |y.free|);
    forall s | s in freed ensures s !in y.live.Keys {
      SetOfMember(y.free, |y.free|, s);
      FreedNotLive(p, y, len, s);
    }
    CountDistinct(y.free, |y.free|);
    CountUnion(y.live.Keys, freed);
    CountKeys(y.live);
  }

  /** Where slot `k` of a page begins. */
  ghost function SlotAt(len: nat, k: nat): nat {
    FixedPage.FIRST + Steps(k, len + 1)
  }

  /** The slots of a page do not overlap, and are as many as fit between the list head and the unsplit rest. */
  lemma SlotsSpaced(y: FixedPage.Layout, len: nat)
    requires FixedPage.SlotsOk(y, len)
    ensures Spaced(SlotSet(y), FixedPage.FIRST, y.tail, len + 1)
  {
    var all := SlotSet(y);
    forall s | s in all ensures FixedPage.FIRST <= s && s + (len + 1) <= y.tail {
      SlotSetMember(y, s);
      assert FixedPage.Slot(y, s);
    }
    forall s, u | s in all && u in all && s < u ensures s + (len + 1) <= u {
      SlotSetMember(y, s);
      SlotSetMember(y, u);
      assert FixedPage.Slot(y, s) && FixedPage.Slot(y, u);
    }
  }

  lemma TailOf(y: FixedPage.Layout, len: nat)
    requires y.tail == FixedPage.FIRST + (|y.live| + |y.free|) * (len + 1) && |SlotSet(y)| == |y.live| + |y.free|
    ensures y.tail == FixedPage.FIRST + Steps(|SlotSet(y)|, len + 1)
  {
    StepsIsProduct(|SlotSet(y)|, len + 1);
  }

  lemma TailSteps(p: seq<byte>, y: FixedPage.Layout, len: nat)
    requires FixedPage.Holds(p, y, len)
    ensures y.tail == FixedPage.FIRST + Steps(|SlotSet(y)|, len + 1)
  {
    SlotCount(p, y, len);
    TailOf(y, len);
  }

  lemma {:induction false} StepsGrow(a: nat, b: nat, w: nat)
    requires a <= b
    ensures Steps(a, w) <= Steps(b, w)
  {
    if a < b {
      StepsGrow(a, b - 1, w);
    }
  }

  /** Every position before the unsplit rest is a slot. */
  lemma PositionUsed(all: set<nat>, tail: nat, w: nat, k: nat)
    requires w > 0 && Spaced(all, FixedPage.FIRST, tail, w) && tail == FixedPage.FIRST + Steps(|all|, w)
    requires FixedPage.FIRST + Steps(k, w) < tail
    ensures FixedPage.FIRST + Steps(k, w) in all
  {
    if k >= |all| {
      StepsGrow(|all|, k, w);
    }
    Packed(all, FixedPage.FIRST, w, k);
  }

  /** The slots as a set. */
  lemma SlotsAsSet(p: seq<byte>, y: FixedPage.Layout, len: nat) returns (all: set<nat>)
    requires FixedPage.Holds(p, y, len)
    ensures Spaced(all, FixedPage.FIRST, y.tail, len + 1) && y.tail == FixedPage.FIRST + Steps(|all|, len + 1)
    ensures forall s :: s in all ==> s in y.live || s in y.free
  {
    all := SlotSet(y);
    TailSteps(p, y, len);
    SlotsSpaced(y, len);
    forall s | s in all ensures s in y.live || s in y.free {
      SlotSetMember(y, s);
    }
  }

  lemma PositionIsSlot(p: seq<byte>, y: FixedPage.Layout, len: nat, k: nat)
    requires FixedPage.Holds(p, y, len) && SlotAt(len, k) < y.tail
    ensures FixedPage.Slot(y, SlotAt(len, k))
  {
    var all := SlotsAsSet(p, y, len);
    PositionUsed(all, y.tail, len + 1, k);
  }

  /** What a fixed-length page holds at a slot: a record, or a freed block of the record length. */
  lemma SlotBytes(p: seq<byte>, y: FixedPage.Layout, len: nat, s: nat)
    requires FixedPage.Holds(p, y, len) && FixedPage.Slot(y, s)
    ensures FixedPage.FIRST <= s && s + 1 + len <= y.tail
    ensures p[s] != 0 <==> s in y.live
    ensures s !in y.live ==> Short(p, s + 1) == len
    ensures s in y.live ==> p[s + 1..s + 1 + len] == y.live[s]
    ensures forall x :: x in y.live && s < x ==> s + 1 + len <= x
  {
    if s in y.live {
      assert FixedPage.LiveOk(p, y, len, s);
    } else {
      var k :| 0 <= k < |y.free| && y.free[k] == s;
      assert FixedPage.FreedOk(p, y, len, k);
    }
    forall x | x in y.live && s < x ensures s + 1 + len <= x {
      assert FixedPage.Slot(y, x);
    }
  }

  /** Behind the last slot there is only the unsplit rest. */
  lemma NothingBehind(p: seq<byte>, y: FixedPage.Layout, len: nat, x: nat)
    requires FixedPage.Holds(p, y, len) && x in y.live
    ensures x < y.tail <= FixedPage.LIMIT
  {
    assert FixedPage.Slot(y, x);
  }

  /** What the scan finds at a position: a slot, or the unsplit rest, with nothing behind it. */
  lemma SlotOrRest(p: seq<byte>, y: FixedPage.Layout, len: nat, k: nat, now: nat)
    requires FixedPage.Holds(p, y, len) && now == SlotAt(len, k) && now <= y.tail && now < FixedPage.LIMIT
    ensures p[now] != 0 ==> now + 1 + len <= y.tail && now in y.live && p[now + 1..now + 1 + len] == y.live[now]
    ensures p[now] == 0 ==> now !in y.live
    ensures p[now] == 0 ==> now + 1 + Short(p, now + 1) == if now < y.tail then now + 1 + len else FixedPage.LIMIT
    ensures now < y.tail ==> now + 1 + len <= y.tail
    ensures forall x :: x in y.live && now < x ==> now < y.tail && now + 1 + len <= x
  {
    if now < y.tail {
      PositionIsSlot(p, y, len, k);
      SlotBytes(p, y, len, now);
    } else {
      forall x | x in y.live ensures x < now {
        NothingBehind(p, y, len, x);
      }
    }
  }

  /** One turn of the scan of a fixed-length page: a slot, or the unsplit rest. */
  method ScanSlot(data: array<byte>, len: nat, checker: seq<byte> -> bool, ghost y: FixedPage.Layout, ghost k: nat,
                  now: nat, met: seq<nat>)
    returns (next: nat, met': seq<nat>)
    requires data.Length == PAGE_SIZE && FixedPage.Holds(data[..], y, len)
    requires MetBefore(y.live, checker, now, met) && now < FixedPage.LIMIT && now == SlotAt(len, k) && now <= y.tail
    ensures now < next && MetBefore(y.live, checker, next, met')
    ensures (next == SlotAt(len, k + 1) && next <= y.tail) || next == FixedPage.LIMIT
  {
    SlotOrRest(data[..], y, len, k, now);
    MetNext(y.live, checker, now, met, if now < y.tail then now + 1 + len else FixedPage.LIMIT);
    if data[now] == 0 {
      next, met' := now + 1 + Short(data[..], now + 1), met;
    } else {
      next, met' := now + 1 + len, met;
      if checker(data[now + 1..now + 1 + len]) {
        met' := met + [now];
      }
    }
  }

  /** The walk over a page of fixed-length records; it stops where the blocks end. */
  method ScanFixed(data: array<byte>, len: nat, checker: seq<byte> -> bool, ghost y: FixedPage.Layout)
    returns (met: seq<nat>)
    requires data.Length == PAGE_SIZE && FixedPage.Holds(data[..], y, len)
    ensures MetBefore(y.live, checker, PAGE_SIZE, met)
  {
    ghost var p, k := data[..], 0;
    met := [];
    var now: nat := FixedPage.FIRST;
    forall x | x in y.live ensures FixedPage.FIRST <= x {
      SlotBytes(p, y, len, x);
    }
    while now < FixedPage.LIMIT
      invariant MetBefore(y.live, checker, now, met)
      invariant (now == SlotAt(len, k) && now <= y.tail) || now == FixedPage.LIMIT
      decreases PAGE_SIZE - now
    {
      now, met := ScanSlot(data, len, checker, y, k, now, met);
      k := k + 1;
    }
    forall x | x in y.live ensures x < now {
      NothingBehind(p, y, len, x);
    }
  }

  // ---------- the file ----------

  /** The record at `l` is among those noted exactly if it is live, passes, and lies before page `p`. */
  ghost predicate Noted(records: map<Location, seq<byte>>, checker: seq<byte> -> bool, p: nat, locs: seq<Location>,
                        l: Location) {
    l in locs <==> l in records && checker(records[l]) && l.pageNumber < p
  }

  ghost predicate AllNoted(records: map<Location, seq<byte>>, checker: seq<byte> -> bool, p: nat, locs: seq<Location>) {
    Ordered(locs) && forall l {:trigger Noted(records, checker, p, locs, l)} :: Noted(records, checker, p, locs, l)
  }

  /** The locations on page `p`. */
  function OnPage(p: nat, met: seq<nat>): (locs: seq<Location>)
    requires p < MAX_PAGES && forall x :: x in met ==> x < PAGE_SIZE
    ensures |locs| == |met| && forall i :: 0 <= i < |met| ==> locs[i].pageNumber == p && locs[i].loc == met[i]
  {
    seq(|met|, i requires 0 <= i < |met| => assert met[i] in met; Location(p, met[i]))
  }

  lemma OnPageMember(p: nat, met: seq<nat>, l: Location)
    requires p < MAX_PAGES && forall x :: x in met ==> x < PAGE_SIZE
    ensures l in OnPage(p, met) <==> l.pageNumber == p && l.loc in met
  {
    if l.pageNumber == p && l.loc in met {
      var i :| 0 <= i < |met| && met[i] == l.loc;
      assert OnPage(p, met)[i] == l;
    }
  }

  /** One page more. */
  lemma PageNoted(contents: map<nat, Content>, records: map<Location, seq<byte>>, checker: seq<byte> -> bool, p: nat,
                  locs: seq<Location>, met: seq<nat>)
    requires Flattens(contents, records) && p in contents && p < MAX_PAGES && AllNoted(records, checker, p, locs)
    requires MetBefore(Records(contents[p]), checker, PAGE_SIZE, met)
    requires forall x :: x in Records(contents[p]) ==> x < PAGE_SIZE
    ensures AllNoted(records, checker, p + 1, locs + OnPage(p, met))
  {
    var now, all := OnPage(p, met), locs + OnPage(p, met);
    var next := p + 1;
    forall l ensures Noted(records, checker, next, all, l) {
      assert Noted(records, checker, p, locs, l);
      assert l in records <==> InUse(contents, l);
      OnPageMember(p, met, l);
    }
    forall i: nat, j: nat ensures InTurn(now, i, j) {
    }
    forall a, b | a in locs && b in now ensures Before(a, b) {
      assert Noted(records, checker, p, locs, a);
    }
    OrderedJoin(locs, now);
  }

  /** A page without records. */
  lemma PageSkipped(contents: map<nat, Content>, records: map<Location, seq<byte>>, checker: seq<byte> -> bool, p: nat,
                    locs: seq<Location>)
    requires Flattens(contents, records) && p !in contents && AllNoted(records, checker, p, locs)
    ensures AllNoted(records, checker, p + 1, locs)
  {
    var next := p + 1;
    forall l ensures Noted(records, checker, next, locs, l) {
      assert Noted(records, checker, p, locs, l);
      assert l in records <==> InUse(contents, l);
    }
  }

  /** The records of a data page, by its layout. */
  method ScanPage(rm: RecordManager, p: nat, fixed: bool, checker: seq<byte> -> bool) returns (met: seq<nat>)
    requires rm.Valid() && p in rm.contents && rm.contents[p].Fixed? == fixed
    ensures MetBefore(Records(rm.contents[p]), checker, PAGE_SIZE, met)
    ensures forall x :: x in Records(rm.contents[p]) ==> x < PAGE_SIZE
  {
    assert Sound(rm.pages, rm.len, rm.contents, p);
    var data := rm.GetBuf(p);
    ghost var c := rm.contents[p];
    if fixed {
      met := ScanFixed(data, rm.len, checker, c.layout);
      forall x | x in c.layout.live ensures x < PAGE_SIZE {
        NothingBehind(data[..], c.layout, rm.len, x);
      }
    } else {
      met := ScanVariable(data, checker, c.records);
      forall x | x in c.records ensures x < PAGE_SIZE {
        assert VariablePage.LiveAs(data[..], x, c.records[x]);
      }
    }
  }

  /** Pages 0 and 1 hold no records. */
  lemma NothingYet(rm: RecordManager, checker: seq<byte> -> bool)
    requires rm.Valid()
    ensures AllNoted(rm.records, checker, 2, [])
  {
    forall l: Location ensures Noted(rm.records, checker, 2, [], l) {
      assert l in rm.records ==> InUse(rm.contents, l) && Sound(rm.pages, rm.len, rm.contents, l.pageNumber);
    }
  }

  /**
   select: the locations of the live records that the checker passes, each once and in order. The running dictionary
   page and index tell the layout of each page.
   */
  method Select(rm: RecordManager, checker: seq<byte> -> bool) returns (locs: seq<Location>)
    requires rm.Valid() && 2 <= rm.PageCount()
    ensures Ordered(locs) && forall l :: l in locs <==> l in rm.records && checker(rm.records[l])
  {
    locs := [];
    var dicPage, index, i := 1, 0, 2;
    var count := rm.PageCount();
    NothingYet(rm, checker);
    while i < count
      invariant 2 <= i <= count && IsDictionary(dicPage) && dicPage < count && index <= PAGE_SIZE
          && i == dicPage + 1 + index
      invariant AllNoted(rm.records, checker, i, locs)
      decreases count - i
    {
      assert Sound(rm.pages, rm.len, rm.contents, i);
      if index == PAGE_SIZE {
        NextDictionary(dicPage);
        PageSkipped(rm.contents, rm.records, checker, i, locs);
        dicPage, index := i, 0;
      } else {
        ScanAddress(dicPage, index);
        var fixed := !VariableBit(rm.pages[dicPage][index]);
        var met := ScanPage(rm, i, fixed, checker);
        PageNoted(rm.contents, rm.records, checker, i, locs, met);
        locs := locs + OnPage(i, met);
        index := index + 1;
      }
      i := i + 1;
    }
    forall l ensures l in locs <==> l in rm.records && checker(rm.records[l]) {
      assert Noted(rm.records, checker, i, locs, l);
      assert l in rm.records ==> InUse(rm.contents, l) && Sound(rm.pages, rm.len, rm.contents, l.pageNumber);
    }
  }
}
