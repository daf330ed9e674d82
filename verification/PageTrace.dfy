/**
 Runs of a page cache: at any capacity and in either mode its users read what they would read from a plain array of
 pages, as long as no buffer is given up that was changed and not marked; and the page that is given up is the one
 that was released longest ago.
 */
module PageTraces {
  import opened Bytes
  import Locations
  import opened PageCaches

  /**
   What users do: get the object of a page, get its buffer, change a byte of it, mark the page, release the buffer; or
   write everything back.
   */
  datatype Op =
    | Find(id: nat)
    | Get(id: nat)
    | Put(id: nat, at: nat, value: byte)
    | Mark(id: nat)
    | Release(id: nat)
    | Flush

  /** What the source asserts: a victim where one is needed, and a buffer where one is used. */
  predicate Enabled(c: Cache, op: Op) {
    match op
    case Find(_) => true
    case Get(id) => HasBuffer(c, id) || CanReserve(Known(c, id))
    case Put(id, at, _) => Pinned(c, id) && HasBuffer(c, id) && at < |c.slots[id].buf.value|
    case Mark(id) => id in c.slots
    case Release(id) => Pinned(c, id) && HasBuffer(c, id)
    case Flush => Writable(c)
  }

  function Step(c: Cache, op: Op): Cache
    requires Enabled(c, op)
  {
    match op
    case Find(id) => Known(c, id)
    case Get(id) => Acquired(c, id)
    case Put(id, at, value) => Poked(c, id, at, value)
    case Mark(id) => Marked(c, id)
    case Release(id) => Released(c, id)
    case Flush => Flushed(c, c.slots.Keys)
  }

  /** The page whose buffer an operation gives up, if any. */
  function Lost(c: Cache, op: Op): Locations.Option<nat>
    requires Enabled(c, op)
  {
    match op
    case Get(id) => LostByGet(c, id)
    case Release(id) => LostByRelease(c, id)
    case _ => Locations.None
  }

  /** The buffer that an operation gives up, if any, belongs to a page that is marked or as in the file. */
  predicate Kept(c: Cache, op: Op)
    requires Enabled(c, op)
  {
    Lost(c, op).Some? ==> Settled(c, Lost(c, op).value)
  }

  /** The first `n` operations can be done one after the other. */
  predicate Runs(c: Cache, ops: seq<Op>, n: nat)
    requires n <= |ops|
    decreases n, 0
  {
    n == 0 || (Runs(c, ops, n - 1) && Enabled(After(c, ops, n - 1), ops[n - 1]))
  }

  /** The cache after the first `n` operations. */
  function After(c: Cache, ops: seq<Op>, n: nat): Cache
    requires n <= |ops| && Runs(c, ops, n)
    decreases n, 1
  {
    if n == 0 then c else Step(After(c, ops, n - 1), ops[n - 1])
  }

  /** A page of a plain array after one operation. */
  function PlainStep(page: PageBytes, id: nat, op: Op): (p: PageBytes)
    ensures |p| == |page|
  {
    if op.Put? && op.id == id && op.at < |page| then page[op.at := op.value] else page
  }

  /** A page of a plain array after the first `n` operations, if it was `page` before. */
  function Plain(page: PageBytes, id: nat, ops: seq<Op>, n: nat): (p: PageBytes)
    requires n <= |ops|
    ensures |p| == |page|
  {
    if n == 0 then page else PlainStep(Plain(page, id, ops, n - 1), id, ops[n - 1])
  }

  /** An operation is seen as in a plain array, except in the page whose buffer it gives up. */
  lemma StepOk(c: Cache, op: Op)
    requires Ok(c) && Enabled(c, op)
    ensures Ok(Step(c, op))
    ensures forall id: nat :: View(Step(c, op), id) ==
              if Lost(c, op) == Locations.Some(id) then LeftBehind(c, id) else PlainStep(View(c, id), id, op)
    ensures Lost(c, op).Some? ==> !op.Put?
  {
    match op {
      case Find(id) => KnownOk(c, id);
      case Get(id) => AcquiredOk(c, id);
      case Put(id, at, value) =>
        assert PageOk(c, id);
        PokedOk(c, id, at, value);
      case Mark(id) => MarkedOk(c, id);
      case Release(id) => ReleasedOk(c, id);
      case Flush => FlushedOk(c, c.slots.Keys);
    }
    forall id: nat ensures View(Step(c, op), id) ==
        if Lost(c, op) == Locations.Some(id) then LeftBehind(c, id) else PlainStep(View(c, id), id, op)
    {
      assert !op.Put? ==> PlainStep(View(c, id), id, op) == View(c, id);
    }
  }

  /** An operation is seen exactly as in a plain array if and only if it gives no change up. */
  lemma StepExactly(c: Cache, op: Op)
    requires Ok(c) && Enabled(c, op)
    ensures (forall id :: View(Step(c, op), id) == PlainStep(View(c, id), id, op)) <==> Kept(c, op)
  {
    StepOk(c, op);
    var lost := Lost(c, op);
    if lost.Some? {
      LossIsSeen(c, lost.value);
      assert View(Step(c, op), lost.value) == LeftBehind(c, lost.value);
      assert PlainStep(View(c, lost.value), lost.value, op) == View(c, lost.value);
    }
  }

  /** Whatever the users do, the cache keeps its books. */
  lemma {:induction false} AlwaysOk(c: Cache, ops: seq<Op>, n: nat)
    requires n <= |ops| && Ok(c) && Runs(c, ops, n)
    ensures Ok(After(c, ops, n))
  {
    if n == 0 {
    } else {
      AlwaysOk(c, ops, n - 1);
      StepOk(After(c, ops, n - 1), ops[n - 1]);
    }
  }

  /** After `k` operations every page reads as in a plain array that got the same changes. */
  ghost predicate PlainAt(c: Cache, ops: seq<Op>, k: nat) {
    k <= |ops| && Runs(c, ops, k) && forall id :: View(After(c, ops, k), id) == Plain(View(c, id), id, ops, k)
  }

  /** Operation `k` gives no change up. */
  ghost predicate KeptAt(c: Cache, ops: seq<Op>, k: nat) {
    k < |ops| && Runs(c, ops, k + 1) && Kept(After(c, ops, k), ops[k])
  }

  lemma PlainStepAt(c: Cache, ops: seq<Op>, n: nat)
    requires n < |ops| && Ok(c) && Runs(c, ops, n + 1) && PlainAt(c, ops, n)
    ensures PlainAt(c, ops, n + 1) <==> KeptAt(c, ops, n)
  {
    var before := After(c, ops, n);
    AlwaysOk(c, ops, n);
    StepExactly(before, ops[n]);
    forall id ensures Plain(View(c, id), id, ops, n + 1) == PlainStep(View(before, id), id, ops[n]) {
      assert View(before, id) == Plain(View(c, id), id, ops, n);
    }
  }

  /**
   The cache is invisible, at every step of a run, exactly if no step gives up a buffer that was changed and not marked.
   */
  lemma {:induction false} CacheIsPlain(c: Cache, ops: seq<Op>, n: nat)
    requires n <= |ops| && Ok(c) && Runs(c, ops, n)
    ensures (forall k: nat | k <= n :: PlainAt(c, ops, k)) <==> (forall k: nat | k < n :: KeptAt(c, ops, k))
  {
    if n == 0 {
      assert PlainAt(c, ops, 0);
    } else {
      CacheIsPlain(c, ops, n - 1);
      if PlainAt(c, ops, n - 1) {
        PlainStepAt(c, ops, n - 1);
      }
      assert (forall k: nat | k <= n :: PlainAt(c, ops, k)) <==>
          (forall k: nat | k <= n - 1 :: PlainAt(c, ops, k)) && PlainAt(c, ops, n);
      assert (forall k: nat | k < n :: KeptAt(c, ops, k)) <==>
          (forall k: nat | k < n - 1 :: KeptAt(c, ops, k)) && KeptAt(c, ops, n - 1);
    }
  }

  /** A buffer that was just got holds the page of the plain array, if no change was given up before. */
  lemma ReadsPlain(c: Cache, ops: seq<Op>, n: nat, id: nat)
    requires n < |ops| && Ok(c) && Runs(c, ops, n + 1) && ops[n] == Get(id)
    requires forall k: nat | k < n :: KeptAt(c, ops, k)
    ensures HasBuffer(After(c, ops, n + 1), id)
    ensures After(c, ops, n + 1).slots[id].buf.value == Plain(View(c, id), id, ops, n)
  {
    CacheIsPlain(c, ops, n);
    AlwaysOk(c, ops, n);
    assert PlainAt(c, ops, n);
    AcquiredOk(After(c, ops, n), id);
  }

  /** Two caches of one file, of any capacities and modes, stay indistinguishable while neither gives a change up. */
  lemma CachesAgree(a: Cache, b: Cache, ops: seq<Op>, n: nat)
    requires n <= |ops| && Ok(a) && Ok(b) && SameView(a, b) && Runs(a, ops, n) && Runs(b, ops, n)
    requires forall k: nat | k < n :: KeptAt(a, ops, k) && KeptAt(b, ops, k)
    ensures SameView(After(a, ops, n), After(b, ops, n))
  {
    CacheIsPlain(a, ops, n);
    CacheIsPlain(b, ops, n);
    assert PlainAt(a, ops, n) && PlainAt(b, ops, n);
    forall id ensures View(After(a, ops, n), id) == View(After(b, ops, n), id) {
      assert View(a, id) == View(b, id);
    }
  }

  /** After writing everything back, the file is the plain array, exactly if every changed page has been marked. */
  lemma FlushedIsPlain(c: Cache, ops: seq<Op>, n: nat)
    requires n <= |ops| && Ok(c) && Runs(c, ops, n)
    requires forall k: nat | k < n :: KeptAt(c, ops, k)
    ensures var d := After(c, ops, n);
      (forall id :: FilePage(Flushed(d, d.slots.Keys).file, id) == Plain(View(c, id), id, ops, n))
        <==> forall id :: Settled(d, id)
  {
    CacheIsPlain(c, ops, n);
    AlwaysOk(c, ops, n);
    var d := After(c, ops, n);
    assert PlainAt(c, ops, n);
    FlushedFile(d);
    forall id ensures View(d, id) == Plain(View(c, id), id, ops, n) {
    }
  }

  // ---------- users that mark what they change ----------

  /** The last user of a changed page has marked it before releasing it. */
  predicate Careful(c: Cache, op: Op)
    requires Enabled(c, op)
  {
    op.Release? && c.slots[op.id].refs == 1 ==> Settled(c, op.id)
  }

  ghost predicate CarefulAt(c: Cache, ops: seq<Op>, k: nat) {
    k < |ops| && Runs(c, ops, k + 1) && Careful(After(c, ops, k), ops[k])
  }

  /** A page that nobody uses is marked or as in the file. */
  ghost predicate Quiet(c: Cache) {
    forall id {:trigger Settled(c, id)} :: !Pinned(c, id) ==> Settled(c, id)
  }

  lemma LoadedSettled(c: Cache, x: nat, id: nat)
    requires Ok(c) && !HasBuffer(c, x) && CanReserve(c) && Settled(c, id)
    ensures Settled(Loaded(c, x), id)
  {
    assert PageOk(c, id);
    assert c.weak != [] ==> c.weak[0] in c.weak && PageOk(c, c.weak[0]);
    assert Settled(Reserved(c), id);
  }

  lemma GotSettled(c: Cache, x: nat, id: nat)
    requires Ok(c) && (HasBuffer(c, x) || CanReserve(Known(c, x))) && Settled(c, id)
    ensures Settled(Acquired(c, x), id)
  {
    if !HasBuffer(c, x) {
      KnownOk(c, x);
      assert PageOk(c, id);
      LoadedSettled(Known(c, x), x, id);
    }
  }

  /** A page that no operation writes to stays marked or as in the file. */
  lemma StaysSettled(c: Cache, op: Op, id: nat)
    requires Ok(c) && Enabled(c, op) && Settled(c, id) && !(op.Put? && op.id == id)
    ensures Settled(Step(c, op), id)
  {
    assert PageOk(c, id);
    if op.Get? {
      GotSettled(c, op.id, id);
    }
  }

  lemma StaysQuiet(c: Cache, op: Op)
    requires Ok(c) && Enabled(c, op) && Quiet(c) && Careful(c, op)
    ensures Quiet(Step(c, op)) && Kept(c, op)
  {
    var d := Step(c, op);
    forall id | !Pinned(d, id) ensures Settled(d, id) {
      assert Settled(c, id) by {
        assert PageOk(c, id);
        assert Pinned(c, id) ==> op == Release(id) && c.slots[id].refs == 1;
      }
      assert !(op.Put? && op.id == id);
      StaysSettled(c, op, id);
    }
    if op.Get? && Lost(c, op).Some? {
      var x := Lost(c, op).value;
      assert x in Known(c, op.id).weak && PageOk(c, x);
      assert Settled(c, x);
    }
  }

  lemma CarefulStep(c: Cache, ops: seq<Op>, n: nat)
    requires CarefulAt(c, ops, n) && Ok(After(c, ops, n)) && Quiet(After(c, ops, n))
    ensures Quiet(After(c, ops, n + 1)) && KeptAt(c, ops, n)
  {
    var before := After(c, ops, n);
    StaysQuiet(before, ops[n]);
    assert After(c, ops, n + 1) == Step(before, ops[n]);
  }

  lemma {:induction false} CarefulKeeps(c: Cache, ops: seq<Op>, n: nat)
    requires n <= |ops| && Ok(c) && Quiet(c) && Runs(c, ops, n)
    requires forall k: nat | k < n :: CarefulAt(c, ops, k)
    ensures Quiet(After(c, ops, n)) && forall k: nat | k < n :: KeptAt(c, ops, k)
  {
    if n == 0 {
    } else {
      CarefulKeeps(c, ops, n - 1);
      AlwaysOk(c, ops, n - 1);
      CarefulStep(c, ops, n - 1);
    }
  }

  /** Users that mark what they change never lose a change, so to them the cache is invisible. */
  lemma CarefulIsPlain(c: Cache, ops: seq<Op>, n: nat)
    requires n <= |ops| && Ok(c) && Quiet(c) && Runs(c, ops, n)
    requires forall k: nat | k < n :: CarefulAt(c, ops, k)
    ensures forall k: nat | k <= n :: PlainAt(c, ops, k)
  {
    CarefulKeeps(c, ops, n);
    CacheIsPlain(c, ops, n);
  }

  // ---------- runs that stay below the limit ----------

  /** Some pages, and those that the first `n` operations get. */
  function WithGot(pages: set<nat>, ops: seq<Op>, n: nat): set<nat>
    requires n <= |ops|
  {
    if n == 0 then pages
    else
      var before := WithGot(pages, ops, n - 1);
      if ops[n - 1].Get? then before + {ops[n - 1].id} else before
  }

  /** In lazy mode only getBuf changes which pages have buffers. */
  lemma StepHeld(c: Cache, op: Op)
    requires Enabled(c, op) && c.lazy && !op.Get?
    ensures Held(Step(c, op)) == Held(c) && Lost(c, op).None?
  {
  }

  /** In lazy mode an operation gives nothing up while there is room for the page that it gets. */
  lemma StepWithRoom(c: Cache, op: Op)
    requires Ok(c) && Enabled(c, op) && c.lazy
    requires op.Get? ==> |Held(c) + {op.id}| <= c.max
    ensures Lost(c, op).None? && Held(Step(c, op)) == if op.Get? then Held(c) + {op.id} else Held(c)
  {
    if op.Get? {
      if !HasBuffer(c, op.id) {
        assert |Held(c) + {op.id}| == |Held(c)| + 1;
      }
      KeptBelowLimit(c, op.id);
    } else {
      StepHeld(c, op);
    }
  }

  lemma StepMode(c: Cache, op: Op)
    requires Enabled(c, op)
    ensures Step(c, op).lazy == c.lazy && Step(c, op).max == c.max
  {
  }

  lemma {:induction false} ModeStays(c: Cache, ops: seq<Op>, n: nat)
    requires n <= |ops| && Runs(c, ops, n)
    ensures After(c, ops, n).lazy == c.lazy && After(c, ops, n).max == c.max
  {
    if n == 0 {
    } else {
      ModeStays(c, ops, n - 1);
      StepMode(After(c, ops, n - 1), ops[n - 1]);
      assert After(c, ops, n) == Step(After(c, ops, n - 1), ops[n - 1]);
    }
  }

  lemma HeldOneMore(c: Cache, ops: seq<Op>, n: nat)
    requires n < |ops| && Ok(c) && c.lazy && Runs(c, ops, n + 1) && |WithGot(Held(c), ops, n + 1)| <= c.max
    requires Held(After(c, ops, n)) == WithGot(Held(c), ops, n)
    ensures Held(After(c, ops, n + 1)) == WithGot(Held(c), ops, n + 1) && KeptAt(c, ops, n)
  {
    AlwaysOk(c, ops, n);
    ModeStays(c, ops, n);
    StepWithRoom(After(c, ops, n), ops[n]);
  }

  lemma FewerBefore(c: Cache, ops: seq<Op>, n: nat)
    requires 0 < n <= |ops| && Runs(c, ops, n)
    ensures Runs(c, ops, n - 1) && |WithGot(Held(c), ops, n - 1)| <= |WithGot(Held(c), ops, n)|
  {
    CountWithin(WithGot(Held(c), ops, n - 1), WithGot(Held(c), ops, n));
  }

  /** While no more pages are got than there may be buffers, every page that was got keeps its buffer. */
  lemma {:induction false} HeldWithinLimit(c: Cache, ops: seq<Op>, n: nat)
    requires n <= |ops| && Ok(c) && c.lazy && Runs(c, ops, n) && |WithGot(Held(c), ops, n)| <= c.max
    ensures Held(After(c, ops, n)) == WithGot(Held(c), ops, n)
  {
    if n == 0 {
    } else {
      FewerBefore(c, ops, n);
      HeldWithinLimit(c, ops, n - 1);
      HeldOneMore(c, ops, n - 1);
    }
  }

  /** And no step gives up a change. */
  lemma {:induction false} KeptWithinLimit(c: Cache, ops: seq<Op>, n: nat, k: nat)
    requires k < n <= |ops| && Ok(c) && c.lazy && Runs(c, ops, n) && |WithGot(Held(c), ops, n)| <= c.max
    ensures KeptAt(c, ops, k)
    decreases n
  {
    FewerBefore(c, ops, n);
    if k == n - 1 {
      HeldWithinLimit(c, ops, n - 1);
      HeldOneMore(c, ops, n - 1);
    } else {
      KeptWithinLimit(c, ops, n - 1, k);
    }
  }

  /**
   A lazy cache over a file that was just opened, in which no more different pages are got than there may be buffers: it
   reads like a plain array at every step, whether or not users mark what they change.
   */
  lemma SmallRunIsPlain(file: seq<PageBytes>, max: nat, ops: seq<Op>, n: nat)
    requires (forall k :: 0 <= k < |file| ==> |file[k]| == PAGE_SIZE) && n <= |ops|
    requires Runs(Opened(file, max, true), ops, n) && |WithGot({}, ops, n)| <= max
    ensures forall k: nat | k <= n :: PlainAt(Opened(file, max, true), ops, k)
  {
    var c := Opened(file, max, true);
    OpenedOk(file, max, true);
    assert Held(c) == {};
    forall k: nat | k < n ensures KeptAt(c, ops, k) {
      KeptWithinLimit(c, ops, n, k);
    }
    CacheIsPlain(c, ops, n);
  }

  // ---------- users that do not ----------

  /**
   What an insertion into a new variable-length page does: its header is written and released without being marked.
   */
  function Unmarked(id: nat, at: nat, value: byte): seq<Op> {
    [Get(id), Put(id, at, value), Release(id), Get(id)]
  }

  /** What getBuf leaves behind at its own page. */
  lemma GotPage(c: Cache, id: nat)
    requires Ok(c) && Enabled(c, Get(id))
    ensures var d := Acquired(c, id);
      && Ok(d) && d.lazy == c.lazy && id in d.slots && |View(c, id)| == PAGE_SIZE
      && d.slots[id] == Slot(Locations.Some(View(c, id)), SlotOf(c, id).refs + 1, SlotOf(c, id).dirty)
      && FilePage(d.file, id) == FilePage(c.file, id)
  {
    AcquiredOk(c, id);
    assert PageOk(c, id);
    if !HasBuffer(c, id) {
      KnownOk(c, id);
      var d := Known(c, id);
      assert d.weak != [] ==> d.weak[0] in d.weak && PageOk(d, d.weak[0]);
    }
  }

  /** A page that was written to and released, and can be got again. */
  lemma WrittenAndReleased(c: Cache, id: nat, at: nat, value: byte) returns (d: Cache)
    requires Ok(c) && HasBuffer(c, id) && Pinned(c, id) && at < PAGE_SIZE
    ensures at < |View(c, id)| && d == Released(Poked(c, id, at, value), id)
    ensures Ok(d) && Enabled(d, Get(id))
    ensures View(d, id) == if c.lazy || c.slots[id].refs > 1 || c.slots[id].dirty then View(c, id)[at := value]
                           else FilePage(c.file, id)
  {
    assert PageOk(c, id);
    PokedOk(c, id, at, value);
    var e := Poked(c, id, at, value);
    ReleasedOk(e, id);
    d := Released(e, id);
    assert View(d, id) == ViewWithout(e, LostByRelease(e, id), id);
    assert id in Held(e);
  }

  /** The cache after a run of four operations. */
  lemma FourSteps(c: Cache, ops: seq<Op>, d: Cache)
    requires |ops| == 4 && Enabled(c, ops[0])
    requires Enabled(Step(c, ops[0]), ops[1]) && Enabled(Step(Step(c, ops[0]), ops[1]), ops[2])
    requires d == Step(Step(Step(c, ops[0]), ops[1]), ops[2]) && Enabled(d, ops[3])
    ensures Runs(c, ops, 1) && Runs(c, ops, 2) && Runs(c, ops, 3) && Runs(c, ops, 4)
    ensures After(c, ops, 0) == c && After(c, ops, 1) == Step(c, ops[0])
    ensures After(c, ops, 2) == Step(Step(c, ops[0]), ops[1]) && After(c, ops, 3) == d
        && After(c, ops, 4) == Step(d, ops[3])
  {
    assert Runs(c, ops, 0) && After(c, ops, 0) == c;
    assert Runs(c, ops, 1) && After(c, ops, 1) == Step(c, ops[0]);
    assert Runs(c, ops, 2) && After(c, ops, 2) == Step(Step(c, ops[0]), ops[1]);
    assert Runs(c, ops, 3) && After(c, ops, 3) == d;
  }

  lemma PlainWrite(page: PageBytes, id: nat, at: nat, value: byte)
    requires at < |page|
    ensures Plain(page, id, Unmarked(id, at, value), 4) == page[at := value]
  {
    var ops := Unmarked(id, at, value);
    assert Plain(page, id, ops, 0) == page && Plain(page, id, ops, 1) == page;
    assert Plain(page, id, ops, 2) == page[at := value];
    assert Plain(page, id, ops, 3) == page[at := value];
  }

  lemma UnmarkedRuns(c: Cache, id: nat, at: nat, value: byte) returns (d: Cache)
    requires Ok(c) && Enabled(c, Get(id)) && at < PAGE_SIZE
    ensures var ops := Unmarked(id, at, value);
      Runs(c, ops, 4) && Ok(d) && Enabled(d, Get(id)) && After(c, ops, 4) == Acquired(d, id)
    ensures |View(c, id)| == PAGE_SIZE
    ensures View(d, id) == if c.lazy || Pinned(c, id) || SlotOf(c, id).dirty then View(c, id)[at := value]
        else View(c, id)
  {
    var e := Acquired(c, id);
    GotPage(c, id);
    d := WrittenAndReleased(e, id, at, value);
    FourSteps(c, Unmarked(id, at, value), d);
    assert View(e, id) == View(c, id);
    assert PageOk(c, id);
  }

  /**
   Writing a byte without marking the page, releasing the buffer and getting it again can always be done where the
   page can be got at all. The byte is still there exactly if the cache is lazy, or another user holds the buffer, or
   the page was marked before, or the byte is the one that was there.
   */
  lemma UnmarkedWrite(c: Cache, id: nat, at: nat, value: byte)
    requires Ok(c) && Enabled(c, Get(id)) && at < PAGE_SIZE
    ensures var ops := Unmarked(id, at, value);
      && Runs(c, ops, 4) && at < |View(c, id)|
      && (View(After(c, ops, 4), id) == Plain(View(c, id), id, ops, 4) <==>
            c.lazy || Pinned(c, id) || SlotOf(c, id).dirty || View(c, id)[at] == value)
  {
    var d := UnmarkedRuns(c, id, at, value);
    GotPage(d, id);
    assert View(Acquired(d, id), id) == View(d, id);
    PlainWrite(View(c, id), id, at, value);
    assert View(c, id)[at := value] == View(c, id) <==> View(c, id)[at] == value;
  }

  /** In lazy mode such a write never gives a change up, if getting the page does not. */
  lemma UnmarkedKept(c: Cache, id: nat, at: nat, value: byte)
    requires Ok(c) && Enabled(c, Get(id)) && at < PAGE_SIZE && c.lazy && Kept(c, Get(id))
    ensures forall k: nat | k < 4 :: KeptAt(c, Unmarked(id, at, value), k)
  {
    var ops, e := Unmarked(id, at, value), Acquired(c, id);
    GotPage(c, id);
    var d := WrittenAndReleased(e, id, at, value);
    FourSteps(c, ops, d);
    var f := Poked(e, id, at, value);
    assert HasBuffer(d, id) && LostByRelease(f, id) == Locations.None && LostByGet(d, id) == Locations.None;
    assert Kept(e, ops[1]) && Kept(f, ops[2]) && Kept(d, ops[3]);
    assert KeptAt(c, ops, 0) && KeptAt(c, ops, 1) && KeptAt(c, ops, 2) && KeptAt(c, ops, 3);
  }

  /**
   The header of a first variable-length page, written and released without being marked: the lazy cache of a new file
   still has its length byte when the page is got again, and the other one reads zeros.
   */
  lemma InsertionInBothModes()
    ensures var ops := Unmarked(2, 1, 0xFD);
      && (forall k: nat | k <= 4 :: PlainAt(Opened([], 1, true), ops, k))
      && Runs(Opened([], 1, false), ops, 4) && !PlainAt(Opened([], 1, false), ops, 4)
  {
    var ops, lazy, eager := Unmarked(2, 1, 0xFD), Opened([], 1, true), Opened([], 1, false);
    OpenedOk([], 1, true);
    OpenedOk([], 1, false);
    UnmarkedWrite(lazy, 2, 1, 0xFD);
    UnmarkedKept(lazy, 2, 1, 0xFD);
    CacheIsPlain(lazy, ops, 4);
    UnmarkedWrite(eager, 2, 1, 0xFD);
  }

  // ---------- the victim ----------

  /** When a page was released by its last user: the number of that operation, 0 if never. */
  function LastRelease(c: Cache, ops: seq<Op>, n: nat, id: nat): (r: nat)
    requires n <= |ops| && Runs(c, ops, n)
    ensures r <= n
  {
    if n == 0 then 0
    else if ops[n - 1] == Release(id) && After(c, ops, n - 1).slots[id].refs == 1 then n
    else LastRelease(c, ops, n - 1, id)
  }

  /** A list in the order of its keys. */
  ghost predicate Ascending(s: seq<nat>, key: nat -> nat) {
    forall i, j :: 0 <= i < j < |s| ==> key(s[i]) < key(s[j])
  }

  lemma TailAscending(s: seq<nat>, key: nat -> nat)
    requires Ascending(s, key) && s != []
    ensures Ascending(s[1..], key) && forall y :: y in s[1..] ==> key(s[0]) < key(y)
  {
  }

  lemma HeadAscending(x: nat, s: seq<nat>, key: nat -> nat)
    requires Ascending(s, key) && forall y :: y in s ==> key(x) < key(y)
    ensures Ascending([x] + s, key)
  {
  }

  lemma {:induction false} ErasedAscending(s: seq<nat>, x: nat, key: nat -> nat)
    requires Ascending(s, key)
    ensures Ascending(Erased(s, x), key) && forall y :: y in Erased(s, x) ==> y in s
  {
    if s == [] {
    } else {
      TailAscending(s, key);
      ErasedAscending(s[1..], x, key);
      if s[0] != x {
        HeadAscending(s[0], Erased(s[1..], x), key);
      }
    }
  }

  lemma AppendAscending(s: seq<nat>, x: nat, key: nat -> nat)
    requires Ascending(s, key) && forall y :: y in s ==> key(y) < key(x)
    ensures Ascending(s + [x], key)
  {
  }

  /** When every page was released last. */
  ghost function Stamp(c: Cache, ops: seq<Op>, n: nat): nat -> nat
    requires n <= |ops| && Runs(c, ops, n)
  {
    id => LastRelease(c, ops, n, id)
  }

  /** An operation drops at most one page from the weak list, or appends the page that was released by its last user. */
  lemma StepWeak(c: Cache, op: Op) returns (x: nat)
    requires Ok(c) && Enabled(c, op)
    ensures var weak := Step(c, op).weak;
      if op.Release? && c.slots[op.id].refs == 1
      then op.id !in c.weak && weak == if c.lazy then c.weak + [op.id] else c.weak
      else weak == c.weak || weak == Erased(c.weak, x)
  {
    x := 0;
    if op.Get? {
      x := if HasBuffer(c, op.id) then op.id else if c.weak != [] then c.weak[0] else 0;
    } else if op.Release? {
      assert PageOk(c, op.id);
    }
  }

  lemma SameAscending(s: seq<nat>, k: nat -> nat, l: nat -> nat)
    requires Ascending(s, k) && forall x :: x in s ==> k(x) == l(x)
    ensures Ascending(s, l)
  {
  }

  /** What one operation does to the list and the keys keeps the list in order. */
  lemma StillAscending(s: seq<nat>, t: seq<nat>, x: nat, id: nat, released: bool, k: nat -> nat, l: nat -> nat)
    requires Ascending(s, k) && (if released then t == s || t == s + [id] else t == s || t == Erased(s, x))
    requires released ==> id !in s && forall y :: y in s ==> l(y) == k(y) < l(id)
    requires !released ==> forall y :: y in s ==> l(y) == k(y)
    ensures Ascending(t, l)
  {
    ErasedAscending(s, x, k);
    if released {
      SameAscending(s, k, l);
      AppendAscending(s, id, l);
    } else {
      SameAscending(t, k, l);
    }
  }

  /** The last user of a page releases it. */
  predicate LastUser(c: Cache, op: Op, id: nat) {
    op == Release(id) && id in c.slots && c.slots[id].refs == 1
  }

  /** An operation moves on the time of the page that it releases, and no other. */
  lemma StampStep(c: Cache, ops: seq<Op>, n: nat, y: nat)
    requires n < |ops| && Runs(c, ops, n + 1)
    ensures Stamp(c, ops, n)(y) < n + 1
    ensures Stamp(c, ops, n + 1)(y) == if LastUser(After(c, ops, n), ops[n], y) then n + 1 else Stamp(c, ops, n)(y)
  {
  }

  lemma WeakStep(c: Cache, ops: seq<Op>, n: nat)
    requires n < |ops| && Runs(c, ops, n + 1) && Ok(After(c, ops, n))
    requires Ascending(After(c, ops, n).weak, Stamp(c, ops, n))
    ensures Ascending(After(c, ops, n + 1).weak, Stamp(c, ops, n + 1))
  {
    var before, op, k, l := After(c, ops, n), ops[n], Stamp(c, ops, n), Stamp(c, ops, n + 1);
    var x := StepWeak(before, op);
    var id := if op.Release? then op.id else 0;
    forall y: nat ensures k(y) < n + 1 && l(y) == if LastUser(before, op, y) then n + 1 else k(y) {
      StampStep(c, ops, n, y);
    }
    var after := Step(before, op);
    assert After(c, ops, n + 1) == after;
    StillAscending(before.weak, after.weak, x, id, LastUser(before, op, id), k, l);
  }

  /** In a cache that was just opened, the weak pages are always in the order of their releases. */
  lemma {:induction false} WeakInOrder(c: Cache, ops: seq<Op>, n: nat)
    requires n <= |ops| && Ok(c) && c.weak == [] && Runs(c, ops, n)
    ensures Ascending(After(c, ops, n).weak, Stamp(c, ops, n))
  {
    if n == 0 {
    } else {
      WeakInOrder(c, ops, n - 1);
      AlwaysOk(c, ops, n - 1);
      WeakStep(c, ops, n - 1);
    }
  }

  /** The page that gives its buffer up is, of all that nobody uses, the one that was released longest ago. */
  lemma VictimIsOldest(c: Cache, ops: seq<Op>, n: nat, id: nat)
    requires n <= |ops| && Ok(c) && c.weak == [] && c.lazy && Runs(c, ops, n)
    requires After(c, ops, n).weak != [] && HasBuffer(After(c, ops, n), id) && !Pinned(After(c, ops, n), id)
    ensures id == After(c, ops, n).weak[0]
        || LastRelease(c, ops, n, After(c, ops, n).weak[0]) < LastRelease(c, ops, n, id)
  {
    WeakInOrder(c, ops, n);
    AlwaysOk(c, ops, n);
    ModeStays(c, ops, n);
    var d := After(c, ops, n);
    assert PageOk(d, id) && id in d.weak;
    var i :| 0 <= i < |d.weak| && d.weak[i] == id;
    assert i > 0 ==> Stamp(c, ops, n)(d.weak[0]) < Stamp(c, ops, n)(d.weak[i]);
  }
}
