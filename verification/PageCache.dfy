/**
 The state of a page cache (src/Pager/Page.cpp, src/Pager/Pager.cpp) as a value, and what its users see of each
 operation: at any capacity and in either mode nothing, unless a buffer is given up that was changed and not marked.
 */
module PageCaches {
  import opened Bytes
  import opened Locations

  type PageBytes = seq<byte>

  /** A page object: its buffer while it holds one, how often the buffer is in use, and whether it must be written. */
  datatype Slot = Slot(buf: Option<PageBytes>, refs: nat, dirty: bool)

  /**
   The file, the page objects, the pages that hold a buffer nobody uses (longest first), the number of buffers, its
   limit, and whether unused buffers are kept until the limit is reached.
   */
  datatype Cache = Cache(file: seq<PageBytes>, slots: map<nat, Slot>, weak: seq<nat>, cached: nat, max: nat, lazy: bool)

  function Zeros(n: nat): (z: seq<byte>)
    ensures |z| == n && forall i :: 0 <= i < n ==> z[i] == 0
  {
    seq(n, _ => 0)
  }

  /** A page of the file; beyond its end the file reads as zeros. */
  function FilePage(file: seq<PageBytes>, id: nat): PageBytes {
    if id < |file| then file[id] else Zeros(PAGE_SIZE)
  }

  /** The file, grown to at least `n` pages. */
  function Grown(file: seq<PageBytes>, n: nat): (g: seq<PageBytes>)
    ensures |g| == if |file| < n then n else |file|
    ensures forall id :: 0 <= id < |g| ==> g[id] == FilePage(file, id)
  {
    if |file| < n then file + seq(n - |file|, _ => Zeros(PAGE_SIZE)) else file
  }

  predicate HasBuffer(c: Cache, id: nat) {
    id in c.slots && c.slots[id].buf.Some?
  }

  predicate Pinned(c: Cache, id: nat) {
    id in c.slots && c.slots[id].refs > 0
  }

  /** What a user of the cache sees of a page. */
  function View(c: Cache, id: nat): PageBytes {
    if HasBuffer(c, id) then c.slots[id].buf.value else FilePage(c.file, id)
  }

  /** The buffer of a page can be given up without loss: it is marked, or the file has it. */
  predicate Settled(c: Cache, id: nat) {
    HasBuffer(c, id) ==> c.slots[id].dirty || c.slots[id].buf.value == FilePage(c.file, id)
  }

  // ---------- the invariant ----------

  function Held(c: Cache): set<nat> {
    set id | id in c.slots && HasBuffer(c, id)
  }

  ghost predicate PageOk(c: Cache, id: nat) {
    && (HasBuffer(c, id) ==> id < |c.file| && |c.slots[id].buf.value| == PAGE_SIZE)
    && (Pinned(c, id) ==> HasBuffer(c, id))
    && (id in c.weak <==> c.lazy && HasBuffer(c, id) && !Pinned(c, id))
    && (!c.lazy && HasBuffer(c, id) ==> Pinned(c, id))
    && |FilePage(c.file, id)| == PAGE_SIZE
  }

  /**
   Buffers are counted, their number is within the limit, and in lazy mode the weak list is exactly the buffers that
   nobody uses, each once. What is in the buffers, and which pages are marked, is up to the users.
   */
  ghost predicate Ok(c: Cache) {
    && (forall id {:trigger PageOk(c, id)} :: PageOk(c, id))
    && NoDuplicates(c.weak) && c.cached == |Held(c)| && c.cached <= c.max
  }

  /** The cache of a file that was just opened. */
  function Opened(file: seq<PageBytes>, max: nat, lazy: bool): Cache {
    Cache(file, map[], [], 0, max, lazy)
  }

  lemma OpenedOk(file: seq<PageBytes>, max: nat, lazy: bool)
    requires forall k :: 0 <= k < |file| ==> |file[k]| == PAGE_SIZE
    ensures Ok(Opened(file, max, lazy)) && forall id :: View(Opened(file, max, lazy), id) == FilePage(file, id)
    ensures forall id: nat ::
      var page := View(Opened(file, max, lazy), id);
      if id < |file| then page == file[id]
      else |page| == PAGE_SIZE && forall i :: 0 <= i < PAGE_SIZE ==> page[i] == 0
  {
    assert Held(Opened(file, max, lazy)) == {};
  }

  /** What is seen of a page after its buffer was given up. */
  function LeftBehind(c: Cache, id: nat): PageBytes {
    if HasBuffer(c, id) && c.slots[id].dirty then c.slots[id].buf.value else FilePage(c.file, id)
  }

  /** What is seen of a page after the buffer of `gone`, if any, was given up. */
  function ViewWithout(c: Cache, gone: Option<nat>, id: nat): PageBytes {
    if gone == Some(id) then LeftBehind(c, id) else View(c, id)
  }

  /** Giving up a buffer is not seen exactly if the page is marked or as in the file. */
  lemma LossIsSeen(c: Cache, id: nat)
    ensures LeftBehind(c, id) == View(c, id) <==> Settled(c, id)
  {
  }

  /** Two caches that nobody can tell apart by reading. */
  ghost predicate SameView(c: Cache, d: Cache) {
    forall id {:trigger View(c, id)} {:trigger View(d, id)} :: View(c, id) == View(d, id)
  }

  // ---------- the operations ----------

  /** A list without its first `x`. */
  function Erased(s: seq<nat>, x: nat): seq<nat> {
    if s == [] then [] else if s[0] == x then s[1..] else [s[0]] + Erased(s[1..], x)
  }

  /** A page is written if it is marked. */
  function Written(c: Cache, id: nat): Cache
    requires HasBuffer(c, id)
  {
    if c.slots[id].dirty && id < |c.file| then
      c.(file := c.file[id := c.slots[id].buf.value], slots := c.slots[id := c.slots[id].(dirty := false)])
    else c
  }

  /** becomeVictim: a page that nobody uses is written if it is marked, and gives its buffer up. */
  function Freed(c: Cache, id: nat): Cache
    requires HasBuffer(c, id)
  {
    var w := Written(c, id);
    w.(slots := w.slots[id := Slot(None, w.slots[id].refs, false)], cached := if w.cached > 0 then w.cached - 1 else 0,
       weak := if w.lazy then Erased(w.weak, id) else w.weak)
  }

  /** The room for one more buffer, if there is any or some buffer can be given up: the one that is weak for longest. */
  predicate CanReserve(c: Cache) {
    c.cached < c.max || (c.weak != [] && HasBuffer(c, c.weak[0]))
  }

  /** The page that gives its buffer up to make room, if one has to. */
  function Victim(c: Cache): Option<nat>
    requires CanReserve(c)
  {
    if c.cached < c.max then None else Some(c.weak[0])
  }

  /** needOnePageQuota. */
  function Reserved(c: Cache): Cache
    requires CanReserve(c)
  {
    var d := if c.cached < c.max then c else Freed(c, c.weak[0]);
    d.(cached := d.cached + 1)
  }

  function SlotOf(c: Cache, id: nat): Slot {
    if id in c.slots then c.slots[id] else Slot(None, 0, false)
  }

  /** getPage: there is an object for the page, and the file reaches beyond it. */
  function Known(c: Cache, id: nat): Cache {
    if id in c.slots then c else c.(file := Grown(c.file, id + 1), slots := c.slots[id := SlotOf(c, id)])
  }

  /** getBuf of a page without a buffer: it gets one, with the bytes of the file. */
  function Loaded(c: Cache, id: nat): Cache
    requires CanReserve(c)
  {
    var d := Reserved(c);
    d.(file := Grown(d.file, id + 1), slots := d.slots[id := Slot(Some(FilePage(d.file, id)), 1, SlotOf(d, id).dirty)])
  }

  /** incRef: one more user. */
  function Shared(c: Cache, id: nat): Cache
    requires HasBuffer(c, id)
  {
    var s := c.slots[id];
    c.(slots := c.slots[id := s.(refs := s.refs + 1)],
       weak := if s.refs == 0 && c.lazy then Erased(c.weak, id) else c.weak)
  }

  /** getPage and getBuf. */
  function Acquired(c: Cache, id: nat): Cache
    requires HasBuffer(c, id) || CanReserve(Known(c, id))
  {
    if HasBuffer(c, id) then Shared(c, id) else Loaded(Known(c, id), id)
  }

  /** releaseBuf: one user less; without users the buffer becomes weak, or is given up at once. */
  function Released(c: Cache, id: nat): Cache
    requires HasBuffer(c, id) && Pinned(c, id)
  {
    var s := c.slots[id];
    var d := c.(slots := c.slots[id := s.(refs := s.refs - 1)]);
    if s.refs > 1 then d
    else if c.lazy then d.(weak := d.weak + [id])
    else Freed(d, id)
  }

  /** A user changes one byte of a buffer. */
  function Poked(c: Cache, id: nat, at: nat, value: byte): Cache
    requires HasBuffer(c, id) && at < |c.slots[id].buf.value|
  {
    var s := c.slots[id];
    c.(slots := c.slots[id := s.(buf := Some(s.buf.value[at := value]))])
  }

  /** markDirty; the page need not have a buffer. */
  function Marked(c: Cache, id: nat): Cache
    requires id in c.slots
  {
    c.(slots := c.slots[id := c.slots[id].(dirty := true)])
  }

  predicate WritableIn(c: Cache, done: set<nat>) {
    forall id {:trigger HasBuffer(c, id)} | id in done :: id in c.slots && c.slots[id].dirty ==> HasBuffer(c, id)
  }

  /** No page is marked that has no buffer to write: writeBackAll asserts it. */
  predicate Writable(c: Cache) {
    WritableIn(c, c.slots.Keys)
  }

  /** writeBackAll, for the pages in `done`. */
  function Flushed(c: Cache, done: set<nat>): Cache {
    c.(file := seq(|c.file|, id requires 0 <= id < |c.file| =>
                     if id in done && HasBuffer(c, id) && c.slots[id].dirty then c.slots[id].buf.value else c.file[id]),
       slots := map id | id in c.slots ::
                  if id in done && HasBuffer(c, id) then c.slots[id].(dirty := false) else c.slots[id])
  }

  // ---------- what they keep ----------

  lemma {:induction false} ErasedMember(s: seq<nat>, x: nat)
    requires NoDuplicates(s)
    ensures NoDuplicates(Erased(s, x)) && forall y :: y in Erased(s, x) <==> y in s && y != x
  {
    if s == [] {
    } else {
      var rest := s[1..];
      forall j | 0 <= j < |rest| ensures rest[j] == s[j + 1] != s[0] {
      }
      if s[0] != x {
        ErasedMember(rest, x);
        assert s[0] !in Erased(rest, x);
      }
    }
  }

  /** Everything is as it should be, except that page `x`, which nobody uses, may still hold its buffer. */
  ghost predicate OkBut(c: Cache, x: nat) {
    && (forall id {:trigger PageOk(c, id)} | id != x :: PageOk(c, id))
    && NoDuplicates(c.weak) && c.cached == |Held(c)| && c.cached <= c.max
    && HasBuffer(c, x) && !Pinned(c, x) && x < |c.file| && |c.slots[x].buf.value| == PAGE_SIZE
    && |c.file[x]| == PAGE_SIZE && (x in c.weak <==> c.lazy)
  }

  lemma FreedPage(c: Cache, x: nat, id: nat)
    requires OkBut(c, x)
    ensures PageOk(Freed(c, x), id) && View(Freed(c, x), id) == ViewWithout(c, Some(x), id)
  {
    ErasedMember(c.weak, x);
    assert id != x ==> PageOk(c, id);
  }

  /**
   Giving up a buffer that nobody uses is seen in that page only, and only if it is neither marked nor as in the file.
   */
  lemma FreedOk(c: Cache, x: nat)
    requires OkBut(c, x)
    ensures Ok(Freed(c, x)) && Freed(c, x).cached == c.cached - 1
    ensures forall id :: View(Freed(c, x), id) == ViewWithout(c, Some(x), id)
    ensures SameView(c, Freed(c, x)) <==> Settled(c, x)
  {
    var d := Freed(c, x);
    LossIsSeen(c, x);
    forall id ensures PageOk(d, id) && View(d, id) == ViewWithout(c, Some(x), id) {
      FreedPage(c, x, id);
    }
    ErasedMember(c.weak, x);
    assert Held(d) == Held(c) - {x};
    assert x in Held(c);
  }

  /** With room for one buffer more. */
  ghost predicate OkWithRoom(c: Cache) {
    && (forall id {:trigger PageOk(c, id)} :: PageOk(c, id))
    && NoDuplicates(c.weak) && c.cached == |Held(c)| + 1 && c.cached <= c.max
  }

  lemma ReservedOk(c: Cache)
    requires Ok(c) && CanReserve(c)
    ensures OkWithRoom(Reserved(c))
    ensures forall id :: View(Reserved(c), id) == ViewWithout(c, Victim(c), id)
  {
    if c.cached >= c.max {
      var x := c.weak[0];
      assert x in c.weak && PageOk(c, x);
      assert OkBut(c, x);
      FreedOk(c, x);
    }
    var d, r := if c.cached < c.max then c else Freed(c, c.weak[0]), Reserved(c);
    forall id ensures PageOk(r, id) && View(r, id) == ViewWithout(c, Victim(c), id) {
      assert PageOk(d, id) && View(d, id) == ViewWithout(c, Victim(c), id);
    }
    assert Held(r) == Held(d);
  }

  lemma {:induction false} CountWithin(a: set<nat>, b: set<nat>)
    requires a <= b
    ensures |a| <= |b|
  {
    if a != {} {
      var x :| x in a;
      CountWithin(a - {x}, b - {x});
    }
  }

  /** A load finds room whenever fewer pages than the limit are in use: some buffer is weak, and can be given up. */
  lemma LoadFindsVictim(c: Cache)
    requires Ok(c) && |set id | id in c.slots && Pinned(c, id)| < c.max
    ensures CanReserve(c)
  {
    var pinned := set id | id in c.slots && Pinned(c, id);
    if c.cached >= c.max {
      if forall id :: id in Held(c) ==> id in pinned {
        CountWithin(Held(c), pinned);
      } else {
        var id :| id in Held(c) && id !in pinned;
        assert PageOk(c, id);
        assert id in c.weak && PageOk(c, c.weak[0]);
      }
    }
  }

  lemma LoadedPage(c: Cache, d: Cache, x: nat, id: nat)
    requires CanReserve(c) && d == Reserved(c) && OkWithRoom(d) && !HasBuffer(d, x)
    ensures PageOk(Loaded(c, x), id) && View(Loaded(c, x), id) == View(d, id)
  {
    assert PageOk(d, id) && PageOk(d, x);
  }

  lemma LoadedHeld(c: Cache, x: nat)
    requires CanReserve(c) && !HasBuffer(Reserved(c), x)
    ensures |Held(Loaded(c, x))| == |Held(Reserved(c))| + 1
  {
    assert Held(Loaded(c, x)) == Held(Reserved(c)) + {x} && x !in Held(Reserved(c));
  }

  lemma LoadedOk(c: Cache, x: nat)
    requires Ok(c) && !HasBuffer(c, x) && CanReserve(c)
    ensures Ok(Loaded(c, x)) && Pinned(Loaded(c, x), x)
    ensures forall id :: View(Loaded(c, x), id) == ViewWithout(c, Victim(c), id)
  {
    var d, l := Reserved(c), Loaded(c, x);
    ReservedOk(c);
    assert !HasBuffer(d, x);
    forall id ensures PageOk(l, id) && View(l, id) == ViewWithout(c, Victim(c), id) {
      LoadedPage(c, d, x, id);
      assert View(d, id) == ViewWithout(c, Victim(c), id);
    }
    LoadedHeld(c, x);
  }

  lemma KnownOk(c: Cache, x: nat)
    requires Ok(c)
    ensures Ok(Known(c, x)) && SameView(c, Known(c, x)) && (CanReserve(Known(c, x)) <==> CanReserve(c))
    ensures forall id :: LeftBehind(Known(c, x), id) == LeftBehind(c, id)
  {
    var d := Known(c, x);
    forall id ensures PageOk(d, id) && View(d, id) == View(c, id) && LeftBehind(d, id) == LeftBehind(c, id) {
      assert PageOk(c, id);
    }
    assert Held(d) == Held(c);
    assert c.weak != [] ==> c.weak[0] in c.weak && PageOk(c, c.weak[0]);
  }

  lemma SharedOk(c: Cache, x: nat)
    requires Ok(c) && HasBuffer(c, x)
    ensures Ok(Shared(c, x)) && SameView(c, Shared(c, x)) && Pinned(Shared(c, x), x)
  {
    var d := Shared(c, x);
    ErasedMember(c.weak, x);
    forall id ensures PageOk(d, id) && View(d, id) == View(c, id) {
      assert PageOk(c, id) && PageOk(c, x);
    }
    assert Held(d) == Held(c);
  }

  /** The page whose buffer getBuf gives up, if any. */
  function LostByGet(c: Cache, x: nat): Option<nat>
    requires HasBuffer(c, x) || CanReserve(Known(c, x))
  {
    if HasBuffer(c, x) then None else Victim(Known(c, x))
  }

  /** Getting the buffer of a page is seen in the victim only, and the buffer is the page. */
  lemma AcquiredOk(c: Cache, x: nat)
    requires Ok(c) && (HasBuffer(c, x) || CanReserve(Known(c, x)))
    ensures Ok(Acquired(c, x)) && LostByGet(c, x) != Some(x)
    ensures forall id :: View(Acquired(c, x), id) == ViewWithout(c, LostByGet(c, x), id)
    ensures HasBuffer(Acquired(c, x), x) && Pinned(Acquired(c, x), x) && Acquired(c, x).slots[x].buf.value == View(c, x)
  {
    if HasBuffer(c, x) {
      SharedOk(c, x);
    } else {
      var d := Known(c, x);
      KnownOk(c, x);
      LoadedOk(d, x);
      assert d.weak != [] ==> d.weak[0] in d.weak && PageOk(d, d.weak[0]);
      forall id ensures View(Acquired(c, x), id) == ViewWithout(c, LostByGet(c, x), id) {
        assert View(Loaded(d, x), id) == ViewWithout(d, Victim(d), id) && View(d, id) == View(c, id);
      }
      assert View(Acquired(c, x), x) == ViewWithout(c, LostByGet(c, x), x);
    }
  }

  // ---------- which pages have buffers ----------

  lemma KnownHeld(c: Cache, x: nat)
    ensures Held(Known(c, x)) == Held(c)
  {
  }

  lemma ReservedHeld(c: Cache)
    requires CanReserve(c)
    ensures c.cached < c.max ==> Held(Reserved(c)) == Held(c)
    ensures c.cached >= c.max ==> c.weak[0] in Held(c) && Held(Reserved(c)) == Held(c) - {c.weak[0]}
  {
  }

  lemma AcquiredHeld(c: Cache, x: nat)
    requires HasBuffer(c, x) || CanReserve(Known(c, x))
    ensures Held(Acquired(c, x)) == (if HasBuffer(c, x) then Held(c) else Held(Reserved(Known(c, x)))) + {x}
    ensures Acquired(c, x).max == c.max && Acquired(c, x).lazy == c.lazy
  {
  }

  /**
   Below the limit getBuf takes no buffer away. At the limit it takes one away if it needs room, and no more: the limit
   is used up.
   */
  lemma KeptBelowLimit(c: Cache, x: nat)
    requires Ok(c) && (HasBuffer(c, x) || CanReserve(Known(c, x)))
    ensures |Held(c)| < c.max || HasBuffer(c, x) ==> Held(Acquired(c, x)) == Held(c) + {x}
    ensures |Held(c)| == c.max && !HasBuffer(c, x) ==>
              exists y :: y in Held(c) && y != x && Held(Acquired(c, x)) == Held(c) - {y} + {x}
  {
    AcquiredHeld(c, x);
    if !HasBuffer(c, x) {
      KnownHeld(c, x);
      ReservedHeld(Known(c, x));
    }
  }

  /** The page whose buffer releaseBuf gives up: without lazy mode, the page itself if this was its last user. */
  function LostByRelease(c: Cache, x: nat): Option<nat>
    requires Pinned(c, x)
  {
    if c.slots[x].refs == 1 && !c.lazy then Some(x) else None
  }

  lemma ReleasedAtOnce(c: Cache, x: nat)
    requires Ok(c) && HasBuffer(c, x) && Pinned(c, x) && LostByRelease(c, x) == Some(x)
    ensures Ok(Released(c, x))
    ensures forall id :: View(Released(c, x), id) == ViewWithout(c, Some(x), id)
  {
    var d := c.(slots := c.slots[x := c.slots[x].(refs := 0)]);
    forall id | id != x ensures PageOk(d, id) {
      assert PageOk(c, id);
    }
    assert PageOk(c, x) && Held(d) == Held(c);
    FreedOk(d, x);
    forall id ensures View(Released(c, x), id) == ViewWithout(c, Some(x), id) {
      assert View(Freed(d, x), id) == ViewWithout(d, Some(x), id);
    }
  }

  /** Releasing a buffer is seen only where it is given up at once. */
  lemma ReleasedOk(c: Cache, x: nat)
    requires Ok(c) && HasBuffer(c, x) && Pinned(c, x)
    ensures Ok(Released(c, x))
    ensures forall id :: View(Released(c, x), id) == ViewWithout(c, LostByRelease(c, x), id)
  {
    assert PageOk(c, x);
    if LostByRelease(c, x).Some? {
      ReleasedAtOnce(c, x);
    } else {
      var d := Released(c, x);
      forall id ensures PageOk(d, id) && View(d, id) == View(c, id) {
        assert PageOk(c, id);
      }
      assert Held(d) == Held(c);
    }
  }

  /** A change to a buffer in use is seen in that byte of that page, and nowhere else. */
  lemma PokedOk(c: Cache, x: nat, at: nat, value: byte)
    requires Ok(c) && HasBuffer(c, x) && Pinned(c, x) && at < PAGE_SIZE
    ensures at < |c.slots[x].buf.value| && Ok(Poked(c, x, at, value))
    ensures forall id :: View(Poked(c, x, at, value), id) == if id == x then View(c, x)[at := value] else View(c, id)
  {
    assert PageOk(c, x);
    var d := Poked(c, x, at, value);
    forall id ensures PageOk(d, id) {
      assert PageOk(c, id);
    }
    assert Held(d) == Held(c);
  }

  /** A marked page can give its buffer up without loss. */
  lemma MarkedOk(c: Cache, x: nat)
    requires Ok(c) && x in c.slots
    ensures Ok(Marked(c, x)) && SameView(c, Marked(c, x)) && Settled(Marked(c, x), x)
  {
    var d := Marked(c, x);
    forall id ensures PageOk(d, id) {
      assert PageOk(c, id);
    }
    assert Held(d) == Held(c);
  }

  lemma FlushedOk(c: Cache, done: set<nat>)
    requires Ok(c)
    ensures Ok(Flushed(c, done)) && SameView(c, Flushed(c, done))
  {
    var d := Flushed(c, done);
    forall id ensures PageOk(d, id) && View(d, id) == View(c, id) {
      assert PageOk(c, id);
    }
    assert Held(d) == Held(c);
  }

  /**
   After writing back all pages the file is what is seen, exactly if no page in use was changed without being marked.
   */
  lemma FlushedFile(c: Cache)
    requires Ok(c)
    ensures (forall id :: FilePage(Flushed(c, c.slots.Keys).file, id) == View(c, id)) <==> forall id :: Settled(c, id)
  {
    var f := Flushed(c, c.slots.Keys).file;
    forall id ensures FilePage(f, id) == View(c, id) <==> Settled(c, id) {
      assert PageOk(c, id);
    }
  }
}
