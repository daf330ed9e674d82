/**
 The page cache as objects (src/Pager/Page.cpp, src/Pager/Pager.cpp): pages that point to their pager, a pager that
 knows its pages, and buffers that users change in place. Every method does to the state of the cache what the
 operation of the same meaning in PageCaches says.
 */
module Pagers {
  import opened Bytes
  import opened Locations
  import opened PageCaches

  class Page {
    const pager: Pager
    const id: nat
    const lazy: bool
    var refs: nat
    var buf: array?<byte>
    var dirty: bool

    constructor (pager: Pager, id: nat, lazy: bool)
      ensures this.pager == pager && this.id == id && this.lazy == lazy && refs == 0 && buf == null && !dirty
    {
      this.pager, this.id, this.lazy := pager, id, lazy;
      refs, buf, dirty := 0, null, false;
    }

    ghost function Slot(): Slot
      reads `refs, `buf, `dirty, buf
    {
      PageCaches.Slot(if buf == null then None else Some(buf[..]), refs, dirty)
    }

    /** The page object is the one that its pager has for the page. */
    ghost predicate Attached()
      reads pager`mapPages, pager`slots
      reads pager.mapPages.Values`refs, pager.mapPages.Values`buf, pager.mapPages.Values`dirty, pager`buffers,
        pager.buffers
    {
      pager.Linked() && id in pager.mapPages && pager.mapPages[id] == this && pager.Mirrors(id)
    }

    /** After a change of its fields, the pager takes note of what the page is now. */
    ghost method Note()
      modifies pager`slots
      ensures pager.slots == old(pager.slots)[id := Slot()]
    {
      pager.slots := pager.slots[id := Slot()];
    }

    /** writeBackIfDirty, with writeBack. */
    method WriteBackIfDirty()
      requires Attached() && buf != null && id < |pager.file|
      modifies this`dirty, pager`file, pager`slots
      ensures Attached() && pager.State() == Written(old(pager.State()), id) && !dirty
    {
      if dirty {
        pager.file := pager.file[id := buf[..]];
        dirty := false;
        Note();
        forall j ensures pager.Mirrors(j) {
          assert old(pager.Mirrors(j));
        }
      }
    }

    /** freeBuffer. */
    method FreeBuffer()
      requires Attached() && buf != null && pager.pagesCached > 0
      modifies this`buf, this`dirty, pager`pagesCached, pager`slots
      ensures Attached() && buf == null && !dirty && pager.pagesCached == old(pager.pagesCached) - 1
      ensures pager.slots == old(pager.slots)[id := PageCaches.Slot(None, refs, false)]
    {
      buf := null;
      dirty := false;
      pager.ReleaseOnePageQuota();
      Note();
      forall j ensures pager.Mirrors(j) {
        assert old(pager.Mirrors(j));
      }
      forall i, j | i in pager.mapPages && j in pager.mapPages ensures pager.Unshared(i, j) {
        assert old(pager.Unshared(i, j));
      }
    }

    /** becomeVictim. */
    method BecomeVictim()
      requires Attached() && buf != null && refs == 0 && id < |pager.file| && pager.pagesCached > 0
      requires lazy ==> id in pager.weak
      modifies this`buf, this`dirty, pager`file, pager`pagesCached, pager`weak, pager`slots
      ensures Attached() && buf == null && pager.State() == Freed(old(pager.State()), id)
    {
      WriteBackIfDirty();
      FreeBuffer();
      if lazy {
        pager.NoMoreWeakPage(id);
      }
    }

    /** incRef. */
    method IncRef()
      requires Attached() && buf != null && (refs == 0 && lazy ==> id in pager.weak)
      modifies this`refs, pager`weak, pager`slots
      ensures Attached() && pager.State() == Shared(old(pager.State()), id)
    {
      if refs == 0 {
        if lazy {
          pager.NoMoreWeakPage(id);
        }
      }
      refs := refs + 1;
      Note();
      forall j ensures pager.Mirrors(j) {
        assert old(pager.Mirrors(j));
      }
    }

    /** One user less. */
    method DropRef()
      requires Attached() && refs > 0
      modifies this`refs, pager`slots
      ensures Attached() && refs == old(refs) - 1
      ensures id in old(pager.slots) && pager.slots == old(pager.slots)[id := old(pager.slots)[id].(refs := refs)]
    {
      refs := refs - 1;
      Note();
      forall j ensures pager.Mirrors(j) {
        assert old(pager.Mirrors(j));
      }
    }

    static lemma InFile(c: Cache, id: nat)
      requires Ok(c)
      ensures HasBuffer(c, id) ==> id < |c.file| && c.cached > 0 && (id in c.weak <==> c.lazy && !Pinned(c, id))
      ensures |FilePage(c.file, id)| == PAGE_SIZE
      ensures id in c.slots && !HasBuffer(c, id) ==> c.slots[id].refs == 0
    {
      assert PageOk(c, id);
      assert HasBuffer(c, id) ==> id in Held(c);
    }

    /** releaseBuf, with decRef. */
    method ReleaseBuf()
      requires Attached() && Ok(pager.State()) && buf != null && refs > 0
      modifies this`refs, this`buf, this`dirty, pager`file, pager`pagesCached, pager`weak, pager`slots
      ensures Attached() && HasBuffer(old(pager.State()), id) && Pinned(old(pager.State()), id)
      ensures pager.State() == Released(old(pager.State()), id)
    {
      InFile(pager.State(), id);
      DropRef();
      if refs == 0 {
        if lazy {
          pager.AddWeakPage(id);
        } else {
          BecomeVictim();
        }
      }
    }

    /** markDirty; the page need not have a buffer. */
    method MarkDirty()
      requires Attached()
      modifies this`dirty, pager`slots
      ensures Attached() && id in old(pager.slots) && pager.State() == Marked(old(pager.State()), id)
    {
      dirty := true;
      Note();
      forall j ensures pager.Mirrors(j) {
        assert old(pager.Mirrors(j));
      }
    }

    /** Making room does not touch a page without a buffer. */
    static lemma ReservedFile(c: Cache, id: nat)
      requires Ok(c) && CanReserve(c) && id in c.slots && !HasBuffer(c, id)
      ensures var d := Reserved(c);
        id in d.slots && d.slots[id] == c.slots[id] && FilePage(d.file, id) == View(c, id)
          && |FilePage(d.file, id)| == PAGE_SIZE
    {
      ReservedOk(c);
      InFile(c, id);
      assert PageOk(Reserved(c), id) && View(Reserved(c), id) == View(c, id);
      Pager.FirstWeak(c);
    }

    /** The second half of getBuf: a new buffer with the bytes of the file, which is grown if need be. */
    method Load()
      requires Attached() && buf == null && |FilePage(pager.file, id)| == PAGE_SIZE
      modifies this`buf, this`refs, pager`file, pager`slots, pager`buffers
      ensures Attached() && buf != null && fresh(buf) && buf[..] == FilePage(old(pager.file), id)
      ensures pager.file == Grown(old(pager.file), id + 1)
      ensures pager.slots == old(pager.slots)[id := PageCaches.Slot(Some(buf[..]), 1, dirty)]
    {
      var bytes := FilePage(pager.file, id);
      pager.file := Grown(pager.file, id + 1);
      refs := 1;
      buf := new byte[PAGE_SIZE](i requires 0 <= i < PAGE_SIZE => bytes[i]);
      assert buf[..] == bytes;
      pager.buffers := pager.buffers + {buf};
      Note();
      forall j ensures pager.Mirrors(j) {
        assert old(pager.Mirrors(j));
      }
      forall i, j | i in pager.mapPages && j in pager.mapPages ensures pager.Unshared(i, j) {
        assert old(pager.Unshared(i, j)) && old(pager.Mirrors(i)) && old(pager.Mirrors(j));
      }
    }

    /**
     getBuf: the buffer of the page, loaded from the file if there is none. Null where the source's assertion that
     there is a victim fails; nothing has changed then.
     */
    method GetBuf() returns (b: array?<byte>)
      requires Attached() && Ok(pager.State())
      modifies this`refs, this`buf, this`dirty, pager`file, pager`pagesCached, pager`weak, pager`slots, pager`buffers
      modifies pager.mapPages.Values`buf, pager.mapPages.Values`dirty
      ensures Attached()
      ensures b != null <==> HasBuffer(old(pager.State()), id) || CanReserve(old(pager.State()))
      ensures if b == null then pager.State() == old(pager.State())
              else && b == buf && pager.State() == Acquired(old(pager.State()), id)
                   && b[..] == View(old(pager.State()), id)
    {
      ghost var c := pager.State();
      InFile(c, id);
      if buf != null {
        IncRef();
        return buf;
      }
      var ok := pager.NeedOnePageQuota(this);
      if !ok {
        return null;
      }
      ReservedFile(c, id);
      Load();
      b := buf;
    }

    /** What a user does with a buffer that getBuf gave it: the bytes of one page change, in place. */
    method Poke(at: nat, value: byte)
      requires Attached() && buf != null && at < PAGE_SIZE
      modifies buf, pager`slots
      ensures Attached() && HasBuffer(old(pager.State()), id) && at < |old(pager.slots)[id].buf.value|
      ensures pager.State() == Poked(old(pager.State()), id, at, value)
    {
      ghost var was := buf[..];
      buf[at] := value;
      assert buf[..] == was[at := value];
      Note();
      forall j ensures pager.Mirrors(j) {
        assert old(pager.Mirrors(j));
        assert j in pager.mapPages ==> old(pager.Unshared(id, j));
      }
    }
  }

  class Pager {
    const maxPages: nat
    const lazy: bool
    var file: seq<PageBytes>
    var mapPages: map<nat, Page>
    var weak: seq<nat>
    var pagesCached: nat
    var maxValidPages: nat

    /** The page objects as values. */
    ghost var slots: map<nat, Slot>
    /** The buffers that page objects were given. */
    ghost var buffers: set<array<byte>>

    ghost predicate Mirrors(id: nat)
      reads `mapPages, `slots, mapPages.Values`refs, mapPages.Values`buf, mapPages.Values`dirty
      reads `buffers, buffers
    {
      && (id in mapPages <==> id in slots)
      && (id in mapPages ==>
            var p := mapPages[id];
            && p.pager == this && p.id == id && p.lazy == lazy
            && (p.buf != null ==> p.buf in buffers && p.buf.Length == PAGE_SIZE)
            && slots[id] == p.Slot())
    }

    ghost predicate Unshared(i: nat, j: nat)
      requires i in mapPages && j in mapPages
      reads `mapPages, mapPages.Values`buf
    {
      i != j && mapPages[i].buf != null ==> mapPages[i].buf != mapPages[j].buf
    }

    /** Each page object is for its page of this pager, as noted, and no two share a buffer. */
    ghost predicate Linked()
      reads `mapPages, `slots, mapPages.Values`refs, mapPages.Values`buf, mapPages.Values`dirty
      reads `buffers, buffers
    {
      && (forall id {:trigger Mirrors(id)} :: Mirrors(id))
      && forall i, j {:trigger Unshared(i, j)} :: i in mapPages && j in mapPages ==> Unshared(i, j)
    }

    ghost function State(): Cache
      reads this
    {
      Cache(file, slots, weak, pagesCached, maxPages, lazy)
    }

    constructor (file: seq<PageBytes>, maxPages: nat, lazy: bool)
      ensures Linked() && State() == Opened(file, maxPages, lazy) && mapPages == map[] && maxValidPages == |file|
    {
      this.file, this.maxPages, this.lazy := file, maxPages, lazy;
      mapPages, weak, pagesCached, maxValidPages := map[], [], 0, |file|;
      slots, buffers := map[], {};
    }

    /** getPage: the page object, a new one if there is none. */
    method GetPage(id: nat) returns (p: Page)
      requires Linked()
      modifies `file, `mapPages, `maxValidPages, `slots
      ensures p.pager == this && p.id == id && p.Attached() && State() == Known(old(State()), id)
      ensures mapPages == if id in old(mapPages) then old(mapPages) else old(mapPages)[id := p]
      ensures file == if id in old(mapPages) then old(file) else Grown(old(file), id + 1)
    {
      assert Mirrors(id);
      if id in mapPages {
        return mapPages[id];
      }
      file := Grown(file, id + 1);
      maxValidPages := |file|;
      p := new Page(this, id, lazy);
      mapPages := mapPages[id := p];
      slots := slots[id := p.Slot()];
      forall i, j | i in mapPages && j in mapPages ensures Unshared(i, j) {
        assert i in old(mapPages) && j in old(mapPages) ==> old(Unshared(i, j));
      }
      forall i ensures Mirrors(i) {
        assert old(Mirrors(i));
      }
    }

    /** The page that is weak for longest has a buffer, which nobody uses. */
    static lemma FirstWeak(c: Cache)
      requires Ok(c)
      ensures c.weak != [] ==>
                var x := c.weak[0];
                x in c.weak && c.lazy && HasBuffer(c, x) && !Pinned(c, x) && x < |c.file| && c.cached > 0
    {
      if c.weak != [] {
        assert c.weak[0] in c.weak && PageOk(c, c.weak[0]) && c.weak[0] in Held(c);
      }
    }

    /** findVictim: the page that is weak for longest. */
    method FindVictim() returns (p: Page?)
      requires Linked() && Ok(State())
      ensures if weak == [] then p == null else weak[0] in mapPages && p == mapPages[weak[0]]
    {
      if weak == [] {
        return null;
      }
      FirstWeak(State());
      assert Mirrors(weak[0]);
      return mapPages[weak[0]];
    }

    /**
     needOnePageQuota: room for one more buffer, made by giving up the one that is weak for longest if the limit is
     reached. False where the source's assertion that there is one fails. The page that asks is left alone.
     */
    method NeedOnePageQuota(ghost asks: Page) returns (ok: bool)
      requires Linked() && Ok(State()) && asks.buf == null
      modifies `file, `pagesCached, `weak, `slots, mapPages.Values`buf, mapPages.Values`dirty
      ensures Linked() && (ok <==> CanReserve(old(State()))) && asks.buf == null
      ensures State() == if ok then Reserved(old(State())) else old(State())
    {
      FirstWeak(State());
      if pagesCached >= maxPages {
        var victim := FindVictim();
        if victim == null {
          return false;
        }
        assert Mirrors(weak[0]);
        victim.BecomeVictim();
      }
      pagesCached := pagesCached + 1;
      ok := true;
    }

    /** releaseOnePageQuota. */
    method ReleaseOnePageQuota()
      requires pagesCached > 0
      modifies this`pagesCached
      ensures pagesCached == old(pagesCached) - 1
    {
      pagesCached := pagesCached - 1;
    }

    /** addWeakPage. */
    method AddWeakPage(id: nat)
      modifies this`weak
      ensures weak == old(weak) + [id]
    {
      weak := weak + [id];
    }

    static lemma {:induction false} ErasedAt(s: seq<nat>, i: nat)
      requires i < |s| && s[i] !in s[..i]
      ensures Erased(s, s[i]) == s[..i] + s[i + 1..]
    {
      if i == 0 {
      } else {
        assert s[0] in s[..i] && s[1..][..i - 1] == s[..i][1..];
        ErasedAt(s[1..], i - 1);
      }
    }

    /** noMoreWeakPage: the page is looked for from the front of the list, and has to be there. */
    method NoMoreWeakPage(id: nat)
      requires id in weak
      modifies this`weak
      ensures weak == Erased(old(weak), id)
    {
      var i := 0;
      while weak[i] != id
        invariant i < |weak| && weak == old(weak) && id !in weak[..i]
        decreases |weak| - i
      {
        i := i + 1;
        assert id !in weak[..i];
        assert weak == weak[..i] + weak[i..];
      }
      ErasedAt(weak, i);
      weak := weak[..i] + weak[i + 1..];
    }

    /**
     Of the pages of `c` those in `done` have been written, and those in `todo` are to come, if no assertion failed.
     */
    ghost predicate WritingBack(c: Cache, ok: bool, todo: set<nat>, done: set<nat>)
      reads this
      reads mapPages.Values`refs, mapPages.Values`buf, mapPages.Values`dirty, buffers
    {
      && Linked() && mapPages.Keys == c.slots.Keys && State() == Flushed(c, done)
      && if ok then done == mapPages.Keys - todo && WritableIn(c, done) else !Writable(c)
    }

    static lemma FlushedOneMore(c: Cache, done: set<nat>, id: nat)
      requires Ok(c) && id !in done && id in c.slots
      ensures var d := Flushed(c, done);
        && (HasBuffer(d, id) ==> id < |d.file| && Written(d, id) == Flushed(c, done + {id}))
        && (!HasBuffer(d, id) ==> d == Flushed(c, done + {id}))
    {
      assert PageOk(c, id);
      var d, e := Flushed(c, done), Flushed(c, done + {id});
      if HasBuffer(d, id) {
        assert Written(d, id).file == e.file && Written(d, id).slots == e.slots;
      } else {
        assert d.file == e.file && d.slots == e.slots;
      }
    }

    /** One turn of the loop of writeBackAll; false for a page that is marked and has no buffer. */
    method WriteOne(id: nat, ghost c: Cache, ghost todo: set<nat>, ghost done: set<nat>)
      returns (ok: bool, ghost done': set<nat>)
      requires Ok(c) && WritingBack(c, true, todo, done) && id in todo && todo <= mapPages.Keys
      modifies `file, `slots, mapPages.Values`dirty
      ensures WritingBack(c, ok, todo - {id}, done')
    {
      assert Mirrors(id);
      FlushedOneMore(c, done, id);
      var p := mapPages[id];
      if p.buf != null {
        p.WriteBackIfDirty();
        return true, done + {id};
      }
      ok := !p.dirty;
      done' := if ok then done + {id} else done;
      assert HasBuffer(c, id) ==> HasBuffer(Flushed(c, done), id);
    }

    /** There is a value for every page object. */
    lemma SameKeys()
      requires Linked()
      ensures slots.Keys == mapPages.Keys
    {
      forall id ensures id in slots <==> id in mapPages {
        assert Mirrors(id);
      }
    }

    static lemma FlushedNone(c: Cache)
      ensures Flushed(c, {}) == c
    {
      var d := Flushed(c, {});
      assert d.file == c.file && d.slots == c.slots;
    }

    /**
     writeBackAll: every page object is written if it is marked. False where the source's assertion fails, because a
     page is marked that has no buffer; the pages in `done` have been written then.
     */
    method WriteBackAll() returns (ok: bool, ghost done: set<nat>)
      requires Linked() && Ok(State())
      modifies `file, `slots, mapPages.Values`dirty
      ensures Linked() && State() == Flushed(old(State()), done)
      ensures (ok <==> Writable(old(State()))) && (ok ==> done == old(State()).slots.Keys)
    {
      ghost var c := State();
      var todo := mapPages.Keys;
      FlushedNone(c);
      SameKeys();
      ok, done := true, {};
      while ok && todo != {}
        invariant todo <= mapPages.Keys && WritingBack(c, ok, todo, done)
        decreases ok, |todo|
      {
        var id :| id in todo;
        ok, done := WriteOne(id, c, todo, done);
        todo := todo - {id};
      }
    }
  }
}
