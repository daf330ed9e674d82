/**
 The multimap on top of the B+ tree (src/BTree/BTreePlus.h): a key is bound to the list of the locations of its records,
 which lie in the same file as the tree.
 */
module MultiTrees {
  import opened Bytes
  import opened Locations
  import opened LocationLists
  import opened NodeFormat
  import opened TreeShape
  import opened BTrees
  import opened NodeStore

  /** The records that a checker lets stay. */
  function Keep(records: seq<seq<byte>>, checker: seq<byte> -> bool): seq<seq<byte>> {
    if records == [] then []
    else
      var front := Keep(records[..|records| - 1], checker);
      if checker(records[|records| - 1]) then front else front + [records[|records| - 1]]
  }

  /** Each record is judged on its own, and the order stays. */
  lemma {:induction false} KeepJoin(a: seq<seq<byte>>, b: seq<seq<byte>>, checker: seq<byte> -> bool)
    ensures Keep(a + b, checker) == Keep(a, checker) + Keep(b, checker)
    decreases |b|
  {
    if b == [] {
      assert a + b == a;
    } else {
      KeepJoin(a, b[..|b| - 1], checker);
      assert (a + b)[..|a + b| - 1] == a + b[..|b| - 1];
    }
  }

  /** A record that the checker picks goes with all its copies, and any other stays with all its copies. */
  lemma {:induction false} KeepExactly(records: seq<seq<byte>>, checker: seq<byte> -> bool, x: seq<byte>)
    ensures multiset(Keep(records, checker))[x] == if checker(x) then 0 else multiset(records)[x]
    decreases |records|
  {
    if records == [] {
    } else {
      KeepExactly(records[..|records| - 1], checker, x);
      assert records == records[..|records| - 1] + [records[|records| - 1]];
    }
  }

  function Rewrite(record: seq<byte>, callback: seq<byte> -> (bool, seq<byte>)): seq<byte> {
    if callback(record).0 then callback(record).1 else record
  }

  /** The records after each was offered to a callback that says whether it changed it. */
  function Changed(records: seq<seq<byte>>, callback: seq<byte> -> (bool, seq<byte>)): seq<seq<byte>> {
    seq(|records|, i requires 0 <= i < |records| => Rewrite(records[i], callback))
  }

  class BTreePlus {
    const btree: BTree

    /** The record locations of every key, and the key of every record. */
    ghost var lists: map<Key, seq<Location>>
    ghost var owner: map<Location, Key>

    ghost function Plus(): Plus
      reads this, btree, btree.store
    {
      LocationLists.Plus(btree.tree.kv, btree.store.data, lists, owner)
    }

    ghost predicate Valid()
      reads this, btree, btree.store, btree.store.rm
    {
      btree.Valid() && Ok(Plus())
    }

    /** What the index holds: for every key its records, oldest first. */
    ghost function Contents(): map<Key, seq<seq<byte>>>
      reads this, btree, btree.store
      requires Ok(Plus())
    {
      Multi(Plus())
    }

    constructor (btree: BTree)
      requires btree.Valid() && btree.tree.kv == map[] && btree.store.data == map[]
      ensures Valid() && Contents() == map[] && this.btree == btree
    {
      this.btree := btree;
      lists, owner := map[], map[];
    }

    /** get: the records of a key, oldest first; none for a key that is not bound. */
    method Get(key: Key) returns (result: seq<seq<byte>>)
      requires Valid()
      ensures result == if key in Contents() then Contents()[key] else []
    {
      var ptrs := btree.Get(key);
      result := [];
      assert HasList(Plus(), key);
      if ptrs.None? {
        return;
      }
      assert ListOk(Plus(), key) && Stored(Plus(), key);
      ghost var list, records := lists[key], Contents()[key];
      CountOfJoin(list);
      for i := 0 to CountOf(ptrs.value)
        invariant result == records[..i]
      {
        var loc := LocationAt(ptrs.value, i, list);
        var record := btree.store.ReadData(loc);
        result := result + [record];
      }
    }

    /** How many records a key has. */
    ghost function Count(key: Key): nat
      reads this
    {
      if key in lists then |lists[key]| else 0
    }

    /** The end of an update: the changed list of a key is stored. */
    method StoreLocations(target: Node, at: nat, key: Key, locs: seq<byte>, ghost m: Plus, ghost path: seq<Node>)
      requires btree.Valid() && OnPath(btree.tree, path) && target == path[|path| - 1] && target.isLeaf
      requires at < |target.keys| && at < |target.children| && target.keys[at] == key
      requires Plus() == m && OkBut(m, Some(key)) && key in lists && locs == Join(lists[key])
      requires FitsPage(|locs|) && btree.store.Room() >= 2
      modifies btree`tree, target, btree.store, btree.store.rm
      ensures Valid() && Contents() == Multi(m)
      ensures btree.store.Room() >= old(btree.store.Room()) - 2
    {
      ghost var nl := btree.StoreData(target, at, locs, path);
      ghost var u := Restored(m, key, nl);
      assert Plus() == u;
    }

    /** The list of a bound key takes one more location. */
    method AppendLocation(target: Node, at: nat, key: Key, locs: seq<byte>, d: Location, ghost m: Plus,
                          ghost r: seq<byte>, ghost path: seq<Node>)
      requires btree.Valid() && OnPath(btree.tree, path) && target == path[|path| - 1] && target.isLeaf
      requires at < |target.keys| && at < |target.children| && target.keys[at] == key
      requires Ok(m) && m.kv == btree.tree.kv && m.lists == lists && m.owner == owner && key in m.lists
      requires d !in m.data && btree.store.data == m.data[d := r] && locs == Join(lists[key])
      requires FitsPage(LOC_LENGTH * (|lists[key]| + 1)) && btree.store.Room() >= 2
      modifies this, btree`tree, target, btree.store, btree.store.rm
      ensures Valid() && key in Multi(m) && Contents() == Multi(m)[key := Multi(m)[key] + [r]]
      ensures btree.store.Room() >= old(btree.store.Room()) - 2
    {
      AppendOk(m, key, d, r);
      ghost var u := Append(m, key, d, r);
      ghost var list := lists[key] + [d];
      assert list[..|list| - 1] == lists[key];
      lists, owner := u.lists, u.owner;
      assert Plus() == u;
      StoreLocations(target, at, key, locs + LocationToString(d), u, path);
    }

    /** A key that was not bound gets a list of one location. */
    method BindFirst(key: Key, d: Location, ghost m: Plus, ghost r: seq<byte>)
      requires btree.Valid() && Ok(m) && m.kv == btree.tree.kv && m.lists == lists && m.owner == owner && key !in m.kv
      requires d !in m.data && btree.store.data == m.data[d := r]
      requires btree.store.Room() >= 2 * btree.Height() + 4
      modifies this, btree, btree.store, btree.store.rm
      ensures Valid() && Contents() == Multi(m)[key := [r]]
      ensures btree.store.Room() >= old(btree.store.Room()) - 2 * old(btree.Height()) - 4
    {
      JoinOne(d);
      ghost var nl;
      var ok;
      ok, nl := btree.Insert(key, LocationToString(d));
      ghost var u := FirstRecord(m, key, d, r, nl);
      lists, owner := u.lists, u.owner;
      assert Plus() == u;
    }

    /** insert: the record joins the records of its key, as the last one; all other records stay. */
    method Insert(key: Key, data: seq<byte>)
      requires Valid() && FitsPage(|data|) && FitsPage(LOC_LENGTH * (Count(key) + 1))
      requires btree.store.Room() >= 2 * btree.Height() + 6
      modifies this, btree, btree.store, btree.store.rm
      ensures Valid()
      ensures var was := old(Contents());
        Contents() == was[key := (if key in was then was[key] else []) + [data]]
      ensures btree.store.Room() >= old(btree.store.Room()) - 2 * old(btree.Height()) - 6
    {
      ghost var m := Plus();
      var dataLoc := btree.store.NewData(data);
      ghost var path;
      var target, at, locs;
      target, at, locs, path := btree.FindData(key);
      if target != null {
        assert HasList(m, key) && Stored(m, key) && ListOk(m, key);
        AppendLocation(target, at, key, locs, dataLoc, m, data, path);
      } else {
        assert HasList(m, key);
        BindFirst(key, dataLoc, m, data);
        assert [] + [data] == [data];
      }
    }

    /**
     The list of a key while it is being changed: the locations `kept` with the records `done`, and then the old list
     from position `i` on.
     */
    ghost predicate Midway(m: Plus, key: Key, now: Plus, kept: seq<Location>, done: seq<seq<byte>>, i: nat) {
      && OkBut(m, Some(key)) && key in m.lists
      && OkBut(now, Some(key)) && now.kv == m.kv
      && i <= |m.lists[key]| == |Multi(m)[key]| && |kept| == |done|
      && now.lists == m.lists[key := kept + m.lists[key][i..]]
      && Multi(now) == Multi(m)[key := done + Multi(m)[key][i..]]
    }

    lemma StartMidway(m: Plus, key: Key)
      requires OkBut(m, Some(key)) && key in m.lists
      ensures Midway(m, key, m, [], [], 0)
    {
      assert [] + m.lists[key][0..] == m.lists[key];
      assert [] + Multi(m)[key][0..] == Multi(m)[key];
    }

    lemma EndMidway(m: Plus, key: Key, now: Plus, kept: seq<Location>, done: seq<seq<byte>>)
      requires key in m.lists && Midway(m, key, now, kept, done, |m.lists[key]|)
      ensures now.lists[key] == kept && Multi(now) == Multi(m)[key := done]
    {
      assert done + Multi(m)[key][|m.lists[key]|..] == done;
      assert kept + m.lists[key][|m.lists[key]|..] == kept;
    }

    /** The record that comes next is where the list says, and is not a stored list. */
    lemma NextRecord(m: Plus, key: Key, now: Plus, kept: seq<Location>, done: seq<seq<byte>>, i: nat)
      requires Midway(m, key, now, kept, done, i) && i < |m.lists[key]|
      ensures |kept| < |now.lists[key]| && now.lists[key][|kept|] == m.lists[key][i]
      ensures m.lists[key][i] in now.data && now.data[m.lists[key][i]] == Multi(m)[key][i]
      ensures m.lists[key][i] !in now.kv.Values
    {
      assert ListOk(now, key);
      assert Multi(now)[key][|kept|] == (done + Multi(m)[key][i..])[|kept|];
      forall j | j in now.kv ensures now.kv[j] != m.lists[key][i] {
        assert HasList(now, j) && ListOk(now, j);
      }
    }

    /** A record that is left alone. */
    lemma KeepStep(m: Plus, key: Key, now: Plus, kept: seq<Location>, done: seq<seq<byte>>, i: nat)
      requires Midway(m, key, now, kept, done, i) && i < |m.lists[key]|
      ensures Midway(m, key, now, kept + [m.lists[key][i]], done + [Multi(m)[key][i]], i + 1)
    {
      assert done + Multi(m)[key][i..] == done + [Multi(m)[key][i]] + Multi(m)[key][i + 1..];
      assert kept + m.lists[key][i..] == kept + [m.lists[key][i]] + m.lists[key][i + 1..];
    }

    lemma EraseAfter<T>(front: seq<T>, back: seq<T>, i: nat)
      requires i < |back|
      ensures EraseAt(front + back[i..], |front|) == front + back[i + 1..]
    {
    }

    /** A record that the checker picks leaves the list. */
    lemma DropStep(m: Plus, key: Key, now: Plus, kept: seq<Location>, done: seq<seq<byte>>, i: nat) returns (u: Plus)
      requires Midway(m, key, now, kept, done, i) && i < |m.lists[key]|
      ensures Midway(m, key, u, kept, done, i + 1)
      ensures u.data == now.data - {m.lists[key][i]}
    {
      NextRecord(m, key, now, kept, done, i);
      DropOk(now, key, |kept|);
      u := Drop(now, key, |kept|);
      EraseAfter(kept, m.lists[key], i);
      EraseAfter(done, Multi(m)[key], i);
      UpdateTwice(m.lists, key, now.lists[key], u.lists[key]);
      UpdateTwice(Multi(m), key, Multi(now)[key], Multi(u)[key]);
    }

    /** Delete the record that comes next. */
    method DropRecord(key: Key, loc: Location, ghost m: Plus, ghost kept: seq<Location>, ghost done: seq<seq<byte>>,
                      ghost i: nat)
      requires btree.Valid() && Midway(m, key, Plus(), kept, done, i)
      requires i < |m.lists[key]| && loc == m.lists[key][i]
      modifies this, btree.store, btree.store.rm
      ensures btree.Valid() && Midway(m, key, Plus(), kept, done, i + 1)
      ensures btree.store.Room() == old(btree.store.Room())
    {
      NextRecord(m, key, Plus(), kept, done, i);
      ghost var u := DropStep(m, key, Plus(), kept, done, i);
      btree.store.DeleteData(loc);
      lists, owner := u.lists, u.owner;
      assert Plus() == u;
    }

    /** One turn of the loop of remove: the record that comes next is deleted, or its location goes to the new list. */
    method DropOrKeep(key: Key, loc: Location, checker: seq<byte> -> bool, ghost m: Plus,
                      ghost kept: seq<Location>, ghost done: seq<seq<byte>>, ghost i: nat) returns (dropped: bool)
      requires btree.Valid() && Midway(m, key, Plus(), kept, done, i)
      requires i < |m.lists[key]| && loc == m.lists[key][i]
      modifies this, btree.store, btree.store.rm
      ensures btree.Valid() && dropped == checker(Multi(m)[key][i])
      ensures Midway(m, key, Plus(), if dropped then kept else kept + [loc],
                     if dropped then done else done + [Multi(m)[key][i]], i + 1)
      ensures btree.store.Room() == old(btree.store.Room())
    {
      NextRecord(m, key, Plus(), kept, done, i);
      var record := btree.store.ReadData(loc);
      dropped := checker(record);
      if dropped {
        DropRecord(key, loc, m, kept, done, i);
      } else {
        KeepStep(m, key, Plus(), kept, done, i);
      }
    }

    lemma KeepOneMore(records: seq<seq<byte>>, checker: seq<byte> -> bool, i: nat)
      requires i < |records|
      ensures Keep(records[..i + 1], checker) ==
        if checker(records[i]) then Keep(records[..i], checker) else Keep(records[..i], checker) + [records[i]]
    {
      assert records[..i + 1][..i] == records[..i];
    }

    lemma JoinOneMore(locs: seq<Location>, l: Location)
      ensures Join(locs + [l]) == Join(locs) + LocationToString(l)
    {
      assert (locs + [l])[..|locs|] == locs;
    }

    /** The loop of remove: records that the checker picks are deleted, the others stay in the new list. */
    method DropRecords(key: Key, ptrs: seq<byte>, checker: seq<byte> -> bool, ghost m: Plus)
      returns (newRecordData: seq<byte>)
      requires btree.Valid() && Plus() == m && OkBut(m, Some(key)) && key in lists && ptrs == Join(lists[key])
      modifies this, btree.store, btree.store.rm
      ensures btree.Valid() && OkBut(Plus(), Some(key)) && key in lists && newRecordData == Join(lists[key])
      ensures key in Multi(m) && Multi(Plus()) == Multi(m)[key := Keep(Multi(m)[key], checker)]
      ensures |newRecordData| <= |ptrs| && btree.store.Room() == old(btree.store.Room())
    {
      ghost var records: seq<seq<byte>>, done: seq<seq<byte>> := Multi(m)[key], [];
      ghost var kept: seq<Location> := [];
      StartMidway(m, key);
      CountOfJoin(m.lists[key]);
      var count := CountOf(ptrs);
      newRecordData := [];
      for i := 0 to count
        invariant btree.Valid() && btree.store.Room() == old(btree.store.Room())
        invariant Midway(m, key, Plus(), kept, done, i) && |kept| <= i
        invariant done == Keep(records[..i], checker)
        invariant newRecordData == Join(kept)
      {
        KeepOneMore(records, checker, i);
        var loc := LocationAt(ptrs, i, m.lists[key]);
        var dropped := DropOrKeep(key, loc, checker, m, kept, done, i);
        if !dropped {
          JoinOneMore(kept, loc);
          newRecordData := newRecordData + LocationToString(loc);
          kept, done := kept + [loc], done + [records[i]];
        }
      }
      assert records[..count] == records;
      EndMidway(m, key, Plus(), kept, done);
    }

    /** remove, once the list of the key was found. */
    method RemoveBound(target: Node, at: nat, key: Key, ptrs: seq<byte>, checker: seq<byte> -> bool, ghost m: Plus,
                       ghost path: seq<Node>)
      requires btree.Valid() && OnPath(btree.tree, path) && target == path[|path| - 1] && target.isLeaf
      requires at < |target.keys| && at < |target.children| && target.keys[at] == key
      requires Plus() == m && OkBut(m, Some(key)) && key in lists && ptrs == Join(lists[key])
      requires FitsPage(|ptrs|) && btree.store.Room() >= 2
      modifies this, btree`tree, target, btree.store, btree.store.rm
      ensures Valid() && key in Multi(m) && Contents() == Multi(m)[key := Keep(Multi(m)[key], checker)]
      ensures btree.store.Room() >= old(btree.store.Room()) - 2
    {
      var newRecordData := DropRecords(key, ptrs, checker, m);
      StoreLocations(target, at, key, newRecordData, Plus(), path);
    }

    /**
     remove: the records of `key` that the checker picks are deleted, the others stay in order. The key stays bound,
     if need be to no records. False is the source's KeyNotFound.
     */
    method Remove(key: Key, checker: seq<byte> -> bool) returns (found: bool)
      requires Valid() && btree.store.Room() >= 2
      modifies this, btree, btree.store, btree.store.rm
      ensures Valid() && (found <==> key in old(Contents()))
      ensures Contents() ==
        if found then old(Contents())[key := Keep(old(Contents())[key], checker)] else old(Contents())
      ensures btree.store.Room() >= old(btree.store.Room()) - 2
    {
      ghost var path;
      var target, at, ptrs;
      target, at, ptrs, path := btree.FindData(key);
      found := target != null;
      ghost var m := Plus();
      assert HasList(m, key);
      if target != null {
        assert Stored(m, key);
        btree.store.DataFits(btree.tree.kv[key]);
        RemoveBound(target, at, key, ptrs, checker, m, path);
      }
    }

    /** The list of a key while its records are being rewritten: the first `i` are, the others are not yet. */
    ghost predicate Rewriting(m: Plus, key: Key, now: Plus, callback: seq<byte> -> (bool, seq<byte>), i: nat) {
      && OkBut(m, Some(key)) && key in m.lists && key in m.kv && m.kv[key] in m.data
      && OkBut(now, Some(key)) && now.kv == m.kv && key in now.lists
      && i <= |m.lists[key]| == |now.lists[key]| == |Multi(m)[key]|
      && Multi(now) == Multi(m)[key := Changed(Multi(m)[key][..i], callback) + Multi(m)[key][i..]]
      && m.kv[key] in now.data && now.data[m.kv[key]] == m.data[m.kv[key]]
    }

    lemma StartRewriting(m: Plus, key: Key, callback: seq<byte> -> (bool, seq<byte>))
      requires OkBut(m, Some(key)) && key in m.lists
      ensures Rewriting(m, key, m, callback, 0)
    {
      assert ListOk(m, key);
      assert Changed(Multi(m)[key][..0], callback) + Multi(m)[key][0..] == Multi(m)[key];
    }

    lemma EndRewriting(m: Plus, key: Key, now: Plus, callback: seq<byte> -> (bool, seq<byte>))
      requires key in m.lists && Rewriting(m, key, now, callback, |m.lists[key]|)
      ensures Multi(now) == Multi(m)[key := Changed(Multi(m)[key], callback)]
    {
      var records, n := Multi(m)[key], |m.lists[key]|;
      assert Changed(records[..n], callback) + records[n..] == Changed(records, callback);
    }

    /** The record that comes next is as it was. */
    lemma NextToRewrite(m: Plus, key: Key, now: Plus, callback: seq<byte> -> (bool, seq<byte>), i: nat)
      requires Rewriting(m, key, now, callback, i) && i < |m.lists[key]|
      ensures now.lists[key][i] in now.data && now.data[now.lists[key][i]] == Multi(m)[key][i]
      ensures now.lists[key][i] !in now.kv.Values
    {
      assert ListOk(now, key);
      var records := Multi(m)[key];
      assert Multi(now)[key][i] == (Changed(records[..i], callback) + records[i..])[i];
      forall j | j in now.kv ensures now.kv[j] != now.lists[key][i] {
        assert HasList(now, j) && ListOk(now, j);
      }
    }

    lemma ChangedOneMore(records: seq<seq<byte>>, callback: seq<byte> -> (bool, seq<byte>), i: nat)
      requires i < |records|
      ensures var mixed := Changed(records[..i], callback) + records[i..];
        mixed[i := Rewrite(records[i], callback)] == Changed(records[..i + 1], callback) + records[i + 1..]
    {
    }

    /** A record that the callback leaves alone. */
    lemma SkipStep(m: Plus, key: Key, now: Plus, callback: seq<byte> -> (bool, seq<byte>), i: nat)
      requires Rewriting(m, key, now, callback, i) && i < |m.lists[key]| && !callback(Multi(m)[key][i]).0
      ensures Rewriting(m, key, now, callback, i + 1)
    {
      var records := Multi(m)[key];
      ChangedOneMore(records, callback, i);
      assert (Changed(records[..i], callback) + records[i..])[i := records[i]]
          == Changed(records[..i], callback) + records[i..];
    }

    /** A record that the callback changes, stored at `nl`. */
    lemma RewriteStep(m: Plus, key: Key, now: Plus, callback: seq<byte> -> (bool, seq<byte>), i: nat, nl: Location)
      returns (u: Plus)
      requires Rewriting(m, key, now, callback, i) && i < |m.lists[key]| && callback(Multi(m)[key][i]).0
      requires nl !in now.data - {now.lists[key][i]}
      ensures Rewriting(m, key, u, callback, i + 1)
      ensures u.data == (now.data - {now.lists[key][i]})[nl := callback(Multi(m)[key][i]).1]
      ensures u.lists == now.lists[key := now.lists[key][i := nl]]
    {
      NextToRewrite(m, key, now, callback, i);
      var r := callback(Multi(m)[key][i]).1;
      ReplaceOk(now, key, i, nl, r);
      u := Replace(now, key, i, nl, r);
      ChangedOneMore(Multi(m)[key], callback, i);
      UpdateTwice(Multi(m), key, Multi(now)[key], Multi(u)[key]);
      assert m.kv[key] in now.kv.Values;
    }

    /** One turn of the loop of update: a changed record is stored, and may move. */
    method RewriteRecord(key: Key, loc: Location, callback: seq<byte> -> (bool, seq<byte>), ghost m: Plus, ghost i: nat)
      returns (newLoc: Location)
      requires btree.Valid() && Rewriting(m, key, Plus(), callback, i)
      requires i < |m.lists[key]| && loc == lists[key][i] && btree.store.Room() >= 2
      requires callback(Multi(m)[key][i]).0 ==> FitsPage(|callback(Multi(m)[key][i]).1|)
      modifies this, btree.store, btree.store.rm
      ensures btree.Valid() && Rewriting(m, key, Plus(), callback, i + 1)
      ensures lists == old(lists)[key := old(lists)[key][i := newLoc]]
      ensures btree.store.Room() >= old(btree.store.Room()) - 2
    {
      NextToRewrite(m, key, Plus(), callback, i);
      var record := btree.store.ReadData(loc);
      var (changed, newRecord) := callback(record);
      if changed {
        ghost var now := Plus();
        newLoc := btree.store.ReplaceData(loc, newRecord);
        ghost var u := RewriteStep(m, key, now, callback, i, newLoc);
        lists, owner := u.lists, u.owner;
        assert Plus() == u;
      } else {
        SkipStep(m, key, Plus(), callback, i);
        newLoc := loc;
        assert lists[key][i := loc] == lists[key];
      }
    }

    /** Every record that is changed is replaced by one that can be stored. */
    predicate ChangesFit(records: seq<seq<byte>>, callback: seq<byte> -> (bool, seq<byte>)) {
      forall i :: 0 <= i < |records| && callback(records[i]).0 ==> FitsPage(|callback(records[i]).1|)
    }

    /**
     The loop of update before record `i`: the list in memory is the list with the records that moved, and no later
     page was needed than `room` allows.
     */
    ghost predicate AtRecord(m: Plus, key: Key, callback: seq<byte> -> (bool, seq<byte>), i: nat, ptrs: seq<byte>,
                             ptrsUpdated: bool, room: int)
      requires key in m.lists
      reads this, btree, btree.store, btree.store.rm
    {
      && i <= |m.lists[key]| && btree.Valid() && Rewriting(m, key, Plus(), callback, i)
      && key in lists && ptrs == Join(lists[key]) && (!ptrsUpdated ==> lists == m.lists)
      && btree.store.Room() >= room - 2 * i
    }

    /** The stored list follows a record that moved. */
    static method Follow(ptrs: seq<byte>, i: nat, loc: Location, newLoc: Location, ghost list: seq<Location>)
      returns (followed: seq<byte>)
      requires i < |list| && list[i] == loc && ptrs == Join(list)
      ensures followed == Join(list[i := newLoc])
      ensures newLoc == loc ==> list[i := newLoc] == list
    {
      followed := ptrs;
      if newLoc != loc {
        JoinReplaces(list, i, newLoc);
        followed := ptrs[..i * LOC_LENGTH] + LocationToString(newLoc) + ptrs[(i + 1) * LOC_LENGTH..];
      } else {
        assert list[i := newLoc] == list;
      }
    }

    /** One turn of the loop of update, and what it does to the list in memory. */
    method RewriteNext(key: Key, i: nat, callback: seq<byte> -> (bool, seq<byte>), ghost m: Plus, stored: seq<byte>,
                       updated: bool, ghost room: int)
      returns (ptrs: seq<byte>, ptrsUpdated: bool)
      requires key in m.lists && AtRecord(m, key, callback, i, stored, updated, room) && i < |m.lists[key]|
      requires key in Multi(m) && ChangesFit(Multi(m)[key], callback) && room >= 2 * |m.lists[key]|
      modifies this, btree.store, btree.store.rm
      ensures AtRecord(m, key, callback, i + 1, ptrs, ptrsUpdated, room)
    {
      ghost var list := lists[key];
      var loc := LocationAt(stored, i, list);
      var newLoc := RewriteRecord(key, loc, callback, m, i);
      ptrs := Follow(stored, i, loc, newLoc, list);
      ptrsUpdated := updated || newLoc != loc;
    }

    /** The loop of update: each record is offered to the callback, and the list follows the records that move. */
    method RewriteRecords(key: Key, stored: seq<byte>, callback: seq<byte> -> (bool, seq<byte>), ghost m: Plus)
      returns (ptrs: seq<byte>, ptrsUpdated: bool)
      requires btree.Valid() && Plus() == m && OkBut(m, Some(key)) && key in m.lists && stored == Join(m.lists[key])
      requires key in Multi(m) && ChangesFit(Multi(m)[key], callback)
      requires btree.store.Room() >= 2 * |m.lists[key]|
      modifies this, btree.store, btree.store.rm
      ensures btree.Valid() && Rewriting(m, key, Plus(), callback, |m.lists[key]|)
      ensures key in lists && ptrs == Join(lists[key]) && (!ptrsUpdated ==> lists == m.lists)
      ensures btree.store.Room() >= old(btree.store.Room()) - 2 * |m.lists[key]|
    {
      ghost var room := btree.store.Room();
      StartRewriting(m, key, callback);
      CountOfJoin(m.lists[key]);
      ptrs, ptrsUpdated := stored, false;
      for i := 0 to CountOf(stored)
        invariant AtRecord(m, key, callback, i, ptrs, ptrsUpdated, room)
      {
        ptrs, ptrsUpdated := RewriteNext(key, i, callback, m, ptrs, ptrsUpdated, room);
      }
    }

    /** A list that did not change need not be stored again. */
    lemma NothingMoved(m: Plus, key: Key, now: Plus, callback: seq<byte> -> (bool, seq<byte>))
      requires Ok(m) && key in m.lists && Rewriting(m, key, now, callback, |m.lists[key]|) && now.lists == m.lists
      ensures Ok(now)
    {
      assert Stored(m, key);
      forall k | k in now.lists ensures Stored(now, k) {
      }
    }

    /** update, once the list of the key was found. */
    method UpdateBound(target: Node, at: nat, key: Key, stored: seq<byte>, callback: seq<byte> -> (bool, seq<byte>),
                       ghost m: Plus, ghost path: seq<Node>)
      requires btree.Valid() && OnPath(btree.tree, path) && target == path[|path| - 1] && target.isLeaf
      requires at < |target.keys| && at < |target.children| && target.keys[at] == key
      requires Plus() == m && Ok(m) && key in m.lists && stored == Join(m.lists[key])
      requires key in Multi(m) && ChangesFit(Multi(m)[key], callback)
      requires FitsPage(|stored|) && btree.store.Room() >= 2 * |m.lists[key]| + 2
      modifies this, btree`tree, target, btree.store, btree.store.rm
      ensures Valid() && Contents() == Multi(m)[key := Changed(Multi(m)[key], callback)]
      ensures btree.store.Room() >= old(btree.store.Room()) - 2 * |m.lists[key]| - 2
    {
      var ptrs, ptrsUpdated := RewriteRecords(key, stored, callback, m);
      EndRewriting(m, key, Plus(), callback);
      if ptrsUpdated {
        StoreLocations(target, at, key, ptrs, Plus(), path);
      } else {
        NothingMoved(m, key, Plus(), callback);
      }
    }

    /**
     update: every record of `key` is replaced by what the callback makes of it, in order, although records and their
     list may move; all other keys are untouched. False is the source's KeyNotFound.
     */
    method Update(key: Key, callback: seq<byte> -> (bool, seq<byte>)) returns (found: bool)
      requires Valid() && btree.store.Room() >= 2 * Count(key) + 2
      requires key in Contents() ==> ChangesFit(Contents()[key], callback)
      modifies this, btree, btree.store, btree.store.rm
      ensures Valid() && (found <==> key in old(Contents()))
      ensures Contents() ==
        if found then old(Contents())[key := Changed(old(Contents())[key], callback)] else old(Contents())
      ensures found ==>
        forall i :: 0 <= i < |old(Contents())[key]| ==>
          var was := old(Contents())[key][i];
          Contents()[key][i] == if callback(was).0 then callback(was).1 else was
      ensures btree.store.Room() >= old(btree.store.Room()) - 2 * old(Count(key)) - 2
    {
      ghost var path;
      var target, at, ptrs;
      target, at, ptrs, path := btree.FindData(key);
      found := target != null;
      ghost var m := Plus();
      assert HasList(m, key);
      if target != null {
        assert Stored(m, key);
        btree.store.DataFits(btree.tree.kv[key]);
        UpdateBound(target, at, key, ptrs, callback, m, path);
      }
    }
  }
}
