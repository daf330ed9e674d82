/**
 A hash index over one column of a table: what it must hold, and how it follows the rows. The index itself is the
 multimap of BTreePlus, seen as the map from keys to lists of locations that it keeps.
 */
module Indexes {
  import opened Locations
  import opened Rows
  import TreeShape

  type Key = TreeShape.Key
  type Index = map<Key, seq<Location>>

  /** get: the locations under a key, none for a key that is not bound. */
  function Get(ix: Index, h: Key): seq<Location> {
    if h in ix then ix[h] else []
  }

  /** insert: the location joins the list of its key. */
  function Insert(ix: Index, h: Key, l: Location): Index {
    ix[h := Get(ix, h) + [l]]
  }

  /** remove: the locations that the checker picks leave the list of the key. For an unbound key the source throws. */
  function Remove(ix: Index, h: Key, checker: Location -> bool): Index
    requires h in ix
  {
    ix[h := Filter(ix[h], l => !checker(l))]
  }

  /** The index lists a location under a key exactly if the row there has a value with that hash. */
  ghost predicate Entry(rows: map<Location, Item>, ix: Index, hash: Cell -> Key, c: nat, h: Key, l: Location) {
    l in Get(ix, h) <==> l in rows && c < |rows[l]| && hash(rows[l][c]) == h
  }

  /** The index over column `c` holds exactly the (hash, location) pairs of the rows, each once. */
  ghost predicate Agrees(rows: map<Location, Item>, ix: Index, hash: Cell -> Key, c: nat) {
    && (forall h, l {:trigger Entry(rows, ix, hash, c, h, l)} :: Entry(rows, ix, hash, c, h, l))
    && (forall h {:trigger Get(ix, h)} :: Distinct(Get(ix, h)))
  }

  lemma DistinctAppend<T(!new)>(s: seq<T>, x: T)
    requires Distinct(s) && x !in s
    ensures Distinct(s + [x])
  {
    forall y ensures multiset(s + [x])[y] <= 1 {
      assert multiset(s)[y] <= 1;
      assert x in multiset(s) <==> x in s;
    }
  }

  /** A new row, listed under the hash of its cell. */
  lemma AgreesInsert(rows: map<Location, Item>, ix: Index, hash: Cell -> Key, c: nat, l: Location, item: Item)
    requires Agrees(rows, ix, hash, c) && l !in rows && c < |item|
    ensures Agrees(rows[l := item], Insert(ix, hash(item[c]), l), hash, c)
  {
    var h, now, ux := hash(item[c]), rows[l := item], Insert(ix, hash(item[c]), l);
    assert Entry(rows, ix, hash, c, h, l);
    forall g, x ensures Entry(now, ux, hash, c, g, x) {
      assert Entry(rows, ix, hash, c, g, x);
      assert Get(ux, g) == if g == h then Get(ix, g) + [l] else Get(ix, g);
    }
    forall g ensures Distinct(Get(ux, g)) {
      assert Distinct(Get(ix, g));
      if g == h {
        DistinctAppend(Get(ix, g), l);
      }
    }
  }

  /** The hash of a live row's cell is bound, so removing the row's entry does not throw. */
  lemma LiveIsBound(rows: map<Location, Item>, ix: Index, hash: Cell -> Key, c: nat, l: Location)
    requires Agrees(rows, ix, hash, c) && l in rows && c < |rows[l]|
    ensures hash(rows[l][c]) in ix
  {
    assert Entry(rows, ix, hash, c, hash(rows[l][c]), l);
  }

  /** Rows that leave, together with their entries under one key. */
  lemma AgreesRemove(rows: map<Location, Item>, ix: Index, hash: Cell -> Key, c: nat, h: Key, gone: set<Location>,
                     checker: Location -> bool)
    requires Agrees(rows, ix, hash, c) && h in ix
    requires forall l :: l in gone ==> l in rows && c < |rows[l]| && hash(rows[l][c]) == h
    requires forall l :: checker(l) <==> l in gone
    ensures Agrees(rows - gone, Remove(ix, h, checker), hash, c)
  {
    var now, ux := rows - gone, Remove(ix, h, checker);
    var keep := l => !checker(l);
    forall g, x ensures Entry(now, ux, hash, c, g, x) {
      assert Entry(rows, ix, hash, c, g, x);
      FilterMember(Get(ix, g), keep, x);
      assert Get(ux, g) == if g == h then Filter(ix[h], keep) else Get(ix, g);
    }
    forall g ensures Distinct(Get(ux, g)) {
      assert Distinct(Get(ix, g));
      DistinctFilter(Get(ix, g), keep);
    }
  }

  /**
   Looking up the hash of `v` and filtering finds, up to order, the rows that the same filter finds in a scan: for any
   hash function, collisions included.
   */
  lemma LookupIsScan(rows: map<Location, Item>, ix: Index, hash: Cell -> Key, c: nat, order: seq<Location>, v: Cell,
                     p: Location -> bool)
    requires Agrees(rows, ix, hash, c) && Distinct(order) && forall l :: l in order <==> l in rows
    requires forall l :: l in rows ==> (p(l) ==> c < |rows[l]| && rows[l][c] == v)
    ensures forall l :: l in Filter(Get(ix, hash(v)), p) ==> l in rows
    ensures forall l :: l in Filter(order, p) ==> l in rows
    ensures multiset(ItemsAt(rows, Filter(Get(ix, hash(v)), p))) == multiset(ItemsAt(rows, Filter(order, p)))
  {
    var list := Get(ix, hash(v));
    assert Distinct(list);
    forall l ensures l in Filter(list, p) <==> l in Filter(order, p) {
      FilterMember(list, p, l);
      FilterMember(order, p, l);
      assert Entry(rows, ix, hash, c, hash(v), l);
    }
    forall l | l in Filter(order, p) ensures l in rows {
      FilterMember(order, p, l);
    }
    DistinctFilter(list, p);
    DistinctFilter(order, p);
    DistinctPermuted(Filter(list, p), Filter(order, p));
    ItemsAtPermuted(rows, Filter(list, p), Filter(order, p));
  }

  // ---------- building an index ----------

  /** No key lists a location. */
  ghost predicate Blank(ix: Index) {
    forall h {:trigger Get(ix, h)} :: Get(ix, h) == []
  }

  /** How often the index lists a location under a key. */
  ghost function Listed(ix: Index, h: Key, l: Location): nat {
    multiset(Get(ix, h))[l]
  }

  /** How often it should. */
  ghost function Due(rows: map<Location, Item>, hash: Cell -> Key, c: nat, h: Key, l: Location): nat {
    if l in rows && c < |rows[l]| && hash(rows[l][c]) == h then 1 else 0
  }

  lemma InsertListed(ix: Index, h: Key, l: Location, g: Key, x: Location)
    ensures Listed(Insert(ix, h, l), g, x) == Listed(ix, g, x) + if g == h && x == l then 1 else 0
  {
    assert Get(Insert(ix, h, l), g) == if g == h then Get(ix, h) + [l] else Get(ix, g);
  }

  /** An index agrees with the rows exactly if it lists every pair as often as it should. */
  lemma AgreesByCount(rows: map<Location, Item>, ix: Index, hash: Cell -> Key, c: nat)
    ensures Agrees(rows, ix, hash, c) <==>
              forall h, l {:trigger Listed(ix, h, l)} :: Listed(ix, h, l) == Due(rows, hash, c, h, l)
  {
    if Agrees(rows, ix, hash, c) {
      forall h, l ensures Listed(ix, h, l) == Due(rows, hash, c, h, l) {
        assert Entry(rows, ix, hash, c, h, l) && Distinct(Get(ix, h));
        assert l in Get(ix, h) <==> l in multiset(Get(ix, h));
      }
    }
    if forall h, l {:trigger Listed(ix, h, l)} :: Listed(ix, h, l) == Due(rows, hash, c, h, l) {
      forall h ensures Distinct(Get(ix, h)) {
        forall l ensures multiset(Get(ix, h))[l] <= 1 {
          assert Listed(ix, h, l) == Due(rows, hash, c, h, l);
        }
      }
      forall h, l ensures Entry(rows, ix, hash, c, h, l) {
        assert Listed(ix, h, l) == Due(rows, hash, c, h, l);
        assert l in Get(ix, h) <==> l in multiset(Get(ix, h));
      }
    }
  }

  /** The rows were added to what the index held before. */
  ghost predicate AddedTo(was: Index, rows: map<Location, Item>, ix: Index, hash: Cell -> Key, c: nat) {
    forall h, l {:trigger Listed(ix, h, l)} :: Listed(ix, h, l) == Listed(was, h, l) + Due(rows, hash, c, h, l)
  }

  lemma AddedNone(was: Index, hash: Cell -> Key, c: nat)
    ensures AddedTo(was, map[], was, hash, c)
  {
    forall h, l ensures Due(map[], hash, c, h, l) == 0 {
    }
  }

  lemma AddedOneMore(was: Index, rows: map<Location, Item>, ix: Index, hash: Cell -> Key, c: nat, l: Location,
                     item: Item)
    requires AddedTo(was, rows, ix, hash, c) && l !in rows && c < |item|
    ensures AddedTo(was, rows[l := item], Insert(ix, hash(item[c]), l), hash, c)
  {
    var now, ux := rows[l := item], Insert(ix, hash(item[c]), l);
    forall h, x ensures Listed(ux, h, x) == Listed(was, h, x) + Due(now, hash, c, h, x) {
      assert Listed(ix, h, x) == Listed(was, h, x) + Due(rows, hash, c, h, x);
      InsertListed(ix, hash(item[c]), l, h, x);
    }
  }

  /** An index that all rows are added to agrees with them exactly if it was blank. */
  lemma BuiltOnBlank(was: Index, rows: map<Location, Item>, ix: Index, hash: Cell -> Key, c: nat)
    requires AddedTo(was, rows, ix, hash, c)
    ensures Agrees(rows, ix, hash, c) <==> Blank(was)
  {
    AgreesByCount(rows, ix, hash, c);
    if Blank(was) {
      forall h, l ensures Listed(ix, h, l) == Due(rows, hash, c, h, l) {
        assert Get(was, h) == [];
      }
    } else {
      var h :| Get(was, h) != [];
      var l := Get(was, h)[0];
      assert l in multiset(Get(was, h));
      assert Listed(ix, h, l) > Due(rows, hash, c, h, l);
    }
  }

  /** An index that agrees with the rows is blank exactly if there are none. */
  lemma BlankIsEmpty(rows: map<Location, Item>, ix: Index, hash: Cell -> Key, c: nat)
    requires Agrees(rows, ix, hash, c) && forall l :: l in rows ==> c < |rows[l]|
    ensures Blank(ix) <==> rows == map[]
  {
    if l :| l in rows {
      assert Entry(rows, ix, hash, c, hash(rows[l][c]), l);
    }
    if !Blank(ix) {
      var h :| Get(ix, h) != [];
      assert Entry(rows, ix, hash, c, h, Get(ix, h)[0]);
    }
  }
}
