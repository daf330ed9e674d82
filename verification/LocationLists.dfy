/**
 The lists of record locations behind the keys of a multimap index (src/BTree/BTreePlus.h): which records belong to
 which key, and how the lists are stored.
 */
module LocationLists {
  import opened Bytes
  import opened Locations
  import opened NodeFormat
  import opened TreeShape

  /** The bytes of a location list, six per location. */
  function Join(locs: seq<Location>): (b: seq<byte>)
    ensures |b| == LOC_LENGTH * |locs|
  {
    if locs == [] then [] else Join(locs[..|locs| - 1]) + LocationToString(locs[|locs| - 1])
  }

  lemma JoinOne(l: Location)
    ensures Join([l]) == LocationToString(l)
  {
    assert [l][..0] == [];
    assert Join([]) + LocationToString(l) == LocationToString(l);
  }

  lemma {:induction false} JoinAt(locs: seq<Location>, i: nat)
    requires i < |locs|
    ensures Join(locs)[i * LOC_LENGTH..(i + 1) * LOC_LENGTH] == LocationToString(locs[i])
  {
    var front := locs[..|locs| - 1];
    if i < |front| {
      JoinAt(front, i);
      assert Join(locs)[i * LOC_LENGTH..(i + 1) * LOC_LENGTH] == Join(front)[i * LOC_LENGTH..(i + 1) * LOC_LENGTH];
    }
  }

  /** The location that the multimap reads at position `i` of a stored list. */
  lemma JoinReads(locs: seq<Location>, i: nat)
    requires i < |locs|
    ensures StringToLocation(Join(locs)[i * LOC_LENGTH..(i + 1) * LOC_LENGTH]) == locs[i]
  {
    JoinAt(locs, i);
    LocationReads(locs[i], []);
    assert LocationToString(locs[i]) + [] == LocationToString(locs[i]);
  }

  /** How many locations a stored list holds. */
  function CountOf(ptrs: seq<byte>): nat {
    |ptrs| / LOC_LENGTH
  }

  lemma CountOfJoin(locs: seq<Location>)
    ensures CountOf(Join(locs)) == |locs|
  {
  }

  /** The location at position `i` of a stored list. */
  method LocationAt(ptrs: seq<byte>, i: nat, ghost locs: seq<Location>) returns (loc: Location)
    requires ptrs == Join(locs) && i < |locs|
    ensures loc == locs[i]
  {
    JoinReads(locs, i);
    loc := StringToLocation(ptrs[i * LOC_LENGTH..(i + 1) * LOC_LENGTH]);
  }

  lemma {:induction false} JoinParts(locs: seq<Location>, i: nat)
    requires i < |locs|
    ensures Join(locs) == Join(locs[..i]) + LocationToString(locs[i]) + Join(locs[i + 1..])
  {
    var n := |locs| - 1;
    if i == n {
      assert Join(locs[n + 1..]) == [];
    } else {
      var front, rest := locs[..n], locs[i + 1..];
      JoinParts(front, i);
      assert front[..i] == locs[..i] && front[i + 1..] == rest[..|rest| - 1] && rest[|rest| - 1] == locs[n];
    }
  }

  lemma MiddleReplaced(a: seq<byte>, b: seq<byte>, c: seq<byte>, d: seq<byte>)
    ensures (a + b + c)[..|a|] + d + (a + b + c)[|a| + |b|..] == a + d + c
  {
    assert (a + b + c)[..|a|] == a && (a + b + c)[|a| + |b|..] == c;
  }

  lemma JoinReplaces(locs: seq<Location>, i: nat, l: Location)
    requires i < |locs|
    ensures Join(locs)[..i * LOC_LENGTH] + LocationToString(l) + Join(locs)[(i + 1) * LOC_LENGTH..]
         == Join(locs[i := l])
  {
    JoinParts(locs, i);
    JoinParts(locs[i := l], i);
    assert locs[i := l][..i] == locs[..i] && locs[i := l][i + 1..] == locs[i + 1..];
    MiddleReplaced(Join(locs[..i]), LocationToString(locs[i]), Join(locs[i + 1..]), LocationToString(l));
  }

  // ---------- who owns which record ----------

  /**
   `lists` holds the record locations of every key, `owner` says which key a record belongs to, and the rest of `data`
   are the stored lists.
   */
  datatype Plus = Plus(
    kv: map<Key, Location>,
    data: map<Location, seq<byte>>,
    lists: map<Key, seq<Location>>,
    owner: map<Location, Key>)

  /** The list of `k` names records that belong to `k`, each once. */
  ghost predicate ListOk(m: Plus, k: Key)
    requires k in m.lists
  {
    && k in m.kv && m.kv[k] in m.data && m.kv[k] !in m.owner
    && NoDuplicates(m.lists[k])
    && forall i :: 0 <= i < |m.lists[k]| ==>
         m.lists[k][i] in m.data && m.lists[k][i] in m.owner && m.owner[m.lists[k][i]] == k
  }

  /** The list of `k` is what is stored for it. */
  ghost predicate Stored(m: Plus, k: Key)
    requires k in m.lists
  {
    k in m.kv && m.kv[k] in m.data && m.data[m.kv[k]] == Join(m.lists[k])
  }

  /** Every data record is a list that the tree binds, or a record in the list of its owner. */
  ghost predicate Accounted(m: Plus, l: Location) {
    && (l in m.owner ==> l in m.data && m.owner[l] in m.lists && l in m.lists[m.owner[l]])
    && (l in m.data && l !in m.owner ==> l in m.kv.Values)
  }

  /** Every bound key has a list, and only those. */
  ghost predicate HasList(m: Plus, k: Key) {
    k in m.kv <==> k in m.lists
  }

  /** The key that gets `nl` is still apart from the others. */
  lemma StillApart(m: Plus, k: Key, nl: Location)
    requires Injective(m.kv)
    requires forall j {:trigger HasList(m, j)} :: HasList(m, j)
    requires forall j {:trigger ListOk(m, j)} | j in m.lists :: ListOk(m, j)
    requires (k in m.kv && nl == m.kv[k]) || nl !in m.data
    ensures Injective(m.kv[k := nl])
  {
    var kv := m.kv[k := nl];
    forall i, j ensures Apart(kv, i, j) {
      assert HasList(m, i) && HasList(m, j) && Apart(m.kv, i, j) && Apart(m.kv, k, i) && Apart(m.kv, k, j);
      assert i in m.kv ==> ListOk(m, i);
      assert j in m.kv ==> ListOk(m, j);
    }
  }

  /** The invariant, except that the stored list of `stale` may be out of date. */
  ghost predicate OkBut(m: Plus, stale: Option<Key>) {
    && (forall k {:trigger HasList(m, k)} :: HasList(m, k))
    && Injective(m.kv)
    && (forall k {:trigger ListOk(m, k)} | k in m.lists :: ListOk(m, k))
    && (forall k {:trigger Stored(m, k)} | k in m.lists && stale != Some(k) :: Stored(m, k))
    && (forall l {:trigger Accounted(m, l)} :: Accounted(m, l))
  }

  ghost predicate Ok(m: Plus) {
    OkBut(m, None)
  }

  /** The records at some locations, in order. */
  ghost function Records(data: map<Location, seq<byte>>, locs: seq<Location>): seq<seq<byte>>
    requires forall i :: 0 <= i < |locs| ==> locs[i] in data
  {
    seq(|locs|, i requires 0 <= i < |locs| => data[locs[i]])
  }

  /** The multimap: for every key its records, in order. */
  ghost function Multi(m: Plus): map<Key, seq<seq<byte>>>
    requires forall k {:trigger ListOk(m, k)} | k in m.lists :: ListOk(m, k)
  {
    map k | k in m.lists :: assert ListOk(m, k); Records(m.data, m.lists[k])
  }

  // ---------- changes of the list of one key ----------

  /** The lists whose owners a change leaves alone read the same records. */
  lemma SameRecords(a: map<Location, seq<byte>>, b: map<Location, seq<byte>>, locs: seq<Location>)
    requires forall i :: 0 <= i < |locs| ==> locs[i] in a && locs[i] in b && a[locs[i]] == b[locs[i]]
    ensures Records(a, locs) == Records(b, locs)
  {
  }

  /** A data record that does not belong to `k`: a record of another key, or a stored list. */
  ghost predicate Foreign(m: Plus, k: Key, l: Location) {
    l in m.data && (l in m.owner ==> m.owner[l] != k)
  }

  /** Foreign records are left alone, and what `k` owns afterwards is in its list. */
  ghost predicate EditAt(m: Plus, u: Plus, k: Key, l: Location)
    requires k in u.lists
  {
    && (Foreign(m, k, l) <==> Foreign(u, k, l))
    && (Foreign(m, k, l) ==>
          && u.data[l] == m.data[l]
          && (l in u.owner <==> l in m.owner)
          && (l in m.owner ==> u.owner[l] == m.owner[l]))
    && (l in u.owner ==> l in u.data && (u.owner[l] == k ==> l in u.lists[k]))
  }

  /** Only the list of `k` and the records in it differ; the stored list is not written yet. */
  ghost predicate Edit(m: Plus, u: Plus, k: Key) {
    && k in m.lists && k in u.lists && u.kv == m.kv && u.lists == m.lists[k := u.lists[k]]
    && (forall l {:trigger EditAt(m, u, k, l)} :: EditAt(m, u, k, l))
  }

  lemma EditOtherList(m: Plus, u: Plus, k: Key, j: Key)
    requires OkBut(m, Some(k)) && Edit(m, u, k) && j in m.lists && j != k
    ensures ListOk(m, j) && ListOk(u, j) && Stored(u, j)
    ensures Records(u.data, u.lists[j]) == Records(m.data, m.lists[j])
  {
    assert ListOk(m, j) && Stored(m, j);
    assert EditAt(m, u, k, m.kv[j]);
    forall i | 0 <= i < |m.lists[j]| ensures EditAt(m, u, k, m.lists[j][i]) {
    }
    SameRecords(m.data, u.data, m.lists[j]);
  }

  lemma EditAccounted(m: Plus, u: Plus, k: Key, l: Location)
    requires OkBut(m, Some(k)) && Edit(m, u, k)
    ensures Accounted(u, l)
  {
    assert Accounted(m, l) && EditAt(m, u, k, l);
  }

  /** An edit of one list leaves every other key's records alone. */
  lemma EditOk(m: Plus, u: Plus, k: Key)
    requires OkBut(m, Some(k)) && Edit(m, u, k) && ListOk(u, k)
    ensures OkBut(u, Some(k))
    ensures Multi(u) == Multi(m)[k := Records(u.data, u.lists[k])]
  {
    forall j | j in u.lists ensures ListOk(u, j) && (j != k ==> Stored(u, j)) {
      if j != k {
        EditOtherList(m, u, k, j);
      }
    }
    forall l ensures Accounted(u, l) {
      EditAccounted(m, u, k, l);
    }
    forall j ensures HasList(u, j) {
      assert HasList(m, j);
    }
    forall j | j in u.lists && j != k ensures Multi(u)[j] == Multi(m)[j] {
      EditOtherList(m, u, k, j);
    }
  }

  /** A record at the fresh location `d` joins the list of `k`. */
  ghost function Append(m: Plus, k: Key, d: Location, r: seq<byte>): Plus
    requires k in m.lists
  {
    m.(data := m.data[d := r], owner := m.owner[d := k], lists := m.lists[k := m.lists[k] + [d]])
  }

  lemma AppendOk(m: Plus, k: Key, d: Location, r: seq<byte>)
    requires OkBut(m, Some(k)) && k in m.lists && d !in m.data
    ensures OkBut(Append(m, k, d, r), Some(k))
    ensures Multi(Append(m, k, d, r)) == Multi(m)[k := Multi(m)[k] + [r]]
  {
    var u := Append(m, k, d, r);
    assert ListOk(m, k) && Accounted(m, d);
    assert u.lists[k][|m.lists[k]|] == d;
    forall l ensures EditAt(m, u, k, l) {
      assert Accounted(m, l);
    }
    EditOk(m, u, k);
    assert Records(u.data, u.lists[k]) == Records(m.data, m.lists[k]) + [r];
  }

  /** The record at position `i` of the list of `k` is deleted. */
  ghost function Drop(m: Plus, k: Key, i: nat): Plus
    requires k in m.lists && i < |m.lists[k]|
  {
    var l := m.lists[k][i];
    m.(data := m.data - {l}, owner := m.owner - {l}, lists := m.lists[k := EraseAt(m.lists[k], i)])
  }

  lemma DropOk(m: Plus, k: Key, i: nat)
    requires OkBut(m, Some(k)) && k in m.lists && i < |m.lists[k]|
    ensures OkBut(Drop(m, k, i), Some(k))
    ensures i < |Multi(m)[k]| && Multi(Drop(m, k, i)) == Multi(m)[k := EraseAt(Multi(m)[k], i)]
  {
    var u, list := Drop(m, k, i), m.lists[k];
    assert ListOk(m, k);
    forall x | 0 <= x < |u.lists[k]| ensures u.lists[k][x] == list[if x < i then x else x + 1] {
      EraseAtIndex(list, i, x);
    }
    forall l ensures EditAt(m, u, k, l) {
      assert Accounted(m, l);
      if l in u.owner && u.owner[l] == k {
        var x :| 0 <= x < |list| && list[x] == l;
        EraseAtIndex(list, i, if x < i then x else x - 1);
      }
    }
    EditOk(m, u, k);
    assert Records(u.data, u.lists[k]) == EraseAt(Records(m.data, list), i);
  }

  /** The record at position `i` of the list of `k` is replaced, and may move. */
  ghost function Replace(m: Plus, k: Key, i: nat, nl: Location, r: seq<byte>): Plus
    requires k in m.lists && i < |m.lists[k]|
  {
    var l := m.lists[k][i];
    m.(data := (m.data - {l})[nl := r], owner := (m.owner - {l})[nl := k], lists := m.lists[k := m.lists[k][i := nl]])
  }

  lemma ReplaceOk(m: Plus, k: Key, i: nat, nl: Location, r: seq<byte>)
    requires OkBut(m, Some(k)) && k in m.lists && i < |m.lists[k]| && nl !in m.data - {m.lists[k][i]}
    ensures OkBut(Replace(m, k, i, nl, r), Some(k))
    ensures i < |Multi(m)[k]| && Multi(Replace(m, k, i, nl, r)) == Multi(m)[k := Multi(m)[k][i := r]]
  {
    var u, list := Replace(m, k, i, nl, r), m.lists[k];
    assert ListOk(m, k) && Accounted(m, nl);
    assert u.lists[k][i] == nl;
    forall l ensures EditAt(m, u, k, l) {
      assert Accounted(m, l);
      if l in u.owner && u.owner[l] == k && l != nl {
        var x :| 0 <= x < |list| && list[x] == l;
        assert u.lists[k][x] == l;
      }
    }
    EditOk(m, u, k);
    assert Records(u.data, u.lists[k]) == Records(m.data, list)[i := r];
  }

  // ---------- storing a list ----------

  /** The list of `k` is stored anew, at `nl`. */
  ghost function StoreList(m: Plus, k: Key, nl: Location): Plus
    requires k in m.lists && k in m.kv
  {
    m.(data := (m.data - {m.kv[k]})[nl := Join(m.lists[k])], kv := m.kv[k := nl])
  }

  /** The lists and their records are the same wherever the list of `k` is stored. */
  lemma StoredListOk(m: Plus, k: Key, nl: Location, j: Key)
    requires OkBut(m, Some(k)) && k in m.lists && k in m.kv && j in m.lists && nl !in m.data - {m.kv[k]}
    ensures ListOk(m, j) && ListOk(StoreList(m, k, nl), j) && Stored(StoreList(m, k, nl), j)
    ensures Records(StoreList(m, k, nl).data, m.lists[j]) == Records(m.data, m.lists[j])
    ensures nl !in m.owner
  {
    var u := StoreList(m, k, nl);
    assert ListOk(m, j) && ListOk(m, k) && Accounted(m, nl) && Apart(m.kv, j, k);
    assert j != k ==> Stored(m, j);
    SameRecords(m.data, u.data, m.lists[j]);
  }

  lemma StoredAccounted(m: Plus, k: Key, nl: Location, l: Location)
    requires OkBut(m, Some(k)) && k in m.lists && k in m.kv && nl !in m.data - {m.kv[k]}
    ensures Accounted(StoreList(m, k, nl), l)
  {
    var u := StoreList(m, k, nl);
    assert Accounted(m, l) && ListOk(m, k) && Accounted(m, nl);
    if l == nl {
      assert u.kv[k] == l;
    } else if l in u.data && l !in u.owner {
      var j :| j in m.kv && m.kv[j] == l;
      assert u.kv[j] == l;
    }
  }

  /** Storing a list keeps every key's records. */
  lemma StoreListOk(m: Plus, k: Key, nl: Location)
    requires OkBut(m, Some(k)) && k in m.lists && k in m.kv && nl !in m.data - {m.kv[k]}
    ensures Ok(StoreList(m, k, nl))
    ensures Multi(StoreList(m, k, nl)) == Multi(m)
  {
    var u := StoreList(m, k, nl);
    forall j | j in u.lists ensures ListOk(u, j) && Stored(u, j) {
      StoredListOk(m, k, nl, j);
    }
    forall l ensures Accounted(u, l) {
      StoredAccounted(m, k, nl, l);
    }
    StillApart(m, k, nl);
    forall j ensures HasList(u, j) {
      assert HasList(m, j);
    }
    forall j | j in u.lists ensures Multi(u)[j] == Multi(m)[j] {
      StoredListOk(m, k, nl, j);
    }
  }

  lemma Restored(m: Plus, k: Key, nl: Location) returns (u: Plus)
    requires OkBut(m, Some(k)) && k in m.lists && k in m.kv && nl !in m.data - {m.kv[k]}
    ensures Ok(u) && Multi(u) == Multi(m)
    ensures u.kv == m.kv[k := nl] && u.data == (m.data - {m.kv[k]})[nl := Join(m.lists[k])]
    ensures u.lists == m.lists && u.owner == m.owner
  {
    u := StoreList(m, k, nl);
    StoreListOk(m, k, nl);
  }

  /** A key that was not bound gets an empty list, stored at `nl`. */
  ghost function NewList(m: Plus, k: Key, nl: Location): Plus {
    m.(kv := m.kv[k := nl], data := m.data[nl := []], lists := m.lists[k := []])
  }

  lemma NewListKeeps(m: Plus, k: Key, nl: Location, j: Key)
    requires Ok(m) && k !in m.kv && nl !in m.data && j in m.lists
    ensures ListOk(m, j) && ListOk(NewList(m, k, nl), j) && Stored(NewList(m, k, nl), j)
    ensures Records(NewList(m, k, nl).data, m.lists[j]) == Records(m.data, m.lists[j])
  {
    assert ListOk(m, j) && Stored(m, j) && Accounted(m, nl);
    SameRecords(m.data, NewList(m, k, nl).data, m.lists[j]);
  }

  lemma NewListAccounted(m: Plus, k: Key, nl: Location, l: Location)
    requires Ok(m) && k !in m.kv && nl !in m.data
    ensures Accounted(NewList(m, k, nl), l)
  {
    var u := NewList(m, k, nl);
    assert Accounted(m, l) && HasList(m, k);
    if l == nl {
      assert u.kv[k] == l;
    } else if l in u.data && l !in u.owner {
      var j :| j in m.kv && m.kv[j] == l;
      assert u.kv[j] == l;
    }
  }

  lemma NewListMulti(m: Plus, k: Key, nl: Location)
    requires Ok(m) && Ok(NewList(m, k, nl)) && k !in m.kv && nl !in m.data
    ensures Multi(NewList(m, k, nl)) == Multi(m)[k := []]
  {
    var u := NewList(m, k, nl);
    assert HasList(m, k) && ListOk(u, k) && Records(u.data, []) == [];
    forall j | j in u.lists && j != k ensures Multi(u)[j] == Multi(m)[j] {
      NewListKeeps(m, k, nl, j);
    }
  }

  lemma NewListOk(m: Plus, k: Key, nl: Location)
    requires Ok(m) && k !in m.kv && nl !in m.data
    ensures Ok(NewList(m, k, nl))
    ensures Multi(NewList(m, k, nl)) == Multi(m)[k := []]
  {
    var u := NewList(m, k, nl);
    assert Accounted(m, nl) && HasList(m, k);
    forall j | j in u.lists ensures ListOk(u, j) && Stored(u, j) {
      if j != k {
        NewListKeeps(m, k, nl, j);
      }
    }
    forall l ensures Accounted(u, l) {
      NewListAccounted(m, k, nl, l);
    }
    StillApart(m, k, nl);
    forall j ensures HasList(u, j) {
      assert HasList(m, j);
    }
    NewListMulti(m, k, nl);
  }

  /** A record that joins the list of `k`, which is stored right away at `nl`. */
  lemma AppendAndStore(m: Plus, k: Key, d: Location, r: seq<byte>, nl: Location) returns (u: Plus)
    requires OkBut(m, Some(k)) && k in m.lists && k in m.kv && d !in m.data && nl !in m.data[d := r] - {m.kv[k]}
    ensures Ok(u) && u.kv == m.kv[k := nl]
    ensures u.data == (m.data[d := r] - {m.kv[k]})[nl := Join(m.lists[k] + [d])]
    ensures Multi(u) == Multi(m)[k := Multi(m)[k] + [r]]
  {
    AppendOk(m, k, d, r);
    u := StoreList(Append(m, k, d, r), k, nl);
    StoreListOk(Append(m, k, d, r), k, nl);
  }

  lemma EmptyList(m: Plus, k: Key, nl: Location) returns (u: Plus)
    requires Ok(m) && k !in m.kv && nl !in m.data
    ensures Ok(u) && u.kv == m.kv[k := nl] && u.data == m.data[nl := []]
    ensures k in u.lists && u.lists[k] == [] && Multi(u) == Multi(m)[k := []]
  {
    u := NewList(m, k, nl);
    NewListOk(m, k, nl);
  }

  lemma UpdateTwice<V>(c: map<Key, V>, k: Key, v: V, w: V)
    ensures c[k := v][k := w] == c[k := w]
  {
  }

  lemma FirstRecordData(data: map<Location, seq<byte>>, nl: Location, d: Location, r: seq<byte>, list: seq<byte>)
    requires d != nl
    ensures (data[nl := []][d := r] - {nl})[nl := list] == data[d := r][nl := list]
  {
  }

  /** A first record: an empty list that the record joins, stored right away. */
  lemma FirstRecord(m: Plus, k: Key, d: Location, r: seq<byte>, nl: Location) returns (u: Plus)
    requires Ok(m) && k !in m.kv && d !in m.data && nl !in m.data && nl != d
    ensures Ok(u) && u.kv == m.kv[k := nl]
    ensures u.data == m.data[d := r][nl := Join([d])]
    ensures Multi(u) == Multi(m)[k := [r]]
  {
    var a := EmptyList(m, k, nl);
    assert a.lists[k] + [d] == [d] && Multi(a)[k] + [r] == [r];
    FirstRecordData(m.data, nl, d, r, Join([d]));
    UpdateTwice(Multi(m), k, [], [r]);
    UpdateTwice(m.kv, k, nl, nl);
    u := AppendAndStore(a, k, d, r, nl);
  }
}
