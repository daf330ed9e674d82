/**
 The changes of a B+ tree that start in a leaf: a first root, an inserted key, a moved data record, an erased key, and
 a leaf that became empty and is dropped from its parent (src/BTree/BTree.h, insertAsRoot, insertLocDataInLeafNode,
 update, deleteData, deleteChild).
 */
module TreeLeaf {
  import opened Locations
  import opened TreeShape

  // ---------- the first key ----------

  ghost function FirstRoot(q: Location, key: Key, d: Location): Tree {
    Tree(q, map[q := NodeRec(true, NULL_LOCATION, [key], [d])], map[q := Span(0, None, None)],
         map[key := d], map[key := q])
  }

  lemma FirstRootGood(q: Location, key: Key, d: Location, max: nat)
    requires q != NULL_LOCATION && max >= 3
    ensures Good(FirstRoot(q, key, d), max)
  {
    var t := FirstRoot(q, key, d);
    assert HomeOk(t, key);
    assert LocalOk(t, q, max, NULL_LOCATION);
  }

  // ---------- what any change confined to one leaf keeps ----------

  /** Between `t` and `u` only the leaf at `l` and the bindings of its keys may differ. */
  ghost predicate OnlyLeafChanges(t: Tree, u: Tree, l: Location) {
    && l in t.nodes && t.nodes[l].isLeaf
    && u.root == t.root && u.span == t.span && u.nodes.Keys == t.nodes.Keys
    && (forall x | x in t.nodes && x != l :: u.nodes[x] == t.nodes[x])
    && u.nodes[l].isLeaf && u.nodes[l].parent == t.nodes[l].parent
    && (forall k | k in t.home && t.home[k] != l && k in t.kv ::
          k in u.kv && k in u.home && u.kv[k] == t.kv[k] && u.home[k] == t.home[k])
  }

  lemma OthersAfterLeafChange(t: Tree, u: Tree, max: nat, l: Location, over: Location, m: Location)
    requires Good(t, max) && OnlyLeafChanges(t, u, l)
    requires m in t.nodes && m != l
    ensures LocalOk(u, m, max, over)
    ensures ParentOk(u, l) && ChildrenOk(u, l)
  {
    assert LocalOk(t, m, max, NULL_LOCATION) && LocalOk(t, l, max, NULL_LOCATION);
    if t.span[m].rank > 0 {
      forall i | 0 <= i < |u.nodes[m].children| ensures ChildOk(u, m, i) {
        assert ChildOk(t, m, i);
      }
    }
  }

  /** It is enough to look at the leaf itself and at the bindings. */
  lemma LeafChangeShaped(t: Tree, u: Tree, max: nat, l: Location, over: Location)
    requires Good(t, max) && OnlyLeafChanges(t, u, l) && DataOk(u)
    requires NodeOk(u.nodes[l], u.span[l], l == u.root, max, if l == over then max else max - 1) && LeafOk(u, l)
    ensures Shaped(u, max, over)
  {
    assert LocalOk(t, l, max, NULL_LOCATION);
    forall m | m in u.nodes ensures LocalOk(u, m, max, over) {
      if m != l {
        OthersAfterLeafChange(t, u, max, l, over, m);
      }
    }
    forall m | m in u.nodes ensures RankOk(u, m) {
      assert RankOk(t, m);
    }
  }

  // ---------- a key inserted into a leaf ----------

  ghost function LeafInsert(t: Tree, l: Location, at: nat, key: Key, d: Location): Tree
    requires l in t.nodes && at <= |t.nodes[l].keys| && at <= |t.nodes[l].children|
  {
    var n := t.nodes[l];
    t.(nodes := t.nodes[l := n.(keys := InsertAt(n.keys, at, key), children := InsertAt(n.children, at, d))],
       kv := t.kv[key := d],
       home := t.home[key := l])
  }

  /** Position `at` is where `key` belongs among sorted keys that do not hold it. */
  ghost predicate Belongs(keys: seq<Key>, at: nat, key: Key) {
    && at <= |keys|
    && (forall i :: 0 <= i < at ==> keys[i] < key)
    && (forall i :: at <= i < |keys| ==> key < keys[i])
  }

  ghost predicate CanInsert(t: Tree, max: nat, l: Location, at: nat, key: Key, d: Location) {
    && Good(t, max) && max >= 3
    && l in t.nodes && t.nodes[l].isLeaf && Within(key, t.span[l])
    && Belongs(t.nodes[l].keys, at, key) && at <= |t.nodes[l].children|
    && d !in t.kv.Values
  }

  lemma InsertedLeafOk(t: Tree, max: nat, l: Location, at: nat, key: Key, d: Location)
    requires CanInsert(t, max, l, at, key, d)
    ensures LocalOk(t, l, max, NULL_LOCATION)
    ensures var u := LeafInsert(t, l, at, key, d);
      && NodeOk(u.nodes[l], u.span[l], l == u.root, max, max) && LeafOk(u, l)
      && key in u.nodes[l].keys
  {
    assert LocalOk(t, l, max, NULL_LOCATION);
    var n, u := t.nodes[l], LeafInsert(t, l, at, key, d);
    InsertKeyOk(n.keys, at, key, t.span[l]);
    assert u.nodes[l].keys[at] == key;
    forall i | 0 <= i < |u.nodes[l].keys|
      ensures var k := u.nodes[l].keys[i];
        k in u.kv && k in u.home && u.kv[k] == u.nodes[l].children[i] && u.home[k] == l
    {
      InsertAtIndex(n.keys, at, key, i);
      InsertAtIndex(n.children, at, d, i);
    }
  }

  lemma InsertedDataOk(t: Tree, max: nat, l: Location, at: nat, key: Key, d: Location)
    requires CanInsert(t, max, l, at, key, d) && key !in t.kv
    ensures DataOk(LeafInsert(t, l, at, key, d))
  {
    var u := LeafInsert(t, l, at, key, d);
    InsertedLeafOk(t, max, l, at, key, d);
    forall k | k in u.home ensures HomeOk(u, k) {
      if k != key {
        assert HomeOk(t, k);
        if t.home[k] == l {
          var i :| 0 <= i < |t.nodes[l].keys| && t.nodes[l].keys[i] == k;
          InsertAtIndex(t.nodes[l].keys, at, key, if i < at then i else i + 1);
        }
      }
    }
    forall j, k ensures Apart(u.kv, j, k) {
      assert Apart(t.kv, j, k);
      assert j in t.kv ==> t.kv[j] in t.kv.Values;
      assert k in t.kv ==> t.kv[k] in t.kv.Values;
    }
  }

  /** The tree after an insertion into a leaf binds one more key; the leaf may be over capacity. */
  lemma LeafInsertShaped(t: Tree, max: nat, l: Location, at: nat, key: Key, d: Location)
    requires CanInsert(t, max, l, at, key, d)
    ensures Shaped(LeafInsert(t, l, at, key, d), max, l) && key !in t.kv
  {
    LeafDecides(t, max, NULL_LOCATION, l, key);
    InsertedLeafOk(t, max, l, at, key, d);
    InsertedDataOk(t, max, l, at, key, d);
    LeafChangeShaped(t, LeafInsert(t, l, at, key, d), max, l, l);
  }

  /** An insertion takes no key from any leaf. */
  lemma LeafInsertFills(t: Tree, max: nat, l: Location, at: nat, key: Key, d: Location)
    requires CanInsert(t, max, l, at, key, d) && LeavesHalfFull(t, max)
    ensures LeavesHalfFull(LeafInsert(t, l, at, key, d), max)
  {
    var u := LeafInsert(t, l, at, key, d);
    forall m | m in u.nodes ensures HalfFull(u, max, m) {
      assert HalfFull(t, max, m);
    }
  }

  /** Once a node fits, nothing is over capacity. */
  lemma FitsIsGood(t: Tree, max: nat, over: Location)
    requires Shaped(t, max, over)
    requires over in t.nodes ==> |t.nodes[over].keys| < max
    ensures Good(t, max)
  {
    forall l | l in t.nodes ensures LocalOk(t, l, max, NULL_LOCATION) {
      assert LocalOk(t, l, max, over);
    }
  }

  // ---------- a data record that moved ----------

  ghost function Relocate(t: Tree, l: Location, at: nat, d: Location): Tree
    requires l in t.nodes && at < |t.nodes[l].keys| && at < |t.nodes[l].children|
  {
    var n := t.nodes[l];
    t.(nodes := t.nodes[l := n.(children := n.children[at := d])], kv := t.kv[n.keys[at] := d])
  }

  /** The invariant at a leaf. */
  ghost predicate LocalOkLeaf(t: Tree, l: Location, max: nat) {
    && l in t.nodes && l in t.span && t.nodes[l].isLeaf
    && LocalOk(t, l, max, NULL_LOCATION)
  }

  lemma RelocatedDataOk(t: Tree, max: nat, l: Location, at: nat, d: Location)
    requires Good(t, max) && LocalOkLeaf(t, l, max) && at < |t.nodes[l].keys|
    requires d !in (t.kv - {t.nodes[l].keys[at]}).Values
    ensures DataOk(Relocate(t, l, at, d)) && LeafOk(Relocate(t, l, at, d), l)
  {
    var n, u := t.nodes[l], Relocate(t, l, at, d);
    var key := n.keys[at];
    var rest := t.kv - {key};
    forall j, k ensures Apart(u.kv, j, k) {
      assert Apart(t.kv, j, k);
      assert j in rest ==> rest[j] in rest.Values;
      assert k in rest ==> rest[k] in rest.Values;
    }
    forall k | k in u.home ensures HomeOk(u, k) {
      assert HomeOk(t, k);
    }
  }

  /** Moving the data of one key leaves a tree with the same keys. */
  lemma RelocateGood(t: Tree, max: nat, l: Location, at: nat, d: Location)
    requires Good(t, max)
    requires LocalOkLeaf(t, l, max) && at < |t.nodes[l].keys|
    requires d !in (t.kv - {t.nodes[l].keys[at]}).Values
    ensures Good(Relocate(t, l, at, d), max)
    ensures t.nodes[l].keys[at] in t.kv && t.kv[t.nodes[l].keys[at]] == t.nodes[l].children[at]
  {
    RelocatedDataOk(t, max, l, at, d);
    LeafChangeShaped(t, Relocate(t, l, at, d), max, l, NULL_LOCATION);
  }

  /** Moving a data record takes no key from any leaf. */
  lemma RelocateFills(t: Tree, max: nat, l: Location, at: nat, d: Location)
    requires l in t.nodes && at < |t.nodes[l].keys| && at < |t.nodes[l].children| && LeavesHalfFull(t, max)
    ensures LeavesHalfFull(Relocate(t, l, at, d), max)
  {
    var u := Relocate(t, l, at, d);
    forall m | m in u.nodes ensures HalfFull(u, max, m) {
      assert HalfFull(t, max, m);
    }
  }

  // ---------- an erased key ----------

  /** deleteData: the key and its data location leave the leaf. */
  ghost function LeafErase(t: Tree, l: Location, at: nat): Tree
    requires l in t.nodes && at < |t.nodes[l].keys| && at < |t.nodes[l].children|
  {
    var n := t.nodes[l];
    var key := n.keys[at];
    t.(nodes := t.nodes[l := n.(keys := EraseAt(n.keys, at), children := EraseAt(n.children, at))],
       kv := t.kv - {key}, home := t.home - {key})
  }

  lemma ErasedLeafOk(t: Tree, max: nat, l: Location, at: nat)
    requires Good(t, max) && LocalOkLeaf(t, l, max) && at < |t.nodes[l].keys|
    ensures LeafOk(LeafErase(t, l, at), l)
  {
    var n, u := t.nodes[l], LeafErase(t, l, at);
    forall i | 0 <= i < |u.nodes[l].keys|
      ensures var k := u.nodes[l].keys[i];
        k in u.kv && k in u.home && u.kv[k] == u.nodes[l].children[i] && u.home[k] == l
    {
      EraseAtIndex(n.keys, at, i);
      EraseAtIndex(n.children, at, i);
    }
  }

  lemma InjectiveLess(kv: map<Key, Location>, key: Key)
    requires Injective(kv)
    ensures Injective(kv - {key})
  {
    forall j, k ensures Apart(kv - {key}, j, k) {
      assert Apart(kv, j, k);
    }
  }

  lemma ErasedDataOk(t: Tree, max: nat, l: Location, at: nat)
    requires Good(t, max) && LocalOkLeaf(t, l, max) && at < |t.nodes[l].keys|
    ensures DataOk(LeafErase(t, l, at))
  {
    var n, u := t.nodes[l], LeafErase(t, l, at);
    InjectiveLess(t.kv, n.keys[at]);
    forall k | k in u.home ensures HomeOk(u, k) {
      assert HomeOk(t, k);
      if t.home[k] == l {
        var i :| 0 <= i < |n.keys| && n.keys[i] == k;
        EraseAtIndex(n.keys, at, if i < at then i else i - 1);
      }
    }
  }

  lemma ErasedNodeOk(n: NodeRec, s: Span, isRoot: bool, max: nat, at: nat)
    requires NodeOk(n, s, isRoot, max, max - 1) && n.isLeaf && at < |n.keys| && |n.keys| > 1
    ensures NodeOk(n.(keys := EraseAt(n.keys, at), children := EraseAt(n.children, at)), s, isRoot, max, max - 1)
  {
    var keys := EraseAt(n.keys, at);
    forall i | 0 <= i < |keys| ensures keys[i] == n.keys[if i < at then i else i + 1] {
    }
  }

  /** A leaf that keeps a key stays where it is. */
  lemma LeafEraseGood(t: Tree, max: nat, l: Location, at: nat)
    requires Good(t, max) && LocalOkLeaf(t, l, max)
    requires at < |t.nodes[l].keys| && |t.nodes[l].keys| > 1
    ensures Good(LeafErase(t, l, at), max)
  {
    ErasedLeafOk(t, max, l, at);
    ErasedDataOk(t, max, l, at);
    ErasedNodeOk(t.nodes[l], t.span[l], l == t.root, max, at);
    forall k | k in t.home && t.home[k] != l && k in t.kv ensures k != t.nodes[l].keys[at] {
    }
    LeafChangeShaped(t, LeafErase(t, l, at), max, l, NULL_LOCATION);
  }

  // ---------- a leaf that became empty ----------

  /** The tree loses its last key with its root leaf. */
  lemma LastKeyGone(t: Tree, max: nat)
    requires Good(t, max) && t.root in t.nodes && t.nodes[t.root].isLeaf && |t.nodes[t.root].keys| == 1
    ensures t.nodes.Keys == {t.root}
    ensures t.kv.Keys == {t.nodes[t.root].keys[0]}
  {
    forall l | l in t.nodes ensures l == t.root {
      assert RankOk(t, l) && LocalOk(t, t.root, max, NULL_LOCATION);
      if l != t.root {
        BelowRoot(t, max, NULL_LOCATION, l);
      }
    }
    assert LocalOk(t, t.root, max, NULL_LOCATION);
    forall k | k in t.kv ensures k == t.nodes[t.root].keys[0] {
      assert HomeOk(t, k);
    }
  }

  /** deleteChild: the child at `pos` leaves, with the separator to its left, or to its right if it is the first. */
  ghost function Disown(p: NodeRec, pos: nat): NodeRec
    requires pos < |p.children| && 1 <= |p.keys| && pos <= |p.keys|
  {
    p.(keys := EraseAt(p.keys, if pos == 0 then 0 else pos - 1), children := EraseAt(p.children, pos))
  }

  /** The neighbour that takes over the interval of child `pos`. */
  ghost function Heir(p: NodeRec, pos: nat): Location
    requires pos < |p.children| && |p.children| >= 2
  {
    if pos == 0 then p.children[1] else p.children[pos - 1]
  }

  ghost function DropLeaf(t: Tree, l: Location, pos: nat): Tree
    requires l in t.nodes && t.nodes[l].parent in t.nodes && l in t.span && t.nodes[l].parent in t.span
    requires |t.nodes[l].keys| == 1
    requires var p := t.nodes[t.nodes[l].parent];
      pos < |p.children| && pos <= |p.keys| && 1 <= |p.keys| && |p.children| >= 2 && Heir(p, pos) in t.span
  {
    var p, key := t.nodes[l].parent, t.nodes[l].keys[0];
    var heir := Heir(t.nodes[p], pos);
    var s := if pos == 0 then t.span[heir].(lo := t.span[l].lo) else t.span[heir].(hi := t.span[l].hi);
    t.(nodes := t.nodes[p := Disown(t.nodes[p], pos)] - {l},
       span := t.span[heir := s] - {l},
       kv := t.kv - {key}, home := t.home - {key})
  }

  /** A leaf with one key whose parent can spare a child: the parent keeps `BRankMin` children, and at least two. */
  ghost predicate CanDrop(t: Tree, l: Location, pos: nat, max: nat) {
    && Good(t, max) && max >= 3
    && l in t.nodes && t.nodes[l].isLeaf && l != t.root && |t.nodes[l].keys| == 1
    && t.nodes[l].parent in t.nodes
    && var p := t.nodes[t.nodes[l].parent];
    && pos < |p.children| && p.children[pos] == l && |p.keys| + 1 == |p.children|
    && |p.children| - 1 >= (max + 1) / 2 && |p.children| >= 3
  }

  lemma DropContext(t: Tree, l: Location, pos: nat, max: nat)
    requires CanDrop(t, l, pos, max)
    ensures var p := t.nodes[l].parent;
      && p != l && t.span[p].rank == 1 && t.span[l].rank == 0
      && LocalOk(t, p, max, NULL_LOCATION) && LocalOk(t, l, max, NULL_LOCATION)
      && !t.nodes[p].isLeaf && ChildOk(t, p, pos)
      && var h := if pos == 0 then 1 else pos - 1;
      && ChildOk(t, p, h) && LocalOk(t, t.nodes[p].children[h], max, NULL_LOCATION)
      && Heir(t.nodes[p], pos) == t.nodes[p].children[h] != l
  {
    var p, i := ParentLists(t, max, NULL_LOCATION, l);
    assert ChildOk(t, p, pos) && LocalOk(t, l, max, NULL_LOCATION);
    var h := if pos == 0 then 1 else pos - 1;
    assert ChildOk(t, p, h) && LocalOk(t, t.nodes[p].children[h], max, NULL_LOCATION);
    ChildrenDistinct(t, max, NULL_LOCATION, p, if h < pos then h else pos, if h < pos then pos else h);
  }

  /** The parent that lost a child. */
  lemma DisownedNodeOk(n: NodeRec, s: Span, isRoot: bool, max: nat, pos: nat)
    requires NodeOk(n, s, isRoot, max, max - 1) && !n.isLeaf
    requires pos < |n.children| && |n.children| - 1 >= (max + 1) / 2 && |n.children| >= 3
    ensures NodeOk(Disown(n, pos), s, isRoot, max, max - 1)
  {
    var at := if pos == 0 then 0 else pos - 1;
    var keys := EraseAt(n.keys, at);
    forall i | 0 <= i < |keys| ensures keys[i] == n.keys[if i < at then i else i + 1] {
    }
  }

  /** The intervals after a child left: the heir's grew to cover the gap, the others are as before. */
  lemma DisownedSpan(n: NodeRec, s: Span, pos: nat, i: nat)
    requires s.rank > 0 && |n.children| == |n.keys| + 1 && |n.children| >= 2 && pos < |n.children|
    requires i + 1 < |n.children|
    ensures i <= |Disown(n, pos).keys|
    ensures var j := if i < pos then i else i + 1;
      && Disown(n, pos).children[i] == n.children[j]
      && ChildSpan(Disown(n, pos), s, i) ==
           if pos == 0 && j == 1 then ChildSpan(n, s, 1).(lo := ChildSpan(n, s, 0).lo)
           else if pos > 0 && j == pos - 1 then ChildSpan(n, s, j).(hi := ChildSpan(n, s, pos).hi)
           else ChildSpan(n, s, j)
  {
    EraseAtIndex(n.children, pos, i);
    var at := if pos == 0 then 0 else pos - 1;
    if 0 < i {
      EraseAtIndex(n.keys, at, i - 1);
    }
    if i + 1 < |n.keys| {
      EraseAtIndex(n.keys, at, i);
    }
  }

  /** A child that the parent keeps is not the dropped leaf, and it is the heir only where the heir stood. */
  lemma KeptChild(t: Tree, l: Location, pos: nat, max: nat, i: nat)
    requires CanDrop(t, l, pos, max)
    requires i + 1 < |t.nodes[t.nodes[l].parent].children|
    ensures var p, h, j := t.nodes[l].parent, if pos == 0 then 1 else pos - 1, if i < pos then i else i + 1;
      && p in t.span && j <= |t.nodes[p].keys| && t.span[p].rank > 0 && ChildOk(t, p, j)
      && t.nodes[p].children[j] != l && (t.nodes[p].children[j] == Heir(t.nodes[p], pos) <==> j == h)
  {
    DropContext(t, l, pos, max);
    var p, h, j := t.nodes[l].parent, if pos == 0 then 1 else pos - 1, if i < pos then i else i + 1;
    assert ChildOk(t, p, j);
    ChildrenDistinct(t, max, NULL_LOCATION, p, if j < pos then j else pos, if j < pos then pos else j);
    if j != h {
      ChildrenDistinct(t, max, NULL_LOCATION, p, if j < h then j else h, if j < h then h else j);
    }
  }

  lemma DisownedChildOk(t: Tree, l: Location, pos: nat, max: nat, i: nat)
    requires CanDrop(t, l, pos, max)
    requires i + 1 < |t.nodes[t.nodes[l].parent].children|
    ensures var p := t.nodes[l].parent;
      && p in t.span && l in t.span && Heir(t.nodes[p], pos) in t.span
      && var u := DropLeaf(t, l, pos);
      && p in u.nodes && p in u.span && u.span[p].rank > 0 && i <= |u.nodes[p].keys| && i < |u.nodes[p].children|
      && ChildOk(u, p, i)
  {
    DropContext(t, l, pos, max);
    var p := t.nodes[l].parent;
    KeptChild(t, l, pos, max, i);
    DisownedSpan(t.nodes[p], t.span[p], pos, i);
  }

  /** A node that stays: neither the dropped leaf nor its parent. */
  lemma OthersAfterDrop(t: Tree, l: Location, pos: nat, max: nat, m: Location)
    requires CanDrop(t, l, pos, max)
    requires m in t.nodes && m != l && m != t.nodes[l].parent
    ensures var p := t.nodes[l].parent;
      && p in t.span && l in t.span && Heir(t.nodes[p], pos) in t.span
      && var u := DropLeaf(t, l, pos);
      && m in u.nodes && m in u.span && u.nodes[m] == t.nodes[m] && u.span[m].rank == t.span[m].rank
      && NodeOk(u.nodes[m], u.span[m], m == u.root, max, max - 1)
      && ChildrenOk(u, m) && LeafOk(u, m)
  {
    DropContext(t, l, pos, max);
    assert LocalOk(t, m, max, NULL_LOCATION);
    var u := DropLeaf(t, l, pos);
    if t.span[m].rank > 0 {
      forall i | 0 <= i < |t.nodes[m].children| ensures ChildOk(u, m, i) {
        assert ChildOk(t, m, i);
      }
    }
  }

  lemma ParentsAfterDrop(t: Tree, l: Location, pos: nat, max: nat, m: Location)
    requires CanDrop(t, l, pos, max)
    requires m in t.nodes && m != l
    ensures var p := t.nodes[l].parent;
      && p in t.span && l in t.span && Heir(t.nodes[p], pos) in t.span
      && var u := DropLeaf(t, l, pos);
      && m in u.nodes && m in u.span && ParentOk(u, m)
  {
    DropContext(t, l, pos, max);
    assert LocalOk(t, m, max, NULL_LOCATION);
    if m != t.root {
      var q, i := ParentLists(t, max, NULL_LOCATION, m);
      if q == t.nodes[l].parent {
        EraseAtIndex(t.nodes[q].children, pos, if i < pos then i else i - 1);
      }
    }
  }

  lemma DroppedDataOk(t: Tree, l: Location, pos: nat, max: nat)
    requires CanDrop(t, l, pos, max)
    ensures var p := t.nodes[l].parent;
      && p in t.span && l in t.span && Heir(t.nodes[p], pos) in t.span
      && DataOk(DropLeaf(t, l, pos))
  {
    DropContext(t, l, pos, max);
    var u := DropLeaf(t, l, pos);
    InjectiveLess(t.kv, t.nodes[l].keys[0]);
    forall k | k in u.home ensures HomeOk(u, k) {
      assert HomeOk(t, k);
    }
  }

  /** Dropping an emptied leaf leaves a tree with the other bindings. */
  lemma DropLeafGood(t: Tree, l: Location, pos: nat, max: nat)
    requires CanDrop(t, l, pos, max)
    ensures var p := t.nodes[l].parent;
      && p in t.span && l in t.span && Heir(t.nodes[p], pos) in t.span
      && var u := DropLeaf(t, l, pos);
      && Good(u, max) && u.root == t.root && u.nodes.Keys == t.nodes.Keys - {l}
  {
    DropContext(t, l, pos, max);
    var p, u := t.nodes[l].parent, DropLeaf(t, l, pos);
    DroppedDataOk(t, l, pos, max);
    forall m | m in u.nodes ensures LocalOk(u, m, max, NULL_LOCATION) {
      ParentsAfterDrop(t, l, pos, max, m);
      if m == p {
        DisownedNodeOk(t.nodes[p], t.span[p], p == t.root, max, pos);
        forall i | 0 <= i < |u.nodes[p].children| ensures ChildOk(u, p, i) {
          DisownedChildOk(t, l, pos, max, i);
        }
      } else {
        OthersAfterDrop(t, l, pos, max, m);
      }
    }
    forall m | m in u.nodes ensures RankOk(u, m) {
      assert RankOk(t, m);
    }
  }
}
